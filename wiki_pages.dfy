/** The page reader of the first version of the program: the same kind of
    flag-driven state machine as the analyzer's, but it tracks only the
    title and the text, so pages of every namespace come through. */
module WikiPages {
  import opened Wrappers
  import opened XmlEvents

  datatype WikiPage = WikiPage(title: string, text: string)

  /** The page one window of events describes: present only when both a
      title and a text were captured. */
  function PageOf(w: seq<Event>): Option<WikiPage>
  {
    var title := Captured(w, "title");
    var text := Captured(w, "text");
    if title.Some? && text.Some? then Some(WikiPage(title.value, text.value)) else None
  }

  /** `read_page`: consume events up to and including `</page>` or the end
      of input; `<title>` and `<text>` raise their flag, the matching end
      tag lowers it, and a text event is stored in every raised field. */
  method ReadPage(events: seq<Event>, pos: nat) returns (page: Option<WikiPage>, next: nat)
    requires pos <= |events|
    ensures page.Some? <==>
      Captured(Window(events, pos), "title").Some? && Captured(Window(events, pos), "text").Some?
    ensures page.Some? ==>
      && page.value.title == Captured(Window(events, pos), "title").value
      && page.value.text == Captured(Window(events, pos), "text").value
    ensures next == Resume(events, pos)
  {
    var i := pos;
    var isTitle, isText := false, false;
    var titleOption: Option<string> := None;
    var textOption: Option<string> := None;
    var stopped := false;
    while i < |events|
      invariant pos <= i <= |events|
      invariant forall j :: pos <= j < i ==> !EndsPage(events[j])
      invariant isTitle == Raised(events[pos..i], "title")
      invariant isText == Raised(events[pos..i], "text")
      invariant titleOption == Captured(events[pos..i], "title")
      invariant textOption == Captured(events[pos..i], "text")
      decreases |events| - i
    {
      var event := events[i];
      if EndsPage(event) {
        stopped := true;
        break;
      }
      assert events[pos..i + 1][..i - pos] == events[pos..i];
      assert events[pos..i + 1][i - pos] == event;
      match event {
        case Start(name) =>
          if name == "title" {
            isTitle := true;
          } else if name == "text" {
            isText := true;
          }
        case Text(content) =>
          if isTitle {
            titleOption := Some(content);
          }
          if isText {
            textOption := Some(content);
          }
        case End(name) =>
          if name == "title" {
            isTitle := false;
          } else if name == "text" {
            isText := false;
          }
        case Other =>
      }
      i := i + 1;
    }
    assert StopIndex(events, pos) == i;
    next := if stopped then i + 1 else i;
    if titleOption.Some? && textOption.Some? {
      page := Some(WikiPage(titleOption.value, textOption.value));
    } else {
      page := None;
    }
  }

  /** No namespace is tracked: a closed namespace element, whatever its
      text, changes nothing about the page a window yields. */
  lemma NamespaceIsIgnored(w: seq<Event>, ns: string)
    requires !Raised(w, "title") && !Raised(w, "text")
    ensures PageOf(w + [Start("ns"), Text(ns), End("ns")]) == PageOf(w)
  {
    var w1 := w + [Start("ns")];
    UnrelatedEventsKeepField(w, [Start("ns")], "title");
    UnrelatedEventsKeepField(w, [Start("ns")], "text");
    var w2 := w1 + [Text(ns)];
    assert w2[..|w2| - 1] == w1;
    var w3 := w2 + [End("ns")];
    assert w3 == w + [Start("ns"), Text(ns), End("ns")];
    UnrelatedEventsKeepField(w2, [End("ns")], "title");
    UnrelatedEventsKeepField(w2, [End("ns")], "text");
  }

  /** The pages the iterator yields from `pos` on: iteration ends at the
      first window that lacks a title or a text. */
  function Pages(events: seq<Event>, pos: nat): seq<WikiPage>
    requires pos <= |events|
    decreases |events| - pos
  {
    var page := PageOf(Window(events, pos));
    if page.None? then []
    else
      assert Window(events, pos) != [];
      [page.value] + Pages(events, Resume(events, pos))
  }

  /** The reader of `WikiPages`: the event stream and how far it has read. */
  class WikiPages {
    const events: seq<Event>
    var pos: nat

    ghost predicate Valid()
      reads this
    {
      pos <= |events|
    }

    constructor (events: seq<Event>)
      ensures Valid() && this.events == events && pos == 0
    {
      this.events := events;
      pos := 0;
    }

    /** `Iterator::next`: read one page record. */
    method Next() returns (page: Option<WikiPage>)
      requires Valid()
      modifies this
      ensures Valid()
      ensures page == PageOf(Window(events, old(pos)))
      ensures pos == Resume(events, old(pos))
    {
      page, pos := ReadPage(events, pos);
    }
  }
}
