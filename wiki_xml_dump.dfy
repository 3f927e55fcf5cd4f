/** The page reader of the analyzer: a flag-driven state machine over the
    XML reader's events that assembles one page (title, text, namespace) at
    a time, the iterator built on it, and the site-base lookup. */
module WikiXmlDump {
  import opened Wrappers
  import opened XmlEvents

  /** One page of the dump. The reader always fills `text`; it is optional
      here because the link scanner also accepts pages without text. */
  datatype WikiPage = WikiPage(title: string, text: Option<string>, namespaceId: int)

  const I16Min: int := -32768
  const I16Max: int := 32767

  predicate IsDigit(c: char)
  {
    '0' <= c <= '9'
  }

  function DigitValue(c: char): nat
    requires IsDigit(c)
  {
    c as int - '0' as int
  }

  predicate AllDigits(ds: string)
  {
    forall i :: 0 <= i < |ds| ==> IsDigit(ds[i])
  }

  /** Value of a string of decimal digits, most significant first. */
  function DecimalValue(ds: string): nat
    requires AllDigits(ds)
  {
    if ds == [] then 0 else 10 * DecimalValue(ds[..|ds| - 1]) + DigitValue(ds[|ds| - 1])
  }

  /** Rust's `str::parse::<i16>`: an optional `+` or `-`, then at least one
      ASCII digit and nothing else, and a value inside the 16-bit range. */
  function ParseI16(s: string): (r: Option<int>)
    ensures r.Some? ==> I16Min <= r.value <= I16Max
    ensures r.Some? ==> s != [] && (IsDigit(s[0]) || s[0] == '+' || s[0] == '-')
  {
    if s == [] then None
    else
      var negative := s[0] == '-';
      var digits := if s[0] == '-' || s[0] == '+' then s[1..] else s;
      if digits == [] || !AllDigits(digits) then None
      else
        var v: int := if negative then -(DecimalValue(digits) as int) else DecimalValue(digits);
        if I16Min <= v <= I16Max then Some(v) else None
  }

  /** Decimal spelling of a natural number, the inverse used to state what
      `ParseI16` accepts. */
  function Decimal(n: nat): (ds: string)
    ensures ds != [] && AllDigits(ds)
  {
    var d := ['0' + (n % 10) as char];
    if n < 10 then d else Decimal(n / 10) + d
  }

  lemma {:induction false} DecimalRoundTrip(n: nat)
    ensures DecimalValue(Decimal(n)) == n
  {
    var ds := Decimal(n);
    if n >= 10 {
      DecimalRoundTrip(n / 10);
      assert ds[..|ds| - 1] == Decimal(n / 10);
    }
  }

  /** Every namespace number in range, written in decimal with or without a
      minus sign, parses back to itself. */
  lemma ParseI16Decimal(n: nat)
    ensures n <= I16Max ==> ParseI16(Decimal(n)) == Some(n)
    ensures n <= -I16Min ==> ParseI16("-" + Decimal(n)) == Some(-(n as int))
  {
    DecimalRoundTrip(n);
    assert ("-" + Decimal(n))[1..] == Decimal(n);
  }

  /** The namespace read so far: the last text seen inside `<ns>`, parsed;
      text that does not parse resets it to nothing. */
  function NamespaceOf(w: seq<Event>): Option<int>
  {
    match Captured(w, "ns")
    case None => None
    case Some(s) => ParseI16(s)
  }

  /** The page the events of one window describe: present only when a
      title, a text and a namespace were all captured. */
  function PageOf(w: seq<Event>): Option<WikiPage>
  {
    var title := Captured(w, "title");
    var text := Captured(w, "text");
    var ns := NamespaceOf(w);
    if title.Some? && text.Some? && ns.Some? then Some(WikiPage(title.value, Some(text.value), ns.value))
    else None
  }

  /** The state machine of the analyzer's page reader. It consumes events
      up to and including `</page>` or the end of input; `<title>`, `<text>`
      and `<ns>` raise their flag and the matching end tag lowers it; a
      text event is stored in every field whose flag is raised. */
  method ReadPage(events: seq<Event>, pos: nat) returns (page: Option<WikiPage>, next: nat)
    requires pos <= |events|
    ensures page.Some? <==>
      && Captured(Window(events, pos), "title").Some?
      && Captured(Window(events, pos), "text").Some?
      && NamespaceOf(Window(events, pos)).Some?
    ensures page.Some? ==>
      && page.value.title == Captured(Window(events, pos), "title").value
      && page.value.text == Captured(Window(events, pos), "text")
      && page.value.namespaceId == NamespaceOf(Window(events, pos)).value
    ensures page == PageOf(Window(events, pos))
    ensures next == Resume(events, pos)
  {
    var i := pos;
    var isTitle, isText, isNamespace := false, false, false;
    var titleOption: Option<string> := None;
    var textOption: Option<string> := None;
    var namespaceIdOption: Option<int> := None;
    var stopped := false;
    while i < |events|
      invariant pos <= i <= |events|
      invariant forall j :: pos <= j < i ==> !EndsPage(events[j])
      invariant isTitle == Raised(events[pos..i], "title")
      invariant isText == Raised(events[pos..i], "text")
      invariant isNamespace == Raised(events[pos..i], "ns")
      invariant titleOption == Captured(events[pos..i], "title")
      invariant textOption == Captured(events[pos..i], "text")
      invariant namespaceIdOption == NamespaceOf(events[pos..i])
      decreases |events| - i
    {
      var event := events[i];
      if EndsPage(event) {
        stopped := true;
        break;
      }
      assert events[pos..i + 1][..i - pos] == events[pos..i];
      assert events[pos..i + 1][i - pos] == event;
      match event {
        case Start(name) =>
          if name == "title" {
            isTitle := true;
          } else if name == "text" {
            isText := true;
          } else if name == "ns" {
            isNamespace := true;
          }
        case Text(content) =>
          if isTitle {
            titleOption := Some(content);
          }
          if isText {
            textOption := Some(content);
          }
          if isNamespace {
            namespaceIdOption := ParseI16(content);
          }
        case End(name) =>
          if name == "title" {
            isTitle := false;
          } else if name == "text" {
            isText := false;
          } else if name == "ns" {
            isNamespace := false;
          }
        case Other =>
      }
      i := i + 1;
    }
    assert StopIndex(events, pos) == i;
    next := if stopped then i + 1 else i;
    if titleOption.Some? && textOption.Some? && namespaceIdOption.Some? {
      page := Some(WikiPage(titleOption.value, Some(textOption.value), namespaceIdOption.value));
    } else {
      page := None;
    }
  }

  /** The pages the iterator yields from `pos` on: `next` is `read_page`,
      so iteration ends at the first window that is not a complete page. */
  function Pages(events: seq<Event>, pos: nat): seq<WikiPage>
    requires pos <= |events|
    decreases |events| - pos
  {
    var page := PageOf(Window(events, pos));
    if page.None? then []
    else
      assert Window(events, pos) != [];
      [page.value] + Pages(events, Resume(events, pos))
  }

  /** A namespace text that is not a 16-bit integer leaves the namespace
      unset, so the window yields no page. */
  lemma BadNamespaceDropsPage(w: seq<Event>)
    requires Captured(w, "ns").Some? && ParseI16(Captured(w, "ns").value).None?
    ensures PageOf(w).None?
  {
  }

  /** A page whose namespace does not parse ends the iteration: whatever
      follows it, complete pages included, is never yielded. */
  lemma BadNamespaceEndsIteration(page: seq<Event>, rest: seq<Event>)
    requires forall j :: 0 <= j < |page| ==> !EndsPage(page[j])
    requires Captured(page, "ns").Some? && ParseI16(Captured(page, "ns").value).None?
    ensures Pages(page + [End("page")] + rest, 0) == []
  {
    var events := page + [End("page")] + rest;
    assert events[|page|] == End("page");
    assert forall j :: 0 <= j < |page| ==> events[j] == page[j];
    assert StopIndex(events, 0) == |page|;
    assert Window(events, 0) == page;
    BadNamespaceDropsPage(page);
  }

  /** After the last `Start` in `w`, the reader is inside `<base>`. */
  predicate BaseRaised(w: seq<Event>)
  {
    if w == [] then false
    else if w[|w| - 1].Start? then w[|w| - 1].name == "base"
    else BaseRaised(w[..|w| - 1])
  }

  /** Event `k` is a text event that `read_base` (started at `from`) accepts. */
  predicate BaseTextAt(events: seq<Event>, from: nat, k: nat)
    requires from <= k < |events|
  {
    events[k].Text? && BaseRaised(events[from..k])
  }

  /** The dump reader: the event stream it reads and how far it has read. */
  class WikiXmlDump {
    const events: seq<Event>
    var pos: nat

    ghost predicate Valid()
      reads this
    {
      pos <= |events|
    }

    constructor (events: seq<Event>)
      ensures Valid() && this.events == events && pos == 0
    {
      this.events := events;
      pos := 0;
    }

    /** `Iterator::next`: read one page record. */
    method Next() returns (page: Option<WikiPage>)
      requires Valid()
      modifies this
      ensures Valid()
      ensures page == PageOf(Window(events, old(pos)))
      ensures pos == Resume(events, old(pos))
    {
      page, pos := ReadPage(events, pos);
    }

    /** `read_base`: the first text read while the most recent start tag
        was `<base>`; an end tag does not lower that flag. Nothing once the
        input ends. */
    method ReadBase() returns (base: Option<string>)
      requires Valid()
      modifies this
      ensures Valid() && old(pos) <= pos
      ensures forall k :: old(pos) <= k < pos - 1 ==> !events[k].Eof? && !BaseTextAt(events, old(pos), k)
      ensures base.Some? <==> pos > old(pos) && BaseTextAt(events, old(pos), pos - 1)
      ensures base.Some? ==> events[pos - 1] == Text(base.value)
      ensures base.None? ==> pos == |events| || (pos > old(pos) && events[pos - 1].Eof?)
    {
      var from := pos;
      var foundBase := false;
      while pos < |events|
        invariant from <= pos <= |events|
        invariant foundBase == BaseRaised(events[from..pos])
        invariant forall k :: from <= k < pos ==> !events[k].Eof? && !BaseTextAt(events, from, k)
        decreases |events| - pos
      {
        var event := events[pos];
        assert events[from..pos + 1][..pos - from] == events[from..pos];
        pos := pos + 1;
        match event {
          case Eof =>
            return None;
          case Start(name) =>
            foundBase := name == "base";
          case Text(content) =>
            if foundBase {
              return Some(content);
            }
          case End(_) =>
          case Other =>
        }
      }
      base := None;
    }
  }
}
