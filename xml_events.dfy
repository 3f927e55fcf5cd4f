/** The pull-parser event stream both page readers consume, and the
    declarative reading of "the flag is raised" and "the field's captured
    value" that their state machines are proved against. */
module XmlEvents {
  import opened Wrappers

  /** The events of the XML reader the page readers look at; every other
      event kind (comments, declarations, CDATA, empty elements) is `Other`.
      Text is already unescaped. */
  datatype Event = Start(name: string) | End(name: string) | Text(content: string) | Eof | Other

  /** The events that end one page record: the end of input or `</page>`. */
  predicate EndsPage(e: Event)
  {
    e.Eof? || e == End("page")
  }

  /** Index of the first event at or after `pos` that ends the page, or
      `|events|` when the stream runs out (a reader past its input reports
      Eof). */
  function StopIndex(events: seq<Event>, pos: nat): (e: nat)
    requires pos <= |events|
    ensures pos <= e <= |events|
    ensures forall j :: pos <= j < e ==> !EndsPage(events[j])
    ensures e < |events| ==> EndsPage(events[e])
    decreases |events| - pos
  {
    if pos == |events| || EndsPage(events[pos]) then pos else StopIndex(events, pos + 1)
  }

  /** The events a page reader looks at before it stops. */
  function Window(events: seq<Event>, pos: nat): seq<Event>
    requires pos <= |events|
  {
    events[pos..StopIndex(events, pos)]
  }

  /** Where the reader stands after one page: just past the stopping event,
      or at the end of the stream. */
  function Resume(events: seq<Event>, pos: nat): (next: nat)
    requires pos <= |events|
    ensures pos <= next <= |events|
    ensures next > pos <==> StopIndex(events, pos) > pos || StopIndex(events, pos) < |events|
  {
    var e := StopIndex(events, pos);
    if e < |events| then e + 1 else e
  }

  /** After the events `w`, the flag of element `name` is raised: the last
      `Start(name)` or `End(name)` in `w` is a `Start`. */
  predicate Raised(w: seq<Event>, name: string)
  {
    if w == [] then false
    else
      var last := w[|w| - 1];
      if last == Start(name) then true
      else if last == End(name) then false
      else Raised(w[..|w| - 1], name)
  }

  /** The value captured for element `name` after the events `w`: the text
      of the last `Text` event that arrived while the flag was raised. */
  function Captured(w: seq<Event>, name: string): Option<string>
  {
    if w == [] then None
    else
      var last := w[|w| - 1];
      if last.Text? && Raised(w[..|w| - 1], name) then Some(last.content)
      else Captured(w[..|w| - 1], name)
  }

  /** A `Text` event at index `j` of `w` that arrives while `name` is raised. */
  predicate CapturesAt(w: seq<Event>, name: string, j: int)
  {
    0 <= j < |w| && w[j].Text? && Raised(w[..j], name)
  }

  /** `Captured` is exactly "the last `Text` seen while the flag is raised":
      it names a capturing event and no later event captures. */
  lemma {:induction false} CapturedIsLastRaisedText(w: seq<Event>, name: string)
    ensures Captured(w, name).None? <==> forall j :: 0 <= j < |w| ==> !CapturesAt(w, name, j)
    ensures Captured(w, name).Some? ==>
      exists j :: CapturesAt(w, name, j) && w[j].content == Captured(w, name).value &&
        forall k :: j < k < |w| ==> !CapturesAt(w, name, k)
  {
    if w != [] {
      var p := w[..|w| - 1];
      assert forall j :: 0 <= j < |p| ==> w[..j] == p[..j];
      CapturedIsLastRaisedText(p, name);
      if w[|w| - 1].Text? && Raised(p, name) {
        assert CapturesAt(w, name, |w| - 1);
      } else {
        assert !CapturesAt(w, name, |w| - 1);
        assert forall j :: 0 <= j < |p| ==> (CapturesAt(w, name, j) <==> CapturesAt(p, name, j));
      }
    }
  }

  /** Events that neither open nor close `name` and carry no text leave its
      flag and its captured value as they were. */
  lemma {:induction false} UnrelatedEventsKeepField(w: seq<Event>, more: seq<Event>, name: string)
    requires forall e :: e in more ==> !e.Text? && e != Start(name) && e != End(name)
    ensures Raised(w + more, name) == Raised(w, name)
    ensures Captured(w + more, name) == Captured(w, name)
  {
    if more != [] {
      var m := more[..|more| - 1];
      assert (w + more)[..|w + more| - 1] == w + m;
      assert (w + more)[|w + more| - 1] == more[|more| - 1];
      assert more[|more| - 1] in more;
      UnrelatedEventsKeepField(w, m, name);
    } else {
      assert w + more == w;
    }
  }
}
