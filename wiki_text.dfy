/** The analyzer's lightweight link scanner: it walks the characters of a
    page's text and emits, in order of appearance, a token for every
    `[[...]]` link and every `#REDIRECT` / `#redirect` directive.

    `ScanFrom` is the specification: the tokens the text yields from a
    given index on, defined by recursion on what is left to read.
    `ParseText` is the loop of the source and is proved to compute it; the
    lemmas after it say what the specification means for concrete shapes
    of text. The source can panic in one place (a redirect keyword too
    close to the end of the text); the model makes that the explicit
    outcome `Failure(RedirectPastEnd)`. */
module WikiText {
  import opened Wrappers
  import WikiXmlDump

  datatype LinkOrRedirect = Link(target: string) | Redirect(target: string)
  {
    predicate IsLink()
    {
      Link?
    }

    predicate IsRedirect()
    {
      Redirect?
    }

    /** The target of a link; nothing for a redirect. */
    function LinkText(): (text: Option<string>)
      ensures text.Some? <==> IsLink()
      ensures text.Some? ==> text.value == target
    {
      match this
      case Link(t) => Some(t)
      case Redirect(_) => None
    }

    /** The target of a redirect; nothing for a link. */
    function RedirectText(): (text: Option<string>)
      ensures text.Some? <==> IsRedirect()
      ensures text.Some? ==> text.value == target
    {
      match this
      case Link(_) => None
      case Redirect(t) => Some(t)
    }
  }

  /** The one way the scanner can fail: the slice that starts the redirect
      target lies past the end of the text (a panic in the source). */
  datatype ScanError = RedirectPastEnd

  type Tokens = Result<seq<LinkOrRedirect>, ScanError>

  const RedirectUpper: string := "#REDIRECT"
  const RedirectLower: string := "#redirect"
  const StartLink: string := "[["
  const EndLink: string := "]]"

  /** A `]]` starts at index `k` of `chars`. */
  predicate ClosesAt(chars: string, k: nat)
  {
    k + 2 <= |chars| && chars[k] == ']' && chars[k + 1] == ']'
  }

  /** A `[[` starts at `index`, with at least one more character after it. */
  predicate LinkStartAt(chars: string, index: nat)
  {
    index + 2 < |chars| && chars[index] == '[' && chars[index + 1] == '['
  }

  /** The nine characters of `keyword` start at index `i` of `chars`. */
  predicate KeywordAt(chars: string, i: nat, keyword: string)
    requires i + 9 <= |chars| && |keyword| == 9
  {
    && chars[i] == keyword[0] && chars[i + 1] == keyword[1] && chars[i + 2] == keyword[2]
    && chars[i + 3] == keyword[3] && chars[i + 4] == keyword[4] && chars[i + 5] == keyword[5]
    && chars[i + 6] == keyword[6] && chars[i + 7] == keyword[7] && chars[i + 8] == keyword[8]
  }

  /** One of the two spellings of the redirect keyword starts at `index`,
      with at least one more character after it. */
  predicate RedirectStartAt(chars: string, index: nat)
  {
    index + 9 < |chars| && (KeywordAt(chars, index, RedirectUpper) || KeywordAt(chars, index, RedirectLower))
  }

  lemma KeywordAtSlice(chars: string, i: nat, keyword: string)
    requires i + 9 <= |chars| && |keyword| == 9
    ensures KeywordAt(chars, i, keyword) <==> chars[i..i + 9] == keyword
  {
    if KeywordAt(chars, i, keyword) {
      forall k | 0 <= k < 9
        ensures chars[i..i + 9][k] == keyword[k]
      {
        if k == 0 {} else if k == 1 {} else if k == 2 {} else if k == 3 {} else if k == 4 {}
        else if k == 5 {} else if k == 6 {} else if k == 7 {} else {}
      }
    }
  }

  /** Where the search of `read_link` started at `i` stops: at the first
      `]]`, or where two characters no longer fit. */
  function CloseFrom(chars: string, i: nat): (j: nat)
    ensures i <= j
    ensures i <= |chars| ==> j <= |chars|
    decreases |chars| - i
  {
    if i + 2 > |chars| || ClosesAt(chars, i) then i else CloseFrom(chars, i + 1)
  }

  /** The search stops at the first `]]` at or after `i`; with none, it
      stops on the last character (or at once, when `i` is already past
      it), which a link running to the end of the text therefore loses. */
  lemma {:induction false} CloseFromIsFirstClose(chars: string, i: nat)
    ensures forall k :: i <= k < CloseFrom(chars, i) ==> !ClosesAt(chars, k)
    ensures CloseFrom(chars, i) + 2 <= |chars| ==> ClosesAt(chars, CloseFrom(chars, i))
    ensures CloseFrom(chars, i) + 2 > |chars| ==>
      CloseFrom(chars, i) == i || CloseFrom(chars, i) + 1 == |chars|
    decreases |chars| - i
  {
    if i + 2 <= |chars| && !ClosesAt(chars, i) {
      CloseFromIsFirstClose(chars, i + 1);
    }
  }

  /** Characterisation of `CloseFrom` by the facts above. */
  lemma CloseFromUnique(chars: string, i: nat, j: nat)
    requires i <= j
    requires forall k :: i <= k < j ==> !ClosesAt(chars, k)
    requires j + 2 <= |chars| ==> ClosesAt(chars, j)
    requires j + 2 > |chars| ==> j == i || j + 1 == |chars|
    ensures CloseFrom(chars, i) == j
    decreases j - i
  {
    if i < j {
      CloseFromUnique(chars, i + 1, j);
    }
  }

  /** The target of a link: its text up to the first `|`. */
  function UpToBar(s: string): string
  {
    if s == [] || s[0] == '|' then [] else [s[0]] + UpToBar(s[1..])
  }

  lemma {:induction false} UpToBarIsTarget(s: string)
    ensures UpToBar(s) <= s
    ensures '|' !in UpToBar(s)
    ensures |UpToBar(s)| < |s| ==> s[|UpToBar(s)|] == '|'
  {
    if s != [] && s[0] != '|' {
      UpToBarIsTarget(s[1..]);
    }
  }

  /** The closure `check_prefix`: the text at `index` starts with `token`;
      a token cut off by the end of the text never matches. */
  function CheckPrefix(chars: string, index: nat, token: string): (b: bool)
    requires index <= |chars|
    ensures b <==> index + |token| <= |chars| && chars[index..index + |token|] == token
  {
    var end := if |chars| < index + |token| then |chars| else index + |token|;
    chars[index..end] == token
  }

  /** The closure `check_link_start`: `[[` with at least one more character. */
  function CheckLinkStart(chars: string, index: nat): (b: bool)
    requires index < |chars|
    ensures b == LinkStartAt(chars, index)
  {
    assert index + 2 <= |chars| ==> chars[index..index + 2][0] == chars[index] && chars[index..index + 2][1] == chars[index + 1];
    CheckPrefix(chars, index, StartLink) && |chars| > index + |StartLink|
  }

  /** The closure `check_redirect_start`: one of the two spellings of the
      keyword with at least one more character. */
  function CheckRedirectStart(chars: string, index: nat): (b: bool)
    requires index < |chars|
    ensures b == RedirectStartAt(chars, index)
  {
    var b := (CheckPrefix(chars, index, RedirectUpper) || CheckPrefix(chars, index, RedirectLower))
      && |chars| > index + |RedirectUpper|;
    if index + 9 <= |chars| then
      KeywordAtSlice(chars, index, RedirectUpper);
      KeywordAtSlice(chars, index, RedirectLower);
      b
    else b
  }

  function Prepend(t: LinkOrRedirect, r: Tokens): Tokens
  {
    match r
    case Success(ts) => Success([t] + ts)
    case Failure(e) => Failure(e)
  }

  function PrependAll(ts: seq<LinkOrRedirect>, r: Tokens): Tokens
  {
    match r
    case Success(us) => Success(ts + us)
    case Failure(e) => Failure(e)
  }

  /** The tokens the text yields when the scan stands at `index`. A link
      target starts two characters after `[[`, a redirect target twelve
      characters after `#` (the keyword, one unchecked character and two
      more assumed to be `[[`); either way the scan resumes two characters
      after where the search for `]]` stopped. */
  function ScanFrom(chars: string, index: nat): Tokens
    decreases |chars| - index
  {
    if index >= |chars| then Success([])
    else if LinkStartAt(chars, index) then
      var close := CloseFrom(chars, index + 2);
      Prepend(Link(UpToBar(chars[index + 2..close])), ScanFrom(chars, close + 2))
    else if RedirectStartAt(chars, index) then
      if index + 12 > |chars| then Failure(RedirectPastEnd)
      else
        var close := CloseFrom(chars, index + 12);
        Prepend(Redirect(UpToBar(chars[index + 12..close])), ScanFrom(chars, close + 2))
    else ScanFrom(chars, index + 1)
  }

  /** What `read_link` returns: the target and the index to resume at. */
  datatype LinkEnd = LinkEnd(target: string, next: nat)

  /** The closure `read_link`: search from `start` for `]]` and return the
      text before it up to the first `|`, and the index two past where the
      search stopped. Fails exactly when `start` lies past the end of the
      text, where the source's slice panics. */
  method ReadLinkAt(chars: string, start: nat) returns (r: Result<LinkEnd, ScanError>)
    ensures r.Failure? <==> start > |chars|
    ensures r.Success? ==>
      r.value == LinkEnd(UpToBar(chars[start..CloseFrom(chars, start)]), CloseFrom(chars, start) + 2)
  {
    var current := start;
    while current + |EndLink| <= |chars| && chars[current..current + |EndLink|] != EndLink
      invariant start <= current
      invariant start <= |chars| ==> current <= |chars|
      invariant CloseFrom(chars, current) == CloseFrom(chars, start)
      decreases |chars| - current
    {
      current := current + 1;
    }
    if current + |EndLink| <= |chars| {
      assert chars[current] == chars[current..current + 2][0];
      assert chars[current + 1] == chars[current..current + 2][1];
    }
    assert CloseFrom(chars, current) == current;
    if current > |chars| {
      return Failure(RedirectPastEnd);
    }
    r := Success(LinkEnd(UpToBar(chars[start..current]), current + |EndLink|));
  }

  /** One step of the scan over a link. */
  lemma LinkStep(chars: string, index: nat, target: string, next: nat)
    requires index < |chars| && LinkStartAt(chars, index)
    requires target == UpToBar(chars[index + 2..CloseFrom(chars, index + 2)])
    requires next == CloseFrom(chars, index + 2) + 2
    ensures ScanFrom(chars, index) == Prepend(Link(target), ScanFrom(chars, next))
  {
  }

  /** One step of the scan over a redirect whose target starts in the text. */
  lemma RedirectStep(chars: string, index: nat, target: string, next: nat)
    requires index < |chars| && !LinkStartAt(chars, index) && RedirectStartAt(chars, index)
    requires index + 12 <= |chars|
    requires target == UpToBar(chars[index + 12..CloseFrom(chars, index + 12)])
    requires next == CloseFrom(chars, index + 12) + 2
    ensures ScanFrom(chars, index) == Prepend(Redirect(target), ScanFrom(chars, next))
  {
  }

  lemma PrependAllStep(ts: seq<LinkOrRedirect>, t: LinkOrRedirect, r: Tokens)
    ensures PrependAll(ts, Prepend(t, r)) == PrependAll(ts + [t], r)
  {
    if r.Success? {
      assert ts + ([t] + r.value) == (ts + [t]) + r.value;
    }
  }

  /** `parse_text`: nothing without a text; otherwise the tokens of the
      whole text, or the failure where the source panics. */
  method ParseText(page: WikiXmlDump.WikiPage) returns (r: Option<Tokens>)
    ensures r.None? <==> page.text.None?
    ensures page.text.Some? ==> r == Some(ScanFrom(page.text.value, 0))
  {
    if page.text.None? {
      return None;
    }
    var chars := page.text.value;
    var index := 0;
    var tokens: seq<LinkOrRedirect> := [];
    ghost var expected := ScanFrom(chars, 0);
    assert expected.Success? ==> [] + expected.value == expected.value;
    while index < |chars|
      invariant expected == PrependAll(tokens, ScanFrom(chars, index))
      decreases |chars| - index
    {
      if CheckLinkStart(chars, index) {
        var link := ReadLinkAt(chars, index + |StartLink|);
        LinkStep(chars, index, link.value.target, link.value.next);
        PrependAllStep(tokens, Link(link.value.target), ScanFrom(chars, link.value.next));
        tokens := tokens + [Link(link.value.target)];
        index := link.value.next;
      } else if CheckRedirectStart(chars, index) {
        var link := ReadLinkAt(chars, index + |RedirectUpper| + 1 + |StartLink|);
        if link.Failure? {
          return Some(Failure(RedirectPastEnd));
        }
        RedirectStep(chars, index, link.value.target, link.value.next);
        PrependAllStep(tokens, Redirect(link.value.target), ScanFrom(chars, link.value.next));
        tokens := tokens + [Redirect(link.value.target)];
        index := link.value.next;
      } else {
        index := index + 1;
      }
    }
    assert tokens + [] == tokens;
    return Some(Success(tokens));
  }

  /** Characters other than `[` and `#` are stepped over one at a time. */
  lemma {:induction false} SkipPlain(chars: string, i: nat, j: nat)
    requires i <= j <= |chars|
    requires forall k :: i <= k < j ==> chars[k] != '[' && chars[k] != '#'
    ensures ScanFrom(chars, i) == ScanFrom(chars, j)
    decreases j - i
  {
    if i < j {
      if i + 2 <= |chars| {
        assert chars[i..i + 2][0] == chars[i];
      }
      if i + 9 <= |chars| {
        assert chars[i..i + 9][0] == chars[i];
      }
      SkipPlain(chars, i + 1, j);
    }
  }

  /** Text without `[` or `#` yields no token. */
  lemma ScanPlainText(chars: string)
    requires '[' !in chars && '#' !in chars
    ensures ScanFrom(chars, 0) == Success([])
  {
    SkipPlain(chars, 0, |chars|);
  }

  /** The first `]]` after `from`, with no `]` before it, is where the
      search for the end of a link stops. */
  lemma CloseAt(chars: string, from: nat, close: nat)
    requires from <= close && ClosesAt(chars, close)
    requires ']' !in chars[from..close]
    ensures CloseFrom(chars, from) == close
  {
    forall k | from <= k < close
      ensures !ClosesAt(chars, k)
    {
      assert chars[k..k + 2][0] == chars[k] == chars[from..close][k - from];
    }
    CloseFromUnique(chars, from, close);
  }

  /** A closed link `[[P|D]]` yields the target `P` (the display text is
      dropped), and the scan goes on right after the `]]`. */
  lemma ScanLinkAt(chars: string, i: nat, close: nat)
    requires i + 2 <= close && ClosesAt(chars, close)
    requires chars[i..i + 2] == StartLink && ']' !in chars[i + 2..close]
    ensures ScanFrom(chars, i) == Prepend(Link(UpToBar(chars[i + 2..close])), ScanFrom(chars, close + 2))
  {
    assert LinkStartAt(chars, i);
    CloseAt(chars, i + 2, close);
    LinkStep(chars, i, UpToBar(chars[i + 2..close]), close + 2);
  }

  /** A redirect keyword followed by one more character is a redirect
      start and not a link start. */
  lemma RedirectKeywordAt(chars: string, i: nat)
    requires i + 9 < |chars|
    requires chars[i..i + 9] == RedirectUpper || chars[i..i + 9] == RedirectLower
    ensures !LinkStartAt(chars, i) && RedirectStartAt(chars, i)
  {
    KeywordAtSlice(chars, i, RedirectUpper);
    KeywordAtSlice(chars, i, RedirectLower);
  }

  /** A redirect yields the target that starts twelve characters after
      `#`, whatever the three characters after the keyword are, and the
      scan goes on right after the `]]`. */
  lemma ScanRedirectAt(chars: string, i: nat, close: nat)
    requires i + 12 <= close && ClosesAt(chars, close)
    requires chars[i..i + 9] == RedirectUpper || chars[i..i + 9] == RedirectLower
    requires ']' !in chars[i + 12..close]
    ensures ScanFrom(chars, i) == Prepend(Redirect(UpToBar(chars[i + 12..close])), ScanFrom(chars, close + 2))
  {
    RedirectKeywordAt(chars, i);
    CloseAt(chars, i + 12, close);
    RedirectStep(chars, i, UpToBar(chars[i + 12..close]), close + 2);
  }

  /** A link that is never closed runs to the end of the text and loses
      its last character; it is the last token. */
  lemma ScanUnterminatedLinkAt(chars: string, i: nat)
    requires i + 2 < |chars| && chars[i..i + 2] == StartLink && ']' !in chars[i + 2..]
    ensures ScanFrom(chars, i) == Success([Link(UpToBar(chars[i + 2..|chars| - 1]))])
  {
    var close := |chars| - 1;
    forall k | i + 2 <= k < close
      ensures !ClosesAt(chars, k)
    {
      assert chars[k..k + 2][0] == chars[k] == chars[i + 2..][k - i - 2];
    }
    CloseFromUnique(chars, i + 2, close);
    var link := Link(UpToBar(chars[i + 2..close]));
    LinkStep(chars, i, link.target, close + 2);
    assert [link] + [] == [link];
  }

  /** A redirect keyword followed by only one or two characters is where
      the source panics. */
  lemma ScanShortRedirectAt(chars: string, i: nat)
    requires i + 9 < |chars| < i + 12
    requires chars[i..i + 9] == RedirectUpper || chars[i..i + 9] == RedirectLower
    ensures ScanFrom(chars, i) == Failure(RedirectPastEnd)
  {
    RedirectKeywordAt(chars, i);
  }

  /** The scan fails only at a redirect keyword that ends ten or eleven
      characters before the end of the text. */
  lemma {:induction false} ScanFailureIsShortRedirect(chars: string, i: nat)
    ensures ScanFrom(chars, i).Failure? ==>
      exists k :: i <= k < |chars| && RedirectStartAt(chars, k) && |chars| < k + 12
    decreases |chars| - i
  {
    if i < |chars| {
      if LinkStartAt(chars, i) {
        ScanFailureIsShortRedirect(chars, CloseFrom(chars, i + 2) + 2);
      } else if RedirectStartAt(chars, i) {
        if i + 12 <= |chars| {
          ScanFailureIsShortRedirect(chars, CloseFrom(chars, i + 12) + 2);
        }
      } else {
        ScanFailureIsShortRedirect(chars, i + 1);
      }
    }
  }

  /** With no bar in `a`, the target of `a` followed by nothing or by a
      bar-led rest is `a` itself. */
  lemma {:induction false} UpToBarSplit(a: string, b: string)
    requires '|' !in a && (b == [] || b[0] == '|')
    ensures UpToBar(a + b) == a
  {
    if a == [] {
      assert a + b == b;
    } else {
      assert (a + b)[1..] == a[1..] + b;
      UpToBarSplit(a[1..], b);
    }
  }

  /** Empty text and text without markers yield no token. */
  lemma PlainExamples()
    ensures ScanFrom("", 0) == Success([])
    ensures ScanFrom("April, April", 0) == Success([])
  {
    ScanPlainText("April, April");
  }

  /** A bare keyword with nothing after it is not a redirect. */
  lemma BareKeywordExample(c: string)
    requires c == "#REDIRECT"
    ensures ScanFrom(c, 0) == Success([])
  {
    assert !RedirectStartAt(c, 0);
    assert c[0..2] != StartLink by {
      assert c[0..2][0] == '#';
    }
    SkipPlain(c, 1, 9);
  }

  /** An opening `[[` with nothing after it is not a link. */
  lemma BareLinkStartExample(c: string)
    requires c == "[["
    ensures ScanFrom(c, 0) == Success([])
  {
    assert !LinkStartAt(c, 0) && !RedirectStartAt(c, 0);
    assert !LinkStartAt(c, 1) && !RedirectStartAt(c, 1);
    assert ScanFrom(c, 0) == ScanFrom(c, 1) == ScanFrom(c, 2);
  }

  /** The search for `]]` does not depend on the text before it. */
  lemma {:induction false} CloseFromShift(a: string, b: string, i: nat)
    requires i <= |b|
    ensures CloseFrom(a + b, |a| + i) == |a| + CloseFrom(b, i)
    decreases |b| - i
  {
    var c := a + b;
    if i + 2 <= |b| {
      assert c[|a| + i] == b[i] && c[|a| + i + 1] == b[i + 1];
      if !ClosesAt(b, i) {
        CloseFromShift(a, b, i + 1);
      }
    }
  }

  /** What the scan tests at a position, and the slices it takes, are the
      same after a prefix. */
  lemma ShiftStarts(a: string, b: string, i: nat)
    requires i < |b|
    ensures LinkStartAt(a + b, |a| + i) == LinkStartAt(b, i)
    ensures RedirectStartAt(a + b, |a| + i) == RedirectStartAt(b, i)
  {
    var c := a + b;
    assert forall k :: 0 <= k < |b| ==> c[|a| + k] == b[k];
    if i + 9 < |b| {
      assert KeywordAt(c, |a| + i, RedirectUpper) == KeywordAt(b, i, RedirectUpper);
      assert KeywordAt(c, |a| + i, RedirectLower) == KeywordAt(b, i, RedirectLower);
    }
  }

  lemma ShiftSlice(a: string, b: string, x: nat, y: nat)
    requires x <= y <= |b|
    ensures (a + b)[|a| + x..|a| + y] == b[x..y]
  {
  }

  /** The scan from a position depends only on the text from there on. */
  lemma {:induction false} ScanShift(a: string, b: string, i: nat)
    ensures ScanFrom(a + b, |a| + i) == ScanFrom(b, i)
    decreases |b| - i, 1
  {
    if i < |b| {
      ShiftStarts(a, b, i);
      if LinkStartAt(b, i) {
        ScanShiftLink(a, b, i);
      } else if RedirectStartAt(b, i) {
        ScanShiftRedirect(a, b, i);
      } else {
        ScanShiftPlain(a, b, i);
      }
    }
  }

  lemma {:induction false} ScanShiftLink(a: string, b: string, i: nat)
    requires i < |b| && LinkStartAt(b, i) && LinkStartAt(a + b, |a| + i)
    ensures ScanFrom(a + b, |a| + i) == ScanFrom(b, i)
    decreases |b| - i, 0
  {
    var c := a + b;
    var close := CloseFrom(b, i + 2);
    CloseFromShift(a, b, i + 2);
    ShiftSlice(a, b, i + 2, close);
    ScanShift(a, b, close + 2);
    var target := UpToBar(b[i + 2..close]);
    LinkStep(b, i, target, close + 2);
    LinkStep(c, |a| + i, target, |a| + close + 2);
  }

  lemma {:induction false} ScanShiftRedirect(a: string, b: string, i: nat)
    requires i < |b| && !LinkStartAt(b, i) && RedirectStartAt(b, i)
    requires !LinkStartAt(a + b, |a| + i) && RedirectStartAt(a + b, |a| + i)
    ensures ScanFrom(a + b, |a| + i) == ScanFrom(b, i)
    decreases |b| - i, 0
  {
    if i + 12 <= |b| {
      var c := a + b;
      var close := CloseFrom(b, i + 12);
      CloseFromShift(a, b, i + 12);
      ShiftSlice(a, b, i + 12, close);
      ScanShift(a, b, close + 2);
      var target := UpToBar(b[i + 12..close]);
      RedirectStep(b, i, target, close + 2);
      RedirectStep(c, |a| + i, target, |a| + close + 2);
    }
  }

  lemma {:induction false} ScanShiftPlain(a: string, b: string, i: nat)
    requires i < |b| && !LinkStartAt(b, i) && !RedirectStartAt(b, i)
    requires !LinkStartAt(a + b, |a| + i) && !RedirectStartAt(a + b, |a| + i)
    ensures ScanFrom(a + b, |a| + i) == ScanFrom(b, i)
    decreases |b| - i, 0
  {
    ScanShift(a, b, i + 1);
  }

  /** A closed redirect at the front of the text: its target is the first
      token, and the scan goes on after its `]]`. */
  lemma ScanLeadingRedirect(keyword: string, gap: string, target: string, rest: string)
    requires keyword == RedirectUpper || keyword == RedirectLower
    requires |gap| == 3 && '|' !in target && ']' !in target
    ensures ScanFrom(keyword + gap + target + EndLink + rest, 0) ==
      Prepend(Redirect(target), ScanFrom(rest, 0))
  {
    var first := keyword + gap + target + EndLink;
    var c := first + rest;
    var close := |target| + 12;
    assert c[0..9] == keyword;
    assert c[12..close] == target;
    assert c[close..close + 2] == EndLink;
    ScanRedirectAt(c, 0, close);
    UpToBarSplit(target, []);
    assert target + [] == target;
    ScanShift(first, rest, 0);
  }

  /** Two redirects on two lines yield both, in order. */
  lemma ScanTwoRedirects(k1: string, g1: string, t1: string, k2: string, g2: string, t2: string)
    requires k1 == RedirectUpper || k1 == RedirectLower
    requires k2 == RedirectUpper || k2 == RedirectLower
    requires |g1| == 3 && '|' !in t1 && ']' !in t1
    requires |g2| == 3 && '|' !in t2 && ']' !in t2
    ensures ScanFrom(k1 + g1 + t1 + EndLink + ("\n" + (k2 + g2 + t2 + EndLink)), 0) ==
      Success([Redirect(t1), Redirect(t2)])
  {
    var second := k2 + g2 + t2 + EndLink;
    var rest := "\n" + second;
    ScanLeadingRedirect(k1, g1, t1, rest);
    assert rest[0] == '\n';
    SkipPlain(rest, 0, 1);
    ScanShift("\n", second, 0);
    assert ScanFrom(rest, 0) == ScanFrom(second, 0);
    ScanLeadingRedirect(k2, g2, t2, []);
    assert k2 + g2 + t2 + EndLink + [] == second;
    assert ScanFrom([], 0) == Success([]);
    assert [Redirect(t2)] + [] == [Redirect(t2)];
    assert ScanFrom(second, 0) == Success([Redirect(t2)]);
    assert [Redirect(t1)] + [Redirect(t2)] == [Redirect(t1), Redirect(t2)];
  }

  /** A redirect directive spelled out from its parts. */
  lemma DirectiveText(target: string, d: string)
    requires d == "#REDIRECT [[" + target + "]]"
    ensures d == RedirectUpper + " [[" + target + EndLink
  {
  }

  /** The two-redirect page, taken apart into its two lines. */
  lemma TwoRedirectsText(c: string)
    requires c == "#REDIRECT [[Link1]]\n#REDIRECT [[Link2]]"
    ensures c == "#REDIRECT [[Link1]]" + ("\n" + "#REDIRECT [[Link2]]")
  {
  }

  /** The two-redirect page: both redirects are tokens, in order, and the
      page redirects to the first. */
  lemma TwoRedirectsExample(c: string)
    requires c == "#REDIRECT [[Link1]]\n#REDIRECT [[Link2]]"
    ensures ScanFrom(c, 0) == Success([Redirect("Link1"), Redirect("Link2")])
    ensures RedirectsTo(ScanFrom(c, 0).value) == Some("Link1")
  {
    TwoRedirectsText(c);
    DirectiveText("Link1", "#REDIRECT [[Link1]]");
    DirectiveText("Link2", "#REDIRECT [[Link2]]");
    ScanTwoRedirects(RedirectUpper, " [[", "Link1", RedirectUpper, " [[", "Link2");
  }

  /** An unclosed link loses its last character: `[[ ` yields an empty
      target. */
  lemma UnclosedLinkExample(c: string)
    requires c == "[[ "
    ensures ScanFrom(c, 0) == Success([Link("")])
  {
    assert c[0..2] == StartLink;
    assert c[2..] == " ";
    assert c[2..2] == [];
    ScanUnterminatedLinkAt(c, 0);
  }

  /** A text that is exactly one closed link yields exactly its target. */
  lemma ScanSingleLink(chars: string, close: nat)
    requires 2 <= close && close + 2 == |chars| && ClosesAt(chars, close)
    requires chars[0..2] == StartLink && ']' !in chars[2..close]
    ensures ScanFrom(chars, 0) == Success([Link(UpToBar(chars[2..close]))])
  {
    ScanLinkAt(chars, 0, close);
    var link := Link(UpToBar(chars[2..close]));
    assert [link] + [] == [link];
  }

  /** A text that is exactly one redirect yields exactly its target. */
  lemma ScanSingleRedirect(chars: string, close: nat)
    requires 12 <= close && close + 2 == |chars| && ClosesAt(chars, close)
    requires chars[0..9] == RedirectUpper || chars[0..9] == RedirectLower
    requires ']' !in chars[12..close]
    ensures ScanFrom(chars, 0) == Success([Redirect(UpToBar(chars[12..close]))])
  {
    ScanRedirectAt(chars, 0, close);
    var redirect := Redirect(UpToBar(chars[12..close]));
    assert [redirect] + [] == [redirect];
  }

  /** A plain link. */
  lemma LinkExample(c: string)
    requires c == "[[Link]]"
    ensures ScanFrom(c, 0) == Success([Link("Link")])
  {
    assert c[0..2] == "[[" by {
      assert c[0] == '[';
      assert c[1] == '[';
    }
    assert c[2..6] == "Link" by {
      assert c[2] == 'L';
      assert c[3] == 'i';
      assert c[4] == 'n';
      assert c[5] == 'k';
    }
    assert c[6..8] == "]]" by {
      assert c[6] == ']';
      assert c[7] == ']';
    }
    ScanSingleLink(c, 6);
    UpToBarSplit("Link", []);
    assert "Link" + [] == "Link";
  }

  /** Both spellings of the keyword start a redirect. */
  lemma RedirectExample(c: string, keyword: string)
    requires keyword == RedirectUpper || keyword == RedirectLower
    requires c == keyword + " [[Link]]"
    ensures ScanFrom(c, 0) == Success([Redirect("Link")])
  {
    assert c[0..9] == keyword;
    assert c[12..16] == "Link" by {
      assert c[12] == 'L';
      assert c[13] == 'i';
      assert c[14] == 'n';
      assert c[15] == 'k';
    }
    assert c[16..18] == "]]" by {
      assert c[16] == ']';
      assert c[17] == ']';
    }
    ScanSingleRedirect(c, 16);
    UpToBarSplit("Link", []);
    assert "Link" + [] == "Link";
  }

  /** The three characters after the keyword are not looked at: without
      the space, the first character of the target is lost. */
  lemma UncheckedGapExample(c: string)
    requires c == "#REDIRECT[[Target]]"
    ensures ScanFrom(c, 0) == Success([Redirect("arget")])
  {
    assert c[0..9] == "#REDIRECT" by {
      assert c[0] == '#';
      assert c[1] == 'R';
      assert c[2] == 'E';
      assert c[3] == 'D';
      assert c[4] == 'I';
      assert c[5] == 'R';
      assert c[6] == 'E';
      assert c[7] == 'C';
      assert c[8] == 'T';
    }
    assert c[12..17] == "arget" by {
      assert c[12] == 'a';
      assert c[13] == 'r';
      assert c[14] == 'g';
      assert c[15] == 'e';
      assert c[16] == 't';
    }
    assert c[17..19] == "]]" by {
      assert c[17] == ']';
      assert c[18] == ']';
    }
    ScanSingleRedirect(c, 17);
    UpToBarSplit("arget", []);
    assert "arget" + [] == "arget";
  }


  /** `[[P|D]]` yields `Link(P)`: the display text is dropped. */
  lemma ScanRenamedLink(target: string, display: string, rest: string)
    requires '|' !in target && ']' !in target && ']' !in display
    ensures ScanFrom(StartLink + target + "|" + display + EndLink + rest, 0) ==
      Prepend(Link(target), ScanFrom(StartLink + target + "|" + display + EndLink + rest, |target| + |display| + 5))
  {
    var c := StartLink + target + "|" + display + EndLink + rest;
    var close := |target| + |display| + 3;
    assert c[0..2] == StartLink;
    assert c[2..close] == target + ("|" + display);
    assert c[close..close + 2] == EndLink;
    ScanLinkAt(c, 0, close);
    UpToBarSplit(target, "|" + display);
  }

  /** A redirect with display text yields only its target, whichever three
      characters follow the keyword. */
  lemma ScanRenamedRedirect(keyword: string, gap: string, target: string, display: string, rest: string)
    requires keyword == RedirectUpper || keyword == RedirectLower
    requires |gap| == 3 && '|' !in target && ']' !in target && ']' !in display
    ensures ScanFrom(keyword + gap + target + "|" + display + EndLink + rest, 0) ==
      Prepend(Redirect(target), ScanFrom(keyword + gap + target + "|" + display + EndLink + rest, |target| + |display| + 15))
  {
    var c := keyword + gap + target + "|" + display + EndLink + rest;
    var close := |target| + |display| + 13;
    assert c[0..9] == keyword;
    assert c[12..close] == target + ("|" + display);
    assert c[close..close + 2] == EndLink;
    ScanRedirectAt(c, 0, close);
    UpToBarSplit(target, "|" + display);
  }

  /** `linked_articles`: the targets of the links, in order; redirects
      are dropped. */
  function LinkedArticles(tokens: seq<LinkOrRedirect>): (links: seq<string>)
    ensures |links| <= |tokens|
  {
    if tokens == [] then []
    else
      match tokens[0].LinkText()
      case Some(t) => [t] + LinkedArticles(tokens[1..])
      case None => LinkedArticles(tokens[1..])
  }

  lemma {:induction false} LinkedArticlesAppend(a: seq<LinkOrRedirect>, b: seq<LinkOrRedirect>)
    ensures LinkedArticles(a + b) == LinkedArticles(a) + LinkedArticles(b)
    decreases |a|
  {
    if a != [] {
      assert (a + b)[0] == a[0];
      assert (a + b)[1..] == a[1..] + b;
      LinkedArticlesAppend(a[1..], b);
    } else {
      assert a + b == b;
    }
  }

  /** A string is among the linked articles exactly when a link to it is
      among the tokens. */
  lemma {:induction false} LinkedArticlesMembers(tokens: seq<LinkOrRedirect>, x: string)
    ensures x in LinkedArticles(tokens) <==> Link(x) in tokens
    decreases |tokens|
  {
    if tokens != [] {
      LinkedArticlesMembers(tokens[1..], x);
      assert tokens == [tokens[0]] + tokens[1..];
    }
  }

  /** `is_redirect`: some token is a redirect. */
  function IsRedirect(tokens: seq<LinkOrRedirect>): (b: bool)
    ensures b <==> exists k :: 0 <= k < |tokens| && tokens[k].IsRedirect()
  {
    if tokens == [] then false
    else
      assert forall k :: 0 < k < |tokens| ==> tokens[k] == tokens[1..][k - 1];
      tokens[0].IsRedirect() || IsRedirect(tokens[1..])
  }

  /** A token list without redirects keeps every token among its linked
      articles. */
  lemma {:induction false} LinkOnlyArticles(tokens: seq<LinkOrRedirect>)
    requires !IsRedirect(tokens)
    ensures |LinkedArticles(tokens)| == |tokens|
    ensures forall k :: 0 <= k < |tokens| ==> LinkedArticles(tokens)[k] == tokens[k].target
    decreases |tokens|
  {
    if tokens != [] {
      assert !tokens[0].IsRedirect();
      assert forall k :: 0 <= k < |tokens[1..]| ==> !tokens[1..][k].IsRedirect() by {
        forall k | 0 <= k < |tokens[1..]|
          ensures !tokens[1..][k].IsRedirect()
        {
          assert tokens[1..][k] == tokens[k + 1];
        }
      }
      LinkOnlyArticles(tokens[1..]);
    }
  }

  /** `redirects_to`: the target of the first redirect. */
  function RedirectsTo(tokens: seq<LinkOrRedirect>): (target: Option<string>)
    ensures target.Some? <==> IsRedirect(tokens)
  {
    if tokens == [] then None
    else
      match tokens[0].RedirectText()
      case Some(t) => Some(t)
      case None => RedirectsTo(tokens[1..])
  }

  /** The first redirect wins: whatever follows it is ignored. */
  lemma {:induction false} RedirectsToFirst(tokens: seq<LinkOrRedirect>, k: nat)
    requires k < |tokens| && tokens[k].IsRedirect()
    requires forall j :: 0 <= j < k ==> !tokens[j].IsRedirect()
    ensures RedirectsTo(tokens) == Some(tokens[k].target)
    decreases k
  {
    if k > 0 {
      assert !tokens[0].IsRedirect();
      assert forall j :: 0 <= j < k - 1 ==> tokens[1..][j] == tokens[j + 1];
      RedirectsToFirst(tokens[1..], k - 1);
    }
  }

  /** Redirect lookup over a concatenation: the first part decides when it
      holds a redirect. */
  lemma {:induction false} RedirectsToAppend(a: seq<LinkOrRedirect>, b: seq<LinkOrRedirect>)
    ensures RedirectsTo(a + b) == if IsRedirect(a) then RedirectsTo(a) else RedirectsTo(b)
    decreases |a|
  {
    if a != [] {
      assert (a + b)[0] == a[0];
      assert (a + b)[1..] == a[1..] + b;
      RedirectsToAppend(a[1..], b);
    } else {
      assert a + b == b;
    }
  }
}
