/** The byte-scan that cuts `<SignedInfo>` out of a signature (`crates/eidas-xades/src/verify.rs`). */
module SignedInfo {
  import opened Wrappers
  import opened Bytes
  import opened C14n

  const SIGNED_INFO: bytes := [83, 105, 103, 110, 101, 100, 73, 110, 102, 111]         // SignedInfo
  const CLOSE_SIGNED_INFO: bytes := [47, 83, 105, 103, 110, 101, 100, 73, 110, 102, 111]  // /SignedInfo

  /** `<tag` followed by a byte that ends a tag name stands at offset `i`. */
  predicate TagAt(xml: bytes, tag: bytes, i: nat) {
    i + |tag| + 1 < |xml|
    && xml[i..i + |tag| + 1] == [LT] + tag
    && xml[i + |tag| + 1] in {SPACE, GT, SLASH, LF, CR, TAB}
  }

  ghost predicate IsFirstTag(xml: bytes, tag: bytes, i: nat) {
    TagAt(xml, tag, i) && forall j :: 0 <= j < i ==> !TagAt(xml, tag, j)
  }

  method FindTag(xml: bytes, tag: bytes) returns (r: Option<nat>)
    ensures r.Some? ==> IsFirstTag(xml, tag, r.value)
    ensures r.None? ==> forall j :: 0 <= j ==> !TagAt(xml, tag, j)
  {
    var needle := [LT];
    needle := needle + tag;
    var bound := if |xml| < |needle| then 0 else |xml| - |needle|;
    for i := 0 to bound
      invariant forall j :: 0 <= j < i ==> !TagAt(xml, tag, j)
    {
      if StartsWith(xml[i..], needle) {
        assert xml[i..][..|needle|] == xml[i..i + |needle|];
        var next := xml[i + |needle|];
        if next == SPACE || next == GT || next == SLASH || next == LF || next == CR || next == TAB {
          return Some(i);
        }
      } else {
        assert xml[i..i + |needle|] == xml[i..][..|needle|];
      }
    }
    r := None;
  }

  /** The two tags, byte for byte: the name, then white space, `>` or `/`. */
  lemma TagsExactly(xml: bytes, i: nat)
    ensures TagAt(xml, SIGNED_INFO, i) <==>
      i + 11 < |xml| && xml[i..i + 11] == Ascii("<SignedInfo") && xml[i + 11] in {9, 10, 13, 32, 47, 62}
    ensures TagAt(xml, CLOSE_SIGNED_INFO, i) <==>
      i + 12 < |xml| && xml[i..i + 12] == Ascii("</SignedInfo") && xml[i + 12] in {9, 10, 13, 32, 47, 62}
  {
    assert [LT] + SIGNED_INFO == Ascii("<SignedInfo");
    assert [LT] + CLOSE_SIGNED_INFO == Ascii("</SignedInfo");
  }

  /** The slice runs from the first opener to the first `>` after the next closer. */
  ghost predicate IsSlice(xml: bytes, start: nat, close: nat, end: nat) {
    IsFirstTag(xml, SIGNED_INFO, start)
    && IsFirstTag(xml[start..], CLOSE_SIGNED_INFO, close)
    && start + close < end <= |xml|
    && Position(xml[start..][close..], GT) == Some(end - start - close - 1)
  }

  /** `lex` is the pull reader: the events of a byte slice. */
  method CanonicaliseSignedInfo(xml: bytes, lex: bytes -> seq<Event>) returns (r: Option<bytes>)
    ensures forall start: nat, close: nat, end: nat ::
      IsSlice(xml, start, close, end) ==> r == Canonicalise(lex(xml[start..end]), None)
    ensures (forall start: nat, close: nat, end: nat :: !IsSlice(xml, start, close, end)) ==> r.None?
  {
    var start := FindTag(xml, SIGNED_INFO);
    if start.None? { return None; }
    var tail := xml[start.value..];
    var close := FindTag(tail, CLOSE_SIGNED_INFO);
    if close.None? { return None; }
    var gt := Position(tail[close.value..], GT);
    if gt.None? { return None; }
    var end := start.value + close.value + gt.value + 1;
    assert IsSlice(xml, start.value, close.value, end);
    hide *;
    forall s: nat, c: nat, e: nat | IsSlice(xml, s, c, e) ensures s == start.value && e == end {
      SliceUnique(xml, s, c, e, start.value, close.value, end);
    }
    r := ExcC14n(lex(xml[start.value..end]), None);
  }

  lemma SliceUnique(xml: bytes, s: nat, c: nat, e: nat, s': nat, c': nat, e': nat)
    requires IsSlice(xml, s, c, e) && IsSlice(xml, s', c', e')
    ensures s == s' && c == c' && e == e'
  {
    hide TagAt, Position;
  }

  // ---------- the slice of the canonical document ----------

  /** A piece of the document's text and the event the reader makes of it. */
  datatype Lexeme = Lexeme(raw: bytes, event: Event)

  function Source(ls: seq<Lexeme>): bytes {
    if ls == [] then [] else ls[0].raw + Source(ls[1..])
  }

  function EventsOf(ls: seq<Lexeme>): seq<Event> {
    seq(|ls|, i requires 0 <= i < |ls| => ls[i].event)
  }

  lemma {:induction false} SourceAppend(a: seq<Lexeme>, b: seq<Lexeme>)
    ensures Source(a + b) == Source(a) + Source(b)
  {
    if a == [] {
      assert a + b == b;
    } else {
      SourceAppend(a[1..], b);
      assert (a + b)[1..] == a[1..] + b;
      Append2(a[0].raw, Source(a[1..]), Source(b));
    }
  }

  /** Without a target the loop only appends: its output does not depend on what came before. */
  lemma {:induction false} OutputShift(s: State, events: seq<Event>)
    requires s.skip.None?
    ensures Run(s, events, None) ==
      match Run(START, events, None)
      case None => None
      case Some(t) => Some(State(s.out + t.out, s.depth + t.depth, None))
    decreases |events|
  {
    hide PrintStart, PrintEnd, EscapeText;
    if events == [] {
      assert s.out + [] == s.out;
    } else {
      var one := Step(START, events[0], None);
      assert Step(s, events[0], None) ==
        match one case None => None case Some(t) => Some(State(s.out + t.out, s.depth + t.depth, None)) by {
        StepShift(s, events[0]);
      }
      if one.Some? {
        OutputShift(one.value, events[1..]);
        var s' := State(s.out + one.value.out, s.depth + one.value.depth, None);
        OutputShift(s', events[1..]);
        var rest := Run(START, events[1..], None);
        if rest.Some? {
          Append2(s.out, one.value.out, rest.value.out);
        }
      }
    }
  }

  lemma StepShift(s: State, ev: Event)
    requires s.skip.None?
    ensures Step(s, ev, None) ==
      match Step(START, ev, None)
      case None => None
      case Some(t) => Some(State(s.out + t.out, s.depth + t.depth, None))
  {
    hide PrintStart, PrintEnd, EscapeText, SplitQName;
    assert s.out + [] == s.out;
    assert forall x: bytes :: [] + x == x;
    if ev.EmptyTag? {
      Append2(s.out, PrintStart(ev.name, ev.attrs), PrintEnd(ev.name));
    }
  }

  /** Canonicalising a concatenation concatenates, or fails with its first failing part. */
  lemma CanonicaliseAppend(a: seq<Event>, b: seq<Event>)
    ensures Canonicalise(a + b, None) ==
      var x :- Canonicalise(a, None);
      var y :- Canonicalise(b, None);
      Some(x + y)
  {
    RunAppend(START, a, b, None);
    OutputShift(START, a);
    if Run(START, a, None).Some? {
      OutputShift(Run(START, a, None).value, b);
    }
  }

  /**
   When the first raw opener and the next raw closer are the tags of one element, that is
   lexemes `k` and `m`, the slice canonicalises to exactly the bytes that element has in the
   canonical form of the whole document.
   */
  lemma SignedInfoIsSliceOfDocument(ls: seq<Lexeme>, k: nat, m: nat, start: nat, end: nat, lex: bytes -> seq<Event>)
    requires k <= m < |ls|
    requires IsSlice(Source(ls), |Source(ls[..k])|, |Source(ls[k..m])|, end)
    requires start == |Source(ls[..k])|
    requires Position(ls[m].raw, GT) == Some(|ls[m].raw| - 1)
    requires lex(Source(ls[k..m + 1])) == EventsOf(ls[k..m + 1])
    requires Canonicalise(EventsOf(ls), None).Some?
    ensures Canonicalise(EventsOf(ls[..k]), None).Some? && Canonicalise(EventsOf(ls[..m + 1]), None).Some?
    ensures var whole := Canonicalise(EventsOf(ls), None).value;
      var from := |Canonicalise(EventsOf(ls[..k]), None).value|;
      var to := |Canonicalise(EventsOf(ls[..m + 1]), None).value|;
      from <= to <= |whole| && Canonicalise(lex(Source(ls)[start..end]), None) == Some(whole[from..to])
  {
    SliceBytes(ls, k, m, end);
    EventsSplit(ls, k, m);
    CanonicaliseAppend(EventsOf(ls[..m + 1]), EventsOf(ls[m + 1..]));
    CanonicaliseAppend(EventsOf(ls[..k]), EventsOf(ls[k..m + 1]));
    hide *;
  }

  lemma EventsSplit(ls: seq<Lexeme>, k: nat, m: nat)
    requires k <= m < |ls|
    ensures EventsOf(ls) == EventsOf(ls[..m + 1]) + EventsOf(ls[m + 1..])
    ensures EventsOf(ls[..m + 1]) == EventsOf(ls[..k]) + EventsOf(ls[k..m + 1])
  {
  }

  /** The document's text splits at the lexemes. */
  lemma SourceSplits(ls: seq<Lexeme>, k: nat, m: nat)
    requires k <= m < |ls|
    ensures Source(ls) == Source(ls[..k]) + (Source(ls[k..m]) + (ls[m].raw + Source(ls[m + 1..])))
  {
    hide Source;
    SourceHead(ls, m);
    assert ls[k..m] + ls[m..] == ls[k..];
    SourceAppend(ls[k..m], ls[m..]);
    assert ls[..k] + ls[k..] == ls;
    SourceAppend(ls[..k], ls[k..]);
  }

  lemma SourceHead(ls: seq<Lexeme>, m: nat)
    requires m < |ls|
    ensures Source(ls[m..]) == ls[m].raw + Source(ls[m + 1..])
  {
    assert ls[m..][1..] == ls[m + 1..];
  }

  lemma SourceExtends(ls: seq<Lexeme>, k: nat, m: nat)
    requires k <= m < |ls|
    ensures Source(ls[k..m + 1]) == Source(ls[k..m]) + ls[m].raw
  {
    assert ls[k..m + 1] == ls[k..m] + [ls[m]];
    SourceAppend(ls[k..m], [ls[m]]);
    assert Source([ls[m]]) == ls[m].raw + Source([]);
    assert Source([ls[m]]) == ls[m].raw;
  }

  lemma SliceBytes(ls: seq<Lexeme>, k: nat, m: nat, end: nat)
    requires k <= m < |ls|
    requires IsSlice(Source(ls), |Source(ls[..k])|, |Source(ls[k..m])|, end)
    requires Position(ls[m].raw, GT) == Some(|ls[m].raw| - 1)
    ensures Source(ls)[|Source(ls[..k])|..end] == Source(ls[k..m + 1])
  {
    hide Source, IsSlice, Position;
    var pre, inner, last, post := Source(ls[..k]), Source(ls[k..m]), ls[m].raw, Source(ls[m + 1..]);
    SourceSplits(ls, k, m);
    SourceExtends(ls, k, m);
    CutSlice(Source(ls), pre, inner, last, post, end);
  }

  lemma CutSlice(xml: bytes, pre: bytes, inner: bytes, last: bytes, post: bytes, end: nat)
    requires xml == pre + (inner + (last + post))
    requires IsSlice(xml, |pre|, |inner|, end)
    requires Position(last, GT) == Some(|last| - 1)
    ensures xml[|pre|..end] == inner + last
  {
    hide *;
    SliceEnd(xml, pre, inner, last, post, end);
    Append2(inner, last, post);
    CutMiddle(pre, inner + last, post);
  }

  lemma SliceEnd(xml: bytes, pre: bytes, inner: bytes, last: bytes, post: bytes, end: nat)
    requires xml == pre + (inner + (last + post))
    requires IsSlice(xml, |pre|, |inner|, end)
    requires Position(last, GT) == Some(|last| - 1)
    ensures end == |pre| + |inner| + |last|
  {
    hide TagAt, Position;
    Cut(pre, inner + (last + post));
    Cut(inner, last + post);
    GtEndsTag(last, post);
  }

  lemma GtEndsTag(last: bytes, post: bytes)
    requires Position(last, GT) == Some(|last| - 1)
    ensures Position(last + post, GT) == Some(|last| - 1)
  {
    var n := |last| - 1;
    assert last == last[..n] + [GT];
    PositionAfter(last[..n], GT, post);
  }
}
