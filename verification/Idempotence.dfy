/** When canonicalising canonical bytes changes nothing. */
module Idempotence {
  import opened Wrappers
  import opened Bytes
  import opened CanonicalOrder
  import opened C14n
  import opened CanonicalReader

  /** None of the six bytes the attribute escaper rewrites. */
  predicate PlainValue(v: bytes) {
    forall i :: 0 <= i < |v| ==> v[i] !in {DQUOTE, LT, AMP, CR, LF, TAB}
  }

  predicate PlainAttrs(attrs: seq<Attr>) {
    forall i :: 0 <= i < |attrs| && attrs[i].Attr? ==> PlainValue(attrs[i].value)
  }

  /** No attribute value of the document needs escaping. Text is not restricted. */
  predicate PlainDocument(f: Forest) {
    match f
    case Nil => true
    case Element(_, attrs, kids, next) => PlainAttrs(attrs) && PlainDocument(kids) && PlainDocument(next)
    case Hollow(_, attrs, next) => PlainAttrs(attrs) && PlainDocument(next)
    case Text(_, next) => PlainDocument(next)
    case CData(_, next) => PlainDocument(next)
    case Other(next) => PlainDocument(next)
  }

  ghost predicate PlainEntries(s: seq<Entry>) {
    forall e :: e in s ==> PlainValue(e.value)
  }

  ghost predicate PlainNormal(n: Normal) {
    match n
    case Done => true
    case Tag(_, ns, attrs, kids, next) =>
      PlainEntries(ns) && PlainEntries(attrs) && PlainNormal(kids) && PlainNormal(next)
    case Chars(_, next) => PlainNormal(next)
  }

  /** The attribute escaper fixes exactly the plain values; any other grows and stays unplain. */
  lemma {:induction false} EscapeAttrFixesPlain(v: bytes)
    ensures PlainValue(v) ==> EscapeAttr(v) == v
    ensures !PlainValue(v) ==> |EscapeAttr(v)| > |v| && !PlainValue(EscapeAttr(v))
  {
    if v != [] {
      EscapeAttrFixesPlain(v[1..]);
      PlainAppend([v[0]], v[1..]);
      PlainAppend(EscapeAttrByte(v[0]), EscapeAttr(v[1..]));
      EscapeByteFixesPlain(v[0]);
      assert v == [v[0]] + v[1..];
      hide PlainValue, EscapeAttrByte;
    }
  }

  lemma PlainAppend(a: bytes, b: bytes)
    ensures PlainValue(a + b) <==> PlainValue(a) && PlainValue(b)
  {
    if PlainValue(a + b) {
      forall i | 0 <= i < |a| ensures a[i] !in {DQUOTE, LT, AMP, CR, LF, TAB} {
        assert a[i] == (a + b)[i];
      }
      forall i | 0 <= i < |b| ensures b[i] !in {DQUOTE, LT, AMP, CR, LF, TAB} {
        assert b[i] == (a + b)[|a| + i];
      }
    }
    if PlainValue(a) && PlainValue(b) {
      forall i | 0 <= i < |a + b| ensures (a + b)[i] !in {DQUOTE, LT, AMP, CR, LF, TAB} {
        assert (a + b)[i] == if i < |a| then a[i] else b[i - |a|];
      }
    }
  }

  lemma EscapeByteFixesPlain(b: byte)
    ensures PlainValue([b]) ==> EscapeAttrByte(b) == [b]
    ensures !PlainValue([b]) ==> |EscapeAttrByte(b)| > 1 && !PlainValue(EscapeAttrByte(b))
  {
    assert [b][0] == b;
    assert PlainValue([b]) <==> b !in {DQUOTE, LT, AMP, CR, LF, TAB};
    assert b in {DQUOTE, LT, AMP, CR, LF, TAB} ==> EscapeAttrByte(b)[0] == AMP;
  }

  function Escaped(e: Entry): Entry {
    e.(value := EscapeAttr(e.value))
  }

  ghost predicate HasEscaped(s: seq<Entry>, x: Entry) {
    exists e :: e in s && x == Escaped(e)
  }

  /** A reread tag lists the escaped tuples of the printed one. */
  lemma RereadFiles(ns: seq<Entry>, attrs: seq<Entry>, which: bool, x: Entry)
    requires ReadableEntries(ns, true) && ReadableEntries(attrs, false)
    ensures Files(RawAttrs(ns, true) + RawAttrs(attrs, false), which, x)
        <==> HasEscaped(if which then ns else attrs, x)
  {
    RawFiles(ns, true, which, x);
    RawFiles(attrs, false, which, x);
    var a, b := RawAttrs(ns, true), RawAttrs(attrs, false);
    assert forall r :: r in a + b <==> r in a || r in b;
  }

  lemma {:induction false} RawFiles(s: seq<Entry>, ns: bool, which: bool, x: Entry)
    requires forall i :: 0 <= i < |s| ==> ReadableEntry(s[i], ns)
    ensures Files(RawAttrs(s, ns), which, x) <==> ns == which && HasEscaped(s, x)
  {
    hide EscapeAttr, KeyText, EntryOf, IsNsKey;
    if s != [] {
      RawFiles(s[1..], ns, which, x);
      var key := KeyText(s[0], ns);
      var head := Attr(key, EscapeAttr(s[0].value));
      EntryOfKey(key, s[0].value, head.value);
      assert EntryOf(head.key, head.value) == Escaped(s[0]);
      assert IsNsKey(key) == ns;
      assert forall r :: r in RawAttrs(s, ns) <==> r == head || r in RawAttrs(s[1..], ns);
      assert forall e :: e in s <==> e == s[0] || e in s[1..];
    }
  }

  lemma EntryOfKey(key: bytes, v: bytes, w: bytes)
    ensures EntryOf(key, w) == EntryOf(key, v).(value := w)
  {
  }

  lemma RereadListing(ns: seq<Entry>, attrs: seq<Entry>, which: bool)
    requires ReadableEntries(ns, true) && ReadableEntries(attrs, false)
    ensures var s := if which then ns else attrs;
      Listing(RawAttrs(ns, true) + RawAttrs(attrs, false), which) == s <==> PlainEntries(s)
  {
    hide RawAttrs, EscapeAttr, Files, ReadableEntries, PlainEntries;
    var s := if which then ns else attrs;
    var l := Listing(RawAttrs(ns, true) + RawAttrs(attrs, false), which);
    forall x ensures x in l <==> HasEscaped(s, x) {
      RereadFiles(ns, attrs, which, x);
    }
    assert Sorted(s) by { SortedEntries(s, which); }
    EscapedListing(l, s);
  }

  lemma SortedEntries(s: seq<Entry>, ns: bool)
    requires ReadableEntries(s, ns)
    ensures Sorted(s)
  {
  }

  lemma EscapedListing(l: seq<Entry>, s: seq<Entry>)
    requires Sorted(l) && Sorted(s)
    requires forall x :: x in l <==> HasEscaped(s, x)
    ensures l == s <==> PlainEntries(s)
  {
    hide EscapeAttr, PlainValue, HasEscaped, EntryLess;
    if PlainEntries(s) {
      PlainEscaped(s);
      SortedUnique(l, s);
    } else if l == s {
      var e :| e in s && !PlainValue(e.value);
      Climb(s, e, Longest(s));
    }
  }

  lemma PlainEscaped(s: seq<Entry>)
    requires PlainEntries(s)
    ensures forall x :: HasEscaped(s, x) <==> x in s
  {
    forall e | e in s ensures Escaped(e) == e && HasEscaped(s, e) {
      EscapeAttrFixesPlain(e.value);
      assert Escaped(e) == e;
    }
  }

  function Longest(s: seq<Entry>): (n: nat)
    ensures forall e :: e in s ==> |e.value| <= n
  {
    if s == [] then 0
    else
      var n := Longest(s[1..]);
      if |s[0].value| > n then |s[0].value| else n
  }

  /** A finite list closed under escaping has no value that grows. */
  lemma {:induction false} Climb(s: seq<Entry>, e: Entry, bound: nat)
    requires forall x :: x in s <==> HasEscaped(s, x)
    requires forall x :: x in s ==> |x.value| <= bound
    requires e in s && !PlainValue(e.value)
    ensures false
    decreases bound - |e.value|
  {
    EscapeAttrFixesPlain(e.value);
    assert HasEscaped(s, Escaped(e));
    Climb(s, Escaped(e), bound);
  }

  /** Rereading keeps the normal form exactly when every value is plain. */
  lemma {:induction false} RereadFixed(n: Normal)
    requires WellFormed(n)
    ensures Normalise(Reread(n)) == n <==> PlainNormal(n)
  {
    hide RawAttrs, PlainEntries, ReadableName;
    match n
    case Done =>
    case Tag(name, ns, attrs, kids, next) =>
      RereadListing(ns, attrs, true);
      RereadListing(ns, attrs, false);
      RereadFixed(kids);
      RereadFixed(next);
    case Chars(t, next) =>
      RereadFixed(next);
      RereadKind(next);
  }

  lemma RereadKind(n: Normal)
    requires WellFormed(n) && !n.Chars?
    ensures !Normalise(Reread(n)).Chars?
  {
  }

  lemma {:induction false} RereadReadable(n: Normal)
    requires WellFormed(n)
    ensures Readable(Reread(n))
  {
    match n
    case Done =>
    case Tag(name, ns, attrs, kids, next) =>
      RawReadable(ns, true);
      RawReadable(attrs, false);
      RereadReadable(kids);
      RereadReadable(next);
    case Chars(t, next) => RereadReadable(next);
  }

  lemma {:induction false} RawReadable(s: seq<Entry>, ns: bool)
    requires forall i :: 0 <= i < |s| ==> ReadableEntry(s[i], ns)
    ensures forall a :: a in RawAttrs(s, ns) && a.Attr? ==> ReadableKey(a.key)
  {
    hide EscapeAttr, KeyText, EntryOf, IsNsKey;
    if s != [] {
      KeySurvivesFiling(KeyText(s[0], ns), s[0].value);
      RawReadable(s[1..], ns);
    }
  }

  lemma {:induction false} PlainNormalForm(f: Forest)
    requires !HasFault(f)
    ensures PlainNormal(Normalise(f)) <==> PlainDocument(f)
  {
    hide PlainEntries, PlainAttrs, Listing;
    match f
    case Nil =>
    case Element(_, attrs, kids, next) =>
      PlainListing(attrs);
      PlainNormalForm(kids);
      PlainNormalForm(next);
    case Hollow(_, attrs, next) =>
      PlainListing(attrs);
      PlainNormalForm(next);
    case Text(_, next) => PlainNormalForm(next);
    case CData(_, next) => PlainNormalForm(next);
    case Other(next) => PlainNormalForm(next);
  }

  lemma PlainListing(attrs: seq<Attr>)
    requires BadAttr !in attrs
    ensures PlainEntries(Listing(attrs, true)) && PlainEntries(Listing(attrs, false)) <==> PlainAttrs(attrs)
  {
    hide PlainValue, IsNsKey, Listing;
    forall a | a in attrs ensures EntryOf(a.key, a.value).value == a.value {}
    if PlainEntries(Listing(attrs, true)) && PlainEntries(Listing(attrs, false)) {
      forall i | 0 <= i < |attrs| ensures PlainValue(attrs[i].value) {
        var a := attrs[i];
        assert Files(attrs, IsNsKey(a.key), EntryOf(a.key, a.value));
      }
    }
    if PlainAttrs(attrs) {
      forall ns: bool, e | e in Listing(attrs, ns) ensures PlainValue(e.value) {
        assert Files(attrs, ns, e);
      }
    }
  }

  /** Nothing in a stripped document is left to strip. */
  lemma {:induction false} RereadHasNoTarget(f: Forest, target: Option<bytes>)
    requires !HasFault(Strip(f, target))
    ensures var g := Reread(Normalise(Strip(f, target))); Strip(g, target) == g && Strip(g, None) == g
  {
    match f
    case Nil =>
    case Element(name, attrs, kids, next) =>
      if !ShouldStrip(name, target) { RereadHasNoTarget(kids, target); }
      RereadHasNoTarget(next, target);
    case Hollow(name, attrs, next) => RereadHasNoTarget(next, target);
    case Text(_, next) => RereadHasNoTarget(next, target);
    case CData(_, next) => RereadHasNoTarget(next, target);
    case Other(next) => RereadHasNoTarget(next, target);
  }

  /**
   Canonicalising the reread canonical bytes, with or without the target, returns them unchanged
   if and only if no kept attribute value contains one of the six bytes: values are taken raw, so
   a reference the first pass wrote is escaped again by the second.
   */
  lemma CanonicalisationIdempotent(f: Forest, target: Option<bytes>, again: Option<bytes>)
    requires Readable(f) && !HasFault(Strip(f, target))
    requires again == target || again == None
    ensures var out := Canonicalise(Events(f), target);
      out.Some? && ReadEvents(out.value).Some?
      && (Canonicalise(ReadEvents(out.value).value, again) == out <==> PlainDocument(Strip(f, target)))
  {
    hide Reread, PlainDocument, PlainNormal, Print, Normalise, Readable, WellFormed;
    var kept := Strip(f, target);
    var n := Normalise(kept);
    CanonicalBytesReadBack(f, target);
    ReadUndoesPrint(n);
    var g := Reread(n);
    RereadHasNoTarget(f, target);
    RereadReadable(n);
    CanonicalBytesReadBack(g, again);
    RereadFixed(n);
    PlainNormalForm(kept);
    ReadUndoesPrint(Normalise(g));
  }

  /** `<r a="&amp;"></r>`: the five raw bytes of the value grow on every pass. */
  lemma IdempotenceFailsOnReferences()
    ensures var f := Element([114], [Attr([97], [38, 97, 109, 112, 59])], Nil, Nil);
      var out := Canonicalise(Events(f), None);
      out.Some? && ReadEvents(out.value).Some? && Canonicalise(ReadEvents(out.value).value, None) != out
  {
    var v: bytes := [38, 97, 109, 112, 59];
    var attrs := [Attr([97], v)];
    var f := Element([114], attrs, Nil, Nil);
    assert v[0] == AMP;
    assert attrs[0].value == v;
    assert !PlainAttrs(attrs);
    var r, a: bytes := [114], [97];
    assert r[..1][0] == 114 && a[..1][0] == 97;
    assert Strip(f, None) == f;
    assert Readable(f) by {
      assert ReadableName(r);
      assert ReadableKey(a);
    }
    CanonicalisationIdempotent(f, None, None);
  }
}
