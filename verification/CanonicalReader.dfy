/**
 A reader for canonical XML: the canonical bytes determine the normalised document, and
 canonicalising them again changes nothing exactly when no raw attribute value needed escaping.
 */
module CanonicalReader {
  import opened Wrappers
  import opened Bytes
  import opened CanonicalOrder
  import opened C14n

  // ---------- the normal form of a document ----------

  /** Sorted tags, no comments, no empty-element tags, adjacent character data merged. */
  datatype Normal =
    | Done
    | Tag(name: bytes, ns: seq<Entry>, attrs: seq<Entry>, kids: Normal, next: Normal)
    | Chars(text: bytes, next: Normal)

  function Prepend(t: bytes, n: Normal): Normal {
    if t == [] then n
    else if n.Chars? then Chars(t + n.text, n.next)
    else Chars(t, n)
  }

  function Normalise(f: Forest): Normal
    requires !HasFault(f)
  {
    match f
    case Nil => Done
    case Element(name, attrs, kids, next) =>
      Tag(name, Listing(attrs, true), Listing(attrs, false), Normalise(kids), Normalise(next))
    case Hollow(name, attrs, next) =>
      Tag(name, Listing(attrs, true), Listing(attrs, false), Done, Normalise(next))
    case Text(t, next) => Prepend(t.value, Normalise(next))
    case CData(d, next) => Prepend(d, Normalise(next))
    case Other(next) => Normalise(next)
  }

  function Print(n: Normal): bytes {
    match n
    case Done => []
    case Tag(name, ns, attrs, kids, next) =>
      PrintOpen(name, ns, attrs) + Print(kids) + PrintEnd(name) + Print(next)
    case Chars(t, next) => EscapeText(t) + Print(next)
  }

  lemma PrintPrepend(t: bytes, n: Normal)
    ensures Print(Prepend(t, n)) == EscapeText(t) + Print(n)
  {
    if t != [] && n.Chars? {
      EscapeTextAppend(t, n.text);
      Append2(EscapeText(t), EscapeText(n.text), Print(n.next));
    }
  }

  lemma {:induction false} PrintsNormalForm(f: Forest)
    requires !HasFault(f)
    ensures PrintForest(f) == Print(Normalise(f))
  {
    hide EscapeText, PrintOpen, PrintEnd, Listing;
    match f
    case Nil =>
    case Element(name, attrs, kids, next) =>
      PrintsNormalForm(kids);
      PrintsNormalForm(next);
    case Hollow(name, attrs, next) =>
      PrintsNormalForm(next);
      assert PrintStart(name, attrs) + Print(Done) == PrintStart(name, attrs);
    case Text(t, next) =>
      PrintsNormalForm(next);
      PrintPrepend(t.value, Normalise(next));
    case CData(d, next) =>
      PrintsNormalForm(next);
      PrintPrepend(d, Normalise(next));
    case Other(next) => PrintsNormalForm(next);
  }

  // ---------- the reader ----------

  /** Resolves the references the two escapers write; any other reference is an error. */
  function Unescape(s: bytes): Option<bytes> {
    if s == [] then Some([])
    else if s[0] != AMP then
      var rest :- Unescape(s[1..]);
      Some([s[0]] + rest)
    else
      var (b, n) :- Reference(s);
      var rest :- Unescape(s[n..]);
      Some([b] + rest)
  }

  /** The byte a leading reference denotes, and the length of the reference. */
  function Reference(s: bytes): (r: Option<(byte, nat)>)
    ensures r.Some? ==> 0 < r.value.1 <= |s|
  {
    if |s| < 4 || s[0] != AMP then None
    else if s[1] == 108 && s[2] == 116 && s[3] == SEMI then Some((LT, 4))
    else if s[1] == 103 && s[2] == 116 && s[3] == SEMI then Some((GT, 4))
    else if |s| < 5 || (s[1] == 35 && s[2] != 120) then None
    else if s[1] == 35 && s[4] == SEMI then
      if s[3] == 68 then Some((CR, 5))
      else if s[3] == 65 then Some((LF, 5))
      else if s[3] == 57 then Some((TAB, 5))
      else None
    else if s[1] == 97 && s[2] == 109 && s[3] == 112 && s[4] == SEMI then Some((AMP, 5))
    else if |s| >= 6 && s[1] == 113 && s[2] == 117 && s[3] == 111 && s[4] == 116 && s[5] == SEMI then
      Some((DQUOTE, 6))
    else None
  }

  /** The part of `s` before the first byte in `stop`, or all of it. */
  function Until(s: bytes, stop: set<byte>): (n: nat)
    ensures n <= |s|
    ensures forall i :: 0 <= i < n ==> s[i] !in stop
    ensures n < |s| ==> s[n] in stop
  {
    if s == [] || s[0] in stop then 0 else 1 + Until(s[1..], stop)
  }

  lemma UntilIs(pre: bytes, post: bytes, stop: set<byte>)
    requires forall i :: 0 <= i < |pre| ==> pre[i] !in stop
    requires post == [] || post[0] in stop
    ensures Until(pre + post, stop) == |pre|
    ensures (pre + post)[..|pre|] == pre && (pre + post)[|pre|..] == post
  {
    var s := pre + post;
    assert forall i :: 0 <= i < |pre| ==> s[i] == pre[i];
    assert post != [] ==> s[|pre|] == post[0];
  }

  /** ` key="raw"` items up to `>`; the values stay raw, as the pull reader leaves them. */
  function ReadAttrs(s: bytes): (r: Option<(seq<Attr>, bytes)>)
    ensures r.Some? ==> |r.value.1| < |s|
    decreases |s|
  {
    if s == [] then None
    else if s[0] == GT then Some(([], s[1..]))
    else
      var k := Until(s, {EQUALS});
      if s[0] != SPACE || k == 0 || |s| < k + 2 || s[k + 1] != DQUOTE then None
      else
        var body := s[k + 2..];
        var v := Until(body, {DQUOTE});
        if v == |body| then None
        else
          var (items, rest) :- ReadAttrs(body[v + 1..]);
          Some(([Attr(s[1..k], body[..v])] + items, rest))
  }

  function ReadEvents(s: bytes): Option<seq<Event>>
    decreases |s|
  {
    if s == [] then Some([])
    else if s[0] != LT then
      var n := Until(s, {LT});
      var rest :- ReadEvents(s[n..]);
      Some([TextEvent(Unescape(s[..n]))] + rest)
    else if |s| > 1 && s[1] == SLASH then
      var n := Until(s[2..], {GT});
      if n == |s| - 2 then None
      else
        var rest :- ReadEvents(s[2 + n + 1..]);
        Some([EndTag(s[2..2 + n])] + rest)
    else
      var n := Until(s[1..], {SPACE, GT});
      var (attrs, tail) :- ReadAttrs(s[1 + n..]);
      var rest :- ReadEvents(tail);
      Some([StartTag(s[1..1 + n], attrs)] + rest)
  }

  /** The tuples of one kind among raw attributes, values resolved, in document order. */
  function ReadEntries(attrs: seq<Attr>, ns: bool): Option<seq<Entry>> {
    if attrs == [] then Some([])
    else if attrs[0].BadAttr? then None
    else
      var v :- Unescape(attrs[0].value);
      var rest :- ReadEntries(attrs[1..], ns);
      Some(if IsNsKey(attrs[0].key) == ns then [EntryOf(attrs[0].key, v)] + rest else rest)
  }

  /** The items up to an unmatched end tag or the end of the events, and what is left. */
  function Build(events: seq<Event>): (r: Option<(Normal, seq<Event>)>)
    ensures r.Some? ==> |r.value.1| <= |events|
    decreases |events|
  {
    if events == [] then Some((Done, []))
    else
      match events[0]
      case EndTag(_) => Some((Done, events))
      case TextEvent(Some(t)) =>
        var (next, rest) :- Build(events[1..]);
        Some((Chars(t, next), rest))
      case StartTag(name, attrs) =>
        var ns :- ReadEntries(attrs, true);
        var plain :- ReadEntries(attrs, false);
        var (kids, rest) :- Build(events[1..]);
        if rest == [] || rest[0] != EndTag(name) then None
        else
          var (next, rest') :- Build(rest[1..]);
          Some((Tag(name, ns, plain, kids, next), rest'))
      case _ => None
  }

  /** From canonical bytes to the normal form they print. */
  function Read(s: bytes): Option<Normal> {
    var events :- ReadEvents(s);
    var (n, rest) :- Build(events);
    if rest == [] then Some(n) else None
  }

  // ---------- documents the reader can follow ----------

  /** Every XML name qualifies. */
  predicate ReadableName(name: bytes) {
    SPACE !in name && GT !in name && !StartsWith(name, [SLASH])
  }

  /** Every XML attribute name qualifies. */
  predicate ReadableKey(key: bytes) {
    EQUALS !in key && !StartsWith(key, [COLON]) && key != XMLNS_COLON
  }

  predicate Readable(f: Forest) {
    match f
    case Nil => true
    case Element(name, attrs, kids, next) =>
      ReadableName(name) && (forall a :: a in attrs && a.Attr? ==> ReadableKey(a.key))
      && Readable(kids) && Readable(next)
    case Hollow(name, attrs, next) =>
      ReadableName(name) && (forall a :: a in attrs && a.Attr? ==> ReadableKey(a.key)) && Readable(next)
    case Text(_, next) => Readable(next)
    case CData(_, next) => Readable(next)
    case Other(next) => Readable(next)
  }

  /** A tuple whose printed name files it back where it came from. */
  predicate ReadableEntry(e: Entry, ns: bool) {
    var key := KeyText(e, ns);
    EQUALS !in key && IsNsKey(key) == ns && EntryOf(key, e.value) == e
  }

  ghost predicate ReadableEntries(s: seq<Entry>, ns: bool) {
    Sorted(s) && forall i :: 0 <= i < |s| ==> ReadableEntry(s[i], ns)
  }

  ghost predicate WellFormed(n: Normal) {
    match n
    case Done => true
    case Tag(name, ns, attrs, kids, next) =>
      ReadableName(name) && ReadableEntries(ns, true) && ReadableEntries(attrs, false)
      && WellFormed(kids) && WellFormed(next)
    case Chars(t, next) => t != [] && !next.Chars? && WellFormed(next)
  }

  /** An attribute name survives filing and printing exactly when it is not `xmlns:` and has no leading colon. */
  lemma KeySurvivesFiling(key: bytes, value: bytes)
    ensures KeyText(EntryOf(key, value), IsNsKey(key)) == key
        <==> !StartsWith(key, [COLON]) && key != XMLNS_COLON
  {
    assert StartsWith(key, [COLON]) <==> key != [] && key[0] == COLON by {
      if key != [] { assert key[..1] == [key[0]]; }
    }
    if StartsWith(key, XMLNS_COLON) {
      assert key == XMLNS_COLON + key[6..];
      assert key[0] == 120;
    } else if key == XMLNS {
      assert key[0] == 120 && |XMLNS_COLON| == 6;
    } else {
      PlainKeySurvivesFiling(key, value);
    }
  }

  lemma PlainKeySurvivesFiling(key: bytes, value: bytes)
    requires !IsNsKey(key)
    ensures KeyText(EntryOf(key, value), false) == key <==> key == [] || key[0] != COLON
  {
    var (prefix, local) := SplitQName(key);
    hide SplitQName, IsNsKey;
    assert EntryOf(key, value) == Entry(prefix, local, value) by { PlainEntryOf(key, value); }
    if COLON in key {
      assert prefix == [] <==> key[0] == COLON;
      assert prefix == [] ==> |local| < |key|;
    }
  }

  lemma PlainEntryOf(key: bytes, value: bytes)
    requires !IsNsKey(key)
    ensures EntryOf(key, value) == Entry(SplitQName(key).0, SplitQName(key).1, value)
  {
  }

  lemma FiledEntryReadable(attrs: seq<Attr>, ns: bool, e: Entry)
    requires forall a :: a in attrs && a.Attr? ==> ReadableKey(a.key)
    requires Files(attrs, ns, e)
    ensures ReadableEntry(e, ns)
  {
    var a :| a in attrs && a.Attr? && IsNsKey(a.key) == ns && EntryOf(a.key, a.value) == e;
    KeySurvivesFiling(a.key, a.value);
  }

  lemma ListingReadable(attrs: seq<Attr>, ns: bool)
    requires forall a :: a in attrs && a.Attr? ==> ReadableKey(a.key)
    ensures ReadableEntries(Listing(attrs, ns), ns)
  {
    var s := Listing(attrs, ns);
    forall i | 0 <= i < |s| ensures ReadableEntry(s[i], ns) {
      assert s[i] in s;
      FiledEntryReadable(attrs, ns, s[i]);
    }
  }

  lemma {:induction false} NormaliseWellFormed(f: Forest)
    requires !HasFault(f) && Readable(f)
    ensures WellFormed(Normalise(f))
  {
    hide ReadableKey, ReadableName, ReadableEntries, Listing;
    match f
    case Nil =>
    case Element(name, attrs, kids, next) =>
      ListingReadable(attrs, true);
      ListingReadable(attrs, false);
      NormaliseWellFormed(kids);
      NormaliseWellFormed(next);
    case Hollow(name, attrs, next) =>
      ListingReadable(attrs, true);
      ListingReadable(attrs, false);
      NormaliseWellFormed(next);
    case Text(_, next) => NormaliseWellFormed(next);
    case CData(_, next) => NormaliseWellFormed(next);
    case Other(next) => NormaliseWellFormed(next);
  }

  lemma {:induction false} StripReadable(f: Forest, target: Option<bytes>)
    requires Readable(f)
    ensures Readable(Strip(f, target))
  {
    match f
    case Nil =>
    case Element(name, attrs, kids, next) => StripReadable(kids, target); StripReadable(next, target);
    case Hollow(name, attrs, next) => StripReadable(next, target);
    case Text(_, next) => StripReadable(next, target);
    case CData(_, next) => StripReadable(next, target);
    case Other(next) => StripReadable(next, target);
  }

  // ---------- reading undoes escaping ----------

  /** Both escapers are undone by `Unescape`, so both are injective. */
  lemma {:induction false} UnescapeEscapeText(t: bytes)
    ensures Unescape(EscapeText(t)) == Some(t)
    ensures LT !in EscapeText(t)
  {
    if t != [] {
      UnescapeEscapeText(t[1..]);
      var e, rest := EscapeTextByte(t[0]), EscapeText(t[1..]);
      UnescapeOne(e, rest, t[0]);
      assert t == [t[0]] + t[1..];
    }
  }

  lemma {:induction false} UnescapeEscapeAttr(v: bytes)
    ensures Unescape(EscapeAttr(v)) == Some(v)
    ensures DQUOTE !in EscapeAttr(v) && LT !in EscapeAttr(v)
  {
    if v != [] {
      UnescapeEscapeAttr(v[1..]);
      var e, rest := EscapeAttrByte(v[0]), EscapeAttr(v[1..]);
      UnescapeOne(e, rest, v[0]);
      assert v == [v[0]] + v[1..];
    }
  }

  lemma UnescapeOne(e: bytes, rest: bytes, b: byte)
    requires e == EscapeTextByte(b) || e == EscapeAttrByte(b)
    requires Unescape(rest).Some?
    ensures Unescape(e + rest) == Some([b] + Unescape(rest).value)
  {
    assert (e + rest)[|e|..] == rest;
    assert (e + rest)[..|e|] == e;
    if e != [b] {
      ReferenceOne(e, rest, b);
    }
  }

  lemma ReferenceOne(e: bytes, rest: bytes, b: byte)
    requires e == EscapeTextByte(b) || e == EscapeAttrByte(b)
    requires e != [b]
    ensures Reference(e + rest) == Some((b, |e|))
  {
    var s := e + rest;
    assert s[0] == e[0] && s[1] == e[1] && s[2] == e[2] && s[3] == e[3];
    assert |e| > 4 ==> s[4] == e[4];
    assert |e| > 5 ==> s[5] == e[5];
  }

  // ---------- reading undoes printing ----------

  /** The attributes a reader meets in a printed tag: values still escaped. */
  function RawAttrs(s: seq<Entry>, ns: bool): seq<Attr> {
    if s == [] then []
    else [Attr(KeyText(s[0], ns), EscapeAttr(s[0].value))] + RawAttrs(s[1..], ns)
  }

  /** The printed document as the pull reader delivers it. */
  function Reread(n: Normal): (f: Forest)
    ensures !HasFault(f)
  {
    match n
    case Done => Nil
    case Tag(name, ns, attrs, kids, next) =>
      RawAttrsSound(ns, true);
      RawAttrsSound(attrs, false);
      Element(name, RawAttrs(ns, true) + RawAttrs(attrs, false), Reread(kids), Reread(next))
    case Chars(t, next) => Text(Some(t), Reread(next))
  }

  lemma RawAttrsSound(s: seq<Entry>, ns: bool)
    ensures BadAttr !in RawAttrs(s, ns)
  {
  }

  lemma EntryPieces(key: bytes, body: bytes, s: bytes)
    requires EQUALS !in key && s == [SPACE] + key + ([EQUALS, DQUOTE] + body)
    ensures |s| == |key| + 3 + |body| && s[0] == SPACE && s[|key| + 2] == DQUOTE
    ensures Until(s, {EQUALS}) == |key| + 1
    ensures s[1..|key| + 1] == key && s[|key| + 3..] == body
  {
    hide Until;
    UntilIs([SPACE] + key, [EQUALS, DQUOTE] + body, {EQUALS});
    Cut([SPACE] + key + [EQUALS, DQUOTE], body);
    Append2([SPACE] + key, [EQUALS, DQUOTE], body);
    assert ([SPACE] + key)[1..] == key;
  }

  lemma ReadPrintedEntry(e: Entry, ns: bool, tail: bytes)
    requires EQUALS !in KeyText(e, ns)
    ensures ReadAttrs(PrintEntry(e, ns) + tail) ==
      var (items, rest) :- ReadAttrs(tail);
      Some(([Attr(KeyText(e, ns), EscapeAttr(e.value))] + items, rest))
  {
    hide KeyText, EscapeAttr, ReadAttrs;
    var key, raw := KeyText(e, ns), EscapeAttr(e.value);
    UnescapeEscapeAttr(e.value);
    Flat4([SPACE] + key, [EQUALS, DQUOTE], raw, [DQUOTE], tail);
    ReadItem(key, raw, tail);
  }

  lemma ReadItem(key: bytes, raw: bytes, tail: bytes)
    requires EQUALS !in key && DQUOTE !in raw
    ensures ReadAttrs([SPACE] + key + ([EQUALS, DQUOTE] + (raw + ([DQUOTE] + tail)))) ==
      var (items, rest) :- ReadAttrs(tail);
      Some(([Attr(key, raw)] + items, rest))
  {
    hide Until;
    var body := raw + ([DQUOTE] + tail);
    var s := [SPACE] + key + ([EQUALS, DQUOTE] + body);
    EntryPieces(key, body, s);
    UntilIs(raw, [DQUOTE] + tail, {DQUOTE});
    SliceTwice(body, |raw|, 1);
    Cut([DQUOTE], tail);
  }

  lemma {:induction false} ReadPrintedEntries(s: seq<Entry>, ns: bool, tail: bytes)
    requires forall i :: 0 <= i < |s| ==> EQUALS !in KeyText(s[i], ns)
    ensures ReadAttrs(PrintEntries(s, ns) + tail) ==
      var (items, rest) :- ReadAttrs(tail);
      Some((RawAttrs(s, ns) + items, rest))
  {
    hide KeyText, EscapeAttr, ReadAttrs, PrintEntry;
    if s == [] {
      assert PrintEntries(s, ns) + tail == tail;
      assert forall items: seq<Attr> :: RawAttrs(s, ns) + items == items;
    } else {
      var more := PrintEntries(s[1..], ns) + tail;
      Append2(PrintEntry(s[0], ns), PrintEntries(s[1..], ns), tail);
      ReadPrintedEntry(s[0], ns, more);
      ReadPrintedEntries(s[1..], ns, tail);
      if ReadAttrs(tail).Some? {
        var items := ReadAttrs(tail).value.0;
        Append2([Attr(KeyText(s[0], ns), EscapeAttr(s[0].value))], RawAttrs(s[1..], ns), items);
      }
    }
  }

  lemma OpenPieces(name: bytes, list: bytes, s: bytes)
    requires ReadableName(name) && list != [] && list[0] in {SPACE, GT}
    requires s == [LT] + (name + list)
    ensures s[0] == LT && |s| > 1 && s[1] != SLASH
    ensures Until(s[1..], {SPACE, GT}) == |name|
    ensures s[1..1 + |name|] == name && s[1 + |name|..] == list
  {
    hide Until;
    Cut([LT], name + list);
    UntilIs(name, list, {SPACE, GT});
    SliceTwice(s, 1, |name|);
  }

  lemma ReadPrintedItems(ns: seq<Entry>, attrs: seq<Entry>, tail: bytes)
    requires ReadableEntries(ns, true) && ReadableEntries(attrs, false)
    ensures var list := PrintEntries(ns, true) + (PrintEntries(attrs, false) + ([GT] + tail));
      list != [] && list[0] in {SPACE, GT}
      && ReadAttrs(list) == Some((RawAttrs(ns, true) + RawAttrs(attrs, false), tail))
  {
    hide KeyText, EscapeAttr, PrintEntry, PrintEntries, RawAttrs, Until;
    EntriesHead(ns, true);
    EntriesHead(attrs, false);
    assert ReadAttrs([GT] + tail) == Some(([], tail)) by {
      assert ([GT] + tail)[1..] == tail;
    }
    hide ReadAttrs;
    ReadPrintedEntries(ns, true, PrintEntries(attrs, false) + ([GT] + tail));
    ReadPrintedEntries(attrs, false, [GT] + tail);
    assert RawAttrs(attrs, false) + [] == RawAttrs(attrs, false);
  }

  lemma ReadPrintedOpen(name: bytes, ns: seq<Entry>, attrs: seq<Entry>, tail: bytes)
    requires ReadableName(name) && ReadableEntries(ns, true) && ReadableEntries(attrs, false)
    ensures ReadEvents(PrintOpen(name, ns, attrs) + tail) ==
      var rest :- ReadEvents(tail);
      Some([StartTag(name, RawAttrs(ns, true) + RawAttrs(attrs, false))] + rest)
  {
    hide PrintEntries, RawAttrs, ReadAttrs, Until, ReadableName, ReadableEntries;
    var list := PrintEntries(ns, true) + (PrintEntries(attrs, false) + ([GT] + tail));
    var s := PrintOpen(name, ns, attrs) + tail;
    assert s == [LT] + (name + list);
    ReadPrintedItems(ns, attrs, tail);
    OpenPieces(name, list, s);
  }

  lemma EntriesHead(s: seq<Entry>, ns: bool)
    ensures s == [] <==> PrintEntries(s, ns) == []
    ensures s != [] ==> PrintEntries(s, ns)[0] == SPACE
  {
    if s != [] {
      assert PrintEntry(s[0], ns)[0] == SPACE;
    }
  }

  lemma ReadPrintedEnd(name: bytes, tail: bytes)
    requires ReadableName(name)
    ensures ReadEvents(PrintEnd(name) + tail) ==
      var rest :- ReadEvents(tail);
      Some([EndTag(name)] + rest)
  {
    var s := PrintEnd(name) + tail;
    assert s[2..] == name + ([GT] + tail);
    UntilIs(name, [GT] + tail, {GT});
    assert s[2..2 + |name|] == s[2..][..|name|];
    assert s[2 + |name| + 1..] == s[2..][|name|..][1..] == tail;
  }

  lemma ReadPrintedText(t: bytes, tail: bytes)
    requires t != [] && (tail == [] || tail[0] == LT)
    ensures ReadEvents(EscapeText(t) + tail) ==
      var rest :- ReadEvents(tail);
      Some([TextEvent(Some(t))] + rest)
  {
    UnescapeEscapeText(t);
    assert |EscapeTextByte(t[0])| > 0;
    var e := EscapeText(t);
    UntilIs(e, tail, {LT});
    assert (e + tail)[0] == e[0];
  }

  lemma PrintHead(n: Normal)
    requires !n.Chars?
    ensures Print(n) == [] || Print(n)[0] == LT
  {
    if n.Tag? {
      assert PrintOpen(n.name, n.ns, n.attrs)[0] == LT;
    }
  }

  /** Reading a print yields exactly the events of the reread document. */
  lemma {:induction false} ReadPrinted(n: Normal, tail: bytes)
    requires WellFormed(n)
    requires tail == [] || tail[0] == LT
    ensures ReadEvents(Print(n) + tail) ==
      var rest :- ReadEvents(tail);
      Some(Events(Reread(n)) + rest)
  {
    hide PrintOpen, PrintEnd, EscapeText, RawAttrs, ReadEvents, ReadableEntries, ReadableName;
    match n
    case Done =>
      assert Print(n) + tail == tail;
      assert forall rest: seq<Event> :: [] + rest == rest;
    case Tag(name, ns, attrs, kids, next) =>
      var afterKids := PrintEnd(name) + (Print(next) + tail);
      Flat4(PrintOpen(name, ns, attrs), Print(kids), PrintEnd(name), Print(next), tail);
      ReadPrintedOpen(name, ns, attrs, Print(kids) + afterKids);
      assert afterKids[0] == LT by {
        assert PrintEnd(name) == [LT, SLASH] + name + [GT] by { PrintEndIs(name); }
      }
      ReadPrinted(kids, afterKids);
      ReadPrintedEnd(name, Print(next) + tail);
      ReadPrinted(next, tail);
      if ReadEvents(tail).Some? {
        Flat4([StartTag(name, RawAttrs(ns, true) + RawAttrs(attrs, false))], Events(Reread(kids)), [EndTag(name)],
                Events(Reread(next)), ReadEvents(tail).value);
      }
    case Chars(t, next) =>
      PrintHead(next);
      Append2(EscapeText(t), Print(next), tail);
      ReadPrintedText(t, Print(next) + tail);
      ReadPrinted(next, tail);
      if ReadEvents(tail).Some? {
        Append2([TextEvent(Some(t))], Events(Reread(next)), ReadEvents(tail).value);
      }
  }

  lemma PrintEndIs(name: bytes)
    ensures PrintEnd(name) == [LT, SLASH] + name + [GT]
  {
  }

  lemma {:induction false} ReadRawEntries(s: seq<Entry>, ns: bool, which: bool)
    requires forall i :: 0 <= i < |s| ==> ReadableEntry(s[i], ns)
    ensures ReadEntries(RawAttrs(s, ns), which) == Some(if ns == which then s else [])
  {
    hide Unescape, EscapeAttr, KeyText, EntryOf, IsNsKey;
    if s != [] {
      UnescapeEscapeAttr(s[0].value);
      var key := KeyText(s[0], ns);
      assert IsNsKey(key) == ns && EntryOf(key, s[0].value) == s[0];
      ReadRawEntries(s[1..], ns, which);
      assert RawAttrs(s, ns)[1..] == RawAttrs(s[1..], ns);
      assert [s[0]] + s[1..] == s;
    }
  }

  lemma {:induction false} ReadEntriesAppend(a: seq<Attr>, b: seq<Attr>, ns: bool)
    ensures ReadEntries(a + b, ns) ==
      var x :- ReadEntries(a, ns);
      var y :- ReadEntries(b, ns);
      Some(x + y)
  {
    if a == [] {
      assert a + b == b;
      assert forall y: seq<Entry> :: [] + y == y;
    } else {
      ReadEntriesAppend(a[1..], b, ns);
      assert (a + b)[1..] == a[1..] + b;
      if a[0].Attr? && Unescape(a[0].value).Some? && ReadEntries(a[1..], ns).Some? && ReadEntries(b, ns).Some? {
        var v := Unescape(a[0].value).value;
        Append2([EntryOf(a[0].key, v)], ReadEntries(a[1..], ns).value, ReadEntries(b, ns).value);
      }
    }
  }

  lemma ReadRawTag(ns: seq<Entry>, attrs: seq<Entry>)
    requires ReadableEntries(ns, true) && ReadableEntries(attrs, false)
    ensures var raw := RawAttrs(ns, true) + RawAttrs(attrs, false);
      ReadEntries(raw, true) == Some(ns) && ReadEntries(raw, false) == Some(attrs)
  {
    hide ReadEntries, RawAttrs, ReadableEntry;
    forall which: bool
      ensures ReadEntries(RawAttrs(ns, true) + RawAttrs(attrs, false), which) == Some(if which then ns else attrs)
    {
      ReadRawEntries(ns, true, which);
      ReadRawEntries(attrs, false, which);
      ReadEntriesAppend(RawAttrs(ns, true), RawAttrs(attrs, false), which);
      assert ns + [] == ns && [] + attrs == attrs;
    }
  }

  lemma {:induction false} BuildReread(n: Normal, tail: seq<Event>)
    requires WellFormed(n)
    requires tail == [] || tail[0].EndTag?
    ensures Build(Events(Reread(n)) + tail) == Some((n, tail))
  {
    match n
    case Done => assert Events(Reread(n)) + tail == tail;
    case Tag(name, ns, attrs, kids, next) =>
      hide Build, RawAttrs, ReadEntries, ReadableEntries, ReadableName;
      var raw := RawAttrs(ns, true) + RawAttrs(attrs, false);
      ReadRawTag(ns, attrs);
      var afterKids := [EndTag(name)] + (Events(Reread(next)) + tail);
      BuildReread(kids, afterKids);
      BuildReread(next, tail);
      EventsOfTag(name, raw, Reread(kids), Reread(next), tail);
      BuildTag(name, raw, Events(Reread(kids)), afterKids, Events(Reread(next)) + tail, Events(Reread(n)) + tail);
    case Chars(t, next) =>
      var events := Events(Reread(n)) + tail;
      assert events[1..] == Events(Reread(next)) + tail;
      BuildReread(next, tail);
  }

  lemma EventsOfTag(name: bytes, attrs: seq<Attr>, kids: Forest, next: Forest, tail: seq<Event>)
    ensures Events(Element(name, attrs, kids, next)) + tail
         == [StartTag(name, attrs)] + (Events(kids) + ([EndTag(name)] + (Events(next) + tail)))
  {
  }

  /** How `Build` puts an element together. */
  lemma BuildTag(name: bytes, raw: seq<Attr>, inner: seq<Event>, afterKids: seq<Event>, after: seq<Event>,
                 events: seq<Event>)
    requires ReadEntries(raw, true).Some? && ReadEntries(raw, false).Some?
    requires afterKids == [EndTag(name)] + after
    requires events == [StartTag(name, raw)] + (inner + afterKids)
    requires Build(inner + afterKids).Some? && Build(inner + afterKids).value.1 == afterKids
    requires Build(after).Some?
    ensures Build(events) ==
      Some((Tag(name, ReadEntries(raw, true).value, ReadEntries(raw, false).value,
                Build(inner + afterKids).value.0, Build(after).value.0), Build(after).value.1))
  {
    hide ReadEntries;
    assert events[1..] == inner + afterKids;
    assert afterKids[1..] == after;
  }

  /** Print and read are inverse on normal forms. */
  lemma ReadUndoesPrint(n: Normal)
    requires WellFormed(n)
    ensures ReadEvents(Print(n)) == Some(Events(Reread(n)))
    ensures Read(Print(n)) == Some(n)
  {
    ReadPrinted(n, []);
    assert Print(n) + [] == Print(n);
    assert ReadEvents([]) == Some([]);
    assert Events(Reread(n)) + [] == Events(Reread(n));
    BuildReread(n, []);
  }

  // ---------- main results ----------

  /** Reading the canonical bytes of a document returns its normal form. */
  lemma CanonicalBytesReadBack(f: Forest, target: Option<bytes>)
    requires Readable(f) && !HasFault(Strip(f, target))
    ensures var n := Normalise(Strip(f, target));
      WellFormed(n) && Canonicalise(Events(f), target) == Some(Print(n)) && Read(Print(n)) == Some(n)
  {
    var kept := Strip(f, target);
    LoopPrintsTree(f, target);
    StripReadable(f, target);
    PrintsNormalForm(kept);
    NormaliseWellFormed(kept);
    ReadUndoesPrint(Normalise(kept));
  }

  /** Two documents are digested alike exactly when their normal forms are equal. */
  lemma CanonicalBytesDetermineDocument(f: Forest, g: Forest, target: Option<bytes>)
    requires Readable(f) && !HasFault(Strip(f, target))
    requires Readable(g) && !HasFault(Strip(g, target))
    ensures Canonicalise(Events(f), target) == Canonicalise(Events(g), target)
        <==> Normalise(Strip(f, target)) == Normalise(Strip(g, target))
  {
    CanonicalBytesReadBack(f, target);
    CanonicalBytesReadBack(g, target);
  }
}
