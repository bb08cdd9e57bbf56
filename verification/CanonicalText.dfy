/** Start tags spelled out: the order and the characters that are signed (`crates/eidas-xades/src/c14n.rs`). */
module CanonicalText {
  import opened Wrappers
  import opened Bytes
  import opened CanonicalOrder
  import opened C14n

  // ---------- the escapers, character by character ----------

  /** The references, letter by letter. */
  lemma References()
    ensures Ascii("&lt;") == [38, 108, 116, 59] && Ascii("&gt;") == [38, 103, 116, 59]
    ensures Ascii("&amp;") == [38, 97, 109, 112, 59] && Ascii("&quot;") == [38, 113, 117, 111, 116, 59]
    ensures Ascii("&#xD;") == [38, 35, 120, 68, 59] && Ascii("&#xA;") == [38, 35, 120, 65, 59]
    ensures Ascii("&#x9;") == [38, 35, 120, 57, 59]
  {
  }

  lemma Characters()
    ensures Ascii("<") == [60] && Ascii(">") == [62] && Ascii("&") == [38] && Ascii(" ") == [32]
    ensures Ascii("e") == [101] && Ascii("a") == [97] && Ascii("b") == [98] && Ascii("1") == [49] && Ascii("2") == [50]
  {
  }

  /** Text: the four references. */
  lemma EscapedText(b: byte)
    ensures EscapeText(Ascii("<")) == Ascii("&lt;") && EscapeText(Ascii(">")) == Ascii("&gt;")
    ensures EscapeText(Ascii("&")) == Ascii("&amp;") && EscapeText([13]) == Ascii("&#xD;")
    ensures b != 60 && b != 62 && b != 38 && b != 13 ==> EscapeText([b]) == [b]
  {
    hide Ascii, EscapeText;
    References();
    Characters();
    EscapeTextOne(b);
    EscapeTextOne(60);
    EscapeTextOne(62);
    EscapeTextOne(38);
    EscapeTextOne(13);
  }

  lemma EscapeTextOne(b: byte)
    ensures EscapeText([b]) == EscapeTextByte(b)
  {
    assert [b][1..] == [];
    assert EscapeTextByte(b) + [] == EscapeTextByte(b);
  }

  /** Attribute values: the six references. */
  lemma EscapedValue(b: byte)
    ensures EscapeAttr([34]) == Ascii("&quot;") && EscapeAttr(Ascii("<")) == Ascii("&lt;")
    ensures EscapeAttr(Ascii("&")) == Ascii("&amp;") && EscapeAttr([13]) == Ascii("&#xD;")
    ensures EscapeAttr([10]) == Ascii("&#xA;") && EscapeAttr([9]) == Ascii("&#x9;")
    ensures b != 34 && b != 60 && b != 38 && b != 13 && b != 10 && b != 9 ==> EscapeAttr([b]) == [b]
  {
    hide Ascii, EscapeAttr;
    References();
    Characters();
    EscapeAttrOne(b);
    EscapeAttrOne(34);
    EscapeAttrOne(60);
    EscapeAttrOne(38);
    EscapeAttrOne(13);
    EscapeAttrOne(10);
    EscapeAttrOne(9);
  }

  lemma EscapeAttrOne(b: byte)
    ensures EscapeAttr([b]) == EscapeAttrByte(b)
  {
    assert [b][1..] == [];
    assert EscapeAttrByte(b) + [] == EscapeAttrByte(b);
  }

  // ---------- start tags ----------

  /** ` key="value"` with the value escaped. */
  function Item(key: bytes, value: bytes): bytes {
    Ascii(" ") + key + [61, 34] + EscapeAttr(value) + [34]
  }

  predicate IsUnprefixed(key: bytes) {
    COLON !in key && key != Ascii("xmlns")
  }

  lemma Names()
    ensures XMLNS == Ascii("xmlns") && XMLNS_COLON == Ascii("xmlns:")
    ensures Ascii(" ") == [SPACE] && Ascii("<") == [LT] && Ascii(">") == [GT]
  {
  }

  lemma UnprefixedEntry(key: bytes, value: bytes)
    requires IsUnprefixed(key)
    ensures !IsNsKey(key) && EntryOf(key, value) == Entry([], key, value)
    ensures PrintEntry(Entry([], key, value), false) == Item(key, value)
  {
    Names();
    if |key| >= 6 {
      assert key[..6][5] == key[5] && key[5] in key;
    }
  }

  /** A prefixed attribute is filed by prefix, then local name, and printed under its own name. */
  lemma PrefixedEntry(prefix: bytes, local: bytes, value: bytes)
    requires prefix != [] && COLON !in prefix && prefix != Ascii("xmlns")
    ensures var key := prefix + [COLON] + local;
      !IsNsKey(key) && EntryOf(key, value) == Entry(prefix, local, value)
      && PrintEntry(Entry(prefix, local, value), false) == Item(key, value)
  {
    Names();
    var key := prefix + [COLON] + local;
    PositionAfter(prefix, COLON, local);
    assert key[..|prefix|] == prefix && key[|prefix| + 1..] == local;
    assert key[|prefix|] == COLON && COLON !in XMLNS;
    assert forall i :: 0 <= i < |prefix| ==> key[i] == prefix[i];
    if |key| >= 6 {
      var start := key[..6];
      if |prefix| < 5 {
        assert start[|prefix|] == COLON;
      } else if |prefix| == 5 {
        assert start[..5] == prefix && XMLNS_COLON[..5] == XMLNS;
      } else {
        assert start[5] == prefix[5] && prefix[5] in prefix;
      }
    }
  }

  /** A strictly sorted list of what the document files is its listing. */
  lemma ListingIs(attrs: seq<Attr>, ns: bool, s: seq<Entry>)
    requires Sorted(s) && forall e :: e in s <==> Files(attrs, ns, e)
    ensures Listing(attrs, ns) == s
  {
    assert IsListing(Listing(attrs, ns), attrs, ns);
    SortedUnique(Listing(attrs, ns), s);
  }

  /** Each listing goes up in the dictionary order of prefix, local name and value. */
  lemma ListingGoesUp(attrs: seq<Attr>, ns: bool, i: nat, j: nat)
    requires i < j < |Listing(attrs, ns)|
    ensures EntryBefore(Listing(attrs, ns)[i], Listing(attrs, ns)[j])
  {
    assert IsListing(Listing(attrs, ns), attrs, ns);
    EntryLessExactly(Listing(attrs, ns)[i], Listing(attrs, ns)[j]);
  }

  lemma PrintOne(e: Entry, ns: bool)
    ensures PrintEntries([], ns) == [] && PrintEntries([e], ns) == PrintEntry(e, ns)
  {
    assert [e][1..] == [];
    assert PrintEntry(e, ns) + [] == PrintEntry(e, ns);
  }

  lemma PrintTwo(e: Entry, f: Entry, ns: bool)
    ensures PrintEntries([e, f], ns) == PrintEntry(e, ns) + PrintEntry(f, ns)
  {
    assert [e, f][1..] == [f];
    PrintOne(f, ns);
  }

  /** Of two unprefixed attributes the one with the smaller name is printed first, whichever comes first. */
  lemma SmallerNameFirst(name: bytes, k: bytes, v: bytes, l: bytes, w: bytes)
    requires IsUnprefixed(k) && IsUnprefixed(l) && Before(k, l)
    ensures PrintStart(name, [Attr(k, v), Attr(l, w)]) == Ascii("<") + name + Item(k, v) + Item(l, w) + Ascii(">")
    ensures PrintStart(name, [Attr(l, w), Attr(k, v)]) == Ascii("<") + name + Item(k, v) + Item(l, w) + Ascii(">")
  {
    hide Listing, PrintEntries, Item, PrintEntry, Before, IsUnprefixed, Ascii;
    TwoListed([Attr(k, v), Attr(l, w)], k, v, l, w);
    TwoListed([Attr(l, w), Attr(k, v)], k, v, l, w);
    Names();
    UnprefixedEntry(k, v);
    UnprefixedEntry(l, w);
    PrintOne(Entry([], k, v), true);
    PrintTwo(Entry([], k, v), Entry([], l, w), false);
    TagText(name, Item(k, v), Item(l, w));
  }

  lemma TwoListed(attrs: seq<Attr>, k: bytes, v: bytes, l: bytes, w: bytes)
    requires IsUnprefixed(k) && IsUnprefixed(l) && Before(k, l)
    requires attrs == [Attr(k, v), Attr(l, w)] || attrs == [Attr(l, w), Attr(k, v)]
    ensures Listing(attrs, true) == [] && Listing(attrs, false) == [Entry([], k, v), Entry([], l, w)]
  {
    hide Listing, Before;
    UnprefixedEntry(k, v);
    UnprefixedEntry(l, w);
    BytesLessExactly(k, l);
    var s := [Entry([], k, v), Entry([], l, w)];
    assert attrs[0] in attrs && attrs[1] in attrs;
    assert forall a :: a in attrs <==> a == Attr(k, v) || a == Attr(l, w);
    ListingIs(attrs, true, []);
    assert Attr(k, v) in attrs && Attr(l, w) in attrs;
    assert Files(attrs, false, s[0]) && Files(attrs, false, s[1]);
    ListingIs(attrs, false, s);
  }

  lemma TagText(name: bytes, first: bytes, second: bytes)
    ensures [LT] + name + [] + (first + second) + [GT] == [LT] + name + first + second + [GT]
  {
    assert [LT] + name + [] == [LT] + name;
    Append2([LT] + name, first, second);
  }

  /** The default namespace is printed before prefixed ones, and declarations before attributes. */
  lemma DeclarationsFirst(name: bytes, uri: bytes, p: bytes, uri': bytes, k: bytes, v: bytes)
    requires p != [] && IsUnprefixed(k)
    ensures PrintStart(name, [Attr(k, v), Attr(Ascii("xmlns:") + p, uri'), Attr(Ascii("xmlns"), uri)])
         == Ascii("<") + name + Item(Ascii("xmlns"), uri) + Item(Ascii("xmlns:") + p, uri') + Item(k, v) + Ascii(">")
  {
    Names();
    var attrs := [Attr(k, v), Attr(XMLNS_COLON + p, uri'), Attr(XMLNS, uri)];
    var d, e, f := Entry([], [], uri), Entry(p, [], uri'), Entry([], k, v);
    DeclarationsListed(attrs, uri, p, uri', k, v);
    UnprefixedEntry(k, v);
    assert PrintEntry(d, true) == Item(XMLNS, uri) && PrintEntry(e, true) == Item(XMLNS_COLON + p, uri');
    hide Listing, PrintEntry, Item, PrintEntries;
    PrintTwo(d, e, true);
    PrintOne(f, false);
    var x, y := Item(XMLNS, uri), Item(XMLNS_COLON + p, uri');
    assert [LT] + name + (x + y) == [LT] + name + x + y;
  }

  lemma DeclarationsListed(attrs: seq<Attr>, uri: bytes, p: bytes, uri': bytes, k: bytes, v: bytes)
    requires p != [] && IsUnprefixed(k)
    requires attrs == [Attr(k, v), Attr(XMLNS_COLON + p, uri'), Attr(XMLNS, uri)]
    ensures Listing(attrs, true) == [Entry([], [], uri), Entry(p, [], uri')]
    ensures Listing(attrs, false) == [Entry([], k, v)]
  {
    hide Listing;
    UnprefixedEntry(k, v);
    var key := XMLNS_COLON + p;
    assert key[..6] == XMLNS_COLON && key[6..] == p && key != XMLNS;
    var s, t := [Entry([], [], uri), Entry(p, [], uri')], [Entry([], k, v)];
    assert forall a :: a in attrs <==> a == attrs[0] || a == attrs[1] || a == attrs[2];
    assert attrs[0] in attrs && attrs[1] in attrs && attrs[2] in attrs;
    assert Files(attrs, true, s[0]) && Files(attrs, true, s[1]) && Files(attrs, false, t[0]);
    ListingIs(attrs, true, s);
    ListingIs(attrs, false, t);
  }

  /** `<e b="2" a="1"/>`, octet by octet. */
  lemma EmptyElementPrints()
    ensures Canonicalise([EmptyTag(Ascii("e"), [Attr(Ascii("b"), Ascii("2")), Attr(Ascii("a"), Ascii("1"))])], None)
         == Some(Ascii("<e a=\"1\" b=\"2\"></e>"))
  {
    hide Listing, EscapeAttr, PrintStart, PrintEnd, Item, Run, Ascii;
    var name, a, b := Ascii("e"), Ascii("a"), Ascii("b");
    var attrs := [Attr(b, Ascii("2")), Attr(a, Ascii("1"))];
    AndB();
    SmallerNameFirst(name, a, Ascii("1"), b, Ascii("2"));
    ElementText();
    EmptyCanonicalises(name, attrs);
  }

  lemma AndB()
    ensures IsUnprefixed(Ascii("a")) && IsUnprefixed(Ascii("b")) && Before(Ascii("a"), Ascii("b"))
  {
    Characters();
    assert |Ascii("xmlns")| == 5;
    var a, b := Ascii("a"), Ascii("b");
    assert 0 < |a| && 0 < |b| && a[..0] == b[..0] && a[0] == 97 && b[0] == 98;
    assert FirstSmaller(a, b, 0);
    assert Before(a, b);
  }

  lemma EmptyCanonicalises(name: bytes, attrs: seq<Attr>)
    requires BadAttr !in attrs
    ensures Canonicalise([EmptyTag(name, attrs)], None) == Some(PrintStart(name, attrs) + PrintEnd(name))
  {
    hide PrintStart, PrintEnd, Run;
    var f := Hollow(name, attrs, Nil);
    assert Events(f) == [EmptyTag(name, attrs)];
    LoopPrintsTree(f, None);
    assert Strip(Nil, None) == Nil && Strip(f, None) == f && !HasFault(f);
    var tag := PrintStart(name, attrs) + PrintEnd(name);
    assert tag + [] == tag;
    assert PrintForest(Nil) == [] && PrintForest(f) == tag + PrintForest(Nil);
  }

  lemma ElementText()
    ensures Ascii("<") + Ascii("e") + Item(Ascii("a"), Ascii("1")) + Item(Ascii("b"), Ascii("2")) + Ascii(">")
          + PrintEnd(Ascii("e"))
         == Ascii("<e a=\"1\" b=\"2\"></e>")
  {
    hide EscapeAttr, Ascii;
    Characters();
    EscapedValue(49);
    EscapedValue(50);
    assert Item([97], [49]) == [32, 97, 61, 34, 49, 34];
    assert Item([98], [50]) == [32, 98, 61, 34, 50, 34];
    assert PrintEnd([101]) == [60, 47, 101, 62];
    ElementLetters();
    hide Item, PrintEnd;
    assert [60] + [101] + [32, 97, 61, 34, 49, 34] + [32, 98, 61, 34, 50, 34] + [62] + [60, 47, 101, 62]
      == [60, 101, 32, 97, 61, 34, 49, 34, 32, 98, 61, 34, 50, 34, 62, 60, 47, 101, 62];
  }

  lemma ElementLetters()
    ensures Ascii("<e a=\"1\" b=\"2\"></e>")
         == [60, 101, 32, 97, 61, 34, 49, 34, 32, 98, 61, 34, 50, 34, 62, 60, 47, 101, 62]
  {
  }

  // ---------- what is stripped ----------

  /** The local name: everything behind the first colon, or the whole name. */
  lemma StripsByLocalName(prefix: bytes, local: bytes, target: Option<bytes>)
    requires COLON !in prefix
    ensures ShouldStrip(prefix + [COLON] + local, target) <==> target == Some(local)
    ensures ShouldStrip(prefix, target) <==> target == Some(prefix)
  {
    PositionAfter(prefix, COLON, local);
    var name := prefix + [COLON] + local;
    assert name[|prefix| + 1..] == local;
  }

  /** No element of the forest has the target's local name. */
  predicate FreeOf(f: Forest, target: Option<bytes>) {
    match f
    case Nil => true
    case Element(name, _, kids, next) =>
      !ShouldStrip(name, target) && FreeOf(kids, target) && FreeOf(next, target)
    case Hollow(name, _, next) => !ShouldStrip(name, target) && FreeOf(next, target)
    case Text(_, next) => FreeOf(next, target)
    case CData(_, next) => FreeOf(next, target)
    case Other(next) => FreeOf(next, target)
  }

  /** Stripping leaves no target and changes exactly the documents that had one. */
  lemma {:induction false} StripExactly(f: Forest, target: Option<bytes>)
    ensures FreeOf(Strip(f, target), target)
    ensures FreeOf(f, target) <==> Strip(f, target) == f
  {
    hide ShouldStrip;
    match f
    case Nil =>
    case Element(name, attrs, kids, next) =>
      StripExactly(kids, target);
      StripExactly(next, target);
      if ShouldStrip(name, target) { StripFree(f, target); }
    case Hollow(name, attrs, next) =>
      StripExactly(next, target);
      if ShouldStrip(name, target) { StripFree(f, target); }
    case Text(t, next) => StripExactly(next, target);
    case CData(d, next) => StripExactly(next, target);
    case Other(next) => StripExactly(next, target);
  }

  lemma StripFree(f: Forest, target: Option<bytes>)
    requires FreeOf(Strip(f, target), target) && !FreeOf(f, target)
    ensures Strip(f, target) != f
  {
  }

  /** Taking a target subtree out, or putting any other one in, leaves the rest alone. */
  lemma StripIsLocal(name: bytes, attrs: seq<Attr>, kids: Forest, next: Forest, target: Option<bytes>)
    ensures ShouldStrip(name, target) ==> Strip(Element(name, attrs, kids, next), target) == Strip(next, target)
    ensures ShouldStrip(name, target) ==> Strip(Hollow(name, attrs, next), target) == Strip(next, target)
    ensures !ShouldStrip(name, target) ==>
      Strip(Element(name, attrs, kids, next), target) == Element(name, attrs, Strip(kids, target), Strip(next, target))
    ensures !ShouldStrip(name, target) ==>
      Strip(Hollow(name, attrs, next), target) == Hollow(name, attrs, Strip(next, target))
  {
  }
}
