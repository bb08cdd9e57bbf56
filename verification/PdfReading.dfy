/** The `/ByteRange` scan in plain terms: text, numbers and offsets (`crates/eidas-pades/src/scan.rs`). */
module PdfReading {
  import opened Wrappers
  import opened Bytes
  import opened PdfHex
  import opened PdfInts
  import opened PdfScan

  // ---------- UTF-8 (section 3 of RFC 3629) ----------

  /** A code point that is not a surrogate. */
  predicate IsScalar(c: nat) {
    c < 0xD800 || 0xE000 <= c < 0x11_0000
  }

  predicate AllScalar(t: seq<nat>) {
    forall i :: 0 <= i < |t| ==> IsScalar(t[i])
  }

  function EncodeChar(c: nat): (r: bytes)
    requires IsScalar(c)
    ensures r != []
  {
    if c < 0x80 then [c]
    else if c < 0x800 then [192 + c / 64, 128 + c % 64]
    else if c < 0x1_0000 then [224 + c / 4096, 128 + c / 64 % 64, 128 + c % 64]
    else [240 + c / 262144, 128 + c / 4096 % 64, 128 + c / 64 % 64, 128 + c % 64]
  }

  function EncodeUtf8(t: seq<nat>): bytes
    requires AllScalar(t)
  {
    if t == [] then [] else EncodeChar(t[0]) + EncodeUtf8(t[1..])
  }

  /** A number in base 64 and its digits. */
  lemma Base64(high: nat, low: nat, c: nat)
    requires low < 64
    ensures c == 64 * high + low <==> c / 64 == high && c % 64 == low
  {
  }

  lemma CharRoundTrip(c: nat, rest: bytes)
    requires IsScalar(c)
    ensures DecodeChar(EncodeChar(c) + rest) == Some((c, |EncodeChar(c)|))
  {
    var e := EncodeChar(c);
    var s := e + rest;
    var c1 := c / 64;
    var c2 := c1 / 64;
    assert c / 4096 == c2 && c / 262144 == c2 / 64;
    FirstBytes(e, rest);
    hide EncodeChar;
    if c < 0x80 {
    } else if c < 0x800 {
    } else if c < 0x1_0000 {
      assert s[0] == 224 + c2 && s[1] == 128 + c1 % 64 && s[2] == 128 + c % 64;
    } else {
      assert s[0] == 240 + c2 / 64 && s[1] == 128 + c2 % 64 && s[2] == 128 + c1 % 64 && s[3] == 128 + c % 64;
    }
  }

  lemma FirstBytes(e: bytes, rest: bytes)
    requires e != []
    ensures (e + rest)[0] == e[0]
    ensures |e| > 1 ==> (e + rest)[1] == e[1]
    ensures |e| > 2 ==> (e + rest)[2] == e[2]
    ensures |e| > 3 ==> (e + rest)[3] == e[3]
  {
  }

  lemma CharUnique(s: bytes)
    requires s != [] && DecodeChar(s).Some?
    ensures var (c, n) := DecodeChar(s).value; IsScalar(c) && s[..n] == EncodeChar(c)
  {
    hide EncodeChar;
    var (c, n) := DecodeChar(s).value;
    if n == 1 {
      OneByte(c);
      assert s[..1] == [s[0]];
    } else if n == 2 {
      TwoBytes(s[0] - 192, Low6(s[1]));
      assert s[..2] == [s[0], s[1]];
    } else if n == 3 {
      ThreeBytes(s[0] - 224, Low6(s[1]), Low6(s[2]));
      assert s[..3] == [s[0], s[1], s[2]];
    } else {
      FourBytes(s[0] - 240, Low6(s[1]), Low6(s[2]), Low6(s[3]));
      assert s[..4] == [s[0], s[1], s[2], s[3]];
    }
  }

  lemma OneByte(c: nat)
    requires c < 0x80
    ensures EncodeChar(c) == [c]
  {
  }

  lemma TwoBytes(y: nat, z: nat)
    requires 2 <= y < 32 && z < 64
    ensures var c := y * 0x40 + z; IsScalar(c) && EncodeChar(c) == [192 + y, 128 + z]
  {
    Base64(y, z, y * 0x40 + z);
  }

  lemma ThreeBytes(x: nat, y: nat, z: nat)
    requires x < 16 && y < 64 && z < 64 && (x == 0 ==> y >= 32) && (x == 13 ==> y < 32)
    ensures var c := x * 0x1000 + y * 0x40 + z; IsScalar(c) && EncodeChar(c) == [224 + x, 128 + y, 128 + z]
  {
    ThreeDigits(x, y, z);
  }

  lemma FourBytes(w: nat, x: nat, y: nat, z: nat)
    requires w < 5 && x < 64 && y < 64 && z < 64 && (w == 0 ==> x >= 16) && (w == 4 ==> x < 16)
    ensures var c := w * 0x4_0000 + x * 0x1000 + y * 0x40 + z;
      IsScalar(c) && EncodeChar(c) == [240 + w, 128 + x, 128 + y, 128 + z]
  {
    FourDigits(w, x, y, z);
  }

  lemma ThreeDigits(x: nat, y: nat, z: nat)
    requires y < 64 && z < 64
    ensures var c := x * 0x1000 + y * 0x40 + z; c / 4096 == x && c / 64 % 64 == y && c % 64 == z
  {
    var c := x * 0x1000 + y * 0x40 + z;
    Base64(64 * x + y, z, c);
    Base64(x, y, 64 * x + y);
    assert c / 4096 == (64 * x + y) / 64;
  }

  lemma FourDigits(w: nat, x: nat, y: nat, z: nat)
    requires x < 64 && y < 64 && z < 64
    ensures var c := w * 0x4_0000 + x * 0x1000 + y * 0x40 + z;
      c / 262144 == w && c / 4096 % 64 == x && c / 64 % 64 == y && c % 64 == z
  {
    var c := w * 0x4_0000 + x * 0x1000 + y * 0x40 + z;
    ThreeDigits(64 * w + x, y, z);
    Base64(w, x, 64 * w + x);
    assert c / 262144 == (64 * w + x) / 64;
  }

  /** Exactly the encodings of scalar values decode, and to those values: no overlong form, no surrogate. */
  lemma {:induction false} Utf8Exactly(s: bytes, t: seq<nat>)
    ensures DecodeUtf8(s) == Some(t) <==> AllScalar(t) && EncodeUtf8(t) == s
    decreases |s|
  {
    hide DecodeChar, EncodeChar, IsScalar;
    if s == [] {
      assert t != [] && AllScalar(t) ==> EncodeUtf8(t) != [];
    } else {
      if DecodeUtf8(s) == Some(t) {
        CharUnique(s);
        var (c, n) := DecodeChar(s).value;
        assert t == [c] + t[1..];
        Utf8Exactly(s[n..], t[1..]);
        assert s == s[..n] + s[n..];
      }
      if AllScalar(t) && EncodeUtf8(t) == s {
        var c, rest := t[0], EncodeUtf8(t[1..]);
        CharRoundTrip(c, rest);
        Cut(EncodeChar(c), rest);
        Utf8Exactly(rest, t[1..]);
        assert t == [c] + t[1..];
      }
    }
  }

  // ---------- words and numbers ----------

  /** The code points with the Unicode property `White_Space`. */
  lemma WhitespaceExactly(c: nat)
    ensures IsWhitespace(c) <==>
      c in {9, 10, 11, 12, 13, 32, 133, 160, 5760, 8192, 8193, 8194, 8195, 8196, 8197, 8198, 8199, 8200, 8201, 8202,
            8232, 8233, 8239, 8287, 12288}
  {
  }

  /** Splitting at any white space and splitting both sides gives all words, in order. */
  lemma {:induction false} WordsAround(a: seq<nat>, c: nat, b: seq<nat>)
    requires IsWhitespace(c)
    ensures Words(a + [c] + b) == Words(a) + Words(b)
    decreases |a|
  {
    hide IsWhitespace;
    var s := a + [c] + b;
    if a == [] {
      assert s[1..] == b;
    } else if IsWhitespace(a[0]) {
      assert s[1..] == a[1..] + [c] + b;
      WordsAround(a[1..], c, b);
    } else {
      var n := WordLength(a);
      SameRun(a, [c] + b);
      assert s == a + ([c] + b);
      assert s[..n] == a[..n];
      assert s[n..] == a[n..] + [c] + b;
      WordsAround(a[n..], c, b);
      Append2([a[..n]], Words(a[n..]), Words(b));
    }
  }

  lemma {:induction false} SameRun(a: seq<nat>, rest: seq<nat>)
    requires rest != [] && IsWhitespace(rest[0])
    ensures WordLength(a + rest) == WordLength(a)
  {
    var n := WordLength(a);
    assert forall i :: 0 <= i < |a| ==> (a + rest)[i] == a[i];
    assert (a + rest)[|a|] == rest[0];
  }

  /** Text without white space is one word, and nothing holds none. */
  lemma OneWord(w: seq<nat>)
    requires forall i :: 0 <= i < |w| ==> !IsWhitespace(w[i])
    ensures Words(w) == if w == [] then [] else [w]
  {
    if w != [] {
      assert WordLength(w) == |w|;
      assert w[..|w|] == w && w[|w|..] == [];
    }
  }

  predicate AllDigits(s: seq<nat>) {
    forall i :: 0 <= i < |s| ==> 48 <= s[i] <= 57
  }

  /** The number the digits stand for, read from the left behind the number `high`. */
  function Number(high: nat, s: seq<nat>): nat
    requires AllDigits(s)
    decreases |s|
  {
    if s == [] then high else Number(10 * high + (s[0] - 48), s[1..])
  }

  lemma {:induction false} NumberSnoc(high: nat, s: seq<nat>, d: nat)
    requires AllDigits(s) && 48 <= d <= 57
    ensures Number(high, s + [d]) == 10 * Number(high, s) + (d - 48)
    decreases |s|
  {
    if s == [] {
      assert ([] + [d])[1..] == [];
    } else {
      NumberSnoc(10 * high + (s[0] - 48), s[1..], d);
      assert (s + [d])[1..] == s[1..] + [d];
    }
  }

  lemma {:induction false} DigitsValueExactly(s: seq<nat>, v: nat)
    ensures DigitsValue(s) == Some(v) <==> AllDigits(s) && Number(0, s) == v
  {
    if s != [] {
      var n := |s| - 1;
      var front := s[..n];
      assert s == front + [s[n]];
      if DigitsValue(front).Some? {
        DigitsValueExactly(front, DigitsValue(front).value);
        if 48 <= s[n] <= 57 { NumberSnoc(0, front, s[n]); }
      } else if AllDigits(front) {
        DigitsValueExactly(front, Number(0, front));
      }
    }
  }

  /** A number is decimal digits, with one plus sign allowed in front, standing for less than 2^64. */
  lemma ParseUsizeExactly(s: seq<nat>, v: nat)
    ensures ParseUsize(s) == Some(v) <==>
      var digits := if |s| > 1 && s[0] == 43 then s[1..] else s;
      digits != [] && AllDigits(digits) && Number(0, digits) == v && v < 18446744073709551616
  {
    var digits := if |s| > 1 && s[0] == 43 then s[1..] else s;
    DigitsValueExactly(digits, v);
  }

  // ---------- offsets ----------

  /** The keyword's text. */
  lemma KeyExactly(pdf: bytes, p: nat)
    ensures KeyAt(pdf, p) <==> p + 10 <= |pdf| && pdf[p..p + 10] == Ascii("/ByteRange")
  {
    assert KEY == Ascii("/ByteRange");
  }

  /** The byte stands at offset `i`, and not between `from` and there. */
  ghost predicate FirstFrom(s: bytes, from: nat, b: byte, i: nat) {
    from <= i < |s| && s[i] == b && forall k :: from <= k < i ==> s[k] != b
  }

  lemma PositionExactly(s: bytes, from: nat, stop: nat, b: byte, i: nat)
    requires from <= stop <= |s|
    ensures from <= i ==> (Position(s[from..stop], b) == Some(i - from) <==> FirstFrom(s, from, b, i) && i < stop)
  {
    var t := s[from..stop];
    assert forall k :: from <= k < stop ==> t[k - from] == s[k];
    assert forall k :: 0 <= k < |t| ==> t[k] == s[from + k];
  }

  /**
   The array text lies between the first `[` after the keyword and the first `]` after that, which
   must come within 256 bytes of it.
   */
  ghost predicate IsArrayText(pdf: bytes, p: nat, open: nat, close: nat) {
    FirstFrom(pdf, p + 10, 91, open) && FirstFrom(pdf, open, 93, close) && close < open + 256
  }

  lemma ArrayTextExactly(pdf: bytes, p: nat, open: nat, close: nat)
    requires p + 10 <= |pdf|
    ensures IsArrayText(pdf, p, open, close) ==> ArrayText(pdf, p) == Some(pdf[open + 1..close])
    ensures ArrayText(pdf, p).Some? ==> exists o: nat, c: nat :: IsArrayText(pdf, p, o, c)
  {
    hide Position;
    assert pdf[p + 10..] == pdf[p + 10..|pdf|];
    PositionExactly(pdf, p + 10, |pdf|, LBRACKET, open);
    if IsArrayText(pdf, p, open, close) {
      PositionExactly(pdf, open, WindowEnd(pdf, open), RBRACKET, close);
    }
    if ArrayText(pdf, p).Some? {
      var i := Position(pdf[p + 10..], LBRACKET).value;
      var o := p + 10 + i;
      PositionExactly(pdf, p + 10, |pdf|, LBRACKET, o);
      var j := Position(pdf[o..WindowEnd(pdf, o)], RBRACKET).value;
      PositionExactly(pdf, o, WindowEnd(pdf, o), RBRACKET, o + j);
      assert IsArrayText(pdf, p, o, o + j);
    }
  }

  /** The hexadecimal string lies between the first `<` of the gap and the first `>` after it. */
  ghost predicate IsHexText(gap: bytes, lt: nat, gt: nat) {
    FirstFrom(gap, 0, 60, lt) && FirstFrom(gap, lt + 1, 62, gt)
  }

  lemma GapExactly(gap: bytes, lt: nat, gt: nat)
    ensures IsHexText(gap, lt, gt) ==> GapBytes(gap) == HexString(gap[lt + 1..gt])
    ensures GapBytes(gap).Some? ==> exists l: nat, g: nat :: IsHexText(gap, l, g)
  {
    hide Position, HexString;
    assert gap[0..|gap|] == gap;
    PositionExactly(gap, 0, |gap|, LT, lt);
    if IsHexText(gap, lt, gt) {
      assert gap[lt + 1..] == gap[lt + 1..|gap|];
      PositionExactly(gap, lt + 1, |gap|, GT, gt);
    }
    if GapBytes(gap).Some? {
      var l := Position(gap, LT).value;
      PositionExactly(gap, 0, |gap|, LT, l);
      assert gap[l + 1..] == gap[l + 1..|gap|];
      var g := l + 1 + Position(gap[l + 1..], GT).value;
      PositionExactly(gap, l + 1, |gap|, GT, g);
      assert IsHexText(gap, l, g);
    }
  }

  /** Where the four parts of a signature dictionary stand, and what they say. */
  ghost predicate IsDictionary(pdf: bytes, p: nat, loc: Location, open: nat, close: nat, lt: nat, gt: nat) {
    var r := loc.range;
    IsArrayText(pdf, p, open, close) && FourInts(pdf[open + 1..close]) == Some(r)
    && r.a + r.b < r.c && r.c + r.d <= |pdf|
    && (var gap := pdf[r.a + r.b..r.c];
        IsHexText(gap, lt, gt) && HexString(gap[lt + 1..gt]) == Some(loc.der))
    && loc.offset == p
  }

  /**
   A keyword scans exactly when an array of four integers follows it, the two ranges lie in the
   file with a gap between them, and the gap holds a hexadecimal string that decodes.
   */
  lemma ScanExactly(pdf: Pdf, p: nat, loc: Location)
    requires p + 10 <= |pdf|
    ensures ScanAt(pdf, p) == Some(loc) <==>
      exists open: nat, close: nat, lt: nat, gt: nat :: IsDictionary(pdf, p, loc, open, close, lt, gt)
  {
    hide FourInts, ArrayText, GapBytes, HexString, IsArrayText, IsHexText;
    if ScanAt(pdf, p) == Some(loc) {
      var r := loc.range;
      ArrayTextExactly(pdf, p, 0, 0);
      var open: nat, close: nat :| IsArrayText(pdf, p, open, close);
      ArrayTextExactly(pdf, p, open, close);
      var gap := pdf[r.a + r.b..r.c];
      GapExactly(gap, 0, 0);
      var lt: nat, gt: nat :| IsHexText(gap, lt, gt);
      GapExactly(gap, lt, gt);
      TextsInBounds(pdf, p, open, close);
      HexInBounds(gap, lt, gt);
      assert IsDictionary(pdf, p, loc, open, close, lt, gt);
    }
    if open: nat, close: nat, lt: nat, gt: nat :| IsDictionary(pdf, p, loc, open, close, lt, gt) {
      var r := loc.range;
      ArrayTextExactly(pdf, p, open, close);
      GapExactly(pdf[r.a + r.b..r.c], lt, gt);
    }
  }

  lemma TextsInBounds(pdf: bytes, p: nat, open: nat, close: nat)
    requires IsArrayText(pdf, p, open, close)
    ensures open < close < |pdf|
  {
  }

  lemma HexInBounds(gap: bytes, lt: nat, gt: nat)
    requires IsHexText(gap, lt, gt)
    ensures lt < gt < |gap|
  {
  }
}
