/** Hexadecimal strings in angle brackets (section 7.3.4.3 of ISO 32000-1), `crates/eidas-pades/src/scan.rs`. */
module PdfHex {
  import opened Wrappers
  import opened Bytes

  type nibble = n: int | 0 <= n < 16

  predicate IsAsciiWhitespace(b: byte) {
    b == SPACE || b == TAB || b == LF || b == FF || b == CR
  }

  function HexDigit(b: byte): Option<nibble> {
    if DIGIT_0 <= b <= DIGIT_9 then Some(b - DIGIT_0)
    else if 97 <= b <= 102 then Some(b - 97 + 10)   // a-f
    else if 65 <= b <= 70 then Some(b - 65 + 10)    // A-F
    else None
  }

  /** The digits of the string, white space ignored; any other byte is an error. */
  function Nibbles(s: bytes): Option<seq<nibble>> {
    if s == [] then Some([])
    else if IsAsciiWhitespace(s[0]) then Nibbles(s[1..])
    else
      var d :- HexDigit(s[0]);
      var rest :- Nibbles(s[1..]);
      Some([d] + rest)
  }

  function Octet(hi: nibble, lo: nibble): byte {
    16 * (hi as int) + lo as int
  }

  /** Two digits make a byte; a final lone digit is followed by an assumed 0. */
  function Pairs(ns: seq<nibble>): bytes {
    if ns == [] then []
    else if |ns| == 1 then [Octet(ns[0], 0)]
    else [Octet(ns[0], ns[1])] + Pairs(ns[2..])
  }

  function TrimZeros(s: bytes): bytes {
    if s != [] && s[|s| - 1] == 0 then TrimZeros(s[..|s| - 1]) else s
  }

  function HexString(s: bytes): Option<bytes> {
    var ns :- Nibbles(s);
    Some(TrimZeros(Pairs(ns)))
  }

  lemma {:induction false} NibblesAppend(s: bytes, t: bytes)
    ensures Nibbles(s + t) ==
      var a :- Nibbles(s);
      var b :- Nibbles(t);
      Some(a + b)
  {
    hide HexDigit, IsAsciiWhitespace;
    if s == [] {
      assert s + t == t;
      assert forall b: seq<nibble> :: [] + b == b;
    } else {
      NibblesAppend(s[1..], t);
      assert (s + t)[1..] == s[1..] + t;
      if HexDigit(s[0]).Some? && Nibbles(s[1..]).Some? && Nibbles(t).Some? {
        Append2([HexDigit(s[0]).value], Nibbles(s[1..]).value, Nibbles(t).value);
      }
    }
  }

  lemma {:induction false} PairsAppend(a: seq<nibble>, b: seq<nibble>)
    requires |a| % 2 == 0
    ensures Pairs(a + b) == Pairs(a) + Pairs(b)
  {
    if a == [] {
      assert a + b == b;
    } else {
      PairsAppend(a[2..], b);
      assert (a + b)[2..] == a[2..] + b;
      Append2([Octet(a[0], a[1])], Pairs(a[2..]), Pairs(b));
    }
  }

  lemma NibblesSnoc(s: bytes, i: nat)
    requires i < |s|
    ensures Nibbles(s[..i + 1]) ==
      if IsAsciiWhitespace(s[i]) then Nibbles(s[..i])
      else
        var a :- Nibbles(s[..i]);
        var d :- HexDigit(s[i]);
        Some(a + [d])
  {
    assert s[..i + 1] == s[..i] + [s[i]];
    NibblesAppend(s[..i], [s[i]]);
    assert [s[i]][1..] == [];
    var d := HexDigit(s[i]);
    if !IsAsciiWhitespace(s[i]) && d.Some? {
      assert Nibbles([]) == Some([]);
      assert [d.value] + [] == [d.value];
      assert Nibbles([s[i]]) == Some([d.value]);
    }
    if Nibbles(s[..i]).Some? {
      assert Nibbles(s[..i]).value + [] == Nibbles(s[..i]).value;
    }
  }

  /** Bytes and half-byte after the digits `ns`. */
  ghost predicate Accumulated(ns: seq<nibble>, out: bytes, half: Option<nibble>) {
    if |ns| % 2 == 0 then half.None? && out == Pairs(ns)
    else half == Some(ns[|ns| - 1]) && out == Pairs(ns[..|ns| - 1])
  }

  lemma Accumulate(ns: seq<nibble>, out: bytes, half: Option<nibble>, d: nibble)
    requires Accumulated(ns, out, half)
    ensures match half
      case None => Accumulated(ns + [d], out, Some(d))
      case Some(hi) => Accumulated(ns + [d], out + [Octet(hi, d)], None)
  {
    var all := ns + [d];
    assert all[..|all| - 1] == ns;
    if half.Some? {
      assert all == ns[..|ns| - 1] + [half.value, d];
      PairsAppend(ns[..|ns| - 1], [half.value, d]);
      assert [half.value, d][2..] == [];
    }
  }

  lemma Finish(ns: seq<nibble>, out: bytes, half: Option<nibble>)
    requires Accumulated(ns, out, half)
    ensures Pairs(ns) == if half.None? then out else out + [Octet(half.value, 0)]
  {
    if half.Some? {
      assert ns == ns[..|ns| - 1] + [half.value];
      PairsAppend(ns[..|ns| - 1], [half.value]);
    }
  }

  method DecodePdfHex(s: bytes) returns (r: Option<bytes>)
    ensures r == HexString(s)
  {
    var out: bytes := [];
    var half: Option<nibble> := None;
    assert Nibbles(s[..0]) == Some([]) && Accumulated([], out, half);
    hide Nibbles, HexDigit, IsAsciiWhitespace, Accumulated, Pairs;
    for i := 0 to |s|
      invariant Nibbles(s[..i]).Some? && Accumulated(Nibbles(s[..i]).value, out, half)
    {
      NibblesSnoc(s, i);
      var b := s[i];
      if !IsAsciiWhitespace(b) {
        var v := HexDigit(b);
        if v.None? {
          BadDigitFails(s, i);
          return None;
        }
        Accumulate(Nibbles(s[..i]).value, out, half, v.value);
        match half
        case None => half := v;
        case Some(hi) =>
          out := out + [Octet(hi, v.value)];
          half := None;
      }
    }
    assert s[..|s|] == s;
    ghost var ns := Nibbles(s).value;
    Finish(ns, out, half);
    if half.Some? {
      out := out + [Octet(half.value, 0)];
    }
    while out != [] && out[|out| - 1] == 0
      invariant TrimZeros(out) == TrimZeros(Pairs(ns))
    {
      out := out[..|out| - 1];
    }
    r := Some(out);
  }

  lemma BadDigitFails(s: bytes, i: nat)
    requires i < |s| && !IsAsciiWhitespace(s[i]) && HexDigit(s[i]).None?
    ensures Nibbles(s).None?
  {
    NibblesSnoc(s, i);
    assert s == s[..i + 1] + s[i + 1..];
    NibblesAppend(s[..i + 1], s[i + 1..]);
  }

  // ---------- the writer's side ----------

  const LOWER_DIGITS: bytes := [48, 49, 50, 51, 52, 53, 54, 55, 56, 57, 97, 98, 99, 100, 101, 102]  // 0123456789abcdef
  const UPPER_DIGITS: bytes := [48, 49, 50, 51, 52, 53, 54, 55, 56, 57, 65, 66, 67, 68, 69, 70]     // 0123456789ABCDEF

  lemma Digits()
    ensures LOWER_DIGITS == Ascii("0123456789abcdef") && UPPER_DIGITS == Ascii("0123456789ABCDEF")
  {
  }

  /** Each digit stands for its place in its alphabet, and every other byte for nothing. */
  lemma HexDigitExactly(b: byte, n: nibble)
    ensures HexDigit(b) == Some(n) <==> b == LOWER_DIGITS[n] || b == UPPER_DIGITS[n]
    ensures HexDigit(b).None? <==> b !in LOWER_DIGITS && b !in UPPER_DIGITS
  {
    InDigits(b);
  }

  lemma InDigits(b: byte)
    ensures b in LOWER_DIGITS <==> 48 <= b <= 57 || 97 <= b <= 102
    ensures b in UPPER_DIGITS <==> 48 <= b <= 57 || 65 <= b <= 70
  {
    if 48 <= b <= 57 { assert LOWER_DIGITS[b - 48] == b && UPPER_DIGITS[b - 48] == b; }
    if 97 <= b <= 102 { assert LOWER_DIGITS[b - 87] == b; }
    if 65 <= b <= 70 { assert UPPER_DIGITS[b - 55] == b; }
  }

  /** `s` spells the digits `ns`, each in either case, with tabs, line ends, form feeds and spaces anywhere. */
  predicate Spells(s: bytes, ns: seq<nibble>) {
    if s == [] then ns == []
    else if s[0] in {9, 10, 12, 13, 32} then Spells(s[1..], ns)
    else ns != [] && (s[0] == LOWER_DIGITS[ns[0]] || s[0] == UPPER_DIGITS[ns[0]]) && Spells(s[1..], ns[1..])
  }

  /** The digits a string spells are the digits that are read, and nothing else is read. */
  lemma {:induction false} SpelledExactly(s: bytes, ns: seq<nibble>)
    ensures Spells(s, ns) <==> Nibbles(s) == Some(ns)
  {
    hide HexDigit;
    if s != [] {
      if s[0] in {9, 10, 12, 13, 32} {
        SpelledExactly(s[1..], ns);
      } else if ns == [] {
        HexDigitExactly(s[0], 0);
      } else {
        SpelledExactly(s[1..], ns[1..]);
        HexDigitExactly(s[0], ns[0]);
        assert ns == [ns[0]] + ns[1..];
      }
    }
  }

  function NibblesOf(der: bytes): seq<nibble> {
    if der == [] then [] else [der[0] / 16, der[0] % 16] + NibblesOf(der[1..])
  }

  lemma {:induction false} PairsOfNibbles(der: bytes)
    ensures Pairs(NibblesOf(der)) == der
  {
    if der != [] {
      PairsOfNibbles(der[1..]);
      assert NibblesOf(der)[2..] == NibblesOf(der[1..]);
    }
  }

  lemma {:induction false} TrimPadding(der: bytes, pad: bytes)
    requires forall i :: 0 <= i < |pad| ==> pad[i] == 0
    ensures TrimZeros(der + pad) == TrimZeros(der)
    ensures der == [] || der[|der| - 1] != 0 <==> TrimZeros(der) == der
  {
    if pad == [] {
      assert der + pad == der;
      if der != [] { TrimShrinks(der[..|der| - 1]); }
    } else {
      assert (der + pad)[..|der + pad| - 1] == der + pad[..|pad| - 1];
      TrimPadding(der, pad[..|pad| - 1]);
    }
  }

  lemma TrimShrinks(s: bytes)
    ensures |TrimZeros(s)| <= |s|
  {
  }

  /**
   A string whose digits, in either case and with any white space, spell `der` and then zero
   bytes of padding decodes to `der` without trailing zeros; so to `der` itself exactly when
   `der` does not end in 0x00.
   */
  lemma HexRoundTrip(hex: bytes, der: bytes, pad: bytes)
    requires Spells(hex, NibblesOf(der + pad))
    requires forall i :: 0 <= i < |pad| ==> pad[i] == 0
    ensures HexString(hex) == Some(TrimZeros(der))
    ensures HexString(hex) == Some(der) <==> der == [] || der[|der| - 1] != 0
  {
    SpelledExactly(hex, NibblesOf(der + pad));
    PairsOfNibbles(der + pad);
    TrimPadding(der, pad);
  }

  /** A spelling of any octets exists: two lower-case digits each. */
  function LowerHex(der: bytes): bytes {
    if der == [] then [] else [LOWER_DIGITS[der[0] / 16], LOWER_DIGITS[der[0] % 16]] + LowerHex(der[1..])
  }

  lemma {:induction false} LowerHexSpells(der: bytes)
    ensures Spells(LowerHex(der), NibblesOf(der))
  {
    if der != [] {
      LowerHexSpells(der[1..]);
      var s, ns := LowerHex(der), NibblesOf(der);
      assert s[1..][1..] == LowerHex(der[1..]) && ns[1..][1..] == NibblesOf(der[1..]);
    }
  }

  /** `3a`, ` 3 A` and `3` are 0x3a, 0x3a and 0x30. */
  lemma HexExamples()
    ensures HexString([51, 97]) == Some([0x3A]) && HexString([32, 51, 32, 65]) == Some([0x3A])
    ensures HexString([51]) == Some([0x30])
  {
    var der: bytes := [0x3A];
    var ns: seq<nibble> := [3, 10];
    assert der[1..] == [] && NibblesOf([]) == [] && NibblesOf(der) == ns + [] == ns;
    assert der + [] == der;
    var s: bytes := [51, 97];
    assert s[1..][1..] == [] && ns[1..][1..] == [];
    assert Spells(s, ns);
    HexRoundTrip(s, der, []);
    var t: bytes := [32, 51, 32, 65];
    var t3, t2, t1 := t[1..][1..][1..], t[1..][1..], t[1..];
    assert t3[1..] == [] && ns[1..] == [10];
    assert Spells(t3, ns[1..]) && Spells(t2, ns[1..]) && Spells(t1, ns) && Spells(t, ns);
    HexRoundTrip(t, der, []);
    var one: bytes, lone: seq<nibble> := [51], [3];
    assert one[1..] == [] && lone[1..] == [];
    SpelledExactly(one, lone);
    assert Pairs(lone) == [0x30];
    TrimFixes([0x30]);
  }

  // ---------- the standard's reading ----------

  /** White space of section 7.2.2 of ISO 32000-1: what the source skips, and the null character. */
  predicate IsPdfWhitespace(b: byte) {
    b == 0 || IsAsciiWhitespace(b)
  }

  /** The digits of the string as section 7.3.4.3 of ISO 32000-1 reads them. */
  function IsoNibbles(s: bytes): Option<seq<nibble>> {
    if s == [] then Some([])
    else if IsPdfWhitespace(s[0]) then IsoNibbles(s[1..])
    else
      var d :- HexDigit(s[0]);
      var rest :- IsoNibbles(s[1..]);
      Some([d] + rest)
  }

  function IsoHexString(s: bytes): Option<bytes> {
    var ns :- IsoNibbles(s);
    Some(Pairs(ns))
  }

  /** What the source accepts the standard accepts, with the same digits; a null is all that is refused. */
  lemma {:induction false} NibblesFollowIso(s: bytes)
    ensures Nibbles(s).Some? <==> IsoNibbles(s).Some? && 0 !in s
    ensures Nibbles(s).Some? ==> Nibbles(s) == IsoNibbles(s)
  {
    if s != [] {
      NibblesFollowIso(s[1..]);
      assert 0 in s <==> s[0] == 0 || 0 in s[1..];
    }
  }

  lemma {:induction false} TrimFixes(s: bytes)
    ensures TrimZeros(s) == s <==> s == [] || s[|s| - 1] != 0
  {
    if s != [] { TrimShrinks(s[..|s| - 1]); }
  }

  /**
   On a string the standard accepts, decoding succeeds if and only if the string holds no null, and
   gives the standard's octets if and only if moreover they do not end in a zero octet.
   */
  lemma DecodingFollowsIsoExactly(s: bytes)
    requires IsoNibbles(s).Some?
    ensures Nibbles(s) == IsoNibbles(s) <==> 0 !in s
    ensures HexString(s).Some? <==> 0 !in s
    ensures HexString(s) == IsoHexString(s) <==>
      0 !in s && (IsoHexString(s).value == [] || IsoHexString(s).value[|IsoHexString(s).value| - 1] != 0)
  {
    NibblesFollowIso(s);
    TrimFixes(IsoHexString(s).value);
  }

  /** `4 NUL 1`, the octet 0x41 to the standard, is refused. */
  lemma NullIsRefused()
    ensures IsoHexString([52, 0, 49]) == Some([0x41]) && HexString([52, 0, 49]) == None
  {
    var s: bytes := [52, 0, 49];
    var one: seq<nibble> := [1];
    var both: seq<nibble> := [4, 1];
    assert one + [] == one && [4 as nibble] + one == both && both[2..] == [];
    var s3, s2, s1 := s[1..][1..][1..], s[1..][1..], s[1..];
    assert s3 == [] && s2[0] == 49 && s1[0] == 0;
    assert IsoNibbles(s3) == Some([]);
    assert IsoNibbles(s2) == Some(one);
    assert IsoNibbles(s1) == Some(one);
    assert IsoNibbles(s) == Some(both);
    assert Pairs(both) == [0x41];
    assert s[1] == 0;
    NibblesFollowIso(s);
  }
}
