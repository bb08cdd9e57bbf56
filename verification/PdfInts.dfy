/** The four integers of a `/ByteRange` array (`parse_four_ints` of `crates/eidas-pades/src/scan.rs`). */
module PdfInts {
  import opened Wrappers
  import opened Bytes

  const USIZE_MAX: nat := 0xFFFF_FFFF_FFFF_FFFF

  // ---------- text ----------

  predicate IsContinuation(b: byte) {
    0x80 <= b <= 0xBF
  }

  /** The first code point of UTF-8 text and its length; overlong forms and surrogates are errors. */
  function DecodeChar(s: bytes): (r: Option<(nat, nat)>)
    requires s != []
    ensures r.Some? ==> 0 < r.value.1 <= |s|
  {
    var b: int := s[0] as int;
    if b < 0x80 then Some((b, 1))
    else if 0xC2 <= b <= 0xDF && |s| >= 2 && IsContinuation(s[1]) then
      Some(((b - 0xC0) * 0x40 + Low6(s[1]), 2))
    else if 0xE0 <= b <= 0xEF && |s| >= 3 && IsContinuation(s[1]) && IsContinuation(s[2])
            && (b == 0xE0 ==> s[1] >= 0xA0) && (b == 0xED ==> s[1] <= 0x9F) then
      Some(((b - 0xE0) * 0x1000 + Low6(s[1]) * 0x40 + Low6(s[2]), 3))
    else if 0xF0 <= b <= 0xF4 && |s| >= 4 && IsContinuation(s[1]) && IsContinuation(s[2]) && IsContinuation(s[3])
            && (b == 0xF0 ==> s[1] >= 0x90) && (b == 0xF4 ==> s[1] <= 0x8F) then
      Some(((b - 0xF0) * 0x4_0000 + Low6(s[1]) * 0x1000 + Low6(s[2]) * 0x40 + Low6(s[3]), 4))
    else None
  }

  function Low6(b: byte): nat
    requires IsContinuation(b)
  {
    b as int - 0x80
  }

  function DecodeUtf8(s: bytes): Option<seq<nat>> {
    if s == [] then Some([])
    else
      var (c, n) :- DecodeChar(s);
      var rest :- DecodeUtf8(s[n..]);
      Some([c] + rest)
  }

  /** The Unicode `White_Space` property. */
  predicate IsWhitespace(c: nat) {
    9 <= c <= 13 || c == 0x20 || c == 0x85 || c == 0xA0 || c == 0x1680 || 0x2000 <= c <= 0x200A
    || c == 0x2028 || c == 0x2029 || c == 0x202F || c == 0x205F || c == 0x3000
  }

  /** Length of the leading run without white space. */
  function WordLength(s: seq<nat>): (n: nat)
    ensures n <= |s|
    ensures forall i :: 0 <= i < n ==> !IsWhitespace(s[i])
    ensures n < |s| ==> IsWhitespace(s[n])
  {
    if s == [] || IsWhitespace(s[0]) then 0 else 1 + WordLength(s[1..])
  }

  /** `str::split_whitespace`. */
  function Words(s: seq<nat>): seq<seq<nat>>
    decreases |s|
  {
    if s == [] then []
    else if IsWhitespace(s[0]) then Words(s[1..])
    else
      var n := WordLength(s);
      [s[..n]] + Words(s[n..])
  }

  // ---------- numbers ----------

  function DigitsValue(s: seq<nat>): Option<nat> {
    if s == [] then Some(0)
    else
      var high :- DigitsValue(s[..|s| - 1]);
      var d := s[|s| - 1];
      if DIGIT_0 <= d <= DIGIT_9 then Some(10 * high + (d - DIGIT_0)) else None
  }

  /** `usize::from_str`: an optional plus sign, then decimal digits within range. */
  function ParseUsize(s: seq<nat>): Option<nat> {
    var digits := if |s| > 1 && s[0] == PLUS then s[1..] else s;
    if digits == [] then None
    else
      var v :- DigitsValue(digits);
      if v <= USIZE_MAX then Some(v) else None
  }

  datatype ByteRange = ByteRange(a: nat, b: nat, c: nat, d: nat)

  /** The first four words, when there are four and each is a `usize`; later words are ignored. */
  function FourInts(s: bytes): Option<ByteRange> {
    var text :- DecodeUtf8(s);
    var w := Words(text);
    if |w| < 4 then None
    else
      var a :- ParseUsize(w[0]);
      var b :- ParseUsize(w[1]);
      var c :- ParseUsize(w[2]);
      var d :- ParseUsize(w[3]);
      Some(ByteRange(a, b, c, d))
  }

  method ParseFourInts(s: bytes) returns (r: Option<ByteRange>)
    ensures r == FourInts(s)
  {
    var text := DecodeUtf8(s);
    if text.None? { return None; }
    var words := Words(text.value);
    var vals := new nat[4](_ => 0);
    var n := 0;
    for i := 0 to |words|
      invariant n == if i <= 4 then i else 4
      invariant forall k :: 0 <= k < n ==> ParseUsize(words[k]) == Some(vals[k])
    {
      if n >= 4 { break; }
      var v := ParseUsize(words[i]);
      if v.None? { return None; }
      vals[n] := v.value;
      n := n + 1;
    }
    if n != 4 { return None; }
    r := Some(ByteRange(vals[0], vals[1], vals[2], vals[3]));
  }

  // ---------- the writer's side ----------

  function Decimal(n: nat): bytes {
    if n < 10 then [DIGIT_0 + n] else Decimal(n / 10) + [DIGIT_0 + n % 10]
  }

  predicate IsDigits(s: bytes) {
    s != [] && forall i :: 0 <= i < |s| ==> DIGIT_0 <= s[i] <= DIGIT_9
  }

  lemma {:induction false} DecimalParses(n: nat)
    ensures IsDigits(Decimal(n)) && DigitsValue(Decimal(n)) == Some(n)
    ensures n <= USIZE_MAX ==> ParseUsize(Decimal(n)) == Some(n)
  {
    if n < 10 {
      assert Decimal(n)[..0] == [];
      assert DigitsValue([]) == Some(0);
    } else {
      DecimalParses(n / 10);
      assert Decimal(n)[..|Decimal(n)| - 1] == Decimal(n / 10);
    }
    assert Decimal(n)[0] != PLUS;
  }

  /** A decimal below ten to the `k` has at most `k` digits. */
  lemma {:induction false} DecimalLength(n: nat, k: nat, limit: nat)
    requires k > 0 && limit == Power10(k) && n < limit
    ensures |Decimal(n)| <= k
  {
    if n >= 10 {
      DecimalLength(n / 10, k - 1, Power10(k - 1));
    }
  }

  function Power10(k: nat): (r: nat)
    ensures r > 0
  {
    if k == 0 then 1 else 10 * Power10(k - 1)
  }

  predicate IsAscii(s: bytes) {
    forall i :: 0 <= i < |s| ==> s[i] < 0x80
  }

  lemma {:induction false} AsciiDecodes(s: bytes)
    requires IsAscii(s)
    ensures DecodeUtf8(s) == Some(s)
  {
    if s != [] {
      AsciiDecodes(s[1..]);
      assert [s[0]] + s[1..] == s;
    }
  }

  /** The array as a signer writes it: four decimals, single spaces, then `pad` spaces. */
  function Spaces(n: nat): bytes {
    seq(n, _ => SPACE)
  }

  function RangeText(r: ByteRange, pad: nat): bytes {
    Decimal(r.a) + ([SPACE] + (Decimal(r.b) + ([SPACE] + (Decimal(r.c) + ([SPACE] + (Decimal(r.d) + Spaces(pad)))))))
  }

  lemma {:induction false} SpacesHaveNoWords(n: nat)
    ensures Words(Spaces(n)) == []
  {
    if n > 0 {
      SpacesHaveNoWords(n - 1);
      assert Spaces(n)[1..] == Spaces(n - 1);
    }
  }

  lemma FirstWord(word: bytes, rest: bytes)
    requires IsDigits(word)
    requires rest == [] || rest[0] == SPACE
    ensures Words(word + rest) == [word] + Words(rest)
    ensures Words([SPACE] + (word + rest)) == [word] + Words(rest)
  {
    var s := word + rest;
    var n := WordLength(s);
    assert forall i :: 0 <= i < |word| ==> s[i] == word[i];
    assert rest != [] ==> s[|word|] == SPACE;
    assert n == |word|;
    assert s[..n] == word && s[n..] == rest;
    assert ([SPACE] + s)[1..] == s;
  }

  lemma FourWords(a: bytes, b: bytes, c: bytes, d: bytes, pad: nat)
    requires IsDigits(a) && IsDigits(b) && IsDigits(c) && IsDigits(d)
    ensures var text := a + ([SPACE] + (b + ([SPACE] + (c + ([SPACE] + (d + Spaces(pad)))))));
      Words(text) == [a, b, c, d] && DecodeUtf8(text) == Some(text)
      && LBRACKET !in text && RBRACKET !in text
  {
    hide Words, DecodeUtf8, IsDigits;
    var t4 := d + Spaces(pad);
    var t3 := c + ([SPACE] + t4);
    var t2 := b + ([SPACE] + t3);
    var text := a + ([SPACE] + t2);
    assert IsPlain(Spaces(pad));
    assert IsPlain(text) by {
      hide IsPlain;
      AsciiParts(d, Spaces(pad));
      AsciiParts(c, [SPACE] + t4);
      AsciiParts(b, [SPACE] + t3);
      AsciiParts(a, [SPACE] + t2);
    }
    AsciiDecodes(text);
    hide IsPlain;
    SpacesHaveNoWords(pad);
    FirstWord(d, Spaces(pad));
    FirstWord(c, [SPACE] + t4);
    FirstWord(b, [SPACE] + t3);
    FirstWord(a, [SPACE] + t2);
    assert [a] + ([b] + ([c] + ([d] + []))) == [a, b, c, d];
  }

  predicate IsPlain(s: bytes) {
    IsAscii(s) && LBRACKET !in s && RBRACKET !in s
  }

  lemma AsciiParts(digits: bytes, rest: bytes)
    requires IsDigits(digits) && IsPlain(rest)
    ensures IsPlain(digits + rest) && IsPlain([SPACE] + (digits + rest))
  {
  }

  /** Reading the array back gives the four integers that were written. */
  lemma FourIntsRoundTrip(r: ByteRange, pad: nat)
    requires r.a <= USIZE_MAX && r.b <= USIZE_MAX && r.c <= USIZE_MAX && r.d <= USIZE_MAX
    ensures FourInts(RangeText(r, pad)) == Some(r)
    ensures LBRACKET !in RangeText(r, pad) && RBRACKET !in RangeText(r, pad)
  {
    hide Words, DecodeUtf8, Decimal, ParseUsize;
    DecimalParses(r.a);
    DecimalParses(r.b);
    DecimalParses(r.c);
    DecimalParses(r.d);
    FourWords(Decimal(r.a), Decimal(r.b), Decimal(r.c), Decimal(r.d), pad);
  }
}
