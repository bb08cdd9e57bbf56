/** The hand-written decoders of time-stamp tokens (`crates/eidas-timestamp/src/tst.rs`). */
module TimestampCodecs {
  import opened Wrappers
  import opened Bytes
  import opened PdfInts

  const DOT: byte := 46
  const TWO_64: nat := 0x1_0000_0000_0000_0000

  // ---------- object identifiers (section 8.19 of X.690) ----------

  /** The value of base-128 digits, however many; the top bit of each octet is a flag. */
  function Base128Value(s: bytes): nat {
    if s == [] then 0 else 128 * Base128Value(s[..|s| - 1]) + s[|s| - 1] % 128
  }

  /** Octets up to and with the first whose continuation bit is clear; `None` if there is none. */
  function ArcLength(s: bytes): (r: Option<nat>)
    ensures r.Some? ==> 0 < r.value <= |s| && s[r.value - 1] < 128
    ensures r.Some? ==> forall i :: 0 <= i < r.value - 1 ==> s[i] >= 128
    ensures r.None? <==> forall i :: 0 <= i < |s| ==> s[i] >= 128
  {
    if s == [] then None
    else if s[0] < 128 then Some(1)
    else
      var n :- ArcLength(s[1..]);
      Some(n + 1)
  }

  /** Every arc after the first octet. The 64-bit shift drops what does not fit. */
  function LaterArcs(s: bytes): Option<seq<nat>>
    decreases |s|
  {
    if s == [] then Some([])
    else
      var n :- ArcLength(s);
      var rest :- LaterArcs(s[n..]);
      Some([Base128Value(s[..n]) % TWO_64] + rest)
  }

  function Arcs(body: bytes): Option<seq<nat>> {
    if body == [] then None
    else
      var later :- LaterArcs(body[1..]);
      Some([body[0] / 40, body[0] % 40] + later)
  }

  function DotArcs(arcs: seq<nat>): bytes {
    if arcs == [] then [] else DotArcs(arcs[..|arcs| - 1]) + [DOT] + Decimal(arcs[|arcs| - 1])
  }

  function Dotted(arcs: seq<nat>): bytes
    requires arcs != []
  {
    Decimal(arcs[0]) + DotArcs(arcs[1..])
  }

  /** `checked_shl(7)`: only the shift amount is checked. */
  function Shl7(value: nat): nat {
    value * 128 % TWO_64
  }

  function CheckedAdd(x: nat, y: nat): Option<nat> {
    if x + y < TWO_64 then Some(x + y) else None
  }

  /** So the addition that follows never overflows, and the arc is kept modulo 2^64. */
  lemma ShiftedAdd(value: nat, full: nat, b: byte)
    requires value == full % TWO_64
    ensures CheckedAdd(Shl7(value), b % 128) == Some((128 * full + b % 128) % TWO_64)
  {
    var q := full / TWO_64;
    assert full == q * TWO_64 + value;
    assert 128 * full == (128 * q) * TWO_64 + 128 * value;
    ModAdd(128 * value, 128 * q);
    assert Shl7(value) == 128 * full % TWO_64;
    var w := 128 * full;
    assert Shl7(value) % 128 == 0;
    assert Shl7(value) + b % 128 < TWO_64;
    var p := w / TWO_64;
    assert w + b % 128 == p * TWO_64 + (Shl7(value) + b % 128);
    ModAdd(Shl7(value) + b % 128, p);
  }

  lemma ModAdd(x: nat, k: nat)
    ensures (k * TWO_64 + x) % TWO_64 == x % TWO_64
  {
    if k > 0 {
      ModAdd(x, k - 1);
      assert k * TWO_64 + x == ((k - 1) * TWO_64 + x) + TWO_64;
    }
  }

  method DecodeOidToDotted(body: bytes) returns (r: Option<bytes>)
    ensures r == match Arcs(body) case None => None case Some(a) => Some(Dotted(a))
  {
    hide Decimal, Base128Value, CheckedAdd, Shl7, LaterArcs, DotArcs, ArcLength;
    if body == [] { return None; }
    var first := body[0];
    var arc1, arc2 := first / 40, first % 40;
    var out := Decimal(arc1) + [DOT] + Decimal(arc2);
    DotOne(arc2);
    PrefixNothing(LaterArcs(body[1..]));
    ghost var later: seq<nat> := [];
    assert [arc2] + later == [arc2];
    Append2(Decimal(arc1), [DOT], Decimal(arc2));
    var i := 1;
    while i < |body|
      invariant 1 <= i <= |body|
      invariant out == Decimal(arc1) + DotArcs([arc2] + later)
      invariant LaterArcs(body[1..]) == Prefixed(later, LaterArcs(body[i..]))
    {
      var value, next := DecodeArc(body, i);
      LaterArcsStep(body, i);
      if value.None? { return None; }
      ghost var arc := value.value;
      PrefixMore(later, [arc], LaterArcs(body[next..]));
      DotMore([arc2] + later, arc);
      Append3(Decimal(arc1), DotArcs([arc2] + later), [DOT], Decimal(arc));
      Append2([arc2], later, [arc]);
      i := next;
      out := out + [DOT];
      out := out + Decimal(value.value);
      later := later + [arc];
    }
    ghost var all: seq<nat> := [arc1, arc2] + later;
    assert LaterArcs(body[i..]) == Some([]) by { NoArcsLeft(body, i); }
    assert later + [] == later;
    assert all[1..] == [arc2] + later;
    assert Arcs(body) == Some(all);
    r := Some(out);
  }

  lemma NoArcsLeft(body: bytes, i: nat)
    requires i == |body|
    ensures LaterArcs(body[i..]) == Some([])
  {
  }

  lemma LaterArcsStep(body: bytes, i: nat)
    requires i < |body|
    ensures ArcLength(body[i..]).None? ==> LaterArcs(body[i..]).None?
    ensures ArcLength(body[i..]).Some? ==>
      var next := i + ArcLength(body[i..]).value;
      LaterArcs(body[i..]) == Prefixed([Base128Value(body[i..next]) % TWO_64], LaterArcs(body[next..]))
  {
    hide Base128Value, ArcLength;
    var tail := body[i..];
    if ArcLength(tail).Some? {
      var n := ArcLength(tail).value;
      assert tail[..n] == body[i..i + n] && tail[n..] == body[i + n..];
    }
  }

  lemma PrefixMore(done: seq<nat>, one: seq<nat>, more: Option<seq<nat>>)
    ensures Prefixed(done, Prefixed(one, more)) == Prefixed(done + one, more)
  {
    if more.Some? {
      Append2(done, one, more.value);
    }
  }

  function Prefixed(done: seq<nat>, more: Option<seq<nat>>): Option<seq<nat>> {
    match more case None => None case Some(l) => Some(done + l)
  }

  lemma PrefixNothing(more: Option<seq<nat>>)
    ensures Prefixed([], more) == more
  {
    if more.Some? {
      assert [] + more.value == more.value;
    }
  }

  lemma DotOne(arc: nat)
    ensures DotArcs([arc]) == [DOT] + Decimal(arc)
  {
    assert [arc][..0] == [];
    assert DotArcs([]) + [DOT] == [DOT];
  }

  lemma DotMore(arcs: seq<nat>, arc: nat)
    ensures DotArcs(arcs + [arc]) == DotArcs(arcs) + [DOT] + Decimal(arc)
  {
    assert (arcs + [arc])[..|arcs|] == arcs;
  }

  /** The inner loop: one arc from offset `start`. */
  method DecodeArc(body: bytes, start: nat) returns (value: Option<nat>, next: nat)
    requires start < |body|
    ensures value.None? <==> ArcLength(body[start..]).None?
    ensures value.Some? ==> start < next <= |body|
    ensures value.Some? ==> ArcLength(body[start..]) == Some(next - start)
    ensures value.Some? ==> value.value == Base128Value(body[start..next]) % TWO_64
  {
    hide ArcLength, CheckedAdd, Shl7;
    var v := 0;
    var i := start;
    assert body[start..start] == [];
    while i < |body|
      invariant start <= i <= |body|
      invariant forall k :: start <= k < i ==> body[k] >= 128
      invariant v == Base128Value(body[start..i]) % TWO_64
    {
      var b := body[i];
      assert body[start..i + 1][..i - start] == body[start..i];
      ShiftedAdd(v, Base128Value(body[start..i]), b);
      i := i + 1;
      next := i;
      var sum := CheckedAdd(Shl7(v), b % 128);
      if sum.None? {
        value := None;
        return;
      }
      v := sum.value;
      if b < 128 {
        ArcEndsAt(body[start..], i - start);
        return Some(v), i;
      }
    }
    assert forall k :: 0 <= k < |body[start..]| ==> body[start..][k] == body[start + k];
    return None, i;
  }

  lemma ArcEndsAt(s: bytes, n: nat)
    requires 0 < n <= |s| && s[n - 1] < 128 && forall i :: 0 <= i < n - 1 ==> s[i] >= 128
    ensures ArcLength(s) == Some(n)
  {
  }

  /** Decoding fails exactly on an empty body and on a longer one that stops in mid-arc. */
  lemma {:induction false} OidFailsExactly(body: bytes)
    ensures Arcs(body).None? <==> body == [] || (|body| > 1 && body[|body| - 1] >= 128)
  {
    if body != [] {
      LaterArcsFail(body[1..]);
    }
  }

  lemma {:induction false} LaterArcsFail(s: bytes)
    ensures LaterArcs(s).None? <==> s != [] && s[|s| - 1] >= 128
    decreases |s|
  {
    if s != [] {
      var n := ArcLength(s);
      if n.Some? {
        LaterArcsFail(s[n.value..]);
        assert n.value < |s| ==> s[n.value..][|s| - n.value - 1] == s[|s| - 1];
      }
    }
  }

  // ---------- the dotted text ----------

  /** Reading decimals between dots from the left; `done` are the finished numbers, `high` the one in progress. */
  function ReadDotted(done: seq<nat>, high: nat, s: bytes): Option<seq<nat>>
    decreases |s|
  {
    if s == [] then Some(done + [high])
    else if s[0] == 46 then ReadDotted(done + [high], 0, s[1..])
    else if 48 <= s[0] <= 57 then ReadDotted(done, 10 * high + (s[0] - 48), s[1..])
    else None
  }

  lemma {:induction false} ReadDecimal(done: seq<nat>, n: nat, rest: bytes)
    ensures ReadDotted(done, 0, Decimal(n) + rest) == ReadDotted(done, n, rest)
    decreases n
  {
    if n < 10 {
      assert (Decimal(n) + rest)[1..] == rest;
    } else {
      var d := [48 + n % 10];
      ReadDecimal(done, n / 10, d + rest);
      Append2(Decimal(n / 10), d, rest);
      assert (d + rest)[1..] == rest;
    }
  }

  lemma {:induction false} ReadArcs(done: seq<nat>, arcs: seq<nat>, rest: bytes)
    requires arcs != []
    ensures ReadDotted(done, 0, Dotted(arcs) + rest) == ReadDotted(done + arcs[..|arcs| - 1], arcs[|arcs| - 1], rest)
    decreases |arcs|
  {
    hide Decimal, DotArcs;
    var n := |arcs| - 1;
    if n == 0 {
      assert DotArcs([]) == [] by { NoDots(); }
      assert Dotted(arcs) == Decimal(arcs[0]);
      assert done + arcs[..0] == done;
      ReadDecimal(done, arcs[0], rest);
    } else {
      var front, tail := arcs[..n], Decimal(arcs[n]) + rest;
      assert arcs[1..] == front[1..] + [arcs[n]];
      DotMore(front[1..], arcs[n]);
      Append3(Decimal(arcs[0]), DotArcs(front[1..]), [DOT], Decimal(arcs[n]));
      Append3(Dotted(front), [DOT], Decimal(arcs[n]), rest);
      assert Dotted(arcs) + rest == Dotted(front) + ([DOT] + tail);
      ReadArcs(done, front, [DOT] + tail);
      assert ([DOT] + tail)[1..] == tail;
      assert done + front[..n - 1] + [front[n - 1]] == done + arcs[..n];
      ReadDecimal(done + arcs[..n], arcs[n], rest);
    }
  }

  lemma NoDots()
    ensures DotArcs([]) == []
  {
  }

  /** The dotted text determines the arcs: reading the decimals between the dots gives them back in order. */
  lemma DottedReadsBack(arcs: seq<nat>)
    requires arcs != []
    ensures ReadDotted([], 0, Dotted(arcs)) == Some(arcs)
  {
    hide Dotted;
    ReadArcs([], arcs, []);
    assert Dotted(arcs) + [] == Dotted(arcs);
    assert [] + arcs[..|arcs| - 1] + [arcs[|arcs| - 1]] == arcs;
  }

  /** No number is written with a zero in front, but zero itself. */
  lemma {:induction false} NoLeadingZero(n: nat)
    ensures Decimal(n)[0] == 48 <==> n == 0
    ensures n == 0 ==> Decimal(n) == Ascii("0")
  {
    if n >= 10 { NoLeadingZero(n / 10); }
  }

  // ---------- the encoder's side ----------

  function Continued(n: nat): bytes {
    if n == 0 then [] else Continued(n / 128) + [128 + n % 128]
  }

  function EncodeArc(n: nat): bytes {
    Continued(n / 128) + [n % 128]
  }

  function EncodeArcs(arcs: seq<nat>): bytes {
    if arcs == [] then [] else EncodeArc(arcs[0]) + EncodeArcs(arcs[1..])
  }

  /** The first two arcs share one subidentifier. */
  function EncodeOid(arcs: seq<nat>): bytes
    requires |arcs| >= 2
  {
    EncodeArc(40 * arcs[0] + arcs[1]) + EncodeArcs(arcs[2..])
  }

  lemma {:induction false} ContinuedValue(n: nat)
    ensures Base128Value(Continued(n)) == n
    ensures forall i :: 0 <= i < |Continued(n)| ==> Continued(n)[i] >= 128
  {
    if n > 0 {
      var more := Continued(n / 128);
      ContinuedValue(n / 128);
      assert Continued(n) == more + [128 + n % 128];
      hide Continued;
      Base128Snoc(more, 128 + n % 128);
    }
  }

  lemma Base128Snoc(s: bytes, b: byte)
    ensures Base128Value(s + [b]) == 128 * Base128Value(s) + b % 128
  {
    assert (s + [b])[..|s + [b]| - 1] == s;
  }

  lemma ArcRoundTrip(n: nat, rest: bytes)
    ensures var e := EncodeArc(n); var s := e + rest;
      ArcLength(s) == Some(|e|) && s[..|e|] == e && s[|e|..] == rest && Base128Value(e) == n
  {
    hide Continued, ArcLength, Base128Value;
    var more := Continued(n / 128);
    ContinuedValue(n / 128);
    Base128Snoc(more, n % 128);
    var e := EncodeArc(n);
    assert forall i :: 0 <= i < |more| ==> (e + rest)[i] == more[i];
    ArcEndsAt(e + rest, |e|);
  }

  lemma {:induction false} LaterArcsOfEncoded(arcs: seq<nat>)
    ensures LaterArcs(EncodeArcs(arcs)).Some?
    ensures LaterArcs(EncodeArcs(arcs)).value == seq(|arcs|, i requires 0 <= i < |arcs| => arcs[i] % TWO_64)
  {
    hide EncodeArc, LaterArcs;
    if arcs == [] {
      assert LaterArcs([]) == Some([]) by { NoArcsLeft([], 0); }
    } else {
      LaterArcsOfOne(arcs[0], EncodeArcs(arcs[1..]));
      LaterArcsOfEncoded(arcs[1..]);
    }
  }

  lemma LaterArcsOfOne(arc: nat, rest: bytes)
    ensures LaterArcs(EncodeArc(arc) + rest) == Prefixed([arc % TWO_64], LaterArcs(rest))
  {
    hide EncodeArc, Base128Value, ArcLength;
    ArcRoundTrip(arc, rest);
    EncodedArcNotEmpty(arc);
  }

  lemma EncodedArcNotEmpty(n: nat)
    ensures EncodeArc(n) != []
  {
  }

  /**
   Decoding inverts the encoding of an identifier if and only if the second arc is below 40 and
   every later arc below 2^64: from 2.40 on the first octet no longer splits into the first two
   arcs, and larger arcs wrap.
   */
  lemma OidRoundTripExact(arcs: seq<nat>)
    requires |arcs| >= 2 && arcs[0] <= 2 && (arcs[0] < 2 ==> arcs[1] < 40)
    ensures Arcs(EncodeOid(arcs)) == Some(arcs)
        <==> arcs[1] < 40 && forall i :: 2 <= i < |arcs| ==> arcs[i] < TWO_64
  {
    if arcs[1] < 40 {
      SmallSecondArc(arcs);
    } else {
      LargeSecondArc(arcs);
    }
  }

  lemma SmallSecondArc(arcs: seq<nat>)
    requires |arcs| >= 2 && arcs[0] <= 2 && arcs[1] < 40
    ensures Arcs(EncodeOid(arcs)) == Some(arcs) <==> forall i :: 2 <= i < |arcs| ==> arcs[i] < TWO_64
  {
    hide LaterArcs, EncodeArcs, EncodeOid, Arcs;
    var head, later := arcs[..2], arcs[2..];
    LaterArcsOfEncoded(later);
    var kept := LaterArcs(EncodeArcs(later)).value;
    SmallSecondDecodes(arcs, kept);
    assert arcs == head + later;
    assert head + kept == arcs <==> kept == later by {
      Cut(head, kept);
      Cut(head, later);
    }
    assert forall i :: 0 <= i < |later| ==> later[i] == arcs[i + 2];
    assert kept == later <==> forall i :: 0 <= i < |later| ==> later[i] < TWO_64 by {
      if kept == later {
        forall i | 0 <= i < |later| ensures later[i] < TWO_64 {
          assert kept[i] == later[i] % TWO_64;
        }
      }
    }
    assert forall i :: 2 <= i < |arcs| ==> arcs[i] == later[i - 2];
  }

  lemma SmallSecondDecodes(arcs: seq<nat>, kept: seq<nat>)
    requires |arcs| >= 2 && arcs[0] <= 2 && arcs[1] < 40
    requires LaterArcs(EncodeArcs(arcs[2..])) == Some(kept)
    ensures Arcs(EncodeOid(arcs)) == Some(arcs[..2] + kept)
  {
    hide LaterArcs, EncodeArcs, EncodeArc;
    var sub := 40 * arcs[0] + arcs[1];
    OneOctet(sub);
    Cut([sub], EncodeArcs(arcs[2..]));
    assert arcs[..2] == [arcs[0], arcs[1]];
  }

  lemma OneOctet(n: nat)
    requires n < 128
    ensures EncodeArc(n) == [n]
  {
    assert Continued(0) == [];
  }

  lemma LargeSecondArc(arcs: seq<nat>)
    requires |arcs| >= 2 && arcs[0] == 2 && arcs[1] >= 40
    ensures Arcs(EncodeOid(arcs)) != Some(arcs)
  {
    var sub := 40 * arcs[0] + arcs[1];
    var first := EncodeArc(sub);
    assert first != [] && first[0] >= 120 by {
      if sub < 128 {
        OneOctet(sub);
      } else {
        ContinuedValue(sub / 128);
        assert |Continued(sub / 128)| > 0;
      }
    }
    hide EncodeArc, EncodeArcs, LaterArcs;
    var body := EncodeOid(arcs);
    assert body[0] == first[0];
    assert Arcs(body).Some? ==> Arcs(body).value[0] == body[0] / 40;
  }

  // ---------- the fraction of GeneralizedTime ----------

  predicate IsDigit(b: byte) {
    DIGIT_0 <= b <= DIGIT_9
  }

  /** `chars().filter(is_ascii_digit)`. */
  function OnlyDigits(s: bytes): (r: bytes)
    ensures forall i :: 0 <= i < |r| ==> IsDigit(r[i])
  {
    if s == [] then [] else (if IsDigit(s[0]) then [s[0]] else []) + OnlyDigits(s[1..])
  }

  /** The number written by decimal digits. */
  function DigitsNumber(s: bytes): nat
    requires forall i :: 0 <= i < |s| ==> IsDigit(s[i])
  {
    if s == [] then 0
    else
      assert IsDigit(s[|s| - 1]);
      10 * DigitsNumber(s[..|s| - 1]) + (s[|s| - 1] - DIGIT_0)
  }

  lemma {:induction false} DigitsBelow(s: bytes)
    requires forall i :: 0 <= i < |s| ==> IsDigit(s[i])
    ensures DigitsNumber(s) < Power10(|s|)
  {
    if s != [] { DigitsBelow(s[..|s| - 1]); }
  }

  /** Truncating digits divides, rounding down. */
  lemma {:induction false} TruncateDivides(s: bytes, n: nat)
    requires (forall i :: 0 <= i < |s| ==> IsDigit(s[i])) && n <= |s|
    ensures DigitsNumber(s[..n]) == DigitsNumber(s) / Power10(|s| - n)
    decreases |s|
  {
    if n == |s| {
      assert s[..n] == s;
    } else {
      var front := s[..|s| - 1];
      TruncateDivides(front, n);
      assert front[..n] == s[..n];
      DivideAgain(DigitsNumber(s), Power10(|front| - n));
      assert DigitsNumber(s) / 10 == DigitsNumber(front);
    }
  }

  lemma DivideAgain(x: nat, k: nat)
    requires k > 0
    ensures x / (10 * k) == x / 10 / k
  {
    var q := x / 10 / k;
    var r := x / 10 % k;
    assert x / 10 == q * k + r;
    var t := x % 10;
    assert x == 10 * (q * k + r) + t;
    assert 10 * (q * k + r) + t == q * (10 * k) + (10 * r + t);
    assert 0 <= 10 * r + t < 10 * k;
    DivisionUnique(x, 10 * k, q, 10 * r + t);
  }

  lemma DivisionUnique(x: nat, d: nat, q: nat, r: nat)
    requires d > 0 && x == q * d + r && r < d
    ensures x / d == q
  {
    var q' := x / d;
    var r' := x % d;
    assert x == q' * d + r';
    if q' < q {
      assert q' * d + d <= q * d by { MulMono(q' + 1, q, d); }
    }
    if q < q' {
      assert q * d + d <= q' * d by { MulMono(q + 1, q', d); }
    }
  }

  lemma MulMono(a: nat, b: nat, d: nat)
    requires a <= b
    ensures a * d <= b * d
  {
  }

  function Product(a: nat, b: nat): nat {
    a * b
  }

  /** Zeros on the right multiply. */
  lemma {:induction false} PadMultiplies(s: bytes, k: nat)
    requires forall i :: 0 <= i < |s| ==> IsDigit(s[i])
    ensures var p := s + Zeros(k);
      (forall i :: 0 <= i < |p| ==> IsDigit(p[i])) && DigitsNumber(p) == Product(DigitsNumber(s), Power10(k))
  {
    if k == 0 {
      assert s + Zeros(0) == s;
    } else {
      hide Product;
      PadMultiplies(s, k - 1);
      var p := s + Zeros(k);
      assert p[..|p| - 1] == s + Zeros(k - 1);
      assert DigitsNumber(p) == 10 * DigitsNumber(s + Zeros(k - 1));
      TenTimes(DigitsNumber(s), Power10(k - 1));
    }
  }

  lemma TenTimes(x: nat, p: nat)
    ensures 10 * Product(x, p) == Product(x, 10 * p)
  {
  }

  function Zeros(k: nat): bytes {
    seq(k, _ => DIGIT_0)
  }

  /** Nanoseconds of a fraction: its value times 10^9, rounded down. */
  function FractionNanos(digits: bytes): nat
    requires forall i :: 0 <= i < |digits| ==> IsDigit(digits[i])
  {
    var n := DigitsNumber(digits);
    if |digits| <= 9 then Product(n, Power10(9 - |digits|)) else n / Power10(|digits| - 9)
  }

  /**
   Padding or truncating to nine digits takes the fraction to whole nanoseconds, rounding down,
   and below one second, so the 32-bit parse cannot fail. Non-digits are ignored.
   */
  method FractionToNanos(frac: bytes) returns (nanos: nat)
    ensures nanos == FractionNanos(OnlyDigits(frac))
    ensures nanos < 1_000_000_000
  {
    var clean := OnlyDigits(frac);
    if clean == [] {
      return 0;
    }
    var padded := clean;
    while |padded| < 9
      invariant |padded| <= 9 || padded == clean
      invariant |padded| >= |clean| && padded == clean + Zeros(|padded| - |clean|)
      decreases 9 - |padded|
    {
      padded := padded + [DIGIT_0];
    }
    ghost var full := padded;
    if |padded| > 9 {
      padded := padded[..9];
    }
    PadMultiplies(clean, |full| - |clean|);
    assert |clean| >= 9 ==> full == clean;
    TruncateDivides(full, 9);
    DigitsBelow(padded);
    nanos := DigitsNumber(padded);
    assert Power10(9) == 1_000_000_000 by { Billion(); }
    assert |clean| <= 9 ==> padded == full;
  }

  lemma Billion()
    ensures Power10(9) == 1_000_000_000
  {
    assert Power10(4) == 10_000;
  }

  /** Exactly the ten digits are kept, each in its place. */
  lemma {:induction false} OnlyDigitsExactly(a: bytes, b: byte)
    ensures OnlyDigits([]) == []
    ensures OnlyDigits(a + [b]) == OnlyDigits(a) + if b in Ascii("0123456789") then [b] else []
  {
    DigitBytes(b);
    if a == [] {
      assert ([] + [b])[1..] == [];
    } else {
      OnlyDigitsExactly(a[1..], b);
      assert (a + [b])[1..] == a[1..] + [b];
    }
  }

  lemma DigitBytes(b: byte)
    ensures b in Ascii("0123456789") <==> IsDigit(b)
  {
    var digits := Ascii("0123456789");
    if IsDigit(b) { assert digits[b - 48] == b; }
  }

  /** The nanoseconds of a fraction of `k` digits are its share of a second, rounded down. */
  lemma NanosRoundDown(digits: bytes)
    requires forall i :: 0 <= i < |digits| ==> IsDigit(digits[i])
    ensures var n, unit := FractionNanos(digits), Power10(|digits|);
      Product(n, unit) <= Product(DigitsNumber(digits), 1_000_000_000) < Product(n + 1, unit)
  {
    var k, v, n := |digits|, DigitsNumber(digits), FractionNanos(digits);
    Billion();
    if k <= 9 {
      PowerSum(9 - k, k);
      ProductThrice(v, Power10(9 - k), Power10(k));
      NextProduct(n, Power10(k));
    } else {
      var d := Power10(k - 9);
      PowerSum(k - 9, 9);
      FloorBounds(v, d);
      ProductMono(Product(n, d), v, Power10(9));
      ProductThrice(n, d, Power10(9));
      ProductThrice(n + 1, d, Power10(9));
      ProductBelow(v, Product(n + 1, d), Power10(9));
    }
  }

  lemma {:induction false} PowerSum(a: nat, b: nat)
    ensures Power10(a + b) == Product(Power10(a), Power10(b))
  {
    if a > 0 {
      PowerSum(a - 1, b);
      ProductThrice(10, Power10(a - 1), Power10(b));
    }
  }

  lemma ProductThrice(a: nat, b: nat, c: nat)
    ensures Product(Product(a, b), c) == Product(a, Product(b, c))
  {
  }

  lemma NextProduct(n: nat, d: nat)
    requires d > 0
    ensures Product(n, d) < Product(n + 1, d)
  {
  }

  lemma FloorBounds(v: nat, d: nat)
    requires d > 0
    ensures Product(v / d, d) <= v < Product(v / d + 1, d)
  {
    assert v == v / d * d + v % d;
  }

  lemma ProductMono(a: nat, b: nat, c: nat)
    requires a <= b
    ensures Product(a, c) <= Product(b, c)
  {
    MulMono(a, b, c);
  }

  lemma ProductBelow(a: nat, b: nat, c: nat)
    requires a < b && c > 0
    ensures Product(a, c) < Product(b, c)
  {
    MulMono(a + 1, b, c);
  }
}
