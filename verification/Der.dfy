/** Tag-length-value headers under the distinguished encoding rules (section 10.1 of X.690). */
module Der {
  import opened Wrappers
  import opened Bytes

  /** The longest length the reader accepts. */
  const MAX_LENGTH: nat := 0x0FFF_FFFF

  const SEQUENCE: byte := 0x30

  datatype Tlv = Tlv(tag: byte, body: bytes)

  /** A single identifier octet: tag numbers from 31 on take more. */
  predicate IsTag(b: byte) {
    b % 32 != 31
  }

  predicate IsTlv(t: Tlv) {
    IsTag(t.tag) && |t.body| <= MAX_LENGTH
  }

  /** The `k` low-order octets of `n`, most significant first. */
  function Octets(n: nat, k: nat): (s: bytes)
    ensures |s| == k
  {
    if k == 0 then [] else Octets(n / 0x100, k - 1) + [n % 0x100]
  }

  /** The shortest definite form. */
  function EncodeLength(n: nat): (s: bytes)
    requires n <= MAX_LENGTH
    ensures s != []
  {
    if n < 0x80 then [n]
    else if n < 0x100 then [0x81] + Octets(n, 1)
    else if n < 0x1_0000 then [0x82] + Octets(n, 2)
    else if n < 0x100_0000 then [0x83] + Octets(n, 3)
    else [0x84] + Octets(n, 4)
  }

  function BigEndian(s: bytes): nat {
    if s == [] then 0 else 0x100 * BigEndian(s[..|s| - 1]) + s[|s| - 1]
  }

  /** The length and the octets it took; indefinite and overlong forms are errors. */
  function DecodeLength(s: bytes): (r: Option<(nat, nat)>)
    ensures r.Some? ==> 0 < r.value.1 <= |s| && r.value.0 <= MAX_LENGTH
  {
    if s == [] then None
    else if s[0] < 0x80 then Some((s[0], 1))
    else
      var k := s[0] - 0x80;
      if k == 0 || k > 4 || |s| < 1 + k then None
      else
        var n := BigEndian(s[1..1 + k]);
        if n > MAX_LENGTH || EncodeLength(n)[0] != s[0] then None else Some((n, 1 + k))
  }

  datatype Header = Header(tag: byte, length: nat)

  function DecodeHeader(s: bytes): (r: Option<(Header, bytes)>)
    ensures r.Some? ==> |r.value.1| < |s| && r.value.0.length <= MAX_LENGTH && IsTag(r.value.0.tag)
  {
    if s == [] || !IsTag(s[0]) then None
    else
      var (n, k) :- DecodeLength(s[1..]);
      Some((Header(s[0], n), s[1 + k..]))
  }

  function EncodeHeader(h: Header): bytes
    requires h.length <= MAX_LENGTH
  {
    [h.tag] + EncodeLength(h.length)
  }

  /** `read_slice`. */
  function ReadSlice(s: bytes, n: nat): Option<(bytes, bytes)> {
    if |s| < n then None else Some((s[..n], s[n..]))
  }

  function EncodeTlv(t: Tlv): bytes
    requires IsTlv(t)
  {
    EncodeHeader(Header(t.tag, |t.body|)) + t.body
  }

  function DecodeTlv(s: bytes): (r: Option<(Tlv, bytes)>)
    ensures r.Some? ==> |r.value.1| < |s| && IsTlv(r.value.0)
  {
    var (h, rest) :- DecodeHeader(s);
    var (body, rest') :- ReadSlice(rest, h.length);
    Some((Tlv(h.tag, body), rest'))
  }

  // ---------- the header codec ----------

  function Limit(k: nat): nat {
    if k == 0 then 1 else 0x100 * Limit(k - 1)
  }

  lemma {:induction false} OctetsValue(n: nat, k: nat)
    requires n < Limit(k)
    ensures BigEndian(Octets(n, k)) == n
  {
    if k > 0 {
      OctetsValue(n / 0x100, k - 1);
      var s := Octets(n, k);
      assert s[..k - 1] == Octets(n / 0x100, k - 1);
    }
  }

  /** The long form of a length, and its digits. */
  lemma LongForm(n: nat) returns (k: nat)
    requires 0x80 <= n <= MAX_LENGTH
    ensures 1 <= k <= 4 && EncodeLength(n) == [0x80 + k] + Octets(n, k)
    ensures BigEndian(Octets(n, k)) == n
  {
    hide Octets, BigEndian, Limit;
    k := if n < 0x100 then 1 else if n < 0x1_0000 then 2 else if n < 0x100_0000 then 3 else 4;
    Limits();
    OctetsValue(n, k);
  }

  lemma Limits()
    ensures Limit(1) == 0x100 && Limit(2) == 0x1_0000 && Limit(3) == 0x100_0000 && Limit(4) == 0x1_0000_0000
  {
    assert Limit(0) == 1;
    assert Limit(1) == 0x100 * Limit(0);
    assert Limit(2) == 0x100 * Limit(1);
    assert Limit(3) == 0x100 * Limit(2);
    assert Limit(4) == 0x100 * Limit(3);
  }

  /** Decoding inverts encoding, whatever follows. */
  lemma LengthRoundTrip(n: nat, rest: bytes)
    requires n <= MAX_LENGTH
    ensures DecodeLength(EncodeLength(n) + rest) == Some((n, |EncodeLength(n)|))
  {
    var e := EncodeLength(n);
    var s := e + rest;
    assert s[0] == e[0];
    if n >= 0x80 {
      var k := LongForm(n);
      assert s[1..1 + k] == Octets(n, k);
    }
  }

  /** Encoding inverts decoding: a length has one accepted form. */
  lemma LengthUnique(s: bytes)
    requires DecodeLength(s).Some?
    ensures s[..DecodeLength(s).value.1] == EncodeLength(DecodeLength(s).value.0)
  {
    hide Octets, BigEndian;
    if s[0] < 0x80 {
      assert s[..1] == [s[0]];
    } else {
      var n := DecodeLength(s).value.0;
      assert n >= 0x80;
      var k := LongForm(n);
      var d := s[1..1 + k];
      DigitsUnique(d, Octets(n, k));
      assert s[..1 + k] == [s[0]] + d;
    }
  }

  lemma {:induction false} DigitsUnique(a: bytes, b: bytes)
    requires |a| == |b| && BigEndian(a) == BigEndian(b)
    ensures a == b
  {
    if a != [] {
      var n := |a| - 1;
      assert a[n] == BigEndian(a) % 0x100 && b[n] == BigEndian(b) % 0x100;
      DigitsUnique(a[..n], b[..n]);
      assert a == a[..n] + [a[n]] && b == b[..n] + [b[n]];
    }
  }

  lemma HeaderRoundTrip(h: Header, rest: bytes)
    requires IsTag(h.tag) && h.length <= MAX_LENGTH
    ensures DecodeHeader(EncodeHeader(h) + rest) == Some((h, rest))
  {
    var e := EncodeLength(h.length);
    var s := EncodeHeader(h) + rest;
    assert s == [h.tag] + (e + rest);
    assert s[1..] == e + rest;
    LengthRoundTrip(h.length, rest);
    assert s[1 + |e|..] == rest;
  }

  lemma HeaderUnique(s: bytes)
    requires DecodeHeader(s).Some?
    ensures s == EncodeHeader(DecodeHeader(s).value.0) + DecodeHeader(s).value.1
  {
    hide DecodeLength, EncodeLength;
    LengthUnique(s[1..]);
    var (n, k) := DecodeLength(s[1..]).value;
    HeadAndTail(s, k);
  }

  lemma HeadAndTail(s: bytes, k: nat)
    requires s != [] && k < |s|
    ensures s == [s[0]] + s[1..][..k] + s[1 + k..]
  {
  }

  lemma TlvRoundTrip(t: Tlv, rest: bytes)
    requires IsTlv(t)
    ensures DecodeTlv(EncodeTlv(t) + rest) == Some((t, rest))
  {
    hide EncodeHeader, DecodeHeader;
    var h := Header(t.tag, |t.body|);
    Append2(EncodeHeader(h), t.body, rest);
    HeaderRoundTrip(h, t.body + rest);
    assert (t.body + rest)[..|t.body|] == t.body && (t.body + rest)[|t.body|..] == rest;
  }

  lemma TlvUnique(s: bytes)
    requires DecodeTlv(s).Some?
    ensures s == EncodeTlv(DecodeTlv(s).value.0) + DecodeTlv(s).value.1
  {
    HeaderUnique(s);
    hide EncodeHeader, DecodeHeader;
    var (h, rest) := DecodeHeader(s).value;
    assert rest == rest[..h.length] + rest[h.length..];
    Append2(EncodeHeader(h), rest[..h.length], rest[h.length..]);
  }

  /** The decoder accepts an element exactly when its encoding is what the input starts with. */
  lemma DecodesExactly(s: bytes, t: Tlv, rest: bytes)
    ensures DecodeTlv(s) == Some((t, rest)) <==> IsTlv(t) && s == EncodeTlv(t) + rest
  {
    hide EncodeTlv;
    if DecodeTlv(s).Some? { TlvUnique(s); }
    if IsTlv(t) { TlvRoundTrip(t, rest); }
  }

  /**
   The encoding octet by octet: the identifier, the length in one octet below 128 and else in as
   few octets as hold it behind their number, and the body. Bodies end at 2^28 octets.
   */
  lemma EncodingExactly(t: Tlv)
    ensures IsTlv(t) <==> t.tag % 32 != 31 && |t.body| < 268435456
    ensures IsTlv(t) ==>
      var n := |t.body|;
      EncodeTlv(t) == [t.tag] + (
        if n < 128 then [n]
        else if n < 256 then [129, n]
        else if n < 65536 then [130, n / 256, n % 256]
        else if n < 16777216 then [131, n / 65536, n / 256 % 256, n % 256]
        else [132, n / 16777216, n / 65536 % 256, n / 256 % 256, n % 256]) + t.body
  {
    if IsTlv(t) { LengthOctets(|t.body|); }
  }

  lemma LengthOctets(n: nat)
    requires n <= MAX_LENGTH
    ensures EncodeLength(n) ==
      if n < 128 then [n]
      else if n < 256 then [129, n]
      else if n < 65536 then [130, n / 256, n % 256]
      else if n < 16777216 then [131, n / 65536, n / 256 % 256, n % 256]
      else [132, n / 16777216, n / 65536 % 256, n / 256 % 256, n % 256]
  {
    hide Octets;
    var n1 := n / 256;
    var n2 := n1 / 256;
    assert n2 == n / 65536 && n2 / 256 == n / 16777216;
    OctetsSnoc(n, 0);
    OctetsSnoc(n, 1);
    OctetsSnoc(n, 2);
    OctetsSnoc(n, 3);
    OctetsSnoc(n1, 0);
    OctetsSnoc(n1, 1);
    OctetsSnoc(n1, 2);
    OctetsSnoc(n2, 0);
    OctetsSnoc(n2, 1);
    OctetsSnoc(n2 / 256, 0);
  }

  lemma OctetsSnoc(n: nat, k: nat)
    ensures Octets(n, 0) == []
    ensures Octets(n, k + 1) == Octets(n / 0x100, k) + [n % 0x100]
  {
  }

  // ---------- sequences of elements ----------

  /** The elements of a constructed body. */
  function SplitTlvs(s: bytes): Option<seq<Tlv>>
    decreases |s|
  {
    if s == [] then Some([])
    else
      var (t, rest) :- DecodeTlv(s);
      var more :- SplitTlvs(rest);
      Some([t] + more)
  }

  function JoinTlvs(ts: seq<Tlv>): bytes
    requires forall t :: t in ts ==> IsTlv(t)
  {
    if ts == [] then [] else EncodeTlv(ts[0]) + JoinTlvs(ts[1..])
  }

  /** Splitting inverts joining, and only joined elements split. */
  lemma {:induction false} SplitOfJoin(ts: seq<Tlv>)
    requires forall t :: t in ts ==> IsTlv(t)
    ensures SplitTlvs(JoinTlvs(ts)) == Some(ts)
  {
    hide EncodeTlv, DecodeTlv;
    if ts != [] {
      TlvRoundTrip(ts[0], JoinTlvs(ts[1..]));
      SplitOfJoin(ts[1..]);
      assert ts == [ts[0]] + ts[1..];
    }
  }

  lemma {:induction false} JoinOfSplit(s: bytes)
    requires SplitTlvs(s).Some?
    ensures forall t :: t in SplitTlvs(s).value ==> IsTlv(t)
    ensures s == JoinTlvs(SplitTlvs(s).value)
    decreases |s|
  {
    hide EncodeTlv, DecodeTlv;
    if s != [] {
      TlvUnique(s);
      JoinOfSplit(DecodeTlv(s).value.1);
    }
  }
}
