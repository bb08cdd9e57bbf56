/** Splitting `id-aa-ets-revocationValues` into CRLs and OCSP responses (`crates/eidas-cades/src/unsigned.rs`). */
module Revocation {
  import opened Wrappers
  import opened Bytes
  import opened Der

  const CRL_VALS: byte := 0xA0   // [0], constructed
  const OCSP_VALS: byte := 0xA1  // [1], constructed

  /** `reencode`: a header and a body as one element again. */
  function Reencode(h: Header, body: bytes): bytes
    requires h.length <= MAX_LENGTH
  {
    EncodeHeader(h) + body
  }

  function EncodeAll(ts: seq<Tlv>): seq<bytes>
    requires forall t :: t in ts ==> IsTlv(t)
  {
    if ts == [] then [] else [EncodeTlv(ts[0])] + EncodeAll(ts[1..])
  }

  /** The elements of a list, each encoded again; every one must pass `ok`. */
  function Entries(s: bytes, ok: bytes -> bool): Option<seq<bytes>>
    decreases |s|
  {
    if s == [] then Some([])
    else
      var (t, rest) :- DecodeTlv(s);
      if !ok(EncodeTlv(t)) then None
      else
        var more :- Entries(rest, ok);
        Some([EncodeTlv(t)] + more)
  }

  datatype Split = Split(crls: seq<bytes>, ocsps: seq<bytes>)

  const ANY: bytes -> bool := _ => true

  /** `isCrl` is whether a certificate list decodes. OCSP responses are kept undecoded. */
  function SplitBody(s: bytes, isCrl: bytes -> bool): Option<Split>
    decreases |s|
  {
    if s == [] then Some(Split([], []))
    else
      var (t, rest) :- DecodeTlv(s);
      var here :-
        if t.tag == CRL_VALS then (var c :- Entries(t.body, isCrl); Some(Split(c, [])))
        else if t.tag == OCSP_VALS then (var o :- Entries(t.body, ANY); Some(Split([], o)))
        else Some(Split([], []));
      var more :- SplitBody(rest, isCrl);
      Some(Split(here.crls + more.crls, here.ocsps + more.ocsps))
  }

  /** Bytes after the outer SEQUENCE are not looked at. */
  function RevocationValues(der: bytes, isCrl: bytes -> bool): Option<Split> {
    var (outer, _) :- DecodeTlv(der);
    if outer.tag != SEQUENCE then None else SplitBody(outer.body, isCrl)
  }

  method CollectEntries(inner: bytes, ok: bytes -> bool, into: seq<bytes>) returns (r: Option<seq<bytes>>)
    ensures r == match Entries(inner, ok) case None => None case Some(es) => Some(into + es)
  {
    hide DecodeHeader, EncodeHeader;
    var s := inner;
    var out := into;
    while s != []
      invariant (match Entries(inner, ok) case None => None case Some(es) => Some(into + es))
             == (match Entries(s, ok) case None => None case Some(es) => Some(out + es))
      decreases |s|
    {
      var header := DecodeHeader(s);
      if header.None? { return None; }
      var (h, afterHeader) := header.value;
      var slice := ReadSlice(afterHeader, h.length);
      if slice.None? { return None; }
      var (body, rest) := slice.value;
      var full := Reencode(h, body);
      assert full == EncodeTlv(Tlv(h.tag, body));
      if !ok(full) { return None; }
      if Entries(rest, ok).Some? {
        Append2(out, [full], Entries(rest, ok).value);
      }
      out := out + [full];
      s := rest;
    }
    assert out + [] == out;
    r := Some(out);
  }

  method ParseRevocationValues(der: bytes, isCrl: bytes -> bool) returns (r: Option<Split>)
    ensures r == RevocationValues(der, isCrl)
  {
    hide Entries, DecodeHeader;
    var header := DecodeHeader(der);
    if header.None? { return None; }
    var (outer, afterHeader) := header.value;
    if outer.tag != SEQUENCE {
      return None;
    }
    var slice := ReadSlice(afterHeader, outer.length);
    if slice.None? { return None; }
    var b := slice.value.0;
    ghost var goal := SplitBody(b, isCrl);
    var crls: seq<bytes>, ocsps: seq<bytes> := [], [];
    PrefixNothing(goal);
    while b != []
      invariant goal == Prefixed(crls, ocsps, SplitBody(b, isCrl))
      decreases |b|
    {
      var hdr := DecodeHeader(b);
      if hdr.None? { return None; }
      var inner := ReadSlice(hdr.value.1, hdr.value.0.length);
      if inner.None? { return None; }
      var (body, rest) := inner.value;
      var tag := hdr.value.0.tag;
      if tag == CRL_VALS {
        var c := CollectEntries(body, isCrl, crls);
        if c.None? { return None; }
        PrefixMore(crls, ocsps, Entries(body, isCrl).value, [], SplitBody(rest, isCrl));
        crls := c.value;
      } else if tag == OCSP_VALS {
        var o := CollectEntries(body, ANY, ocsps);
        if o.None? { return None; }
        PrefixMore(crls, ocsps, [], Entries(body, ANY).value, SplitBody(rest, isCrl));
        ocsps := o.value;
      } else {
        PrefixMore(crls, ocsps, [], [], SplitBody(rest, isCrl));
      }
      b := rest;
    }
    assert crls + [] == crls && ocsps + [] == ocsps;
    r := Some(Split(crls, ocsps));
  }

  function Prefixed(crls: seq<bytes>, ocsps: seq<bytes>, s: Option<Split>): Option<Split> {
    match s
    case None => None
    case Some(x) => Some(Split(crls + x.crls, ocsps + x.ocsps))
  }

  lemma PrefixNothing(s: Option<Split>)
    ensures Prefixed([], [], s) == s
  {
    if s.Some? {
      assert [] + s.value.crls == s.value.crls && [] + s.value.ocsps == s.value.ocsps;
    }
  }

  lemma PrefixMore(crls: seq<bytes>, ocsps: seq<bytes>, c: seq<bytes>, o: seq<bytes>, s: Option<Split>)
    ensures Prefixed(crls, ocsps, Prefixed(c, o, s)) == Prefixed(crls + c, ocsps + o, s)
    ensures c == [] ==> crls + c == crls
    ensures o == [] ==> ocsps + o == ocsps
  {
    if s.Some? {
      Append2(crls, c, s.value.crls);
      Append2(ocsps, o, s.value.ocsps);
    }
  }

  // ---------- nothing is lost or invented ----------

  /** One element of the SEQUENCE as a signer writes it. */
  datatype Element = Crls(crls: seq<Tlv>) | Ocsps(ocsps: seq<Tlv>) | Unknown(tlv: Tlv)

  ghost predicate Writable(e: Element) {
    match e
    case Crls(ts) => (forall t :: t in ts ==> IsTlv(t)) && |JoinTlvs(ts)| <= MAX_LENGTH
    case Ocsps(ts) => (forall t :: t in ts ==> IsTlv(t)) && |JoinTlvs(ts)| <= MAX_LENGTH
    case Unknown(t) => IsTlv(t) && t.tag != 0xA0 && t.tag != 0xA1
  }

  ghost function ElementTlv(e: Element): (t: Tlv)
    requires Writable(e)
    ensures IsTlv(t)
  {
    match e
    case Crls(ts) => Tlv(0xA0, JoinTlvs(ts))
    case Ocsps(ts) => Tlv(0xA1, JoinTlvs(ts))
    case Unknown(t) => t
  }

  ghost function WriteBody(es: seq<Element>): bytes
    requires forall e :: e in es ==> Writable(e)
  {
    if es == [] then [] else EncodeTlv(ElementTlv(es[0])) + WriteBody(es[1..])
  }

  ghost function CrlsIn(e: Element): seq<bytes>
    requires Writable(e)
  {
    match e
    case Crls(ts) => EncodeAll(ts)
    case _ => []
  }

  ghost function OcspsIn(e: Element): seq<bytes>
    requires Writable(e)
  {
    match e
    case Ocsps(ts) => EncodeAll(ts)
    case _ => []
  }

  ghost function CrlsOf(es: seq<Element>): seq<bytes>
    requires forall e :: e in es ==> Writable(e)
  {
    if es == [] then [] else CrlsIn(es[0]) + CrlsOf(es[1..])
  }

  ghost function OcspsOf(es: seq<Element>): seq<bytes>
    requires forall e :: e in es ==> Writable(e)
  {
    if es == [] then [] else OcspsIn(es[0]) + OcspsOf(es[1..])
  }

  /** Every CRL the element carries decodes. */
  ghost predicate Decodes(e: Element, isCrl: bytes -> bool)
    requires Writable(e)
  {
    match e
    case Crls(ts) => forall t :: t in ts ==> isCrl(EncodeTlv(t))
    case _ => true
  }

  lemma {:induction false} EntriesOfJoin(ts: seq<Tlv>, ok: bytes -> bool)
    requires forall t :: t in ts ==> IsTlv(t)
    requires forall t :: t in ts ==> ok(EncodeTlv(t))
    ensures Entries(JoinTlvs(ts), ok) == Some(EncodeAll(ts))
  {
    hide EncodeTlv, DecodeTlv;
    if ts != [] {
      TlvRoundTrip(ts[0], JoinTlvs(ts[1..]));
      assert ts[0] in ts;
      EntriesOfJoin(ts[1..], ok);
    }
  }

  lemma {:induction false} SplitOfWritten(es: seq<Element>, isCrl: bytes -> bool)
    requires forall e :: e in es ==> Writable(e)
    requires forall e :: e in es ==> Decodes(e, isCrl)
    ensures SplitBody(WriteBody(es), isCrl) == Some(Split(CrlsOf(es), OcspsOf(es)))
  {
    if es != [] {
      assert es[0] in es;
      SplitOfWritten(es[1..], isCrl);
      SplitElement(es[0], WriteBody(es[1..]), isCrl);
    }
  }

  lemma SplitElement(e: Element, rest: bytes, isCrl: bytes -> bool)
    requires Writable(e) && Decodes(e, isCrl) && SplitBody(rest, isCrl).Some?
    ensures var more := SplitBody(rest, isCrl).value;
      SplitBody(EncodeTlv(ElementTlv(e)) + rest, isCrl)
        == Some(Split(CrlsIn(e) + more.crls, OcspsIn(e) + more.ocsps))
  {
    TlvRoundTrip(ElementTlv(e), rest);
    match e
    case Crls(ts) => EntriesOfJoin(ts, isCrl);
    case Ocsps(ts) => EntriesOfJoin(ts, ANY);
    case Unknown(t) =>
  }

  /**
   Any lists of CRL and OCSP elements, in any number of [0] and [1] fields with unknown elements
   between them and any bytes behind, come back exactly and in order.
   */
  lemma RevocationValuesRoundTrip(es: seq<Element>, isCrl: bytes -> bool, trailing: bytes)
    requires forall e :: e in es ==> Writable(e)
    requires forall e :: e in es ==> Decodes(e, isCrl)
    requires |WriteBody(es)| <= MAX_LENGTH
    ensures RevocationValues(EncodeTlv(Tlv(0x30, WriteBody(es))) + trailing, isCrl)
         == Some(Split(CrlsOf(es), OcspsOf(es)))
  {
    TlvRoundTrip(Tlv(0x30, WriteBody(es)), trailing);
    SplitOfWritten(es, isCrl);
  }

  lemma {:induction false} EntriesSplit(s: bytes, ok: bytes -> bool)
    requires Entries(s, ok).Some?
    ensures SplitTlvs(s).Some?
    ensures forall t :: t in SplitTlvs(s).value ==> IsTlv(t) && ok(EncodeTlv(t))
    decreases |s|
  {
    hide EncodeTlv, DecodeTlv;
    if s != [] {
      EntriesSplit(DecodeTlv(s).value.1, ok);
    }
  }

  /** Whatever splits was written: the elements it is made of. */
  lemma {:induction false} ElementsOf(s: bytes, isCrl: bytes -> bool) returns (es: seq<Element>)
    requires SplitBody(s, isCrl).Some?
    ensures forall e :: e in es ==> Writable(e) && Decodes(e, isCrl)
    ensures WriteBody(es) == s
    decreases |s|
  {
    hide EncodeTlv, DecodeTlv, Writable, Decodes;
    if s == [] {
      es := [];
    } else {
      var (t, rest) := DecodeTlv(s).value;
      var e := ElementOf(t, isCrl);
      var more := ElementsOf(rest, isCrl);
      TlvUnique(s);
      es := [e] + more;
      assert es[1..] == more;
    }
  }

  lemma ElementOf(t: Tlv, isCrl: bytes -> bool) returns (e: Element)
    requires IsTlv(t)
    requires t.tag == CRL_VALS ==> Entries(t.body, isCrl).Some?
    requires t.tag == OCSP_VALS ==> Entries(t.body, ANY).Some?
    ensures Writable(e) && Decodes(e, isCrl) && ElementTlv(e) == t
  {
    if t.tag == CRL_VALS {
      EntriesSplit(t.body, isCrl);
      JoinOfSplit(t.body);
      e := Crls(SplitTlvs(t.body).value);
    } else if t.tag == OCSP_VALS {
      EntriesSplit(t.body, ANY);
      JoinOfSplit(t.body);
      e := Ocsps(SplitTlvs(t.body).value);
    } else {
      e := Unknown(t);
    }
  }

  /** The input is a SEQUENCE of these elements, every CRL among them decodes, and anything may follow. */
  ghost predicate Spells(der: bytes, isCrl: bytes -> bool, es: seq<Element>, trailing: bytes) {
    (forall e :: e in es ==> Writable(e) && Decodes(e, isCrl))
    && |WriteBody(es)| < 268435456 && der == EncodeTlv(Tlv(0x30, WriteBody(es))) + trailing
  }

  /**
   Splitting succeeds exactly on the inputs a signer can have written, and the result is what was
   written: the members of the [0] fields, all of which decode as CRLs, and of the [1] fields.
   */
  lemma RevocationValuesExactly(der: bytes, isCrl: bytes -> bool, r: Split)
    ensures RevocationValues(der, isCrl) == Some(r) <==>
      exists es: seq<Element>, trailing: bytes ::
        Spells(der, isCrl, es, trailing) && r.crls == CrlsOf(es) && r.ocsps == OcspsOf(es)
  {
    hide SplitBody, WriteBody, CrlsOf, OcspsOf, DecodeTlv, EncodeTlv;
    if RevocationValues(der, isCrl) == Some(r) {
      var (outer, trailing) := DecodeTlv(der).value;
      TlvUnique(der);
      var es := ElementsOf(outer.body, isCrl);
      RevocationValuesRoundTrip(es, isCrl, trailing);
      assert Spells(der, isCrl, es, trailing);
    }
    if es: seq<Element>, trailing: bytes :|
        Spells(der, isCrl, es, trailing) && r.crls == CrlsOf(es) && r.ocsps == OcspsOf(es) {
      RevocationValuesRoundTrip(es, isCrl, trailing);
    }
  }

  function Flatten(ss: seq<bytes>): bytes {
    if ss == [] then [] else ss[0] + Flatten(ss[1..])
  }

  lemma {:induction false} FlattenAppend(a: seq<bytes>, b: seq<bytes>)
    ensures Flatten(a + b) == Flatten(a) + Flatten(b)
  {
    if a == [] {
      assert a + b == b;
    } else {
      FlattenAppend(a[1..], b);
      assert (a + b)[1..] == a[1..] + b;
      Append2(a[0], Flatten(a[1..]), Flatten(b));
    }
  }

  /** The bodies of the elements with one tag, run together. */
  function BodiesOf(ts: seq<Tlv>, tag: byte): bytes {
    if ts == [] then [] else (if ts[0].tag == tag then ts[0].body else []) + BodiesOf(ts[1..], tag)
  }

  lemma {:induction false} EntriesFlatten(s: bytes, ok: bytes -> bool)
    requires Entries(s, ok).Some?
    ensures Flatten(Entries(s, ok).value) == s
    decreases |s|
  {
    hide EncodeTlv, DecodeTlv;
    if s != [] {
      TlvUnique(s);
      EntriesFlatten(DecodeTlv(s).value.1, ok);
    }
  }

  lemma {:induction false} SplitFlatten(s: bytes, isCrl: bytes -> bool)
    requires SplitBody(s, isCrl).Some?
    ensures SplitTlvs(s).Some?
    ensures var r, ts := SplitBody(s, isCrl).value, SplitTlvs(s).value;
      Flatten(r.crls) == BodiesOf(ts, CRL_VALS) && Flatten(r.ocsps) == BodiesOf(ts, OCSP_VALS)
    decreases |s|
  {
    hide EncodeTlv, DecodeTlv, Entries, Flatten;
    if s == [] {
      assert Flatten([]) == [] by { FlattenNothing(); }
    } else {
      var (t, rest) := DecodeTlv(s).value;
      SplitFlatten(rest, isCrl);
      var more := SplitBody(rest, isCrl).value;
      assert [] + more.crls == more.crls && [] + more.ocsps == more.ocsps;
      var after := SplitTlvs(rest).value;
      assert SplitTlvs(s).value[1..] == after;
      assert [] + BodiesOf(after, CRL_VALS) == BodiesOf(after, CRL_VALS);
      assert [] + BodiesOf(after, OCSP_VALS) == BodiesOf(after, OCSP_VALS);
      if t.tag == CRL_VALS {
        EntriesFlatten(t.body, isCrl);
        FlattenAppend(Entries(t.body, isCrl).value, more.crls);
      } else if t.tag == OCSP_VALS {
        EntriesFlatten(t.body, ANY);
        FlattenAppend(Entries(t.body, ANY).value, more.ocsps);
      }
    }
  }

  lemma FlattenNothing()
    ensures Flatten([]) == []
  {
  }

  /**
   Whenever splitting succeeds, the CRLs run together are exactly the bodies of the [0] elements
   and the OCSP responses those of the [1] elements: encoding a decoded element again gives back
   its own bytes.
   */
  lemma SplittingIsLossless(der: bytes, isCrl: bytes -> bool)
    requires RevocationValues(der, isCrl).Some?
    ensures DecodeTlv(der).Some? && SplitTlvs(DecodeTlv(der).value.0.body).Some?
    ensures var r, ts := RevocationValues(der, isCrl).value, SplitTlvs(DecodeTlv(der).value.0.body).value;
      Flatten(r.crls) == BodiesOf(ts, 0xA0) && Flatten(r.ocsps) == BodiesOf(ts, 0xA1)
  {
    SplitFlatten(DecodeTlv(der).value.0.body, isCrl);
  }
}
