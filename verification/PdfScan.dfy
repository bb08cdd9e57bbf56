/** Locating PAdES signature dictionaries in a PDF byte stream (`crates/eidas-pades/src/scan.rs`). */
module PdfScan {
  import opened Wrappers
  import opened Bytes
  import opened PdfHex
  import opened PdfInts

  const KEY: bytes := [47, 66, 121, 116, 101, 82, 97, 110, 103, 101]  // /ByteRange
  const ISIZE_MAX: nat := 0x7FFF_FFFF_FFFF_FFFF

  /** No slice is longer than `isize::MAX`. */
  type Pdf = s: bytes | |s| <= ISIZE_MAX witness []

  predicate KeyAt(pdf: bytes, p: nat) {
    p + 10 <= |pdf| && pdf[p..p + 10] == KEY
  }

  lemma KeyByte(pdf: bytes, p: nat, k: nat)
    requires KeyAt(pdf, p) && k < 10
    ensures pdf[p + k] == KEY[k]
    ensures pdf[p + k] == SLASH <==> k == 0
  {
    assert pdf[p + k] == pdf[p..p + 10][k];
  }

  /** The keyword has no border: two occurrences are at least its length apart. */
  lemma KeyDoesNotOverlap(pdf: bytes, p: nat, q: nat)
    requires KeyAt(pdf, p) && KeyAt(pdf, q) && p < q
    ensures p + 10 <= q
  {
    KeyByte(pdf, q, 0);
    if q < p + 10 {
      KeyByte(pdf, p, q - p);
    }
  }

  /** `memmem`: the first occurrence at or after `from`. */
  function NextKey(pdf: bytes, from: nat): (r: Option<nat>)
    ensures r.Some? ==> from <= r.value && KeyAt(pdf, r.value) && forall q :: from <= q < r.value ==> !KeyAt(pdf, q)
    ensures r.None? ==> forall q :: from <= q ==> !KeyAt(pdf, q)
    decreases |pdf| - from
  {
    if from + 10 > |pdf| then None
    else if KeyAt(pdf, from) then Some(from)
    else NextKey(pdf, from + 1)
  }

  function SatAdd(x: nat, y: nat): nat {
    if x + y > USIZE_MAX then USIZE_MAX else x + y
  }

  datatype Location = Location(range: ByteRange, der: bytes, offset: nat)

  /** The closing bracket is looked for in 256 bytes at most. */
  function WindowEnd(pdf: bytes, start: nat): (stop: nat)
    requires start <= |pdf|
    ensures start <= stop <= |pdf|
  {
    if start + 256 < |pdf| then start + 256 else |pdf|
  }

  /** The text between the first `[` after the keyword and the first `]` within 256 bytes of it. */
  function ArrayText(pdf: bytes, p: nat): Option<bytes>
    requires p + 10 <= |pdf|
  {
    var i :- Position(pdf[p + 10..], LBRACKET);
    var start := p + 10 + i;
    var j :- Position(pdf[start..WindowEnd(pdf, start)], RBRACKET);
    if j == 0 then None else Some(pdf[start + 1..start + j])
  }

  predicate InBounds(pdf: bytes, r: ByteRange) {
    SatAdd(r.a, r.b) <= |pdf| && SatAdd(r.c, r.d) <= |pdf| && r.a + r.b < r.c <= |pdf|
  }

  /** The bytes the first `<...>` of the gap spells. */
  function GapBytes(gap: bytes): Option<bytes> {
    var lt :- Position(gap, LT);
    var n :- Position(gap[lt + 1..], GT);
    HexString(gap[lt + 1..lt + 1 + n])
  }

  /** A signature dictionary whose keyword is at `p`. */
  function ScanAt(pdf: bytes, p: nat): (r: Option<Location>)
    requires p + 10 <= |pdf|
    ensures r.Some? ==> InBounds(pdf, r.value.range) && r.value.offset == p
  {
    var text :- ArrayText(pdf, p);
    var range :- FourInts(text);
    if !InBounds(pdf, range) then None
    else
      var der :- GapBytes(pdf[range.a + range.b..range.c]);
      Some(Location(range, der, p))
  }

  method ReadArray(pdf: Pdf, p: nat) returns (r: Option<ByteRange>)
    requires p + 10 <= |pdf|
    ensures r == var text :- ArrayText(pdf, p); FourInts(text)
  {
    hide FourInts, Position;
    var afterKey := p + 10;
    var open := Position(pdf[afterKey..], LBRACKET);
    if open.None? { return None; }
    var arrayStart := afterKey + open.value;
    var scanEnd := if arrayStart + 256 < |pdf| then arrayStart + 256 else |pdf|;
    var close := Position(pdf[arrayStart..scanEnd], RBRACKET);
    if close.None? { return None; }
    var arrayEnd := arrayStart + close.value;
    assert pdf[arrayStart..scanEnd][0] == pdf[afterKey..][open.value] == LBRACKET;
    r := ParseFourInts(pdf[arrayStart + 1..arrayEnd]);
  }

  method ReadGap(gap: bytes) returns (r: Option<bytes>)
    ensures r == GapBytes(gap)
  {
    hide HexString;
    var lt := Position(gap, LT);
    if lt.None? { return None; }
    var gt := Position(gap[lt.value + 1..], GT);
    if gt.None? { return None; }
    r := DecodePdfHex(gap[lt.value + 1..lt.value + 1 + gt.value]);
  }

  method ScanOne(pdf: Pdf, p: nat) returns (r: Option<Location>)
    requires KeyAt(pdf, p)
    ensures r == ScanAt(pdf, p)
  {
    hide FourInts, GapBytes, ArrayText;
    var range := ReadArray(pdf, p);
    if range.None? { return None; }
    var ByteRange(a, b, c, d) := range.value;
    if SatAdd(a, b) > |pdf| || SatAdd(c, d) > |pdf| { return None; }
    var gapStart := a + b;
    var gapEnd := c;
    if gapEnd <= gapStart || gapEnd > |pdf| { return None; }
    var der := ReadGap(pdf[gapStart..gapEnd]);
    if der.None? { return None; }
    r := Some(Location(range.value, der.value, p));
  }

  // ---------- the reference: one decision per position ----------

  predicate Live(pdf: bytes, p: nat) {
    KeyAt(pdf, p) && ScanAt(pdf, p).Some?
  }

  /** Every position from `p` on, left to right, that scans and is not before `barrier`. */
  function Select(pdf: bytes, p: nat, barrier: nat): seq<Location>
    decreases |pdf| - p
  {
    if p >= |pdf| then []
    else if barrier <= p && Live(pdf, p) then
      var loc := ScanAt(pdf, p).value;
      [loc] + Select(pdf, p + 1, loc.range.c)
    else Select(pdf, p + 1, barrier)
  }

  /** Positions that are masked or do not scan make no difference. */
  lemma {:induction false} SelectSkips(pdf: bytes, p: nat, q: nat, barrier: nat)
    requires p <= q
    requires forall i :: p <= i < q ==> i < barrier || !Live(pdf, i)
    ensures Select(pdf, p, barrier) == Select(pdf, q, barrier)
    decreases q - p
  {
    if p < q {
      SelectSkips(pdf, p + 1, q, barrier);
    }
  }

  /** A barrier already passed makes no difference. */
  lemma {:induction false} PassedBarrier(pdf: bytes, p: nat, barrier: nat)
    requires barrier <= p
    ensures Select(pdf, p, barrier) == Select(pdf, p, 0)
    decreases |pdf| - p
  {
    if p < |pdf| && !Live(pdf, p) {
      PassedBarrier(pdf, p + 1, barrier);
      PassedBarrier(pdf, p + 1, 0);
    }
  }

  /** Every reported location is what its own keyword scans to. */
  ghost predicate Genuine(pdf: bytes, out: seq<Location>, from: nat) {
    forall i :: 0 <= i < |out| ==>
      from <= out[i].offset && Live(pdf, out[i].offset) && ScanAt(pdf, out[i].offset) == Some(out[i])
  }

  /** Offsets strictly increase and none lies inside an earlier reported range. */
  ghost predicate Ordered(out: seq<Location>) {
    forall i, j :: 0 <= i < j < |out| ==> out[i].offset < out[j].offset && out[i].range.c <= out[j].offset
  }

  ghost predicate Reported(out: seq<Location>, p: nat) {
    exists i :: 0 <= i < |out| && out[i].offset == p
  }

  /** An earlier reported range reaches past `p`. */
  ghost predicate Masked(out: seq<Location>, p: nat) {
    exists i :: 0 <= i < |out| && out[i].offset < p < out[i].range.c
  }

  /** No keyword that scans is lost. */
  ghost predicate Complete(pdf: bytes, out: seq<Location>, from: nat) {
    forall q :: from <= q && Live(pdf, q) ==> Reported(out, q) || Masked(out, q)
  }

  /** What the scanner promises about the keywords at or after `from`. */
  ghost predicate IsGreedySelection(pdf: bytes, out: seq<Location>, from: nat) {
    Genuine(pdf, out, from) && Ordered(out) && Complete(pdf, out, from)
  }

  function Max(x: nat, y: nat): nat {
    if x < y then y else x
  }

  /** Dropping a head location, or putting one in front. */
  lemma GreedyTail(pdf: bytes, loc: Location, rest: seq<Location>, from: nat)
    requires Live(pdf, from) && ScanAt(pdf, from) == Some(loc) && loc.offset == from
    ensures IsGreedySelection(pdf, [loc] + rest, from)
        <==> IsGreedySelection(pdf, rest, Max(from + 1, loc.range.c))
  {
    if IsGreedySelection(pdf, rest, Max(from + 1, loc.range.c)) {
      GreedyCons(pdf, loc, rest, from);
    }
    if IsGreedySelection(pdf, [loc] + rest, from) {
      GreedyUncons(pdf, loc, rest, from);
    }
  }

  lemma GreedyCons(pdf: bytes, loc: Location, rest: seq<Location>, from: nat)
    requires Live(pdf, from) && ScanAt(pdf, from) == Some(loc) && loc.offset == from
    requires IsGreedySelection(pdf, rest, Max(from + 1, loc.range.c))
    ensures IsGreedySelection(pdf, [loc] + rest, from)
  {
    hide ScanAt, Live;
    var out, next := [loc] + rest, Max(from + 1, loc.range.c);
    assert out[0] == loc && forall i :: 1 <= i < |out| ==> out[i] == rest[i - 1];
    forall q | from <= q && Live(pdf, q) ensures Reported(out, q) || Masked(out, q) {
      if q >= next {
        assert Reported(rest, q) || Masked(rest, q);
        assert forall i :: 0 <= i < |rest| ==> out[i + 1] == rest[i];
      }
    }
  }

  lemma GreedyUncons(pdf: bytes, loc: Location, rest: seq<Location>, from: nat)
    requires loc.offset == from
    requires IsGreedySelection(pdf, [loc] + rest, from)
    ensures IsGreedySelection(pdf, rest, Max(from + 1, loc.range.c))
  {
    hide ScanAt, Live;
    var out, next := [loc] + rest, Max(from + 1, loc.range.c);
    assert out[0] == loc && forall i :: 0 <= i < |rest| ==> rest[i] == out[i + 1];
    assert Ordered(rest);
    assert Genuine(pdf, rest, next) by {
      forall i | 0 <= i < |rest| ensures next <= rest[i].offset {
        assert out[0].offset < out[i + 1].offset && out[0].range.c <= out[i + 1].offset;
      }
    }
    forall q | next <= q && Live(pdf, q) ensures Reported(rest, q) || Masked(rest, q) {
      NotByHead(loc, rest, q);
    }
  }

  lemma NotByHead(loc: Location, rest: seq<Location>, q: nat)
    requires loc.offset < q && loc.range.c <= q
    requires Reported([loc] + rest, q) || Masked([loc] + rest, q)
    ensures Reported(rest, q) || Masked(rest, q)
  {
    var out := [loc] + rest;
    var i :| 0 <= i < |out| && (out[i].offset == q || out[i].offset < q < out[i].range.c);
    assert rest[i - 1] == out[i];
  }

  /** A selection from `from` starts with the location at `from` when that scans. */
  lemma GreedyHead(pdf: bytes, out: seq<Location>, from: nat)
    requires IsGreedySelection(pdf, out, from) && Live(pdf, from)
    ensures out != [] && out[0].offset == from && ScanAt(pdf, from) == Some(out[0])
  {
    hide ScanAt, Live;
    assert Reported(out, from) || Masked(out, from);
    assert !Masked(out, from);
    var i :| 0 <= i < |out| && out[i].offset == from;
    assert out[0].offset <= out[i].offset;
  }

  lemma GreedyLater(pdf: bytes, out: seq<Location>, from: nat, later: nat)
    requires from <= later
    requires forall q :: from <= q < later ==> !Live(pdf, q)
    ensures IsGreedySelection(pdf, out, from) <==> IsGreedySelection(pdf, out, later)
  {
    hide ScanAt, Live;
  }

  /**
   The reference selection keeps the promise, and no other list does: offsets increase, every
   location scans, and every keyword that scans is reported unless an earlier reported range
   covers it. A failed candidate masks nothing.
   */
  lemma {:induction false} SelectIsTheGreedySelection(pdf: bytes, p: nat, barrier: nat, out: seq<Location>)
    ensures IsGreedySelection(pdf, out, Max(p, barrier)) <==> out == Select(pdf, p, barrier)
    decreases |pdf| - p
  {
    hide ScanAt, IsGreedySelection;
    if p >= |pdf| {
      assert IsGreedySelection(pdf, out, Max(p, barrier)) <==> out == [] by {
        NothingAfterEnd(pdf, out, Max(p, barrier));
      }
    } else if barrier <= p && Live(pdf, p) {
      var loc := ScanAt(pdf, p).value;
      ScanOffset(pdf, p);
      if IsGreedySelection(pdf, out, p) {
        GreedyHead(pdf, out, p);
        assert out == [loc] + out[1..];
        GreedyTail(pdf, loc, out[1..], p);
        SelectIsTheGreedySelection(pdf, p + 1, loc.range.c, out[1..]);
      }
      if out == Select(pdf, p, barrier) {
        assert out == [loc] + out[1..];
        SelectIsTheGreedySelection(pdf, p + 1, loc.range.c, out[1..]);
        GreedyTail(pdf, loc, out[1..], p);
      }
    } else {
      GreedyLater(pdf, out, Max(p, barrier), Max(p + 1, barrier));
      SelectIsTheGreedySelection(pdf, p + 1, barrier, out);
    }
  }

  lemma NothingAfterEnd(pdf: bytes, out: seq<Location>, from: nat)
    requires from >= |pdf|
    ensures IsGreedySelection(pdf, out, from) <==> out == []
  {
    if out != [] {
      assert !(from <= out[0].offset && Live(pdf, out[0].offset));
    }
  }

  lemma ScanOffset(pdf: bytes, p: nat)
    requires Live(pdf, p)
    ensures ScanAt(pdf, p).value.offset == p
  {
  }

  // ---------- the cursor loop ----------

  /** Between a keyword and the end of it no other keyword starts. */
  lemma SelectAfterKey(pdf: bytes, p: nat, barrier: nat)
    requires KeyAt(pdf, p)
    ensures Select(pdf, p + 1, barrier) == Select(pdf, p + 10, barrier)
  {
    forall i | p + 1 <= i < p + 10 ensures !Live(pdf, i) {
      if KeyAt(pdf, i) {
        KeyDoesNotOverlap(pdf, p, i);
      }
    }
    SelectSkips(pdf, p + 1, p + 10, barrier);
  }

  /** One turn of the loop: the hit at `p`, the cursor to continue from. */
  lemma SelectAdvances(pdf: bytes, cursor: nat, p: nat)
    requires NextKey(pdf, cursor) == Some(p)
    ensures Select(pdf, cursor, 0) ==
      match ScanAt(pdf, p)
      case None => Select(pdf, p + 10, 0)
      case Some(loc) =>
        [loc] + Select(pdf, if loc.range.c > p + 10 then loc.range.c else p + 10, 0)
  {
    hide ScanAt;
    SelectSkips(pdf, cursor, p, 0);
    if ScanAt(pdf, p).None? {
      SelectAfterKey(pdf, p, 0);
    } else {
      var c := ScanAt(pdf, p).value.range.c;
      SelectAfterKey(pdf, p, c);
      if c > p + 10 {
        SelectSkips(pdf, p + 10, c, c);
        PassedBarrier(pdf, c, c);
      } else {
        PassedBarrier(pdf, p + 10, c);
      }
    }
  }

  method FindSignatures(pdf: Pdf) returns (out: seq<Location>)
    ensures out == Select(pdf, 0, 0)
    ensures IsGreedySelection(pdf, out, 0)
  {
    hide ScanAt, Live, Select, IsGreedySelection;
    SelectIsTheGreedySelection(pdf, 0, 0, Select(pdf, 0, 0));
    out := [];
    var cursor := 0;
    while cursor < |pdf|
      invariant out + Select(pdf, cursor, 0) == Select(pdf, 0, 0)
      decreases |pdf| - cursor
    {
      var hit := NextKey(pdf, cursor);
      if hit.None? {
        NothingLeft(pdf, cursor);
        break;
      }
      var start := hit.value;
      SelectAdvances(pdf, cursor, start);
      var advanceTo := start + 10;
      var loc := ScanOne(pdf, start);
      match loc {
        case Some(l) =>
          LocationInBounds(pdf, start);
          var gapStart := SatAdd(l.range.a, l.range.b);
          var next := if gapStart > l.range.c then gapStart else l.range.c;
          Append2(out, [l], Select(pdf, if l.range.c > advanceTo then l.range.c else advanceTo, 0));
          out := out + [l];
          cursor := if next > advanceTo then next else advanceTo;
        case None =>
          cursor := advanceTo;
      }
    }
    if cursor >= |pdf| { NothingLeft(pdf, cursor); }
    assert out + [] == out;
  }

  lemma LocationInBounds(pdf: bytes, p: nat)
    requires p + 10 <= |pdf| <= ISIZE_MAX && ScanAt(pdf, p).Some?
    ensures var r := ScanAt(pdf, p).value.range; SatAdd(r.a, r.b) < r.c && r.a + r.b < r.c && r.c + r.d <= |pdf|
  {
  }

  lemma NothingLeft(pdf: bytes, cursor: nat)
    requires cursor >= |pdf| || NextKey(pdf, cursor).None?
    ensures Select(pdf, cursor, 0) == []
  {
    if cursor < |pdf| {
      SelectSkips(pdf, cursor, |pdf|, 0);
    }
  }

  /** `signed_bytes`: what the message digest of the signature commits to. */
  function SignedBytes(pdf: bytes, loc: Location): bytes
    requires loc.range.a + loc.range.b <= |pdf| && loc.range.c + loc.range.d <= |pdf|
  {
    var r := loc.range;
    pdf[r.a..r.a + r.b] + pdf[r.c..r.c + r.d]
  }
}
