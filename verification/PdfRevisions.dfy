/** Incremental signing: every signature a signer appends is found again, with its own revision. */
module PdfRevisions {
  import opened Wrappers
  import opened Bytes
  import opened PdfHex
  import opened PdfInts
  import opened PdfScan

  /**
   One incremental update: `pre /ByteRange sep [0 b c d pad] mid <hex> post`, where the range
   leaves out exactly the angle-bracketed string.
   */
  datatype Update = Update(pre: bytes, sep: bytes, range: ByteRange, pad: nat, mid: bytes, hex: bytes, post: bytes)

  /** From the keyword to the gap; `rest` follows. */
  function Dictionary(u: Update, rest: bytes): bytes {
    KEY + (u.sep + ([LBRACKET] + (RangeText(u.range, u.pad) + ([RBRACKET] + (u.mid + rest)))))
  }

  /** Up to and without the gap. */
  function Head(pdf: bytes, u: Update): bytes {
    pdf + u.pre + Dictionary(u, [])
  }

  function Gap(u: Update): bytes {
    [LT] + u.hex + [GT]
  }

  function Apply(pdf: bytes, u: Update): bytes {
    Head(pdf, u) + Gap(u) + u.post
  }

  /** The update is one a signer writes over `pdf`. */
  predicate IsUpdate(pdf: bytes, u: Update) {
    && u.range == ByteRange(0, |Head(pdf, u)|, |Head(pdf, u)| + |Gap(u)|, |u.post|)
    && LBRACKET !in u.sep
    && |RangeText(u.range, u.pad)| <= 254
    && GT !in u.hex && Nibbles(u.hex).Some?
  }

  /** The file after the updates, oldest first. */
  function File(base: bytes, us: seq<Update>): bytes {
    if us == [] then base else Apply(File(base, us[..|us| - 1]), us[|us| - 1])
  }

  /** Where the keyword of update `k` stands, in every later revision too. */
  function KeyOffset(base: bytes, us: seq<Update>, k: nat): nat
    requires k < |us|
  {
    |File(base, us[..k])| + |us[k].pre|
  }

  /** Every update is one a signer writes over the revision before it; what else they contain is free. */
  ghost predicate IsHistory(base: bytes, us: seq<Update>) {
    forall k :: 0 <= k < |us| ==> IsUpdate(File(base, us[..k]), us[k])
  }

  /** The keyword at `p` is one a signer wrote. */
  ghost predicate IsWritten(base: bytes, us: seq<Update>, p: nat) {
    exists k :: 0 <= k < |us| && p == KeyOffset(base, us, k)
  }

  /** `p` lies between an earlier written keyword and the end of its gap. */
  ghost predicate IsCovered(base: bytes, us: seq<Update>, p: nat) {
    exists k :: 0 <= k < |us| && KeyOffset(base, us, k) < p < us[k].range.c
  }

  /** Every keyword that scans is a written one, or covered by an earlier signature. */
  ghost predicate NoStrayScans(base: bytes, us: seq<Update>) {
    forall p :: Live(File(base, us), p) ==> IsWritten(base, us, p) || IsCovered(base, us, p)
  }

  /** What update `k` should scan back to. */
  function Written(base: bytes, us: seq<Update>, k: nat): Location
    requires k < |us| && Nibbles(us[k].hex).Some?
  {
    Location(us[k].range, TrimZeros(Pairs(Nibbles(us[k].hex).value)), KeyOffset(base, us, k))
  }

  // ---------- one update inside a longer file ----------

  lemma ArrayRoundTrip(front: bytes, u: Update, rest: bytes)
    requires LBRACKET !in u.sep && |RangeText(u.range, u.pad)| <= 254
    requires RBRACKET !in RangeText(u.range, u.pad)
    ensures var file := front + Dictionary(u, rest);
      KeyAt(file, |front|) && ArrayText(file, |front|) == Some(RangeText(u.range, u.pad))
  {
    hide *;
    var text := RangeText(u.range, u.pad);
    DictionaryIs(u, rest);
    KeyThenRest(front + Dictionary(u, rest), front, u.sep + ([LBRACKET] + (text + ([RBRACKET] + (u.mid + rest)))));
    ArrayFound(front + Dictionary(u, rest), |front|, u.sep, text, u.mid + rest);
  }

  lemma ArrayFound(file: bytes, p: nat, sep: bytes, text: bytes, after: bytes)
    requires p + 10 <= |file| && file[p + 10..] == sep + ([LBRACKET] + (text + ([RBRACKET] + after)))
    requires LBRACKET !in sep && RBRACKET !in text && |text| <= 254
    ensures ArrayText(file, p) == Some(text)
  {
    hide *;
    var fromOpen := [LBRACKET] + (text + ([RBRACKET] + after));
    FindAfter(sep, LBRACKET, text + ([RBRACKET] + after));
    Cut(sep, fromOpen);
    SliceTwice(file, p + 10, |sep|);
    var start := p + 10 + |sep|;
    ClosingBracket(file, start, text, after);
    ArrayTextIs(file, p, start, start + 1 + |text|);
  }

  lemma DictionaryIs(u: Update, rest: bytes)
    ensures Dictionary(u, rest)
         == KEY + (u.sep + ([LBRACKET] + (RangeText(u.range, u.pad) + ([RBRACKET] + (u.mid + rest)))))
  {
    hide RangeText;
  }

  lemma KeyThenRest(file: bytes, front: bytes, rest: bytes)
    requires file == front + (KEY + rest)
    ensures KeyAt(file, |front|) && file[|front| + 10..] == rest
  {
    Cut(front, KEY + rest);
    Cut(KEY, rest);
    SliceTwice(file, |front|, 10);
    assert file[|front|..|front| + 10] == file[|front|..][..10];
  }

  lemma ArrayTextIs(pdf: bytes, p: nat, start: nat, close: nat)
    requires p + 10 <= start <= close <= |pdf| && start < close
    requires Position(pdf[p + 10..], LBRACKET) == Some(start - p - 10)
    requires Position(pdf[start..WindowEnd(pdf, start)], RBRACKET) == Some(close - start)
    ensures ArrayText(pdf, p) == Some(pdf[start + 1..close])
  {
    hide Position;
  }

  lemma FindAfter(pre: bytes, b: byte, post: bytes)
    requires b !in pre
    ensures Position(pre + ([b] + post), b) == Some(|pre|)
  {
    Append2(pre, [b], post);
    PositionAfter(pre, b, post);
  }

  lemma ClosingBracket(file: bytes, start: nat, text: bytes, after: bytes)
    requires start <= |file| && file[start..] == [LBRACKET] + (text + ([RBRACKET] + after))
    requires |text| <= 254 && RBRACKET !in text
    ensures Position(file[start..WindowEnd(file, start)], RBRACKET) == Some(1 + |text|)
    ensures start + 1 + |text| <= |file| && file[start + 1..start + 1 + |text|] == text
  {
    hide Position;
    var rest, n := file[start..], WindowEnd(file, start) - start;
    assert file[start..start + n] == rest[..n];
    assert file[start + 1..start + 1 + |text|] == rest[1..1 + |text|];
    CutMiddle([LBRACKET], text, [RBRACKET] + after);
    ClosingOf(rest, text, after);
    PositionIs(rest[..n], RBRACKET, 1 + |text|);
  }

  lemma ClosingOf(rest: bytes, text: bytes, after: bytes)
    requires rest == [LBRACKET] + (text + ([RBRACKET] + after)) && RBRACKET !in text
    ensures |rest| >= 2 + |text| && rest[1 + |text|] == RBRACKET
    ensures forall i :: 0 <= i < 1 + |text| ==> rest[i] != RBRACKET
  {
  }

  lemma PositionIs(s: bytes, b: byte, k: nat)
    requires k < |s| && s[k] == b && forall i :: 0 <= i < k ==> s[i] != b
    ensures Position(s, b) == Some(k)
  {
  }

  lemma GapRoundTrip(u: Update)
    requires GT !in u.hex && Nibbles(u.hex).Some?
    ensures GapBytes(Gap(u)) == Some(TrimZeros(Pairs(Nibbles(u.hex).value)))
  {
    var gap := Gap(u);
    assert gap[0] == LT;
    assert Position(gap, LT) == Some(0);
    assert gap[1..] == u.hex + ([GT] + []);
    FindAfter(u.hex, GT, []);
    assert gap[1..1 + |u.hex|] == u.hex;
  }

  /** In any file that continues the revision, the keyword of its update scans to what was written. */
  lemma UpdateScans(pdf: bytes, u: Update, tail: bytes)
    requires IsUpdate(pdf, u) && |Apply(pdf, u) + tail| <= ISIZE_MAX
    ensures var file := Apply(pdf, u) + tail;
      KeyAt(file, |pdf| + |u.pre|)
      && ScanAt(file, |pdf| + |u.pre|)
         == Some(Location(u.range, TrimZeros(Pairs(Nibbles(u.hex).value)), |pdf| + |u.pre|))
    ensures |pdf| + |u.pre| < u.range.c <= |Apply(pdf, u)|
  {
    hide Head, Gap, RangeText, Nibbles, GapBytes, ArrayText, FourInts, Dictionary;
    var file := Apply(pdf, u) + tail;
    var rest := u.post + tail;
    ApplySplits(pdf, u, tail);
    FourIntsRoundTrip(u.range, u.pad);
    ArrayRoundTrip(pdf + u.pre, u, Gap(u) + rest);
    CutMiddle(Head(pdf, u), Gap(u), rest);
    GapRoundTrip(u);
    assert InBounds(file, u.range);
  }

  lemma ApplySplits(pdf: bytes, u: Update, tail: bytes)
    ensures var rest := Gap(u) + (u.post + tail);
      Apply(pdf, u) + tail == Head(pdf, u) + rest
      && Apply(pdf, u) + tail == (pdf + u.pre) + Dictionary(u, rest)
    ensures |Apply(pdf, u)| == |Head(pdf, u)| + |Gap(u)| + |u.post|
    ensures |Head(pdf, u)| > |pdf| + |u.pre| && |Gap(u)| > 0
  {
    var rest := Gap(u) + (u.post + tail);
    assert Apply(pdf, u) + tail == Head(pdf, u) + rest by { hide Gap, Head; }
    DictionaryExtends(u, rest);
    assert |Dictionary(u, [])| > 0;
    hide Gap, Dictionary;
    Append2(pdf + u.pre, Dictionary(u, []), rest);
  }

  lemma DictionaryExtends(u: Update, rest: bytes)
    ensures Dictionary(u, rest) == Dictionary(u, []) + rest
  {
    hide RangeText;
    var text := RangeText(u.range, u.pad);
    var mid := [RBRACKET] + (u.mid + []);
    var mid' := [RBRACKET] + (u.mid + rest);
    assert mid' == mid + rest;
    Append2(text, mid, rest);
    Append2([LBRACKET], text + mid, rest);
    Append2(u.sep, [LBRACKET] + (text + mid), rest);
    Append2(KEY, u.sep + ([LBRACKET] + (text + mid)), rest);
  }

  // ---------- the whole history ----------

  /** Later updates only append. */
  lemma {:induction false} FileExtends(base: bytes, us: seq<Update>, k: nat) returns (tail: bytes)
    requires k <= |us|
    ensures File(base, us) == File(base, us[..k]) + tail
    decreases |us|
  {
    if k == |us| {
      assert us[..k] == us;
      tail := [];
    } else {
      var n := |us| - 1;
      assert us[..n][..k] == us[..k];
      var inner := FileExtends(base, us[..n], k);
      var pdf := File(base, us[..n]);
      assert File(base, us) == Apply(pdf, us[n]);
      hide File;
      var added := ApplyAppends(pdf, us[n]);
      hide Apply;
      tail := inner + added;
      Append2(File(base, us[..k]), inner, added);
    }
  }

  lemma ApplyAppends(pdf: bytes, u: Update) returns (added: bytes)
    ensures Apply(pdf, u) == pdf + added
  {
    hide Dictionary, Gap;
    added := u.pre + Dictionary(u, []) + Gap(u) + u.post;
    Append4(pdf, u.pre, Dictionary(u, []), Gap(u), u.post);
  }

  lemma SignatureScans(base: bytes, us: seq<Update>, k: nat)
    requires IsHistory(base, us) && k < |us| && |File(base, us)| <= ISIZE_MAX
    ensures KeyAt(File(base, us), KeyOffset(base, us, k))
    ensures Nibbles(us[k].hex).Some?
    ensures ScanAt(File(base, us), KeyOffset(base, us, k)) == Some(Written(base, us, k))
    ensures KeyOffset(base, us, k) < us[k].range.c <= |File(base, us[..k + 1])| <= |File(base, us)|
  {
    hide KeyAt, ScanAt, Apply, Nibbles, File, IsUpdate, IsHistory, TrimZeros, Pairs;
    var tail := FileExtends(base, us, k + 1);
    RevisionIs(base, us, k);
    UpdateOf(base, us, k);
    UpdateScans(File(base, us[..k]), us[k], tail);
  }

  lemma UpdateOf(base: bytes, us: seq<Update>, k: nat)
    requires IsHistory(base, us) && k < |us|
    ensures IsUpdate(File(base, us[..k]), us[k])
    ensures Nibbles(us[k].hex).Some?
  {
    assert IsUpdate(File(base, us[..k]), us[k]);
    hide IsUpdate, KeyAt, File;
  }

  lemma RevisionIs(base: bytes, us: seq<Update>, k: nat)
    requires k < |us|
    ensures File(base, us[..k + 1]) == Apply(File(base, us[..k]), us[k])
  {
    assert us[..k + 1][..k] == us[..k];
  }

  function AllWritten(base: bytes, us: seq<Update>, k: nat): (r: seq<Location>)
    requires k <= |us| && forall i :: 0 <= i < |us| ==> Nibbles(us[i].hex).Some?
    ensures |r| == |us| - k
    decreases |us| - k
  {
    if k == |us| then [] else [Written(base, us, k)] + AllWritten(base, us, k + 1)
  }

  lemma AllSpelled(base: bytes, us: seq<Update>)
    requires IsHistory(base, us)
    ensures forall i :: 0 <= i < |us| ==> Nibbles(us[i].hex).Some?
  {
    hide Head, Gap, Nibbles, File;
  }

  /** The keyword of update `k` comes after everything earlier updates wrote. */
  lemma {:induction false} OffsetsIncrease(base: bytes, us: seq<Update>, i: nat, k: nat)
    requires i <= k < |us|
    ensures |File(base, us[..i])| <= KeyOffset(base, us, k)
    decreases k
  {
    assert us[..k][..i] == us[..i];
    var tail := FileExtends(base, us[..k], i);
  }

  lemma LaterKey(base: bytes, us: seq<Update>, k: nat, i: nat)
    requires IsHistory(base, us) && k < i < |us| && |File(base, us)| <= ISIZE_MAX
    ensures KeyOffset(base, us, k) < KeyOffset(base, us, i) && us[k].range.c <= KeyOffset(base, us, i)
  {
    hide *;
    SignatureScans(base, us, k);
    OffsetsIncrease(base, us, k + 1, i);
  }

  lemma {:induction false} AllWrittenAt(base: bytes, us: seq<Update>, k: nat, i: nat)
    requires k <= i < |us| && forall j :: 0 <= j < |us| ==> Nibbles(us[j].hex).Some?
    ensures AllWritten(base, us, k)[i - k] == Written(base, us, i)
    decreases i - k
  {
    hide Written, Nibbles;
    if k < i {
      AllWrittenAt(base, us, k + 1, i);
    }
  }

  /** What was written scans, in order. */
  lemma WrittenIsOrdered(base: bytes, us: seq<Update>)
    requires IsHistory(base, us) && |File(base, us)| <= ISIZE_MAX
    requires forall i :: 0 <= i < |us| ==> Nibbles(us[i].hex).Some?
    ensures var out := AllWritten(base, us, 0); Genuine(File(base, us), out, 0) && Ordered(out)
  {
    hide ScanAt, Nibbles, File, KeyOffset, IsHistory, TrimZeros, Pairs, AllWritten;
    var out, file := AllWritten(base, us, 0), File(base, us);
    forall i | 0 <= i < |out| ensures Live(file, out[i].offset) && ScanAt(file, out[i].offset) == Some(out[i]) {
      AllWrittenAt(base, us, 0, i);
      SignatureScans(base, us, i);
    }
    forall i, j | 0 <= i < j < |out|
      ensures out[i].offset < out[j].offset && out[i].range.c <= out[j].offset
    {
      AllWrittenAt(base, us, 0, i);
      AllWrittenAt(base, us, 0, j);
      LaterKey(base, us, i, j);
    }
  }

  lemma WrittenIsReported(base: bytes, us: seq<Update>, p: nat)
    requires forall i :: 0 <= i < |us| ==> Nibbles(us[i].hex).Some?
    ensures Reported(AllWritten(base, us, 0), p) <==> IsWritten(base, us, p)
    ensures Masked(AllWritten(base, us, 0), p) <==> IsCovered(base, us, p)
  {
    hide Nibbles, KeyOffset, AllWritten, TrimZeros, Pairs;
    var out := AllWritten(base, us, 0);
    forall i | 0 <= i < |us| ensures out[i].offset == KeyOffset(base, us, i) && out[i].range == us[i].range {
      AllWrittenAt(base, us, 0, i);
    }
    if IsWritten(base, us, p) {
      var k :| 0 <= k < |us| && p == KeyOffset(base, us, k);
      assert out[k].offset == p;
    }
    if IsCovered(base, us, p) {
      var k :| 0 <= k < |us| && KeyOffset(base, us, k) < p < us[k].range.c;
      assert out[k].offset < p < out[k].range.c;
    }
  }

  /**
   A file made by any number of incremental signings scans to exactly one location per signing,
   in order, each with the four integers and the hexadecimal string its signer wrote, if and only
   if every keyword in it that scans is a written one or lies inside an earlier written range.
   Keyword text that does not scan never matters.
   */
  lemma SigningsScanBack(base: bytes, us: seq<Update>)
    requires IsHistory(base, us) && |File(base, us)| <= ISIZE_MAX
    ensures forall i :: 0 <= i < |us| ==> Nibbles(us[i].hex).Some?
    ensures |AllWritten(base, us, 0)| == |us|
    ensures Select(File(base, us), 0, 0) == AllWritten(base, us, 0) <==> NoStrayScans(base, us)
  {
    hide KeyAt, ScanAt, Live, IsUpdate, Nibbles, File, IsHistory, IsWritten, IsCovered, Reported, Masked, Genuine,
      Ordered, AllWritten, Select;
    AllSpelled(base, us);
    var file, out := File(base, us), AllWritten(base, us, 0);
    SelectIsTheGreedySelection(file, 0, 0, out);
    WrittenIsOrdered(base, us);
    forall p: nat
      ensures (Reported(out, p) <==> IsWritten(base, us, p)) && (Masked(out, p) <==> IsCovered(base, us, p))
    {
      WrittenIsReported(base, us, p);
    }
  }

  /** Each location's signed bytes are its own revision without the gap, whatever came later. */
  lemma SignedBytesAreTheRevision(base: bytes, us: seq<Update>, k: nat)
    requires IsHistory(base, us) && k < |us| && |File(base, us)| <= ISIZE_MAX
    requires Nibbles(us[k].hex).Some?
    ensures var r := us[k].range;
      var file, revision := File(base, us), File(base, us[..k + 1]);
      r.a == 0 && r.b < r.c && r.c + r.d == |revision| <= |file|
      && SignedBytes(file, Written(base, us, k)) == revision[..r.b] + revision[r.c..]
  {
    hide File, Apply, Nibbles, IsHistory, IsUpdate, KeyOffset, TrimZeros, Pairs;
    var tail := FileExtends(base, us, k + 1);
    RevisionIs(base, us, k);
    UpdateOf(base, us, k);
    RangeOf(File(base, us[..k]), us[k]);
    var r, revision := us[k].range, File(base, us[..k + 1]);
    Prefixes(revision, tail, r.b, r.c);
  }

  lemma RangeOf(pdf: bytes, u: Update)
    requires IsUpdate(pdf, u)
    ensures u.range.a == 0 && u.range.b < u.range.c && u.range.c + u.range.d == |Apply(pdf, u)|
  {
    hide Head, Gap, Apply, Nibbles, RangeText;
    ApplySplits(pdf, u, []);
  }

  lemma Prefixes(revision: bytes, tail: bytes, b: nat, c: nat)
    requires b <= c <= |revision|
    ensures (revision + tail)[0..b] == revision[..b]
    ensures (revision + tail)[c..|revision|] == revision[c..]
  {
  }

  /** The embedded bytes come back whole when they do not end in 0x00, else without the zeros. */
  lemma EmbeddedBytesComeBack(base: bytes, us: seq<Update>, k: nat, der: bytes, pad: bytes)
    requires k < |us| && Spells(us[k].hex, NibblesOf(der + pad))
    requires forall i :: 0 <= i < |pad| ==> pad[i] == 0
    ensures Nibbles(us[k].hex).Some?
    ensures Written(base, us, k).der == TrimZeros(der)
    ensures Written(base, us, k).der == der <==> der == [] || der[|der| - 1] != 0
  {
    hide Nibbles, KeyOffset;
    SpelledExactly(us[k].hex, NibblesOf(der + pad));
    HexRoundTrip(us[k].hex, der, pad);
  }

  // ---------- stray keywords ----------

  /**
   A stray keyword in front of the written one, with no `[` between them, reads the written array:
   the same file is also one whose signer wrote the stray.
   */
  lemma StrayReadsTheArray(pdf: bytes, u: Update, a: bytes, b: bytes, tail: bytes)
    requires IsUpdate(pdf, u) && |Apply(pdf, u) + tail| <= ISIZE_MAX
    requires u.pre == a + KEY + b && LBRACKET !in b
    ensures Live(Apply(pdf, u) + tail, |pdf| + |a|)
    ensures ScanAt(Apply(pdf, u) + tail, |pdf| + |a|)
         == Some(Location(u.range, TrimZeros(Pairs(Nibbles(u.hex).value)), |pdf| + |a|))
  {
    hide Nibbles, KeyAt, ScanAt, RangeText, Head, Dictionary, TrimZeros, Pairs;
    var other := u.(pre := a, sep := b + (KEY + u.sep));
    assert LBRACKET !in KEY;
    SameHead(pdf, u, other, a, b);
    UpdateScans(pdf, other, tail);
  }

  lemma SameHead(pdf: bytes, u: Update, other: Update, a: bytes, b: bytes)
    requires u.pre == a + KEY + b && other == u.(pre := a, sep := b + (KEY + u.sep))
    ensures Head(pdf, other) == Head(pdf, u)
  {
    hide RangeText;
    var rest := [LBRACKET] + (RangeText(u.range, u.pad) + ([RBRACKET] + (u.mid + [])));
    Append2(b, KEY + u.sep, rest);
    Append2(KEY, u.sep, rest);
    Append2(KEY, b, KEY + (u.sep + rest));
    Append2(a, KEY, b);
    Append2(a, KEY + b, KEY + (u.sep + rest));
    Append2(pdf, a, KEY + (b + (KEY + (u.sep + rest))));
    Append2(pdf, u.pre, KEY + (u.sep + rest));
  }

  /** So it takes the place of the written keyword, which its range then masks. */
  lemma StrayBeforeArrayMasks(base: bytes, us: seq<Update>, k: nat, a: bytes, b: bytes)
    requires IsHistory(base, us) && |File(base, us)| <= ISIZE_MAX && k < |us|
    requires us[k].pre == a + KEY + b && LBRACKET !in b
    ensures !NoStrayScans(base, us)
    ensures forall i :: 0 <= i < |us| ==> Nibbles(us[i].hex).Some?
    ensures Select(File(base, us), 0, 0) != AllWritten(base, us, 0)
  {
    hide KeyAt, ScanAt, Live, IsUpdate, Nibbles, File, IsHistory, Apply, AllWritten, Select;
    SigningsScanBack(base, us);
    var pdf := File(base, us[..k]);
    var tail := FileExtends(base, us, k + 1);
    RevisionIs(base, us, k);
    UpdateOf(base, us, k);
    var stray := |pdf| + |a|;
    StrayReadsTheArray(pdf, us[k], a, b, tail);
    assert Live(File(base, us), stray);
    forall i | 0 <= i < |us|
      ensures stray != KeyOffset(base, us, i) && !(KeyOffset(base, us, i) < stray < us[i].range.c)
    {
      StrayBetween(base, us, k, i, stray);
    }
  }

  lemma StrayBetween(base: bytes, us: seq<Update>, k: nat, i: nat, stray: nat)
    requires IsHistory(base, us) && |File(base, us)| <= ISIZE_MAX && k < |us| && i < |us|
    requires |File(base, us[..k])| <= stray < KeyOffset(base, us, k)
    ensures stray != KeyOffset(base, us, i) && !(KeyOffset(base, us, i) < stray < us[i].range.c)
  {
    hide *;
    if i < k {
      SignatureScans(base, us, i);
      assert us[..k][..i + 1] == us[..i + 1];
      var tail := FileExtends(base, us[..k], i + 1);
    } else if k < i {
      LaterKey(base, us, k, i);
    }
  }

  /** `/ByteRange/ByteRange[0 31 33 0]<>`: one signing over nothing, after a stray keyword. */
  const STRAY := Update(KEY, [], ByteRange(0, 31, 33, 0), 0, [], [], [])

  /** It scans to one location, at the stray's offset 0 instead of the written 10. */
  lemma StrayIsReported()
    ensures IsHistory([], [STRAY]) && Written([], [STRAY], 0).offset == 10
    ensures KeyAt(File([], [STRAY]), 0) && ScanAt(File([], [STRAY]), 0) == Some(Location(STRAY.range, [], 0))
    ensures Select(File([], [STRAY]), 0, 0) != AllWritten([], [STRAY], 0)
  {
    hide KeyAt, ScanAt, Select, RangeText, Dictionary;
    StrayIsUpdate();
    var us := [STRAY];
    assert us[..0] == [] && File([], []) == [];
    assert File([], us) == Apply([], STRAY);
    assert KEY == [] + KEY + [];
    assert Apply([], STRAY) + [] == Apply([], STRAY);
    assert |Apply([], STRAY)| == 33;
    StrayReadsTheArray([], STRAY, [], [], []);
    StrayBeforeArrayMasks([], us, 0, [], []);
  }

  lemma StrayIsUpdate()
    ensures IsUpdate([], STRAY) && |Head([], STRAY)| == 31 && Nibbles(STRAY.hex) == Some([])
  {
    hide Head;
    assert |Decimal(0)| == 1 && |Decimal(31)| == 2 && |Decimal(33)| == 2;
    RangeTextLength(STRAY.range, 0);
    HeadLength([], STRAY);
  }

  // ---------- such updates exist ----------

  lemma RangeTextLength(r: ByteRange, pad: nat)
    ensures |RangeText(r, pad)| == |Decimal(r.a)| + |Decimal(r.b)| + |Decimal(r.c)| + |Decimal(r.d)| + 3 + pad
  {
    hide Decimal;
  }

  lemma HeadLength(pdf: bytes, u: Update)
    ensures |Head(pdf, u)| == |pdf| + |u.pre| + 12 + |u.sep| + |RangeText(u.range, u.pad)| + |u.mid|
  {
    hide RangeText;
  }

  /**
   A signer can always fill in the four integers: reserving 100 bytes for the array and padding it
   with spaces fixes every offset before the integers are written.
   */
  lemma SignerCanPad(pdf: bytes, pre: bytes, sep: bytes, mid: bytes, hex: bytes, post: bytes) returns (u: Update)
    requires LBRACKET !in sep && GT !in hex && Nibbles(hex).Some?
    requires |pdf| + |pre| + |sep| + |mid| + |hex| + |post| + 200 <= ISIZE_MAX
    ensures IsUpdate(pdf, u)
    ensures u.pre == pre && u.sep == sep && u.mid == mid && u.hex == hex && u.post == post
  {
    hide Decimal, Head, RangeText, Nibbles, Power10;
    var b := |pdf| + |pre| + |sep| + |mid| + 112;
    var r := ByteRange(0, b, b + |hex| + 2, |post|);
    var limit := TenToThe19();
    DecimalLength(0, 19, limit);
    DecimalLength(r.b, 19, limit);
    DecimalLength(r.c, 19, limit);
    DecimalLength(r.d, 19, limit);
    RangeTextLength(r, 0);
    var pad := 100 - |RangeText(r, 0)|;
    u := Update(pre, sep, r, pad, mid, hex, post);
    RangeTextLength(r, pad);
    HeadLength(pdf, u);
  }

  lemma TenToThe19() returns (limit: nat)
    ensures limit == Power10(19) > ISIZE_MAX
  {
    limit := Power10(19);
    assert Power10(4) == 10_000;
    assert Power10(8) == 100_000_000;
    assert Power10(12) == 1_000_000_000_000;
    assert Power10(16) == 10_000_000_000_000_000;
  }
}
