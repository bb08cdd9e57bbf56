/** What a CAdES report guarantees, and what it does not depend on. */
module CascadeProperties {
  import opened Wrappers
  import opened Bytes
  import opened Chain
  import opened Cascade

  /** The chain was built and the algorithm accepted at one and the same time. */
  ghost predicate AcceptedAt(inp: Inputs, chain: seq<Cert>, at: int) {
    var built := BuildResult(inp.anchors, inp.intermediates, inp.signer, at);
    inp.core.Some? && built.Ok? && built.value.chain == chain
    && Policy.Evaluate(inp.policy, inp.core.value, at) == Policy.Accept
  }

  lemma AcceptedReport(inp: Inputs, ev: Evidence)
    ensures var r := ReportOf(inp, ev);
      (exists chain :: chain != [] && AcceptedAt(inp, chain, ReferenceTime(inp)) && r == ReportOn(inp, ev, chain))
      || (r.status == TotalFailedSub && r.level == Unknown && r.revocation == [])
  {
    hide BuildResult, ReportOn;
    var r, at := ReportOf(inp, ev), ReferenceTime(inp);
    if inp.core.Some? {
      var built := BuildResult(inp.anchors, inp.intermediates, inp.signer, at);
      if built.Ok? && Displayable(built.value.chain)
         && Policy.Evaluate(inp.policy, inp.core.value, at).IsAcceptedAt(at) {
        Policy.AcceptanceIsBackwardClosed(inp.policy, inp.core.value, at, at);
        assert AcceptedAt(inp, built.value.chain, at);
      }
    }
  }

  /** Embedded revocation values were seen, and hold some CRL or OCSP response. */
  predicate MaterialEmbedded(inp: Inputs) {
    inp.sawRevocationValues && |inp.crls| + |inp.ocsps| > 0
  }

  predicate EveryGood(records: seq<RevocationStatus>) {
    forall s :: s in records ==> s == Good
  }

  lemma RecordsAre(records: seq<RevocationStatus>)
    ensures AllGood(records) <==> EveryGood(records)
    ensures AnyRevoked(records) <==> Revoked in records
  {
    assert forall i :: 0 <= i < |records| ==> records[i] in records;
  }

  ghost predicate SomeVerified(tokens: seq<ArchiveToken>) {
    exists i :: 0 <= i < |tokens| && tokens[i].Verified()
  }

  /** A signature time stamp that verified. */
  ghost predicate SomeStamped(tokens: seq<SignatureToken>) {
    exists i :: 0 <= i < |tokens| && tokens[i].Some?
  }

  lemma {:induction false} TimesOfVerified(tokens: seq<SignatureToken>)
    ensures SignatureTimes(tokens) != [] <==> SomeStamped(tokens)
  {
    if tokens != [] {
      var n := |tokens| - 1;
      TimesOfVerified(tokens[..n]);
      if SomeStamped(tokens[..n]) {
        var i :| 0 <= i < n && tokens[..n][i].Some?;
        assert tokens[i].Some?;
      }
      if SomeStamped(tokens) && tokens[n].None? {
        var i :| 0 <= i <= n && tokens[i].Some?;
        assert tokens[..n][i].Some?;
      }
    }
  }

  function CountOf(s: seq<Code>, c: Code): nat {
    if s == [] then 0 else CountOf(s[..|s| - 1], c) + if s[|s| - 1] == c then 1 else 0
  }

  lemma {:induction false} CountAppend(a: seq<Code>, b: seq<Code>, c: Code)
    ensures CountOf(a + b, c) == CountOf(a, c) + CountOf(b, c)
  {
    if b == [] {
      assert a + b == a;
    } else {
      CountAppend(a, b[..|b| - 1], c);
      assert (a + b)[..|a + b| - 1] == a + b[..|b| - 1];
    }
  }

  lemma {:induction false} CountWarnings(n: nat)
    ensures CountOf(Warnings(n), RevocationNoEvidence) == n
  {
    if n > 0 {
      CountWarnings(n - 1);
      assert Warnings(n)[..n - 1] == Warnings(n - 1);
    }
  }

  lemma {:induction false} CountSignature(tokens: seq<SignatureToken>)
    ensures CountOf(SignatureDiagnostics(tokens), RevocationNoEvidence) == 0
  {
    if tokens != [] {
      var n := |tokens| - 1;
      CountSignature(tokens[..n]);
      var last := if tokens[n].Some? then [] else [SignatureTimestampInvalid];
      assert last != [] ==> last[..0] == [];
      CountAppend(SignatureDiagnostics(tokens[..n]), last, RevocationNoEvidence);
    }
  }

  lemma {:induction false} CountArchive(tokens: seq<ArchiveToken>)
    ensures CountOf(ArchiveDiagnostics(tokens), RevocationNoEvidence) == 0
  {
    if tokens != [] {
      var n := |tokens| - 1;
      CountArchive(tokens[..n]);
      var last := [if tokens[n].Verified() then AtsImprintNotVerified else AtsInvalid];
      assert last[..0] == [];
      CountAppend(ArchiveDiagnostics(tokens[..n]), last, RevocationNoEvidence);
    }
  }

  lemma {:induction false} EveryCertificateAccounted(inp: Inputs, ev: Evidence, chain: seq<Cert>, at: int, n: nat)
    requires n < |chain|
    ensures |Records(inp, ev, chain, at, n)| + Uncovered(inp, ev, chain, at, n) == n
  {
    if n > 0 {
      EveryCertificateAccounted(inp, ev, chain, at, n - 1);
    }
  }

  /** The report's own count of certificates without evidence. */
  function NoEvidenceWarnings(r: Report): nat {
    CountOf(r.diagnostics, RevocationNoEvidence)
  }

  lemma WarningsCounted(inp: Inputs, ev: Evidence, chain: seq<Cert>)
    requires chain != []
    ensures NoEvidenceWarnings(ReportOn(inp, ev, chain)) == UncoveredOf(inp, ev, chain)
  {
    hide SignatureTimes, ArchiveTimes, Best, Records, Uncovered, Warnings, SignatureDiagnostics, ArchiveDiagnostics,
        Stamps;
    var n := UncoveredOf(inp, ev, chain);
    var records := RecordsOf(inp, ev, chain);
    var sig, none := SignatureDiagnostics(inp.signatureTokens), RevocationNoEvidence;
    var arch, long := ArchiveDiagnostics(inp.archiveTokens), LongTermDiagnostics(inp, records);
    CountSignature(inp.signatureTokens);
    CountArchive(inp.archiveTokens);
    CountWarnings(n);
    CountAppend(sig, Warnings(n), none);
    CountAppend(sig + Warnings(n), [RevocationRevoked], none);
    CountAppend(sig + Warnings(n), long, none);
    CountAppend(sig + Warnings(n) + long, arch, none);
    assert CountOf([RevocationRevoked], none) == 0 && CountOf(long, none) == 0 by {
      assert [RevocationRevoked][..0] == [] && [LtMaterialWithoutTimestamp][..0] == [];
    }
  }

  /**
   A passed report has no revoked record, and its chain and algorithm were accepted at one time;
   B-T and above has a verified signature time stamp; B-LT and above embedded material too; B-LT
   only Good records; B-LTA a verified archive token.
   */
  lemma PassedReportIsSound(inp: Inputs, ev: Evidence)
    requires ReportOf(inp, ev).status == TotalPassed
    ensures var r := ReportOf(inp, ev);
      AcceptedAt(inp, r.chain, ReferenceTime(inp)) && r.level.AtLeast(BB)
      && Revoked !in r.revocation
      && (r.level.AtLeast(BT) <==> SomeStamped(inp.signatureTokens))
      && (r.level.AtLeast(BLT) ==> MaterialEmbedded(inp))
      && (r.level == BLT ==> EveryGood(r.revocation))
      && (r.level == BLTA ==> SomeVerified(inp.archiveTokens))
  {
    hide BuildResult, SignatureTimes, ArchiveTimes, RecordsOf, Best, Warnings, SignatureDiagnostics, ArchiveDiagnostics,
      UncoveredOf, Stamps, Policy.Evaluate, SomeStamped, EveryGood, AnyRevoked, AllGood;
    AcceptedReport(inp, ev);
    TimesOfVerified(inp.signatureTokens);
    RecordsAre(ReportOf(inp, ev).revocation);
  }

  /** The exact level of a passed report, from what was embedded and what verified. */
  lemma PassedLevelExactly(inp: Inputs, ev: Evidence)
    requires ReportOf(inp, ev).status == TotalPassed
    ensures var r := ReportOf(inp, ev);
      var longTerm := SomeStamped(inp.signatureTokens) && MaterialEmbedded(inp) && EveryGood(r.revocation);
      var full := exists i :: 0 <= i < |inp.archiveTokens| && inp.archiveTokens[i].FullyVerified?;
      (r.level == BLTA <==> (longTerm && SomeVerified(inp.archiveTokens))
                            || (SomeStamped(inp.signatureTokens) && MaterialEmbedded(inp) && full))
      && (r.level == BLT <==> longTerm && !SomeVerified(inp.archiveTokens))
      && (r.level == BB <==> !SomeStamped(inp.signatureTokens))
  {
    hide BuildResult, SignatureTimes, ArchiveTimes, Records, Best, Warnings, SignatureDiagnostics, ArchiveDiagnostics;
    AcceptedReport(inp, ev);
    TimesOfVerified(inp.signatureTokens);
    var r := ReportOf(inp, ev);
    RecordsAre(r.revocation);
    var level := LongTermLevel(inp, r.revocation);
    assert r.level == FinalLevel(inp, r.revocation);
    assert forall i :: 0 <= i < |inp.archiveTokens| ==>
      (Lifts(inp.archiveTokens[i], level, MaterialEmbedded(inp)) <==>
         (inp.archiveTokens[i].FullyVerified? && level.AtLeast(BT) && MaterialEmbedded(inp))
         || (inp.archiveTokens[i].Verified() && level == BLT));
  }

  lemma {:induction false} ImprintWarnings(tokens: seq<ArchiveToken>)
    ensures AtsImprintNotVerified in ArchiveDiagnostics(tokens) <==> SomeVerified(tokens)
  {
    if tokens != [] {
      var n := |tokens| - 1;
      ImprintWarnings(tokens[..n]);
      if SomeVerified(tokens[..n]) {
        var i :| 0 <= i < n && tokens[..n][i].Verified();
        assert tokens[i].Verified();
      }
      if SomeVerified(tokens) && !tokens[n].Verified() {
        var i :| 0 <= i <= n && tokens[i].Verified();
        assert tokens[..n][i].Verified();
      }
    }
  }

  lemma {:induction false} OtherWarnings(tokens: seq<SignatureToken>, n: nat)
    ensures AtsImprintNotVerified !in SignatureDiagnostics(tokens)
    ensures AtsImprintNotVerified !in Warnings(n)
    decreases |tokens|
  {
    if tokens != [] { OtherWarnings(tokens[..|tokens| - 1], n); }
  }

  /**
   A passed report warns of an unchecked archive imprint exactly when some archive token verified;
   so every B-LTA report carries the warning.
   */
  lemma ArchivalReportWarns(inp: Inputs, ev: Evidence)
    requires ReportOf(inp, ev).status == TotalPassed
    ensures var r := ReportOf(inp, ev);
      (AtsImprintNotVerified in r.diagnostics <==> SomeVerified(inp.archiveTokens))
      && (r.level == BLTA ==> AtsImprintNotVerified in r.diagnostics)
  {
    hide BuildResult, SignatureTimes, ArchiveTimes, Records, Best, Warnings, SignatureDiagnostics, ArchiveDiagnostics,
      SomeVerified;
    PassedReportIsSound(inp, ev);
    AcceptedReport(inp, ev);
    ImprintWarnings(inp.archiveTokens);
    var chain :| chain != [] && AcceptedAt(inp, chain, ReferenceTime(inp))
      && ReportOf(inp, ev) == ReportOn(inp, ev, chain);
    OtherWarnings(inp.signatureTokens, UncoveredOf(inp, ev, chain));
  }

  /** With embedded material, records and no-evidence warnings together count the chain but its anchor. */
  lemma RecordsAndWarningsCountChain(inp: Inputs, ev: Evidence)
    requires MaterialEmbedded(inp) && ReportOf(inp, ev).level != Unknown
    ensures var r := ReportOf(inp, ev); |r.revocation| + NoEvidenceWarnings(r) == |r.chain| - 1
  {
    hide BuildResult, SignatureTimes, ArchiveTimes, Records, Uncovered, Best, Warnings, Stamps, CountOf;
    AcceptedReport(inp, ev);
    var chain :| chain != [] && AcceptedAt(inp, chain, ReferenceTime(inp))
      && ReportOf(inp, ev) == ReportOn(inp, ev, chain);
    EveryCertificateAccounted(inp, ev, chain, ReferenceTime(inp), |chain| - 1);
    WarningsCounted(inp, ev, chain);
  }

  // ---------- what the searches find ----------

  /** Every OCSP response before `i` is rejected: it is about another certificate, or not to be trusted. */
  ghost predicate RejectedBefore(ev: Evidence, blobs: seq<bytes>, cert: Cert, issuer: Cert, at: int, i: nat)
    requires i <= |blobs|
  {
    forall j :: 0 <= j < i ==> ev.ocsp(blobs[j], cert, issuer, at) == Rejected
  }

  /** The first OCSP response that is not rejected gives this status. */
  ghost predicate OcspSays(ev: Evidence, blobs: seq<bytes>, cert: Cert, issuer: Cert, at: int, s: RevocationStatus) {
    exists i :: 0 <= i < |blobs|
      && ev.ocsp(blobs[i], cert, issuer, at) == Checked(s) && RejectedBefore(ev, blobs, cert, issuer, at, i)
  }

  /** Every response is rejected, or the first that is not cannot be wrapped. */
  ghost predicate OcspSilent(ev: Evidence, blobs: seq<bytes>, cert: Cert, issuer: Cert, at: int) {
    RejectedBefore(ev, blobs, cert, issuer, at, |blobs|)
    || exists i :: 0 <= i < |blobs|
         && ev.ocsp(blobs[i], cert, issuer, at) == NotWrappable && RejectedBefore(ev, blobs, cert, issuer, at, i)
  }

  /** The first CRL that verifies gives this status. */
  ghost predicate CrlSays(ev: Evidence, blobs: seq<bytes>, cert: Cert, issuer: Cert, at: int, s: RevocationStatus) {
    exists i :: 0 <= i < |blobs|
      && ev.crl(blobs[i], cert, issuer, at) == Some(s)
      && forall j :: 0 <= j < i ==> ev.crl(blobs[j], cert, issuer, at).None?
  }

  lemma {:induction false} OcspSearchExactly(ev: Evidence, blobs: seq<bytes>, cert: Cert, issuer: Cert, at: int,
      s: RevocationStatus)
    ensures TryOcsp(ev, blobs, cert, issuer, at) == Some(s) <==> OcspSays(ev, blobs, cert, issuer, at, s)
    ensures TryOcsp(ev, blobs, cert, issuer, at).None? <==> OcspSilent(ev, blobs, cert, issuer, at)
    decreases |blobs|
  {
    if blobs != [] {
      OcspSearchExactly(ev, blobs[1..], cert, issuer, at, s);
      if ev.ocsp(blobs[0], cert, issuer, at) == Rejected {
        OcspShifts(ev, blobs, cert, issuer, at, s);
      } else {
        assert RejectedBefore(ev, blobs, cert, issuer, at, 0);
        assert forall i :: 0 < i <= |blobs| ==> !RejectedBefore(ev, blobs, cert, issuer, at, i);
      }
    }
  }

  lemma OcspShifts(ev: Evidence, blobs: seq<bytes>, cert: Cert, issuer: Cert, at: int, s: RevocationStatus)
    requires blobs != [] && ev.ocsp(blobs[0], cert, issuer, at) == Rejected
    ensures OcspSays(ev, blobs, cert, issuer, at, s) <==> OcspSays(ev, blobs[1..], cert, issuer, at, s)
    ensures OcspSilent(ev, blobs, cert, issuer, at) <==> OcspSilent(ev, blobs[1..], cert, issuer, at)
  {
    var rest := blobs[1..];
    forall i | 0 <= i <= |rest|
      ensures RejectedBefore(ev, rest, cert, issuer, at, i) <==> RejectedBefore(ev, blobs, cert, issuer, at, i + 1)
    {
      assert forall j :: 0 <= j < i ==> rest[j] == blobs[j + 1];
      assert forall j :: 1 <= j < i + 1 ==> blobs[j] == rest[j - 1];
    }
    assert forall i :: 0 <= i < |rest| ==> rest[i] == blobs[i + 1];
    assert forall i :: 1 <= i < |blobs| ==> blobs[i] == rest[i - 1];
    if OcspSays(ev, blobs, cert, issuer, at, s) {
      var i :| 0 <= i < |blobs|
        && ev.ocsp(blobs[i], cert, issuer, at) == Checked(s) && RejectedBefore(ev, blobs, cert, issuer, at, i);
      assert ev.ocsp(rest[i - 1], cert, issuer, at) == Checked(s)
        && RejectedBefore(ev, rest, cert, issuer, at, i - 1);
    }
    if OcspSilent(ev, blobs, cert, issuer, at) && !RejectedBefore(ev, blobs, cert, issuer, at, |blobs|) {
      var i :| 0 <= i < |blobs|
        && ev.ocsp(blobs[i], cert, issuer, at) == NotWrappable && RejectedBefore(ev, blobs, cert, issuer, at, i);
      assert ev.ocsp(rest[i - 1], cert, issuer, at) == NotWrappable
        && RejectedBefore(ev, rest, cert, issuer, at, i - 1);
    }
  }

  lemma {:induction false} CrlSearchExactly(ev: Evidence, blobs: seq<bytes>, cert: Cert, issuer: Cert, at: int,
      s: RevocationStatus)
    ensures TryCrl(ev, blobs, cert, issuer, at) == Some(s) <==> CrlSays(ev, blobs, cert, issuer, at, s)
    ensures TryCrl(ev, blobs, cert, issuer, at).None? <==>
      forall i :: 0 <= i < |blobs| ==> ev.crl(blobs[i], cert, issuer, at).None?
    decreases |blobs|
  {
    if blobs != [] {
      var rest := blobs[1..];
      CrlSearchExactly(ev, rest, cert, issuer, at, s);
      assert forall i :: 0 <= i < |rest| ==> rest[i] == blobs[i + 1];
      assert forall i :: 1 <= i < |blobs| ==> blobs[i] == rest[i - 1];
      if ev.crl(blobs[0], cert, issuer, at).None? && CrlSays(ev, blobs, cert, issuer, at, s) {
        var i :| 0 <= i < |blobs| && ev.crl(blobs[i], cert, issuer, at) == Some(s)
          && forall j :: 0 <= j < i ==> ev.crl(blobs[j], cert, issuer, at).None?;
        assert ev.crl(rest[i - 1], cert, issuer, at) == Some(s);
      }
    }
  }

  /** The verdict on certificate `i`: OCSP's first word, and the CRLs' only when OCSP has none. */
  ghost predicate EvidenceSays(inp: Inputs, ev: Evidence, chain: seq<Cert>, at: int, i: nat, s: RevocationStatus)
    requires i + 1 < |chain|
  {
    OcspSays(ev, inp.ocsps, chain[i], chain[i + 1], at, s)
    || (OcspSilent(ev, inp.ocsps, chain[i], chain[i + 1], at) && CrlSays(ev, inp.crls, chain[i], chain[i + 1], at, s))
  }

  lemma VerdictExactly(inp: Inputs, ev: Evidence, chain: seq<Cert>, at: int, i: nat, s: RevocationStatus)
    requires i + 1 < |chain|
    ensures Verdict(inp, ev, chain, at, i) == Some(s) <==> EvidenceSays(inp, ev, chain, at, i, s)
  {
    hide TryOcsp, TryCrl, OcspSays, OcspSilent, CrlSays;
    OcspSearchExactly(ev, inp.ocsps, chain[i], chain[i + 1], at, s);
    CrlSearchExactly(ev, inp.crls, chain[i], chain[i + 1], at, s);
  }

  // ---------- what a report needs to pass ----------

  lemma {:induction false} RecordIn(inp: Inputs, ev: Evidence, chain: seq<Cert>, at: int, n: nat, s: RevocationStatus)
    requires n < |chain|
    ensures s in Records(inp, ev, chain, at, n) <==>
      exists i :: 0 <= i < n && Verdict(inp, ev, chain, at, i) == Some(s)
  {
    hide Verdict;
    if n > 0 { RecordIn(inp, ev, chain, at, n - 1, s); }
  }

  /** Some certificate below the anchor is revoked by the embedded evidence at the reference time. */
  ghost predicate SomeRevoked(inp: Inputs, ev: Evidence, chain: seq<Cert>) {
    exists i :: 0 <= i < |chain| - 1 && EvidenceSays(inp, ev, chain, ReferenceTime(inp), i, Revoked)
  }

  /** No validity window of the chain is inverted: a report can show every certificate. */
  ghost predicate Shown(chain: seq<Cert>) {
    forall c :: c in chain ==> c.notBefore <= c.notAfter
  }

  /** What `ChainOf` and `PolicyAccepts` stand for. */
  lemma AcceptedExactly(inp: Inputs, chain: seq<Cert>)
    ensures ChainOf(inp) == Some(chain) && PolicyAccepts(inp)
       <==> AcceptedAt(inp, chain, ReferenceTime(inp)) && Shown(chain)
  {
    hide BuildResult, ReferenceTime, Policy.Evaluate;
    if inp.core.Some? {
      Policy.AcceptanceIsBackwardClosed(inp.policy, inp.core.value, ReferenceTime(inp), ReferenceTime(inp));
    }
    assert Shown(chain) <==> Displayable(chain) by {
      if Displayable(chain) {
        forall c | c in chain ensures c.notBefore <= c.notAfter {
          var i :| 0 <= i < |chain| && chain[i] == c;
        }
      }
      if Shown(chain) {
        forall i | 0 <= i < |chain| ensures chain[i].notBefore <= chain[i].notAfter {
          assert chain[i] in chain;
        }
      }
    }
  }

  /**
   A report passes exactly when the B-B checks do, the chain builds and can be shown, the policy
   accepts the algorithm, and no embedded evidence says Revoked of a certificate below the anchor.
   */
  lemma PassesExactly(inp: Inputs, ev: Evidence)
    ensures ReportOf(inp, ev).status == TotalPassed <==>
      exists chain :: AcceptedAt(inp, chain, ReferenceTime(inp)) && Shown(chain)
                      && !(MaterialEmbedded(inp) && SomeRevoked(inp, ev, chain))
  {
    hide ReportOf, ChainOf, PolicyAccepts, AcceptedAt, ReferenceTime, SomeRevoked, Shown;
    StatusExactly(inp, ev);
    if ChainOf(inp).Some? { AcceptedExactly(inp, ChainOf(inp).value); }
    if chain :| AcceptedAt(inp, chain, ReferenceTime(inp)) && Shown(chain)
                && !(MaterialEmbedded(inp) && SomeRevoked(inp, ev, chain)) {
      AcceptedExactly(inp, chain);
      AcceptedHasCore(inp, chain);
    }
  }

  lemma AcceptedHasCore(inp: Inputs, chain: seq<Cert>)
    requires AcceptedAt(inp, chain, ReferenceTime(inp))
    ensures inp.core.Some?
  {
  }

  lemma StatusExactly(inp: Inputs, ev: Evidence)
    ensures ReportOf(inp, ev).status == TotalPassed <==>
      inp.core.Some? && ChainOf(inp).Some? && PolicyAccepts(inp)
      && !(MaterialEmbedded(inp) && SomeRevoked(inp, ev, ChainOf(inp).value))
  {
    hide BuildResult, SignatureTimes, ArchiveTimes, Records, Uncovered, Best, Warnings, Stamps, Verdict, EvidenceSays,
      SignatureDiagnostics, ArchiveDiagnostics, Policy.Evaluate;
    if ChainOf(inp).Some? {
      var chain, at := ChainOf(inp).value, ReferenceTime(inp);
      RecordIn(inp, ev, chain, at, |chain| - 1, Revoked);
      forall i | 0 <= i < |chain| - 1
        ensures Verdict(inp, ev, chain, at, i) == Some(Revoked) <==> EvidenceSays(inp, ev, chain, at, i, Revoked)
      {
        VerdictExactly(inp, ev, chain, at, i, Revoked);
      }
      var records := Records(inp, ev, chain, at, |chain| - 1);
      RecordsAre(records);
    }
  }

  /**
   With chain, policy and material in order, a certificate below the anchor whose first OCSP response
   that is not rejected says Revoked makes the report fail, wherever the response stands.
   */
  lemma RevokedFails(inp: Inputs, ev: Evidence, i: nat)
    requires inp.core.Some? && ChainOf(inp).Some? && PolicyAccepts(inp) && MaterialEmbedded(inp)
    requires i + 1 < |ChainOf(inp).value|
    requires var chain := ChainOf(inp).value;
      OcspSays(ev, inp.ocsps, chain[i], chain[i + 1], ReferenceTime(inp), Revoked)
    ensures ReportOf(inp, ev).status == TotalFailedSub
  {
    hide ReportOf, ChainOf, OcspSays, OcspSilent, CrlSays;
    StatusExactly(inp, ev);
    assert EvidenceSays(inp, ev, ChainOf(inp).value, ReferenceTime(inp), i, Revoked);
  }

  /** The time everything is judged at. */
  lemma ReferenceTimeExactly(inp: Inputs)
    ensures inp.validationTime.Now? ==> ReferenceTime(inp) == inp.now
    ensures inp.validationTime.At? ==> ReferenceTime(inp) == inp.validationTime.time
    ensures inp.validationTime.BestSignatureTime? ==>
      if forall t :: t in inp.signatureTokens ==> t.None? then ReferenceTime(inp) == inp.now
      else Some(ReferenceTime(inp)) in inp.signatureTokens
           && forall t :: t in inp.signatureTokens && t.Some? ==> t.value <= ReferenceTime(inp)
  {
    hide SignatureTimes;
    var times := SignatureTimes(inp.signatureTokens);
    forall t ensures t in times <==> Some(t) in inp.signatureTokens {
      SignatureTimeIn(inp.signatureTokens, t);
    }
    if times != [] { assert times[0] in times; }
    assert IsMaximum(times, Best(times));
  }

  // ---------- what long-term levels cover ----------

  /** Every certificate below the anchor has a Good record. */
  predicate Covered(r: Report) {
    |r.revocation| == |r.chain| - 1 && EveryGood(r.revocation)
  }

  /** The embedded material gives the verdict Good for every certificate below the anchor. */
  ghost predicate EvidenceCovers(inp: Inputs, ev: Evidence, chain: seq<Cert>) {
    forall i :: 0 <= i < |chain| - 1 ==> EvidenceSays(inp, ev, chain, ReferenceTime(inp), i, Good)
  }

  lemma {:induction false} AllRecordsGood(inp: Inputs, ev: Evidence, chain: seq<Cert>, at: int, n: nat)
    requires n < |chain|
    ensures (|Records(inp, ev, chain, at, n)| == n && EveryGood(Records(inp, ev, chain, at, n)))
       <==> forall i :: 0 <= i < n ==> Verdict(inp, ev, chain, at, i) == Some(Good)
  {
    hide Verdict;
    if n > 0 {
      EveryCertificateAccounted(inp, ev, chain, at, n - 1);
      AllRecordsGood(inp, ev, chain, at, n - 1);
      var before, all := Records(inp, ev, chain, at, n - 1), Records(inp, ev, chain, at, n);
      if Verdict(inp, ev, chain, at, n - 1).Some? {
        EveryGoodSnoc(before, Verdict(inp, ev, chain, at, n - 1).value);
      }
      RecordsBound(inp, ev, chain, at, n - 1);
      assert (forall i :: 0 <= i < n ==> Verdict(inp, ev, chain, at, i) == Some(Good)) <==>
        Verdict(inp, ev, chain, at, n - 1) == Some(Good)
        && forall i :: 0 <= i < n - 1 ==> Verdict(inp, ev, chain, at, i) == Some(Good);
    }
  }

  lemma EveryGoodSnoc(records: seq<RevocationStatus>, s: RevocationStatus)
    ensures EveryGood(records + [s]) <==> EveryGood(records) && s == Good
  {
    var all := records + [s];
    assert s in all && forall t :: t in records ==> t in all;
    assert forall t :: t in all ==> t in records || t == s;
  }

  lemma RecordsBound(inp: Inputs, ev: Evidence, chain: seq<Cert>, at: int, n: nat)
    requires n < |chain|
    ensures |Records(inp, ev, chain, at, n)| <= n
  {
    EveryCertificateAccounted(inp, ev, chain, at, n);
  }

  /**
   A report at B-LT or B-LTA covers every certificate below the anchor with a Good record exactly
   when the embedded evidence is Good for each of them. The level alone does not say so, although
   the source's comment on the lift asks for it.
   */
  lemma LongTermCoversExactly(inp: Inputs, ev: Evidence)
    requires ReportOf(inp, ev).status == TotalPassed && ReportOf(inp, ev).level.AtLeast(BLT)
    ensures ChainOf(inp) == Some(ReportOf(inp, ev).chain)
    ensures Covered(ReportOf(inp, ev)) <==> EvidenceCovers(inp, ev, ChainOf(inp).value)
  {
    hide BuildResult, SignatureTimes, ArchiveTimes, Records, Uncovered, Best, Warnings, Stamps, Verdict, Covered,
      SignatureDiagnostics, ArchiveDiagnostics, EvidenceSays;
    PassedReportIsSound(inp, ev);
    var chain := ChainOf(inp).value;
    var n, at := |chain| - 1, ReferenceTime(inp);
    CoveredIs(ReportOf(inp, ev));
    AllRecordsGood(inp, ev, chain, at, n);
    forall i | 0 <= i < n
      ensures Verdict(inp, ev, chain, at, i) == Some(Good) <==> EvidenceSays(inp, ev, chain, at, i, Good)
    {
      VerdictExactly(inp, ev, chain, at, i, Good);
    }
  }

  lemma CoveredIs(r: Report)
    ensures Covered(r) <==> |r.revocation| == |r.chain| - 1 && EveryGood(r.revocation)
  {
  }

  /** At B-LT, where every record is Good, that is when the report carries no no-evidence warning. */
  lemma LongTermCoversExactlyWithoutWarnings(inp: Inputs, ev: Evidence)
    requires ReportOf(inp, ev).status == TotalPassed && ReportOf(inp, ev).level == BLT
    ensures Covered(ReportOf(inp, ev)) <==> NoEvidenceWarnings(ReportOf(inp, ev)) == 0
  {
    hide BuildResult, CountOf, Records, Uncovered, ReportOf;
    PassedReportIsSound(inp, ev);
    RecordsAndWarningsCountChain(inp, ev);
  }

  /**
   Material that covers no certificate of a chain of two or more still lifts a stamped signature to
   B-LT: a certificate without evidence records nothing, and an empty list of records is all Good.
   */
  lemma UncoveredChainStillReachesLongTerm(inp: Inputs, ev: Evidence)
    requires inp.core.Some? && PolicyAccepts(inp) && ChainOf(inp).Some? && |ChainOf(inp).value| >= 2
    requires MaterialEmbedded(inp) && SomeStamped(inp.signatureTokens)
    requires forall i :: 0 <= i < |ChainOf(inp).value| - 1 ==>
      Verdict(inp, ev, ChainOf(inp).value, ReferenceTime(inp), i).None?
    ensures var r := ReportOf(inp, ev);
      r.status == TotalPassed && r.level.AtLeast(BLT) && r.revocation == [] && !Covered(r)
  {
    hide SignatureTimes, ArchiveTimes, Best, Warnings, SignatureDiagnostics, ArchiveDiagnostics, Verdict, BuildResult,
      Records, Uncovered, Stamps, Policy.Evaluate;
    NoRecords(inp, ev, ChainOf(inp).value, ReferenceTime(inp), |ChainOf(inp).value| - 1);
    TimesOfVerified(inp.signatureTokens);
  }

  lemma {:induction false} NoRecords(inp: Inputs, ev: Evidence, chain: seq<Cert>, at: int, n: nat)
    requires n < |chain|
    requires forall i :: 0 <= i < n ==> Verdict(inp, ev, chain, at, i).None?
    ensures Records(inp, ev, chain, at, n) == []
  {
    hide Verdict;
    if n > 0 {
      NoRecords(inp, ev, chain, at, n - 1);
    }
  }

  // ---------- best signature time ----------

  function TimesOf(stamps: seq<Timestamp>): seq<int> {
    seq(|stamps|, i requires 0 <= i < |stamps| => stamps[i].genesisTime)
  }

  /** At every exit the best time is the latest of the reported time stamps, none exactly when there are none. */
  lemma BestTimeIsLatestReported(inp: Inputs, ev: Evidence)
    ensures var r := ReportOf(inp, ev); IsMaximum(TimesOf(r.timestamps), r.signingTimeBest)
  {
    hide BuildResult, Records, Uncovered, Warnings, SignatureDiagnostics, ArchiveDiagnostics;
    var sig, arch := SignatureTimes(inp.signatureTokens), ArchiveTimes(inp.archiveTokens);
    assert TimesOf(Stamps(SignatureStamp, sig)) == sig;
    assert TimesOf(Stamps(SignatureStamp, sig) + Stamps(ArchiveStamp, arch)) == sig + arch;
  }

  // ---------- order of the tokens ----------

  lemma SameElementsSameBest(a: seq<int>, b: seq<int>)
    requires forall t :: t in a <==> t in b
    ensures Best(a) == Best(b)
  {
    assert IsMaximum(a, Best(a)) && IsMaximum(b, Best(b));
    assert a != [] ==> a[0] in a;
    assert b != [] ==> b[0] in b;
  }

  lemma {:induction false} SignatureTimeIn(tokens: seq<SignatureToken>, t: int)
    ensures t in SignatureTimes(tokens) <==> Some(t) in tokens
  {
    if tokens != [] {
      var n := |tokens| - 1;
      SignatureTimeIn(tokens[..n], t);
      assert forall x :: x in tokens <==> x in tokens[..n] || x == tokens[n];
    }
  }

  lemma {:induction false} ArchiveTimeIn(tokens: seq<ArchiveToken>, t: int)
    ensures t in ArchiveTimes(tokens) <==> FullyVerified(t) in tokens || SignatureVerified(t) in tokens
  {
    if tokens != [] {
      var n := |tokens| - 1;
      ArchiveTimeIn(tokens[..n], t);
      assert forall x :: x in tokens <==> x in tokens[..n] || x == tokens[n];
    }
  }

  /** The same verification over the same tokens, in any order and however often repeated. */
  ghost predicate SameTokens(inp: Inputs, other: Inputs) {
    other == inp.(signatureTokens := other.signatureTokens, archiveTokens := other.archiveTokens)
    && (forall t :: t in inp.signatureTokens <==> t in other.signatureTokens)
    && (forall t :: t in inp.archiveTokens <==> t in other.archiveTokens)
  }

  lemma SameTimes(inp: Inputs, other: Inputs)
    requires SameTokens(inp, other)
    ensures var a, b := SignatureTimes(inp.signatureTokens), SignatureTimes(other.signatureTokens);
      (a == [] <==> b == []) && Best(a) == Best(b)
      && Best(a + ArchiveTimes(inp.archiveTokens)) == Best(b + ArchiveTimes(other.archiveTokens))
  {
    hide Best, SignatureTimes, ArchiveTimes;
    var a, b := SignatureTimes(inp.signatureTokens), SignatureTimes(other.signatureTokens);
    var c, d := ArchiveTimes(inp.archiveTokens), ArchiveTimes(other.archiveTokens);
    forall t ensures (t in a <==> t in b) && (t in c <==> t in d) {
      SignatureTimeIn(inp.signatureTokens, t);
      SignatureTimeIn(other.signatureTokens, t);
      ArchiveTimeIn(inp.archiveTokens, t);
      ArchiveTimeIn(other.archiveTokens, t);
    }
    assert a != [] ==> a[0] in a;
    assert b != [] ==> b[0] in b;
    SameElementsSameBest(a, b);
    SameElementsSameBest(a + c, b + d);
  }

  lemma {:induction false} SameRecords(inp: Inputs, other: Inputs, ev: Evidence, chain: seq<Cert>, at: int, n: nat)
    requires n < |chain| && other.ocsps == inp.ocsps && other.crls == inp.crls
    ensures Records(inp, ev, chain, at, n) == Records(other, ev, chain, at, n)
  {
    if n > 0 {
      SameRecords(inp, other, ev, chain, at, n - 1);
    }
  }

  /** The order of the tokens changes neither status, level, reference time nor best time. */
  lemma TokenOrderIsIrrelevant(inp: Inputs, other: Inputs, ev: Evidence)
    requires SameTokens(inp, other)
    ensures ReferenceTime(inp) == ReferenceTime(other)
    ensures var r, s := ReportOf(inp, ev), ReportOf(other, ev);
      r.status == s.status && r.level == s.level && r.signingTimeBest == s.signingTimeBest
      && r.chain == s.chain && r.revocation == s.revocation
  {
    hide BuildResult, Best, SignatureTimes, ArchiveTimes, Records, Uncovered, Warnings, SignatureDiagnostics,
        ArchiveDiagnostics, Stamps;
    SameTimes(inp, other);
    var at := ReferenceTime(inp);
    assert inp.core == other.core && inp.policy == other.policy;
    var built := BuildResult(inp.anchors, inp.intermediates, inp.signer, at);
    if built.Ok? {
      var chain := built.value.chain;
      SameRecords(inp, other, ev, chain, at, |chain| - 1);
      var records := RecordsOf(inp, ev, chain);
      assert records == RecordsOf(other, ev, chain);
      assert LongTermLevel(inp, records) == LongTermLevel(other, records);
      SameLift(inp, other, records);
    }
  }

  lemma SameLift(inp: Inputs, other: Inputs, records: seq<RevocationStatus>)
    requires SameTokens(inp, other) && LongTermLevel(inp, records) == LongTermLevel(other, records)
    ensures ArchiveLifts(inp, records) <==> ArchiveLifts(other, records)
  {
    hide LongTermLevel, Lifts;
    var level, material := LongTermLevel(inp, records), MaterialEmbedded(inp);
    if ArchiveLifts(inp, records) {
      var i :| 0 <= i < |inp.archiveTokens| && Lifts(inp.archiveTokens[i], level, material);
      assert inp.archiveTokens[i] in other.archiveTokens;
    }
    if ArchiveLifts(other, records) {
      var i :| 0 <= i < |other.archiveTokens| && Lifts(other.archiveTokens[i], level, material);
      assert other.archiveTokens[i] in inp.archiveTokens;
    }
  }
}
