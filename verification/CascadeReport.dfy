/** What a CAdES report lists: every time stamp that verified, in order, and exactly which remarks. */
module CascadeReport {
  import opened Wrappers
  import opened Chain
  import opened Cascade
  import opened CascadeProperties

  // ---------- time stamps ----------

  /** The signature time stamps that verified, in the order of the tokens. */
  function SignatureStamps(tokens: seq<SignatureToken>): seq<Timestamp> {
    if tokens == [] then []
    else
      (if tokens[0].Some? then [Timestamp(SignatureStamp, tokens[0].value)] else []) + SignatureStamps(tokens[1..])
  }

  function ArchiveStamps(tokens: seq<ArchiveToken>): seq<Timestamp> {
    if tokens == [] then []
    else
      (match tokens[0]
       case FullyVerified(t) => [Timestamp(ArchiveStamp, t)]
       case SignatureVerified(t) => [Timestamp(ArchiveStamp, t)]
       case NotVerified => [])
      + ArchiveStamps(tokens[1..])
  }

  lemma StampsAppend(kind: StampKind, a: seq<int>, b: seq<int>)
    ensures Stamps(kind, a + b) == Stamps(kind, a) + Stamps(kind, b)
  {
  }

  lemma {:induction false} SignatureTimesFront(t: SignatureToken, tokens: seq<SignatureToken>)
    ensures SignatureTimes([t] + tokens) == (if t.Some? then [t.value] else []) + SignatureTimes(tokens)
    decreases |tokens|
  {
    var all := [t] + tokens;
    if tokens == [] {
      assert all == [t] && all[..0] == [];
    } else {
      var n := |tokens| - 1;
      assert all[..n + 1] == [t] + tokens[..n];
      SignatureTimesFront(t, tokens[..n]);
    }
  }

  lemma {:induction false} ArchiveTimesFront(t: ArchiveToken, tokens: seq<ArchiveToken>)
    ensures ArchiveTimes([t] + tokens) == (if t.Verified() then [t.time] else []) + ArchiveTimes(tokens)
    decreases |tokens|
  {
    var all := [t] + tokens;
    if tokens == [] {
      assert all == [t] && all[..0] == [];
    } else {
      var n := |tokens| - 1;
      assert all[..n + 1] == [t] + tokens[..n];
      ArchiveTimesFront(t, tokens[..n]);
    }
  }

  lemma {:induction false} SignatureStampsListed(tokens: seq<SignatureToken>)
    ensures Stamps(SignatureStamp, SignatureTimes(tokens)) == SignatureStamps(tokens)
  {
    if tokens != [] {
      var rest := tokens[1..];
      assert tokens == [tokens[0]] + rest;
      SignatureTimesFront(tokens[0], rest);
      SignatureStampsListed(rest);
      StampsAppend(SignatureStamp, if tokens[0].Some? then [tokens[0].value] else [], SignatureTimes(rest));
    }
  }

  lemma {:induction false} ArchiveStampsListed(tokens: seq<ArchiveToken>)
    ensures Stamps(ArchiveStamp, ArchiveTimes(tokens)) == ArchiveStamps(tokens)
  {
    if tokens != [] {
      var rest := tokens[1..];
      assert tokens == [tokens[0]] + rest;
      ArchiveTimesFront(tokens[0], rest);
      ArchiveStampsListed(rest);
      StampsAppend(ArchiveStamp, if tokens[0].Verified() then [tokens[0].time] else [], ArchiveTimes(rest));
    }
  }

  /** A passed report lists every verified stamp, signature stamps first; a failed one with a chain only those. */
  lemma StampsExactly(inp: Inputs, ev: Evidence)
    requires inp.core.Some? && ChainOf(inp).Some?
    ensures var r := ReportOf(inp, ev);
      r.chain == ChainOf(inp).value
      && r.timestamps == SignatureStamps(inp.signatureTokens)
                         + if r.status == TotalPassed then ArchiveStamps(inp.archiveTokens) else []
  {
    hide BuildResult, SignatureTimes, ArchiveTimes, Records, Uncovered, Best, Warnings, Stamps, SignatureDiagnostics,
      ArchiveDiagnostics, Policy.Evaluate, FinalLevel, SignatureLevel, LongTermDiagnostics;
    SignatureStampsListed(inp.signatureTokens);
    ArchiveStampsListed(inp.archiveTokens);
    assert SignatureStamps(inp.signatureTokens) + [] == SignatureStamps(inp.signatureTokens);
  }

  /** The three ways to fail: without a chain, by policy at no level, and by a revocation at the stamped level. */
  lemma FailuresExactly(inp: Inputs, ev: Evidence)
    requires ReportOf(inp, ev).status == TotalFailedSub
    ensures var r := ReportOf(inp, ev);
      if inp.core.None? || ChainOf(inp).None? then
        r == Report(TotalFailedSub, Unknown, [], None, [], [], [CadesVerificationError])
      else if !PolicyAccepts(inp) then r.level == Unknown && r.revocation == []
      else r.level == (if SomeStamped(inp.signatureTokens) then BT else BB) && Revoked in r.revocation
  {
    hide BuildResult, SignatureTimes, ArchiveTimes, Records, Uncovered, Best, Warnings, Stamps, SignatureDiagnostics,
      ArchiveDiagnostics, Policy.Evaluate, FinalLevel, LongTermDiagnostics;
    TimesOfVerified(inp.signatureTokens);
    RecordsAre(ReportOf(inp, ev).revocation);
  }

  // ---------- remarks ----------

  lemma {:induction false} SignatureRemarks(tokens: seq<SignatureToken>, c: Code)
    ensures c in SignatureDiagnostics(tokens) <==> c == SignatureTimestampInvalid && None in tokens
  {
    if tokens != [] {
      var n := |tokens| - 1;
      SignatureRemarks(tokens[..n], c);
      assert tokens == tokens[..n] + [tokens[n]];
    }
  }

  lemma {:induction false} ArchiveRemarks(tokens: seq<ArchiveToken>, c: Code)
    ensures c in ArchiveDiagnostics(tokens) <==>
      (c == AtsInvalid && NotVerified in tokens) || (c == AtsImprintNotVerified && SomeVerified(tokens))
  {
    if tokens != [] {
      var n := |tokens| - 1;
      var front := tokens[..n];
      ArchiveRemarks(front, c);
      assert tokens == front + [tokens[n]];
      assert SomeVerified(tokens) <==> SomeVerified(front) || tokens[n].Verified() by {
        if i :| 0 <= i < |tokens| && tokens[i].Verified() {
          assert i < n ==> front[i].Verified();
        }
        if i :| 0 <= i < |front| && front[i].Verified() {
          assert tokens[i].Verified();
        }
      }
    }
  }

  /** Neither responses nor CRLs say anything of certificate `i`. */
  ghost predicate Silent(inp: Inputs, ev: Evidence, chain: seq<Cert>, at: int, i: nat)
    requires i + 1 < |chain|
  {
    !EvidenceSays(inp, ev, chain, at, i, Good) && !EvidenceSays(inp, ev, chain, at, i, Revoked)
    && !EvidenceSays(inp, ev, chain, at, i, NoVerdict)
  }

  lemma SilentExactly(inp: Inputs, ev: Evidence, chain: seq<Cert>, at: int, i: nat)
    requires i + 1 < |chain|
    ensures Verdict(inp, ev, chain, at, i).None? <==> Silent(inp, ev, chain, at, i)
  {
    hide Verdict, EvidenceSays;
    VerdictExactly(inp, ev, chain, at, i, Good);
    VerdictExactly(inp, ev, chain, at, i, Revoked);
    VerdictExactly(inp, ev, chain, at, i, NoVerdict);
    var v := Verdict(inp, ev, chain, at, i);
    assert v.None? || v == Some(Good) || v == Some(Revoked) || v == Some(NoVerdict) by {
      if v.Some? { assert v.value == Good || v.value == Revoked || v.value == NoVerdict; }
    }
  }

  /** Some certificate below the anchor is left without a verdict. */
  ghost predicate SomeUncovered(inp: Inputs, ev: Evidence, chain: seq<Cert>) {
    exists i :: 0 <= i < |chain| - 1 && Silent(inp, ev, chain, ReferenceTime(inp), i)
  }

  lemma {:induction false} UncoveredRemarks(inp: Inputs, ev: Evidence, chain: seq<Cert>, at: int, n: nat)
    requires n < |chain|
    ensures Uncovered(inp, ev, chain, at, n) > 0 <==> exists i :: 0 <= i < n && Silent(inp, ev, chain, at, i)
  {
    hide Verdict, Silent;
    if n > 0 {
      UncoveredRemarks(inp, ev, chain, at, n - 1);
      SilentExactly(inp, ev, chain, at, n - 1);
    }
  }

  /** What each remark on a report with a chain stands for, in both directions. */
  lemma RemarksExactly(inp: Inputs, ev: Evidence)
    requires inp.core.Some? && ChainOf(inp).Some?
    ensures var r, accepted := ReportOf(inp, ev), PolicyAccepts(inp);
      var passed := r.status == TotalPassed;
      (SignatureTimestampInvalid in r.diagnostics <==> None in inp.signatureTokens)
      && (AlgPolicyRejected in r.diagnostics <==> !accepted)
      && (RevocationNoEvidence in r.diagnostics <==>
            accepted && MaterialEmbedded(inp) && SomeUncovered(inp, ev, r.chain))
      && (RevocationRevoked in r.diagnostics <==> accepted && !passed)
      && (LtMaterialWithoutTimestamp in r.diagnostics <==>
            passed && MaterialEmbedded(inp) && EveryGood(r.revocation) && !SomeStamped(inp.signatureTokens))
      && (AtsInvalid in r.diagnostics <==> passed && NotVerified in inp.archiveTokens)
      && (AtsImprintNotVerified in r.diagnostics <==> passed && SomeVerified(inp.archiveTokens))
  {
    hide BuildResult, SignatureTimes, ArchiveTimes, Records, Uncovered, Best, Stamps, SignatureDiagnostics,
      ArchiveDiagnostics, Policy.Evaluate, FinalLevel, Verdict, EvidenceSays, SomeUncovered, EveryGood, SomeVerified,
      SomeStamped, AnyRevoked;
    var chain, records := ChainOf(inp).value, RecordsOf(inp, ev, ChainOf(inp).value);
    forall c
      ensures c in SignatureDiagnostics(inp.signatureTokens) <==>
        c == SignatureTimestampInvalid && None in inp.signatureTokens
    {
      SignatureRemarks(inp.signatureTokens, c);
    }
    forall c
      ensures c in ArchiveDiagnostics(inp.archiveTokens) <==>
        (c == AtsInvalid && NotVerified in inp.archiveTokens)
        || (c == AtsImprintNotVerified && SomeVerified(inp.archiveTokens))
    {
      ArchiveRemarks(inp.archiveTokens, c);
    }
    assert UncoveredOf(inp, ev, chain) > 0 <==> MaterialEmbedded(inp) && SomeUncovered(inp, ev, chain) by {
      SomeUncoveredExactly(inp, ev, chain);
    }
    TimesOfVerified(inp.signatureTokens);
    RecordsAre(records);
    WarningsHold(UncoveredOf(inp, ev, chain));
  }

  lemma SomeUncoveredExactly(inp: Inputs, ev: Evidence, chain: seq<Cert>)
    requires chain != []
    ensures UncoveredOf(inp, ev, chain) > 0 <==> MaterialEmbedded(inp) && SomeUncovered(inp, ev, chain)
  {
    hide Uncovered, Silent, ReferenceTime;
    UncoveredRemarks(inp, ev, chain, ReferenceTime(inp), |chain| - 1);
  }

  lemma WarningsHold(n: nat)
    ensures forall c :: c in Warnings(n) <==> n > 0 && c == RevocationNoEvidence
  {
    var w := Warnings(n);
    assert forall i :: 0 <= i < |w| ==> w[i] == RevocationNoEvidence;
    if n > 0 { assert w[0] == RevocationNoEvidence; }
  }
}
