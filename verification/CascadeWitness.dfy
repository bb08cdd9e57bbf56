/** Two runs whose long-term level says more than their records (`crates/eidas-cades/src/verify.rs`). */
module CascadeWitness {
  import opened Wrappers
  import opened Policy
  import opened Chain
  import opened ChainWitness
  import opened Cascade
  import opened CascadeProperties

  const EC256 := AlgorithmId(Ecdsa, Sha256, 256)

  /** One stamp, one embedded OCSP response, verified at time 5. */
  function Run(archive: seq<ArchiveToken>): Inputs {
    Inputs(Some(EC256), LEAF, [ROOT], [], [Some(5)], archive, true, [], [[0]], Empty(DEFAULT_RULES), At(5), 5)
  }

  /** Every OCSP response has the same outcome, and no CRL verifies. */
  function Says(o: OcspOutcome): Evidence {
    Evidence((_, _, _, _) => o, (_, _, _, _) => None)
  }

  lemma TwoCertificateChain(archive: seq<ArchiveToken>)
    ensures ChainOf(Run(archive)) == Some([LEAF, ROOT]) && PolicyAccepts(Run(archive))
    ensures ReferenceTime(Run(archive)) == 5
    ensures HasMaterial(Run(archive)) && SomeStamped(Run(archive).signatureTokens)
  {
    TwoCertificates();
    assert Run(archive).signatureTokens[0].Some?;
  }

  /** No evidence about the signer's certificate at all: B-LT with no record. */
  lemma LongTermWithoutEvidence()
    ensures var r := ReportOf(Run([]), Says(Rejected));
      r.status == TotalPassed && r.level == BLT && r.chain == [LEAF, ROOT] && r.revocation == []
  {
    var inp, ev := Run([]), Says(Rejected);
    TwoCertificateChain([]);
    NoVerdictWhenRejected(inp);
    UncoveredChainStillReachesLongTerm(inp, ev);
    PassedLevelExactly(inp, ev);
  }

  lemma NoVerdictWhenRejected(inp: Inputs)
    requires inp.ocsps == [[0]] && inp.crls == []
    ensures Verdict(inp, Says(Rejected), [LEAF, ROOT], 5, 0).None?
  {
    var ev := Says(Rejected);
    assert inp.ocsps[1..] == [];
    assert TryOcsp(ev, [], LEAF, ROOT, 5).None?;
    assert ev.ocsp(inp.ocsps[0], LEAF, ROOT, 5) == Rejected;
    assert TryCrl(ev, [], LEAF, ROOT, 5).None?;
  }

  /** A verdict that is not Good blocks B-LT, yet a fully verified archive token lifts past it to B-LTA. */
  lemma ArchivalWithoutGoodRecord()
    ensures var r := ReportOf(Run([FullyVerified(6)]), Says(Checked(NoVerdict)));
      r.status == TotalPassed && r.level == BLTA && r.chain == [LEAF, ROOT] && r.revocation == [NoVerdict]
      && NoEvidenceWarnings(r) == 0
  {
    hide SignatureTimes, BuildResult, Best, CountOf;
    var inp, ev := Run([FullyVerified(6)]), Says(Checked(NoVerdict));
    TwoCertificateChain([FullyVerified(6)]);
    TimesOfVerified(inp.signatureTokens);
    assert Verdict(inp, ev, [LEAF, ROOT], 5, 0) == Some(NoVerdict);
    assert Records(inp, ev, [LEAF, ROOT], 5, 0) == [];
    assert RecordsOf(inp, ev, [LEAF, ROOT]) == [NoVerdict];
    assert Lifts(inp.archiveTokens[0], BT, true);
    RecordsAndWarningsCountChain(inp, ev);
  }

  /** Two responses: one about another certificate, then one that says Revoked. */
  lemma LaterRevokedIsRead()
    ensures var inp := Run([]).(ocsps := [[0], [1]]);
      var ev := Evidence((b, _, _, _) => if b == [0] then Rejected else Checked(Revoked), (_, _, _, _) => None);
      ReportOf(inp, ev).status == TotalFailedSub
  {
    hide ReportOf, BuildResult, Policy.Evaluate;
    var inp := Run([]).(ocsps := [[0], [1]]);
    var ev := Evidence((b, _, _, _) => if b == [0] then Rejected else Checked(Revoked), (_, _, _, _) => None);
    TwoCertificateChain([]);
    assert ChainOf(inp) == ChainOf(Run([])) && PolicyAccepts(inp) && ReferenceTime(inp) == 5;
    assert RejectedBefore(ev, inp.ocsps, LEAF, ROOT, 5, 1);
    assert ev.ocsp(inp.ocsps[1], LEAF, ROOT, 5) == Checked(Revoked);
    assert OcspSays(ev, inp.ocsps, LEAF, ROOT, 5, Revoked);
    RevokedFails(inp, ev, 0);
  }
}
