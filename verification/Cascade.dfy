/** The level and time cascade of CAdES verification (`crates/eidas-cades/src/verify.rs`). */
module Cascade {
  import opened Wrappers
  import opened Bytes
  import opened Chain
  import Policy

  datatype Level = Unknown | BB | BT | BLT | BLTA {
    function Rank(): nat {
      match this
      case Unknown => 0
      case BB => 1
      case BT => 2
      case BLT => 3
      case BLTA => 4
    }

    predicate AtLeast(other: Level) {
      Rank() >= other.Rank()
    }
  }

  datatype Status = TotalPassed | TotalFailedSub

  datatype RevocationStatus = NoVerdict | Good | Revoked

  datatype StampKind = SignatureStamp | ArchiveStamp

  datatype Timestamp = Timestamp(kind: StampKind, genesisTime: int)

  datatype Code =
    | SignatureTimestampInvalid | AlgPolicyRejected | RevocationNoEvidence | RevocationRevoked
    | LtMaterialWithoutTimestamp | AtsImprintNotVerified | AtsInvalid | CadesVerificationError

  datatype Report = Report(
    status: Status, level: Level, chain: seq<Cert>, signingTimeBest: Option<int>,
    timestamps: seq<Timestamp>, revocation: seq<RevocationStatus>, diagnostics: seq<Code>)

  /** `verify_tst` over the signature value: the token's time, or nothing. */
  type SignatureToken = Option<int>

  /** An archive token: verified with its imprint, verified but for its imprint, or neither. */
  datatype ArchiveToken = FullyVerified(time: int) | SignatureVerified(time: int) | NotVerified {
    predicate Verified() {
      !NotVerified?
    }
  }

  datatype ValidationTime = Now | At(time: int) | BestSignatureTime {
    function Resolve(best: Option<int>, now: int): int {
      match this
      case Now => now
      case At(t) => t
      case BestSignatureTime => if best.Some? then best.value else now
    }
  }

  /** An OCSP blob that cannot be wrapped ends the search; one that does not verify is passed over. */
  datatype OcspOutcome = NotWrappable | Rejected | Checked(status: RevocationStatus)

  /** What the revocation library says of one blob about one certificate and its issuer at one time. */
  datatype Evidence = Evidence(
    ocsp: (bytes, Cert, Cert, int) -> OcspOutcome,
    crl: (bytes, Cert, Cert, int) -> Option<RevocationStatus>)

  /** One signer with everything the cascade reads. `core` is the outcome of the B-B checks. */
  datatype Inputs = Inputs(
    core: Option<Policy.AlgorithmId>, signer: Cert, anchors: seq<Cert>, intermediates: seq<Cert>,
    signatureTokens: seq<SignatureToken>, archiveTokens: seq<ArchiveToken>,
    sawRevocationValues: bool, crls: seq<bytes>, ocsps: seq<bytes>,
    policy: Policy.Table, validationTime: ValidationTime, now: int)

  const FAILED := Report(TotalFailedSub, Unknown, [], None, [], [], [CadesVerificationError])

  // ---------- folds over the tokens ----------

  function SignatureTimes(tokens: seq<SignatureToken>): seq<int> {
    if tokens == [] then []
    else
      var n := |tokens| - 1;
      SignatureTimes(tokens[..n]) + if tokens[n].Some? then [tokens[n].value] else []
  }

  function ArchiveTimes(tokens: seq<ArchiveToken>): seq<int> {
    if tokens == [] then []
    else
      var n := |tokens| - 1;
      ArchiveTimes(tokens[..n]) + if tokens[n].Verified() then [tokens[n].time] else []
  }

  function Stamps(kind: StampKind, times: seq<int>): seq<Timestamp> {
    seq(|times|, i requires 0 <= i < |times| => Timestamp(kind, times[i]))
  }

  function SignatureDiagnostics(tokens: seq<SignatureToken>): seq<Code> {
    if tokens == [] then []
    else
      var n := |tokens| - 1;
      SignatureDiagnostics(tokens[..n]) + if tokens[n].Some? then [] else [SignatureTimestampInvalid]
  }

  function ArchiveDiagnostics(tokens: seq<ArchiveToken>): seq<Code> {
    if tokens == [] then []
    else
      var n := |tokens| - 1;
      ArchiveDiagnostics(tokens[..n]) + [if tokens[n].Verified() then AtsImprintNotVerified else AtsInvalid]
  }

  ghost predicate IsMaximum(times: seq<int>, best: Option<int>) {
    match best
    case None => times == []
    case Some(m) => m in times && forall t :: t in times ==> t <= m
  }

  function Latest(best: Option<int>, t: int): Option<int> {
    if best.None? || best.value < t then Some(t) else best
  }

  function Best(times: seq<int>): (best: Option<int>)
    ensures IsMaximum(times, best)
  {
    if times == [] then None
    else
      var n := |times| - 1;
      assert times == times[..n] + [times[n]];
      Latest(Best(times[..n]), times[n])
  }

  lemma BestSnoc(times: seq<int>, t: int)
    ensures Best(times + [t]) == Latest(Best(times), t)
  {
    assert (times + [t])[..|times|] == times;
  }

  // ---------- revocation ----------

  function TryOcsp(ev: Evidence, blobs: seq<bytes>, cert: Cert, issuer: Cert, at: int): Option<RevocationStatus> {
    if blobs == [] then None
    else
      match ev.ocsp(blobs[0], cert, issuer, at)
      case NotWrappable => None
      case Rejected => TryOcsp(ev, blobs[1..], cert, issuer, at)
      case Checked(s) => Some(s)
  }

  function TryCrl(ev: Evidence, blobs: seq<bytes>, cert: Cert, issuer: Cert, at: int): Option<RevocationStatus> {
    if blobs == [] then None
    else
      match ev.crl(blobs[0], cert, issuer, at)
      case Some(s) => Some(s)
      case None => TryCrl(ev, blobs[1..], cert, issuer, at)
  }

  /** The verdict recorded for certificate `i` of the chain: OCSP first, then CRLs. */
  function Verdict(inp: Inputs, ev: Evidence, chain: seq<Cert>, at: int, i: nat): Option<RevocationStatus>
    requires i + 1 < |chain|
  {
    match TryOcsp(ev, inp.ocsps, chain[i], chain[i + 1], at)
    case Some(s) => Some(s)
    case None => TryCrl(ev, inp.crls, chain[i], chain[i + 1], at)
  }

  /** The first `n` certificates with a verdict, in chain order. */
  function Records(inp: Inputs, ev: Evidence, chain: seq<Cert>, at: int, n: nat): seq<RevocationStatus>
    requires n < |chain|
  {
    if n == 0 then []
    else
      var v := Verdict(inp, ev, chain, at, n - 1);
      Records(inp, ev, chain, at, n - 1) + if v.Some? then [v.value] else []
  }

  /** How many of the first `n` certificates have none. */
  function Uncovered(inp: Inputs, ev: Evidence, chain: seq<Cert>, at: int, n: nat): nat
    requires n < |chain|
  {
    if n == 0 then 0
    else Uncovered(inp, ev, chain, at, n - 1) + if Verdict(inp, ev, chain, at, n - 1).Some? then 0 else 1
  }

  function Warnings(n: nat): seq<Code> {
    seq(n, _ => RevocationNoEvidence)
  }

  method ApplyEmbeddedRevocation(inp: Inputs, ev: Evidence, chain: seq<Cert>, at: int, diagnostics: seq<Code>)
    returns (records: seq<RevocationStatus>, d: seq<Code>)
    requires chain != []
    ensures records == Records(inp, ev, chain, at, |chain| - 1)
    ensures d == diagnostics + Warnings(Uncovered(inp, ev, chain, at, |chain| - 1))
  {
    hide TryOcsp, TryCrl;
    records := [];
    d := diagnostics;
    var idx := 0;
    while idx < |chain|
      invariant 0 <= idx < |chain|
      invariant records == Records(inp, ev, chain, at, idx)
      invariant d == diagnostics + Warnings(Uncovered(inp, ev, chain, at, idx))
    {
      if idx == |chain| - 1 { break; }
      var cert, issuer := chain[idx], chain[idx + 1];
      var o := TryOcsp(ev, inp.ocsps, cert, issuer, at);
      if o.Some? {
        records := records + [o.value];
      } else {
        var c := TryCrl(ev, inp.crls, cert, issuer, at);
        if c.Some? {
          records := records + [c.value];
        } else {
          d := d + [RevocationNoEvidence];
        }
      }
      idx := idx + 1;
    }
  }

  // ---------- the report in closed form ----------

  predicate HasMaterial(inp: Inputs) {
    inp.sawRevocationValues && (inp.crls != [] || inp.ocsps != [])
  }

  predicate AllGood(records: seq<RevocationStatus>) {
    forall i :: 0 <= i < |records| ==> records[i] == Good
  }

  predicate AnyRevoked(records: seq<RevocationStatus>) {
    exists i :: 0 <= i < |records| && records[i] == Revoked
  }

  /** The time chain and policy are evaluated at. Archive tokens do not feed it. */
  function ReferenceTime(inp: Inputs): int {
    inp.validationTime.Resolve(Best(SignatureTimes(inp.signatureTokens)), inp.now)
  }

  function SignatureLevel(inp: Inputs): Level {
    if SignatureTimes(inp.signatureTokens) != [] then BT else BB
  }

  /** B-LT needs a signature time stamp, embedded material and no record that is not Good. */
  function LongTermLevel(inp: Inputs, records: seq<RevocationStatus>): Level {
    if SignatureLevel(inp) == BT && HasMaterial(inp) && AllGood(records) then BLT else SignatureLevel(inp)
  }

  /** Some archive token lifts: any verified one from B-LT, a fully verified one from B-T with material. */
  predicate ArchiveLifts(inp: Inputs, records: seq<RevocationStatus>) {
    exists i :: 0 <= i < |inp.archiveTokens|
      && Lifts(inp.archiveTokens[i], LongTermLevel(inp, records), HasMaterial(inp))
  }

  predicate Lifts(t: ArchiveToken, level: Level, material: bool) {
    match t
    case FullyVerified(_) => level.AtLeast(BLT) || (level.AtLeast(BT) && material)
    case SignatureVerified(_) => level.AtLeast(BLT)
    case NotVerified => false
  }

  function FinalLevel(inp: Inputs, records: seq<RevocationStatus>): Level {
    if ArchiveLifts(inp, records) then BLTA else LongTermLevel(inp, records)
  }

  function LongTermDiagnostics(inp: Inputs, records: seq<RevocationStatus>): seq<Code> {
    if HasMaterial(inp) && AllGood(records) && SignatureLevel(inp) == BB then [LtMaterialWithoutTimestamp] else []
  }

  /** `cert_info` fails on an inverted validity window. */
  predicate Displayable(chain: seq<Cert>) {
    forall i :: 0 <= i < |chain| ==> chain[i].notBefore <= chain[i].notAfter
  }

  function RecordsOf(inp: Inputs, ev: Evidence, chain: seq<Cert>): seq<RevocationStatus>
    requires chain != []
  {
    if HasMaterial(inp) then Records(inp, ev, chain, ReferenceTime(inp), |chain| - 1) else []
  }

  function UncoveredOf(inp: Inputs, ev: Evidence, chain: seq<Cert>): nat
    requires chain != []
  {
    if HasMaterial(inp) then Uncovered(inp, ev, chain, ReferenceTime(inp), |chain| - 1) else 0
  }

  /** The report from the point where chain and policy have been accepted. */
  function ReportOn(inp: Inputs, ev: Evidence, chain: seq<Cert>): Report
    requires chain != []
  {
    var sig := SignatureTimes(inp.signatureTokens);
    var arch := ArchiveTimes(inp.archiveTokens);
    var stamps := Stamps(SignatureStamp, sig);
    var records := RecordsOf(inp, ev, chain);
    var d := SignatureDiagnostics(inp.signatureTokens) + Warnings(UncoveredOf(inp, ev, chain));
    if AnyRevoked(records) then
      Report(TotalFailedSub, SignatureLevel(inp), chain, Best(sig), stamps, records, d + [RevocationRevoked])
    else
      Report(TotalPassed, FinalLevel(inp, records), chain, Best(sig + arch),
             stamps + Stamps(ArchiveStamp, arch), records,
             d + LongTermDiagnostics(inp, records) + ArchiveDiagnostics(inp.archiveTokens))
  }

  function ReportOf(inp: Inputs, ev: Evidence): Report {
    if inp.core.None? then FAILED
    else
      var at := ReferenceTime(inp);
      match BuildResult(inp.anchors, inp.intermediates, inp.signer, at)
      case Err(_) => FAILED
      case Ok(built) =>
        if !Displayable(built.chain) then FAILED
        else if !Policy.Evaluate(inp.policy, inp.core.value, at).IsAcceptedAt(at) then
          var sig := SignatureTimes(inp.signatureTokens);
          Report(TotalFailedSub, Unknown, built.chain, Best(sig), Stamps(SignatureStamp, sig), [],
                 SignatureDiagnostics(inp.signatureTokens) + [AlgPolicyRejected])
        else ReportOn(inp, ev, built.chain)
  }

  // ---------- the levels of a run ----------

  /** The level after a signature token. */
  function AfterStamp(level: Level, t: SignatureToken): Level {
    if t.Some? && !level.AtLeast(BT) then BT else level
  }

  /** The level after the revocation step. */
  function AfterRevocation(level: Level, material: bool, records: seq<RevocationStatus>): Level {
    if material && AllGood(records) && level.AtLeast(BT) then BLT else level
  }

  /** The level after an archive token. */
  function AfterArchive(level: Level, t: ArchiveToken, material: bool): Level {
    if Lifts(t, level, material) then BLTA else level
  }

  function Last(levels: seq<Level>): Level
    requires levels != []
  {
    levels[|levels| - 1]
  }

  /** B-B, then the level after each signature token. */
  function StampLevels(tokens: seq<SignatureToken>): (levels: seq<Level>)
    ensures |levels| == |tokens| + 1
  {
    if tokens == [] then [BB]
    else
      var n := |tokens| - 1;
      var before := StampLevels(tokens[..n]);
      before + [AfterStamp(Last(before), tokens[n])]
  }

  /** The level before the archive tokens, then the level after each. */
  function ArchiveLevels(tokens: seq<ArchiveToken>, start: Level, material: bool): (levels: seq<Level>)
    ensures |levels| == |tokens| + 1
  {
    if tokens == [] then [start]
    else
      var n := |tokens| - 1;
      var before := ArchiveLevels(tokens[..n], start, material);
      before + [AfterArchive(Last(before), tokens[n], material)]
  }

  /** The levels from the revocation step on; a revoked certificate ends the run before any lift. */
  function LevelsOn(inp: Inputs, ev: Evidence, chain: seq<Cert>, level: Level): seq<Level>
    requires chain != []
  {
    var records := RecordsOf(inp, ev, chain);
    if AnyRevoked(records) then []
    else ArchiveLevels(inp.archiveTokens, AfterRevocation(level, HasMaterial(inp), records), HasMaterial(inp))
  }

  /** Every value `level` takes, in order, up to whichever exit the run leaves by. */
  function LevelsOf(inp: Inputs, ev: Evidence): seq<Level> {
    if inp.core.None? then []
    else
      var stamped := StampLevels(inp.signatureTokens);
      match ChainOf(inp)
      case None => stamped
      case Some(chain) => if PolicyAccepts(inp) then stamped + LevelsOn(inp, ev, chain, Last(stamped)) else stamped
  }

  /** The chain the run builds and can display. */
  function ChainOf(inp: Inputs): (r: Option<seq<Cert>>)
    ensures r.Some? ==> r.value != []
  {
    match BuildResult(inp.anchors, inp.intermediates, inp.signer, ReferenceTime(inp))
    case Err(_) => None
    case Ok(built) => if Displayable(built.chain) then Some(built.chain) else None
  }

  predicate PolicyAccepts(inp: Inputs) {
    var at := ReferenceTime(inp);
    inp.core.Some? && Policy.Evaluate(inp.policy, inp.core.value, at).IsAcceptedAt(at)
  }

  /** The level never decreases. */
  ghost predicate Climbs(levels: seq<Level>) {
    forall i, j :: 0 <= i <= j < |levels| ==> levels[j].AtLeast(levels[i])
  }

  lemma ClimbsSnoc(levels: seq<Level>, level: Level)
    requires Climbs(levels) && (levels == [] || level.AtLeast(Last(levels)))
    ensures Climbs(levels + [level])
  {
    if levels != [] {
      assert forall i :: 0 <= i < |levels| ==> Last(levels).AtLeast(levels[i]);
    }
  }

  lemma ClimbsAppend(a: seq<Level>, b: seq<Level>)
    requires Climbs(a) && Climbs(b) && (a == [] || b == [] || b[0].AtLeast(Last(a)))
    ensures Climbs(a + b)
  {
    if a != [] && b != [] {
      assert forall i :: 0 <= i < |a| ==> Last(a).AtLeast(a[i]);
      assert forall j :: 0 <= j < |b| ==> b[j].AtLeast(b[0]);
    }
  }

  lemma {:induction false} StampLevelsClimb(tokens: seq<SignatureToken>)
    ensures Climbs(StampLevels(tokens))
  {
    if tokens != [] {
      var n := |tokens| - 1;
      StampLevelsClimb(tokens[..n]);
      var before := StampLevels(tokens[..n]);
      ClimbsSnoc(before, AfterStamp(Last(before), tokens[n]));
    }
  }

  lemma {:induction false} ArchiveLevelsClimb(tokens: seq<ArchiveToken>, start: Level, material: bool)
    ensures Climbs(ArchiveLevels(tokens, start, material))
    ensures ArchiveLevels(tokens, start, material)[0] == start
  {
    if tokens != [] {
      var n := |tokens| - 1;
      ArchiveLevelsClimb(tokens[..n], start, material);
      var before := ArchiveLevels(tokens[..n], start, material);
      ClimbsSnoc(before, AfterArchive(Last(before), tokens[n], material));
    }
  }

  /** Over every run the level never decreases, whichever exit it leaves by. */
  lemma LevelNeverDecreases(inp: Inputs, ev: Evidence)
    ensures Climbs(LevelsOf(inp, ev))
  {
    hide Climbs, StampLevels, ArchiveLevels, RecordsOf, Lifts, ChainOf, PolicyAccepts;
    var stamped := StampLevels(inp.signatureTokens);
    StampLevelsClimb(inp.signatureTokens);
    ClimbsNothing();
    if ChainOf(inp).Some? && PolicyAccepts(inp) {
      var level := Last(stamped);
      var more := LevelsOn(inp, ev, ChainOf(inp).value, level);
      if more != [] {
        var start := AfterRevocation(level, HasMaterial(inp), RecordsOf(inp, ev, ChainOf(inp).value));
        StampLevelsLow(inp.signatureTokens);
        ArchiveLevelsClimb(inp.archiveTokens, start, HasMaterial(inp));
      }
      ClimbsAppend(stamped, more);
    }
  }

  lemma ClimbsNothing()
    ensures Climbs([])
  {
  }

  /** Signature tokens alone lift to B-T, and only a verified one does. */
  lemma {:induction false} StampLevelsLow(tokens: seq<SignatureToken>)
    ensures Last(StampLevels(tokens)) == if SignatureTimes(tokens) != [] then BT else BB
  {
    if tokens != [] { StampLevelsLow(tokens[..|tokens| - 1]); }
  }

  /** The reported level is the last of the run; only a refused algorithm or a failed check reports none. */
  lemma ReportedLevelIsLast(inp: Inputs, ev: Evidence)
    requires ReportOf(inp, ev).level != Unknown
    ensures LevelsOf(inp, ev) != [] && ReportOf(inp, ev).level == Last(LevelsOf(inp, ev))
  {
    hide BuildResult, Policy.Evaluate, StampLevels, ArchiveLevels, RecordsOf, Lifts, LevelAfter, SignatureTimes,
      ArchiveTimes, Best, Stamps, SignatureDiagnostics, ArchiveDiagnostics, Warnings;
    StampLevelsLow(inp.signatureTokens);
    var chain := ChainOf(inp).value;
    var records, level := RecordsOf(inp, ev, chain), SignatureLevel(inp);
    var start := AfterRevocation(level, HasMaterial(inp), records);
    assert start == LongTermLevel(inp, records);
    ArchiveLevelsEnd(inp.archiveTokens, start, HasMaterial(inp));
    FinalLevelIs(inp, records);
  }

  lemma FinalLevelIs(inp: Inputs, records: seq<RevocationStatus>)
    ensures FinalLevel(inp, records)
         == LevelAfter(inp.archiveTokens, |inp.archiveTokens|, LongTermLevel(inp, records), HasMaterial(inp))
  {
    hide LongTermLevel, Lifts;
  }

  /** Testing each token against the current level comes to the same as testing it against the first. */
  lemma {:induction false} ArchiveLevelsEnd(tokens: seq<ArchiveToken>, start: Level, material: bool)
    ensures Last(ArchiveLevels(tokens, start, material)) == LevelAfter(tokens, |tokens|, start, material)
  {
    hide Lifts;
    if tokens != [] {
      var n := |tokens| - 1;
      ArchiveLevelsEnd(tokens[..n], start, material);
      LevelAfterPrefix(tokens, n, start, material);
      LiftOnce(tokens, n, start, material);
    }
  }

  lemma LevelAfterPrefix(tokens: seq<ArchiveToken>, n: nat, start: Level, material: bool)
    requires n <= |tokens|
    ensures LevelAfter(tokens[..n], n, start, material) == LevelAfter(tokens, n, start, material)
  {
    hide Lifts;
    assert forall k :: 0 <= k < n ==> tokens[..n][k] == tokens[k];
    if exists k :: 0 <= k < n && Lifts(tokens[k], start, material) {
      var k :| 0 <= k < n && Lifts(tokens[k], start, material);
      assert Lifts(tokens[..n][k], start, material);
    }
  }

  // ---------- the run ----------

  lemma StampsSnoc(kind: StampKind, times: seq<int>, t: int)
    ensures Stamps(kind, times + [t]) == Stamps(kind, times) + [Timestamp(kind, t)]
  {
  }

  /** What token `i` adds to the times, stamps and diagnostics. */
  lemma SignatureSnoc(tokens: seq<SignatureToken>, i: nat)
    requires i < |tokens|
    ensures var before, after := SignatureTimes(tokens[..i]), SignatureTimes(tokens[..i + 1]);
      match tokens[i]
      case Some(t) =>
        after != [] && Best(after) == Latest(Best(before), t)
        && Stamps(SignatureStamp, after) == Stamps(SignatureStamp, before) + [Timestamp(SignatureStamp, t)]
        && SignatureDiagnostics(tokens[..i + 1]) == SignatureDiagnostics(tokens[..i])
      case None =>
        after == before
        && SignatureDiagnostics(tokens[..i + 1]) == SignatureDiagnostics(tokens[..i]) + [SignatureTimestampInvalid]
  {
    hide Best, Stamps;
    var prefix := tokens[..i + 1];
    assert prefix[..i] == tokens[..i] && prefix[i] == tokens[i] && |prefix| == i + 1;
    assert SignatureTimes(tokens[..i]) + [] == SignatureTimes(tokens[..i]);
    assert SignatureDiagnostics(tokens[..i]) + [] == SignatureDiagnostics(tokens[..i]);
    if tokens[i].Some? {
      BestSnoc(SignatureTimes(tokens[..i]), tokens[i].value);
      StampsSnoc(SignatureStamp, SignatureTimes(tokens[..i]), tokens[i].value);
    }
  }

  lemma StampLevelsSnoc(tokens: seq<SignatureToken>, i: nat)
    requires i < |tokens|
    ensures var before := StampLevels(tokens[..i]);
      StampLevels(tokens[..i + 1]) == before + [AfterStamp(Last(before), tokens[i])]
  {
    assert tokens[..i + 1][..i] == tokens[..i];
  }

  lemma NothingStamped(tokens: seq<SignatureToken>)
    ensures SignatureTimes(tokens[..0]) == [] && SignatureDiagnostics(tokens[..0]) == []
    ensures Best([]) == None && Stamps(SignatureStamp, []) == [] && StampLevels(tokens[..0]) == [BB]
  {
  }

  method VerifySignatureTokens(tokens: seq<SignatureToken>)
    returns (level: Level, best: Option<int>, stamps: seq<Timestamp>, d: seq<Code>, ghost trace: seq<Level>)
    ensures best == Best(SignatureTimes(tokens))
    ensures level == if SignatureTimes(tokens) != [] then BT else BB
    ensures stamps == Stamps(SignatureStamp, SignatureTimes(tokens))
    ensures d == SignatureDiagnostics(tokens)
    ensures trace == StampLevels(tokens) && level == Last(trace)
  {
    hide Best, Stamps, SignatureTimes, SignatureDiagnostics, StampLevels;
    level, best, stamps, d := BB, None, [], [];
    trace := [BB];
    NothingStamped(tokens);
    for i := 0 to |tokens|
      invariant best == Best(SignatureTimes(tokens[..i]))
      invariant level == if SignatureTimes(tokens[..i]) != [] then BT else BB
      invariant stamps == Stamps(SignatureStamp, SignatureTimes(tokens[..i]))
      invariant d == SignatureDiagnostics(tokens[..i])
      invariant trace == StampLevels(tokens[..i]) && level == Last(trace)
    {
      SignatureSnoc(tokens, i);
      StampLevelsSnoc(tokens, i);
      match tokens[i] {
        case Some(t) =>
          best := if best.None? then Some(t) else if best.value < t then Some(t) else best;
          if !level.AtLeast(BT) {
            level := BT;
          }
          stamps := stamps + [Timestamp(SignatureStamp, t)];
        case None =>
          d := d + [SignatureTimestampInvalid];
      }
      trace := trace + [level];
    }
    assert tokens[..|tokens|] == tokens;
  }

  method VerifyArchiveTokens(tokens: seq<ArchiveToken>, start: Level, material: bool, best0: Option<int>,
      ghost times: seq<int>)
    returns (level: Level, best: Option<int>, stamps: seq<Timestamp>, d: seq<Code>, ghost trace: seq<Level>)
    requires best0 == Best(times)
    ensures best == Best(times + ArchiveTimes(tokens))
    ensures level == LevelAfter(tokens, |tokens|, start, material)
    ensures stamps == Stamps(ArchiveStamp, ArchiveTimes(tokens))
    ensures d == ArchiveDiagnostics(tokens)
    ensures trace == ArchiveLevels(tokens, start, material) && level == Last(trace)
  {
    hide Best, Stamps, ArchiveTimes, ArchiveDiagnostics, ArchiveLevels, LevelAfter;
    level, best, stamps, d := start, best0, [], [];
    trace := [start];
    NothingYet(tokens, start, material, times);
    for i := 0 to |tokens|
      invariant best == Best(times + ArchiveTimes(tokens[..i]))
      invariant level == LevelAfter(tokens, i, start, material)
      invariant stamps == Stamps(ArchiveStamp, ArchiveTimes(tokens[..i]))
      invariant d == ArchiveDiagnostics(tokens[..i])
      invariant trace == ArchiveLevels(tokens[..i], start, material) && level == Last(trace)
    {
      ArchiveSnoc(tokens, i, times);
      LiftOnce(tokens, i, start, material);
      ArchiveLevelsSnoc(tokens, i, start, material);
      match tokens[i] {
        case FullyVerified(t) =>
          best := if best.None? then Some(t) else if best.value < t then Some(t) else best;
          if level.AtLeast(BLT) || (level.AtLeast(BT) && material) {
            level := BLTA;
          }
          stamps := stamps + [Timestamp(ArchiveStamp, t)];
          d := d + [AtsImprintNotVerified];
        case SignatureVerified(t) =>
          best := if best.None? then Some(t) else if best.value < t then Some(t) else best;
          if level.AtLeast(BLT) {
            level := BLTA;
          }
          stamps := stamps + [Timestamp(ArchiveStamp, t)];
          d := d + [AtsImprintNotVerified];
        case NotVerified =>
          d := d + [AtsInvalid];
      }
      trace := trace + [level];
    }
    assert tokens[..|tokens|] == tokens;
  }

  lemma ArchiveLevelsSnoc(tokens: seq<ArchiveToken>, i: nat, start: Level, material: bool)
    requires i < |tokens|
    ensures var before := ArchiveLevels(tokens[..i], start, material);
      ArchiveLevels(tokens[..i + 1], start, material) == before + [AfterArchive(Last(before), tokens[i], material)]
  {
    hide Lifts;
    assert tokens[..i + 1][..i] == tokens[..i];
  }

  /** The level after the first `n` archive tokens. */
  function LevelAfter(tokens: seq<ArchiveToken>, n: nat, start: Level, material: bool): Level
    requires n <= |tokens|
  {
    if exists k :: 0 <= k < n && Lifts(tokens[k], start, material) then BLTA else start
  }

  lemma NothingYet(tokens: seq<ArchiveToken>, start: Level, material: bool, times: seq<int>)
    ensures LevelAfter(tokens, 0, start, material) == start
    ensures ArchiveLevels(tokens[..0], start, material) == [start]
    ensures times + ArchiveTimes(tokens[..0]) == times
    ensures Stamps(ArchiveStamp, ArchiveTimes(tokens[..0])) == [] && ArchiveDiagnostics(tokens[..0]) == []
  {
  }

  /** What token `i` adds to the times, stamps and diagnostics. */
  lemma ArchiveSnoc(tokens: seq<ArchiveToken>, i: nat, times: seq<int>)
    requires i < |tokens|
    ensures var before, after := ArchiveTimes(tokens[..i]), ArchiveTimes(tokens[..i + 1]);
      if tokens[i].Verified() then
        Best(times + after) == Latest(Best(times + before), tokens[i].time)
        && Stamps(ArchiveStamp, after) == Stamps(ArchiveStamp, before) + [Timestamp(ArchiveStamp, tokens[i].time)]
      else after == before
    ensures ArchiveDiagnostics(tokens[..i + 1])
         == ArchiveDiagnostics(tokens[..i]) + [if tokens[i].Verified() then AtsImprintNotVerified else AtsInvalid]
  {
    hide Best, Stamps;
    assert tokens[..i + 1][..i] == tokens[..i];
    if tokens[i].Verified() {
      NextTime(times, ArchiveTimes(tokens[..i]), tokens[i].time);
    }
  }

  lemma NextTime(times: seq<int>, before: seq<int>, t: int)
    ensures Best(times + (before + [t])) == Latest(Best(times + before), t)
    ensures Stamps(ArchiveStamp, before + [t]) == Stamps(ArchiveStamp, before) + [Timestamp(ArchiveStamp, t)]
  {
    BestSnoc(times + before, t);
    Append2(times, before, [t]);
  }

  /** Once lifted to B-LTA the level stays, and testing the current level agrees with testing the first. */
  lemma LiftOnce(tokens: seq<ArchiveToken>, i: nat, start: Level, material: bool)
    requires i < |tokens|
    ensures var was, now := LevelAfter(tokens, i, start, material), LevelAfter(tokens, i + 1, start, material);
      now == (if Lifts(tokens[i], was, material) then BLTA else was) && now.AtLeast(was)
  {
  }

  /** Every exit returns the specified report, and `trace` is every level the run went through. */
  method VerifyOneSigner(inp: Inputs, ev: Evidence) returns (r: Report, ghost trace: seq<Level>)
    ensures r == ReportOf(inp, ev)
    ensures trace == LevelsOf(inp, ev)
  {
    hide BuildResult, Policy.Evaluate, ReportOn, LevelsOn, Best, SignatureTimes, SignatureDiagnostics, Stamps,
      StampLevels;
    trace := [];
    if inp.core.None? { return FAILED, trace; }
    var level, best, stamps, d, climbed := VerifySignatureTokens(inp.signatureTokens);
    trace := climbed;
    var referenceTime := inp.validationTime.Resolve(best, inp.now);
    var built := BuildResult(inp.anchors, inp.intermediates, inp.signer, referenceTime);
    if built.Err? { return FAILED, trace; }
    var chain := built.value.chain;
    if !Displayable(chain) { return FAILED, trace; }
    var decision := Policy.Evaluate(inp.policy, inp.core.value, referenceTime);
    if !decision.IsAcceptedAt(referenceTime) {
      return Report(TotalFailedSub, Unknown, chain, best, stamps, [], d + [AlgPolicyRejected]), trace;
    }
    ghost var more;
    r, more := ClimbFrom(inp, ev, chain, referenceTime, level, best, stamps, d);
    trace := trace + more;
  }

  /** The rest of the run: embedded revocation, then archive tokens. */
  method ClimbFrom(inp: Inputs, ev: Evidence, chain: seq<Cert>, referenceTime: int, level0: Level, best: Option<int>,
                   stamps: seq<Timestamp>, d0: seq<Code>)
    returns (r: Report, ghost trace: seq<Level>)
    requires chain != [] && referenceTime == ReferenceTime(inp) && level0 == SignatureLevel(inp)
    requires best == Best(SignatureTimes(inp.signatureTokens))
    requires stamps == Stamps(SignatureStamp, SignatureTimes(inp.signatureTokens))
    requires d0 == SignatureDiagnostics(inp.signatureTokens)
    ensures r == ReportOn(inp, ev, chain)
    ensures trace == LevelsOn(inp, ev, chain, level0)
  {
    hide Best, Records, Uncovered, Stamps, ArchiveDiagnostics, SignatureDiagnostics, ArchiveTimes, SignatureTimes,
      ArchiveLevels;
    var level, d := level0, d0;
    var records: seq<RevocationStatus> := [];
    var material := inp.sawRevocationValues && (inp.crls != [] || inp.ocsps != []);
    assert d + Warnings(0) == d;
    if material {
      records, d := ApplyEmbeddedRevocation(inp, ev, chain, referenceTime, d);
      if AnyRevoked(records) {
        return Report(TotalFailedSub, level, chain, best, stamps, records, d + [RevocationRevoked]), [];
      }
      if AllGood(records) && level.AtLeast(BT) {
        level := BLT;
      } else if AllGood(records) && !level.AtLeast(BT) {
        d := d + [LtMaterialWithoutTimestamp];
      }
    }
    assert records == RecordsOf(inp, ev, chain) && level == LongTermLevel(inp, records);
    assert level == AfterRevocation(level0, HasMaterial(inp), records);
    assert d == d0 + Warnings(UncoveredOf(inp, ev, chain)) + LongTermDiagnostics(inp, records);
    var best', stamps', d';
    level, best', stamps', d', trace :=
      VerifyArchiveTokens(inp.archiveTokens, level, material, best, SignatureTimes(inp.signatureTokens));
    r := Report(TotalPassed, level, chain, best', stamps + stamps', records, d + d');
  }
}
