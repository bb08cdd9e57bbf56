/** Looking a chain up in the trusted lists and the qualification that follows
 (`crates/eidas-trust/src/qualify.rs`, `crates/eidas-qualify/src/engine.rs`). */
module Qualify {
  import opened Wrappers
  import opened Bytes
  import opened TrustModel

  const GRANTED := "http://uri.etsi.org/TrstSvc/TrustedList/Svcstatus/granted"
  const UNDER_SUPERVISION := "http://uri.etsi.org/TrstSvc/TrustedList/Svcstatus/undersupervision"
  const RECOGNISED := "http://uri.etsi.org/TrstSvc/TrustedList/Svcstatus/recognisedatnationallevel"
  const CA_QC := "http://uri.etsi.org/TrstSvc/Svctype/CA/QC"
  const QC_FOR_ESIG := "http://uri.etsi.org/TrstSvc/TrustedList/SvcInfoExt/QCForESig"
  const QC_FOR_ESEAL := "http://uri.etsi.org/TrstSvc/TrustedList/SvcInfoExt/QCForESeal"
  const QC_WITH_QSCD := "http://uri.etsi.org/TrstSvc/TrustedList/SvcInfoExt/QCWithQSCD"
  const QC_QSCD_STATUS_AS_IN_CERT := "http://uri.etsi.org/TrstSvc/TrustedList/SvcInfoExt/QCQSCDStatusAsInCert"
  const QC_NO_QSCD := "http://uri.etsi.org/TrstSvc/TrustedList/SvcInfoExt/QCNoQSCD"
  const QC_STATEMENT := "http://uri.etsi.org/TrstSvc/TrustedList/SvcInfoExt/QCStatement"

  // ---------- lookup ----------

  datatype ServiceMatch = ServiceMatch(territory: Option<string>, service: TrustService, statusAt: Option<string>)

  predicate HasKey(certs: seq<Certificate>, spki: bytes) {
    exists c :: c in certs && c.spki == Some(spki)
  }

  /** The service lists the key now or in some past period. */
  predicate ListsKey(svc: TrustService, spki: bytes) {
    HasKey(svc.certificates, spki) || exists h :: h in svc.history && HasKey(h.certificates, spki)
  }

  function FindService(services: seq<TrustService>, spki: bytes): (r: Option<TrustService>)
    ensures r.Some? ==> r.value in services && ListsKey(r.value, spki)
    ensures r.None? ==> forall s :: s in services ==> !ListsKey(s, spki)
  {
    if services == [] then None
    else if ListsKey(services[0], spki) then Some(services[0])
    else FindService(services[1..], spki)
  }

  function FindInProviders(providers: seq<Provider>, spki: bytes): Option<TrustService> {
    if providers == [] then None
    else
      match FindService(providers[0].services, spki)
      case Some(s) => Some(s)
      case None => FindInProviders(providers[1..], spki)
  }

  function FindInLists(lists: seq<TrustedList>, spki: bytes, at: int): Option<ServiceMatch> {
    if lists == [] then None
    else
      match FindInProviders(lists[0].providers, spki)
      case Some(s) => Some(ServiceMatch(lists[0].territory, s, StatusSpec(s, at).0))
      case None => FindInLists(lists[1..], spki, at)
  }

  function QualificationFor(lists: seq<TrustedList>, target: Certificate, at: int): Option<ServiceMatch> {
    var spki :- target.spki;
    FindInLists(lists, spki, at)
  }

  ghost predicate InLists(lists: seq<TrustedList>, s: TrustService) {
    exists l, p :: l in lists && p in l.providers && s in p.services
  }

  ghost predicate InProviders(providers: seq<Provider>, s: TrustService) {
    exists p :: p in providers && s in p.services
  }

  lemma {:induction false} ProvidersListKey(providers: seq<Provider>, spki: bytes)
    ensures var r := FindInProviders(providers, spki);
      (r.Some? ==> InProviders(providers, r.value) && ListsKey(r.value, spki))
      && (r.None? <==> forall s :: InProviders(providers, s) ==> !ListsKey(s, spki))
  {
    hide ListsKey;
    if providers != [] {
      ProvidersListKey(providers[1..], spki);
      assert forall p :: p in providers <==> p == providers[0] || p in providers[1..];
    }
  }

  /** A certificate is found exactly when some listed service, present or past, has its key. */
  lemma {:induction false} FoundExactlyWhenListed(lists: seq<TrustedList>, spki: bytes, at: int)
    ensures var r := FindInLists(lists, spki, at);
      (r.Some? ==> InLists(lists, r.value.service) && ListsKey(r.value.service, spki)
                   && r.value.statusAt == StatusSpec(r.value.service, at).0)
      && (r.Some? <==> exists s :: InLists(lists, s) && ListsKey(s, spki))
  {
    hide ListsKey, StatusSpec;
    if lists != [] {
      ProvidersListKey(lists[0].providers, spki);
      FoundExactlyWhenListed(lists[1..], spki, at);
      assert forall l :: l in lists <==> l == lists[0] || l in lists[1..];
      assert forall s :: InLists(lists, s) <==> InProviders(lists[0].providers, s) || InLists(lists[1..], s);
    }
  }

  // ---------- the decision ----------

  datatype Qualification = NotAdES | AdES | AdESqc | QES

  datatype Qualifier =
    | QcForESig | QcForESeal | QcForWSA | QcQSCDStatusAsInCert | QcNotQSCD | QcWithSSCD | QcWithQSCD | QcStatement

  /** The flags of the signer certificate's qcStatements extension. */
  datatype QcStatements = QcStatements(compliance: bool, sscd: bool, esign: bool, eseal: bool, web: bool)

  datatype Diagnostic = NoTslMatch | ServiceNotActive | ServiceNotCaQc | MatchedCaQc | QesWithoutQcCompliance

  datatype Output = Output(
    qualification: Qualification, qualifiers: seq<Qualifier>, diagnostics: seq<Diagnostic>, territory: Option<string>)

  /** The qualifier a service URI stands for, if it is a known one. */
  function QualifierOf(uri: string): Option<Qualifier> {
    if uri == QC_FOR_ESIG then Some(QcForESig)
    else if uri == QC_FOR_ESEAL then Some(QcForESeal)
    else if uri == QC_WITH_QSCD then Some(QcWithQSCD)
    else if uri == QC_QSCD_STATUS_AS_IN_CERT then Some(QcQSCDStatusAsInCert)
    else if uri == QC_NO_QSCD then Some(QcNotQSCD)
    else if uri == QC_STATEMENT then Some(QcStatement)
    else None
  }

  ghost predicate NoRepeats(s: seq<Qualifier>) {
    forall i, j :: 0 <= i < j < |s| ==> s[i] != s[j]
  }

  function ServiceQualifiers(uris: seq<string>): (r: seq<Qualifier>)
    ensures forall q :: q in r <==> exists u :: u in uris && QualifierOf(u) == Some(q)
  {
    hide QualifierOf;
    if uris == [] then []
    else
      var n := |uris| - 1;
      assert uris == uris[..n] + [uris[n]];
      ServiceQualifiers(uris[..n]) + Optional(QualifierOf(uris[n]))
  }

  function Optional(q: Option<Qualifier>): seq<Qualifier> {
    if q.Some? then [q.value] else []
  }

  method QListFromService(uris: seq<string>) returns (out: seq<Qualifier>)
    ensures out == ServiceQualifiers(uris)
  {
    hide QualifierOf;
    out := [];
    for i := 0 to |uris|
      invariant out == ServiceQualifiers(uris[..i])
    {
      assert uris[..i + 1][..i] == uris[..i];
      var q := QualifierOf(uris[i]);
      if q.Some? {
        out := out + [q.value];
      }
    }
    assert uris[..|uris|] == uris;
  }

  function When(flag: bool, q: Qualifier): seq<Qualifier> {
    if flag then [q] else []
  }

  function CertificateQualifiers(qc: QcStatements): seq<Qualifier> {
    When(qc.compliance, QcStatement) + When(qc.esign, QcForESig) + When(qc.eseal, QcForESeal)
    + When(qc.web, QcForWSA) + When(qc.sscd, QcWithSSCD)
  }

  lemma OneMore(s: seq<Qualifier>, flag: bool, q: Qualifier)
    ensures NoRepeats([])
    ensures NoRepeats(s) && q !in s ==> NoRepeats(s + When(flag, q))
  {
  }

  lemma Whens()
    ensures forall flag, q, p {:trigger p in When(flag, q)} :: p in When(flag, q) <==> flag && p == q
  {
  }

  /** A certificate never asserts a QSCD qualifier of a service, nor any qualifier twice. */
  lemma CertificateQualifiersAre(qc: QcStatements)
    ensures var r := CertificateQualifiers(qc);
      NoRepeats(r) && QcWithQSCD !in r && QcNotQSCD !in r && QcQSCDStatusAsInCert !in r
      && (QcStatement in r <==> qc.compliance) && (QcForESig in r <==> qc.esign) && (QcForESeal in r <==> qc.eseal)
      && (QcForWSA in r <==> qc.web) && (QcWithSSCD in r <==> qc.sscd)
  {
    hide NoRepeats, When;
    Whens();
    var a := When(qc.compliance, QcStatement);
    var b := a + When(qc.esign, QcForESig);
    var c := b + When(qc.eseal, QcForESeal);
    var d := c + When(qc.web, QcForWSA);
    OneMore([], qc.compliance, QcStatement);
    assert [] + a == a;
    OneMore(a, qc.esign, QcForESig);
    OneMore(b, qc.eseal, QcForESeal);
    OneMore(c, qc.web, QcForWSA);
    OneMore(d, qc.sscd, QcWithSSCD);
  }

  method QListFromQc(qc: QcStatements) returns (out: seq<Qualifier>)
    ensures out == CertificateQualifiers(qc)
  {
    out := [];
    if qc.compliance { out := out + [QcStatement]; }
    if qc.esign { out := out + [QcForESig]; }
    if qc.eseal { out := out + [QcForESeal]; }
    if qc.web { out := out + [QcForWSA]; }
    if qc.sscd { out := out + [QcWithSSCD]; }
  }

  /** First occurrences, in order. */
  function FirstOccurrences(v: seq<Qualifier>): (r: seq<Qualifier>)
    ensures NoRepeats(r)
    ensures forall q :: q in r <==> q in v
  {
    if v == [] then []
    else
      var r := FirstOccurrences(v[..|v| - 1]);
      assert v == v[..|v| - 1] + [v[|v| - 1]];
      if v[|v| - 1] in r then r else r + [v[|v| - 1]]
  }

  method Dedup(v: seq<Qualifier>) returns (r: seq<Qualifier>)
    ensures r == FirstOccurrences(v)
  {
    var seen: set<Qualifier> := {};
    r := [];
    for i := 0 to |v|
      invariant r == FirstOccurrences(v[..i])
      invariant forall q :: q in seen <==> q in r
    {
      assert v[..i + 1][..i] == v[..i];
      if v[i] !in seen {
        seen := seen + {v[i]};
        r := r + [v[i]];
      }
    }
    assert v[..|v|] == v;
  }

  /** The service of the first chain certificate that is listed. */
  function FirstListed(chain: seq<Certificate>, lists: seq<TrustedList>, at: int): Option<ServiceMatch> {
    if chain == [] then None
    else
      match QualificationFor(lists, chain[0], at)
      case Some(m) => Some(m)
      case None => FirstListed(chain[1..], lists, at)
  }

  predicate IsActive(m: ServiceMatch) {
    m.statusAt == Some(GRANTED) || m.statusAt == Some(UNDER_SUPERVISION) || m.statusAt == Some(RECOGNISED)
  }

  method QualifySigner(chain: seq<Certificate>, lists: seq<TrustedList>, qc: QcStatements, at: int,
      baseline: Qualification)
    returns (r: Output)
    ensures r.qualification == QualificationOf(FirstListed(chain, lists, at), qc, baseline)
    ensures r.qualifiers == QualifiersOf(FirstListed(chain, lists, at), qc)
    ensures r.diagnostics == DiagnosticsOf(FirstListed(chain, lists, at), qc)
    ensures r.territory == match FirstListed(chain, lists, at) case Some(m) => m.territory case None => None
  {
    hide QualifierOf, ServiceQualifiers, CertificateQualifiers, FirstOccurrences, FirstListed, NoRepeats;
    var matched := FirstListed(chain, lists, at);
    var fromQc := QListFromQc(qc);
    if matched.None? {
      return Output(baseline, fromQc, [NoTslMatch], None);
    }
    var m := matched.value;
    var status := if m.statusAt.Some? then m.statusAt.value else "";
    if status != GRANTED && status != UNDER_SUPERVISION && status != RECOGNISED {
      return Output(NotAdES, fromQc, [ServiceNotActive], m.territory);
    }
    var svcType := if m.service.serviceType.Some? then m.service.serviceType.value else "";
    if svcType != CA_QC {
      return Output(baseline, fromQc, [ServiceNotCaQc], m.territory);
    }
    var uris := m.service.qualifiers;
    var hasQscd := QC_WITH_QSCD in uris;
    var hasStatusAsInCert := QC_QSCD_STATUS_AS_IN_CERT in uris;
    var hasNoQscd := QC_NO_QSCD in uris;
    var qualifiers := QListFromService(uris);
    qualifiers := qualifiers + fromQc;
    var qualification :=
      if hasNoQscd then AdESqc
      else if hasQscd || (hasStatusAsInCert && qc.sscd) || (!hasStatusAsInCert && qc.sscd) then QES
      else AdESqc;
    var diagnostics := [MatchedCaQc];
    if !qc.compliance && qualification == QES {
      diagnostics := diagnostics + [QesWithoutQcCompliance];
    }
    qualifiers := Dedup(qualifiers);
    r := Output(qualification, qualifiers, diagnostics, m.territory);
  }

  predicate IsActiveCaQc(m: Option<ServiceMatch>) {
    m.Some? && IsActive(m.value) && m.value.service.serviceType == Some(CA_QC)
  }

  /** The service's qualifiers come first, and each qualifier once; without a match only the certificate's own. */
  function QualifiersOf(m: Option<ServiceMatch>, qc: QcStatements): seq<Qualifier> {
    if IsActiveCaQc(m) then FirstOccurrences(ServiceQualifiers(m.value.service.qualifiers) + CertificateQualifiers(qc))
    else CertificateQualifiers(qc)
  }

  function DiagnosticsOf(m: Option<ServiceMatch>, qc: QcStatements): seq<Diagnostic> {
    if m.None? then [NoTslMatch]
    else if !IsActive(m.value) then [ServiceNotActive]
    else if !IsActiveCaQc(m) then [ServiceNotCaQc]
    else if QualificationOf(m, qc, NotAdES) == QES && !qc.compliance then [MatchedCaQc, QesWithoutQcCompliance]
    else [MatchedCaQc]
  }

  /** No qualifier is reported twice, and exactly those the matched service or the certificate asserts. */
  lemma QualifiersReported(m: Option<ServiceMatch>, qc: QcStatements, q: Qualifier)
    ensures NoRepeats(QualifiersOf(m, qc))
    ensures q in QualifiersOf(m, qc) <==>
      q in CertificateQualifiers(qc)
      || (IsActiveCaQc(m) && exists u :: u in m.value.service.qualifiers && QualifierOf(u) == Some(q))
  {
    hide QualifierOf, CertificateQualifiers, NoRepeats;
    CertificateQualifiersAre(qc);
  }

  /** What the trusted lists and the certificate's statements make of a baseline. */
  function QualificationOf(m: Option<ServiceMatch>, qc: QcStatements, baseline: Qualification): Qualification {
    if m.None? then baseline
    else if !IsActive(m.value) then NotAdES
    else if m.value.service.serviceType != Some(CA_QC) then baseline
    else QscdLadder(m.value.service.qualifiers, qc)
  }

  /** The QSCD rules in the priority order of ETSI TS 119 615. */
  function QscdLadder(uris: seq<string>, qc: QcStatements): Qualification {
    if QC_NO_QSCD in uris then AdESqc
    else if QC_WITH_QSCD in uris then QES
    else if QC_QSCD_STATUS_AS_IN_CERT in uris then (if qc.sscd then QES else AdESqc)
    else if qc.sscd then QES
    else AdESqc
  }

  // ---------- what the decision rests on ----------

  /** A chain certificate is listed. */
  predicate Listed(c: Certificate, lists: seq<TrustedList>, at: int) {
    QualificationFor(lists, c, at).Some?
  }

  lemma {:induction false} FirstListedIs(chain: seq<Certificate>, lists: seq<TrustedList>, at: int)
    ensures var m := FirstListed(chain, lists, at);
      (m.None? <==> forall i :: 0 <= i < |chain| ==> !Listed(chain[i], lists, at))
      && (m.Some? ==> exists k :: 0 <= k < |chain| && QualificationFor(lists, chain[k], at) == m
                                  && forall i :: 0 <= i < k ==> !Listed(chain[i], lists, at))
  {
    hide QualificationFor;
    if chain != [] {
      if !Listed(chain[0], lists, at) {
        FirstListedIs(chain[1..], lists, at);
        if FirstListed(chain, lists, at).Some? {
          var k :| 0 <= k < |chain[1..]|
            && QualificationFor(lists, chain[1..][k], at) == FirstListed(chain[1..], lists, at)
                   && forall i :: 0 <= i < k ==> !Listed(chain[1..][i], lists, at);
          assert chain[k + 1] == chain[1..][k];
          assert forall i :: 0 <= i < k + 1 ==> chain[i] == if i == 0 then chain[0] else chain[1..][i - 1];
        } else {
          assert forall i :: 0 < i < |chain| ==> chain[i] == chain[1..][i - 1];
        }
      } else {
        assert QualificationFor(lists, chain[0], at) == FirstListed(chain, lists, at);
      }
    }
  }

  /**
   The result departs from the baseline only through the first listed certificate: certificates
   after it, and unlisted ones before it, never matter.
   */
  lemma {:induction false} OnlyFirstListedMatters(before: seq<Certificate>, c: Certificate, after: seq<Certificate>,
                                                  lists: seq<TrustedList>, at: int)
    requires forall i :: 0 <= i < |before| ==> !Listed(before[i], lists, at)
    ensures FirstListed(before, lists, at) == None
    ensures Listed(c, lists, at) ==> FirstListed(before + [c] + after, lists, at) == QualificationFor(lists, c, at)
  {
    hide QualificationFor;
    if before == [] {
      assert before + [c] + after == [c] + after;
    } else {
      assert !Listed(before[0], lists, at);
      OnlyFirstListedMatters(before[1..], c, after, lists, at);
      assert (before + [c] + after)[1..] == before[1..] + [c] + after;
      assert (before + [c] + after)[0] == before[0];
    }
  }

  /** An entry that overrides the baseline. */
  predicate Decides(m: ServiceMatch) {
    IsActive(m) ==> m.service.serviceType == Some(CA_QC)
  }

  /** A result other than the baseline needs a listed certificate whose service is inactive or an active CA/QC. */
  lemma DepartureNeedsListing(chain: seq<Certificate>, lists: seq<TrustedList>, qc: QcStatements, at: int,
      baseline: Qualification)
    requires QualificationOf(FirstListed(chain, lists, at), qc, baseline) != baseline
    ensures exists k :: (0 <= k < |chain| && Listed(chain[k], lists, at)
                         && (forall i :: 0 <= i < k ==> !Listed(chain[i], lists, at))
                         && Decides(QualificationFor(lists, chain[k], at).value))
  {
    FirstListedIs(chain, lists, at);
  }

  /**
   For an active CA/QC service the signature is qualified (QES) exactly when the service does not
   deny a qualified device and either asserts one or the certificate does; otherwise AdES-QC. The
   "status as in certificate" qualifier makes no difference.
   */
  lemma QesExactly(m: ServiceMatch, qc: QcStatements, baseline: Qualification)
    requires IsActive(m) && m.service.serviceType == Some(CA_QC)
    ensures QualificationOf(Some(m), qc, baseline) == QES <==>
      QC_NO_QSCD !in m.service.qualifiers && (QC_WITH_QSCD in m.service.qualifiers || qc.sscd)
    ensures QualificationOf(Some(m), qc, baseline) != QES ==> QualificationOf(Some(m), qc, baseline) == AdESqc
  {
  }

  /**
   An advanced signature keeps that baseline exactly when no certificate of the chain is listed or
   the first listed one's service is active but not CA/QC.
   */
  lemma BaselineKeptExactly(chain: seq<Certificate>, lists: seq<TrustedList>, qc: QcStatements, at: int)
    ensures var m := FirstListed(chain, lists, at);
      (QualificationOf(m, qc, AdES) == AdES <==>
         (forall i :: 0 <= i < |chain| ==> !Listed(chain[i], lists, at))
         || (m.Some? && IsActive(m.value) && m.value.service.serviceType != Some(CA_QC)))
      && (QualificationOf(m, qc, AdES) == NotAdES <==> m.Some? && !IsActive(m.value))
  {
    FirstListedIs(chain, lists, at);
  }

  /**
   The crate documentation keeps the result unchanged when no service matches or the matched one is
   not active. That holds exactly when no certificate is listed or there was nothing to lose.
   */
  lemma DocumentedFallbackExactly(chain: seq<Certificate>, lists: seq<TrustedList>, qc: QcStatements, at: int,
      baseline: Qualification)
    requires FirstListed(chain, lists, at).None? || !IsActive(FirstListed(chain, lists, at).value)
    ensures QualificationOf(FirstListed(chain, lists, at), qc, baseline) == baseline <==>
      (forall i :: 0 <= i < |chain| ==> !Listed(chain[i], lists, at)) || baseline == NotAdES
  {
    FirstListedIs(chain, lists, at);
  }

  const WITHDRAWN := "http://uri.etsi.org/TrstSvc/TrustedList/Svcstatus/withdrawn"
  const SIGNER := Certificate([0], Some([1]))

  /** A list with one withdrawn service, which holds the signer's key. */
  const WITHDRAWN_LIST :=
    TrustedList(Some("XX"), None, None, None, None,
      [Provider(None, None, None,
         [TrustService(Some(CA_QC), None, Some(WITHDRAWN), Some(0), [SIGNER], [], [])])])

  lemma WithdrawnServiceLosesTheBaseline(qc: QcStatements)
    ensures var m := FirstListed([SIGNER], [WITHDRAWN_LIST], 5);
      m.Some? && !IsActive(m.value) && QualificationOf(m, qc, AdES) == NotAdES
  {
    var p := WITHDRAWN_LIST.providers[0];
    var svc := p.services[0];
    assert svc.certificates[0] == SIGNER;
    assert HasKey(svc.certificates, [1]);
    assert FindService(p.services, [1]) == Some(svc);
    assert FindInProviders(WITHDRAWN_LIST.providers, [1]) == Some(svc);
    assert StatusSpec(svc, 5) == (Some(WITHDRAWN), Some(0));
    assert WITHDRAWN[|WITHDRAWN| - 3] == 'a' && |WITHDRAWN| != |GRANTED| && |WITHDRAWN| != |UNDER_SUPERVISION|
      && |WITHDRAWN| != |RECOGNISED|;
  }
}
