/** The lookup and the qualification in plain terms: positions in the lists, times, and the standard's own URIs. */
module QualifyProperties {
  import opened Wrappers
  import opened Bytes
  import opened TrustModel
  import opened Qualify

  // ---------- which service is found ----------

  /** A current certificate of the service, or one of a past period, has the key. */
  ghost predicate ServiceHolds(svc: TrustService, spki: bytes) {
    (exists i :: 0 <= i < |svc.certificates| && svc.certificates[i].spki == Some(spki))
    || exists h, i :: 0 <= h < |svc.history| && 0 <= i < |svc.history[h].certificates|
                      && svc.history[h].certificates[i].spki == Some(spki)
  }

  ghost predicate ProviderHolds(p: Provider, spki: bytes) {
    exists s :: 0 <= s < |p.services| && ServiceHolds(p.services[s], spki)
  }

  ghost predicate ListHolds(l: TrustedList, spki: bytes) {
    exists p :: 0 <= p < |l.providers| && ProviderHolds(l.providers[p], spki)
  }

  ghost predicate NoListHolds(lists: seq<TrustedList>, spki: bytes) {
    forall l :: 0 <= l < |lists| ==> !ListHolds(lists[l], spki)
  }

  ghost predicate FirstService(services: seq<TrustService>, spki: bytes, s: nat) {
    s < |services| && ServiceHolds(services[s], spki) && forall i :: 0 <= i < s ==> !ServiceHolds(services[i], spki)
  }

  ghost predicate FirstProvider(providers: seq<Provider>, spki: bytes, p: nat) {
    p < |providers| && ProviderHolds(providers[p], spki)
    && forall i :: 0 <= i < p ==> !ProviderHolds(providers[i], spki)
  }

  ghost predicate FirstList(lists: seq<TrustedList>, spki: bytes, l: nat) {
    l < |lists| && ListHolds(lists[l], spki) && forall i :: 0 <= i < l ==> !ListHolds(lists[i], spki)
  }

  /** Service `s` of provider `p` of list `l` is the first, in document order, that holds the key. */
  ghost predicate FirstListing(lists: seq<TrustedList>, spki: bytes, l: nat, p: nat, s: nat) {
    FirstList(lists, spki, l)
    && FirstProvider(lists[l].providers, spki, p)
    && FirstService(lists[l].providers[p].services, spki, s)
  }

  lemma ListsKeyExactly(svc: TrustService, spki: bytes)
    ensures ListsKey(svc, spki) <==> ServiceHolds(svc, spki)
  {
    HasKeyExactly(svc.certificates, spki);
    forall h | 0 <= h < |svc.history|
      ensures HasKey(svc.history[h].certificates, spki)
         <==> exists i :: 0 <= i < |svc.history[h].certificates| && svc.history[h].certificates[i].spki == Some(spki)
    {
      HasKeyExactly(svc.history[h].certificates, spki);
    }
    hide HasKey;
    if exists h :: h in svc.history && HasKey(h.certificates, spki) {
      var g :| g in svc.history && HasKey(g.certificates, spki);
      var h :| 0 <= h < |svc.history| && svc.history[h] == g;
      assert HasKey(svc.history[h].certificates, spki);
    }
  }

  lemma HasKeyExactly(certs: seq<Certificate>, spki: bytes)
    ensures HasKey(certs, spki) <==> exists i :: 0 <= i < |certs| && certs[i].spki == Some(spki)
  {
    if i :| 0 <= i < |certs| && certs[i].spki == Some(spki) {
      assert certs[i] in certs;
    }
  }

  lemma {:induction false} ServiceFound(services: seq<TrustService>, spki: bytes)
    ensures forall s: nat :: FirstService(services, spki, s) ==> FindService(services, spki) == Some(services[s])
    ensures (forall s :: 0 <= s < |services| ==> !ServiceHolds(services[s], spki)) ==>
      FindService(services, spki) == None
  {
    hide ListsKey, ServiceHolds;
    if services != [] {
      var rest := services[1..];
      ListsKeyExactly(services[0], spki);
      ServiceFound(rest, spki);
      forall s: nat | FirstService(services, spki, s) ensures FindService(services, spki) == Some(services[s]) {
        if s > 0 { assert FirstService(rest, spki, s - 1); }
      }
    }
  }

  lemma {:induction false} ProviderFound(providers: seq<Provider>, spki: bytes)
    ensures forall p: nat :: FirstProvider(providers, spki, p) ==>
      FindInProviders(providers, spki) == FindService(providers[p].services, spki)
    ensures (forall p :: 0 <= p < |providers| ==> !ProviderHolds(providers[p], spki)) ==>
      FindInProviders(providers, spki) == None
  {
    hide FindService, ServiceHolds;
    if providers != [] {
      var rest := providers[1..];
      ProviderServices(providers[0], spki);
      ProviderFound(rest, spki);
      hide ProviderHolds;
      forall p: nat | FirstProvider(providers, spki, p)
        ensures FindInProviders(providers, spki) == FindService(providers[p].services, spki)
      {
        if p > 0 { assert FirstProvider(rest, spki, p - 1); }
      }
    }
  }

  /** A provider that holds the key has a first service that does. */
  lemma ProviderServices(p: Provider, spki: bytes)
    ensures ProviderHolds(p, spki) <==> FindService(p.services, spki).Some?
  {
    hide ServiceHolds, ListsKey, FindService;
    ServiceFound(p.services, spki);
    if FindService(p.services, spki).Some? {
      var svc := FindService(p.services, spki).value;
      ListsKeyExactly(svc, spki);
      var s :| 0 <= s < |p.services| && p.services[s] == svc;
      assert ServiceHolds(p.services[s], spki);
    }
    if ProviderHolds(p, spki) {
      var s :| 0 <= s < |p.services| && ServiceHolds(p.services[s], spki);
      ListsKeyExactly(p.services[s], spki);
      assert p.services[s] in p.services;
    }
  }

  lemma ListProviders(l: TrustedList, spki: bytes)
    ensures ListHolds(l, spki) <==> FindInProviders(l.providers, spki).Some?
  {
    hide ProviderHolds, FindService, FindInProviders;
    ProviderFound(l.providers, spki);
    if ListHolds(l, spki) {
      var p := FirstHolding(l.providers, spki);
      ProviderServices(l.providers[p], spki);
    }
  }

  lemma {:induction false} FirstHolding(providers: seq<Provider>, spki: bytes) returns (p: nat)
    requires exists i :: 0 <= i < |providers| && ProviderHolds(providers[i], spki)
    ensures FirstProvider(providers, spki, p)
  {
    hide ProviderHolds;
    p := 0;
    while !ProviderHolds(providers[p], spki)
      invariant p < |providers| && forall i :: 0 <= i < p ==> !ProviderHolds(providers[i], spki)
      decreases |providers| - p
    {
      p := p + 1;
    }
  }

  lemma {:induction false} ListFound(lists: seq<TrustedList>, spki: bytes, at: int)
    ensures forall l: nat :: FirstList(lists, spki, l) ==>
      FindInLists(lists, spki, at)
          == (var s :- FindInProviders(lists[l].providers, spki);
              Some(ServiceMatch(lists[l].territory, s, StatusSpec(s, at).0)))
    ensures NoListHolds(lists, spki) <==> FindInLists(lists, spki, at) == None
  {
    hide FindInProviders, ListHolds, StatusSpec;
    if lists != [] {
      var rest := lists[1..];
      ListProviders(lists[0], spki);
      ListFound(rest, spki, at);
      assert forall l :: 0 < l < |lists| ==> lists[l] == rest[l - 1];
      assert forall l :: 0 <= l < |rest| ==> rest[l] == lists[l + 1];
      forall l: nat | FirstList(lists, spki, l)
        ensures FindInLists(lists, spki, at)
             == (var s :- FindInProviders(lists[l].providers, spki);
                 Some(ServiceMatch(lists[l].territory, s, StatusSpec(s, at).0)))
      {
        if l > 0 { assert FirstList(rest, spki, l - 1); }
      }
    }
  }

  /** The lookup answers with the first listing of the key in document order, and with nothing when there is none. */
  lemma LookupIsFirstListing(lists: seq<TrustedList>, spki: bytes, at: int, l: nat, p: nat, s: nat, status: Status)
    requires FirstListing(lists, spki, l, p, s)
    requires IsStatusAt(lists[l].providers[p].services[s], at, status)
    ensures FindInLists(lists, spki, at)
         == Some(ServiceMatch(lists[l].territory, lists[l].providers[p].services[s], status.0))
  {
    hide ServiceHolds, ProviderHolds, ListHolds, FindInLists, FindInProviders, FindService, IsStatusAt, StatusSpec;
    ListFound(lists, spki, at);
    ProviderFound(lists[l].providers, spki);
    ServiceFound(lists[l].providers[p].services, spki);
    var svc := lists[l].providers[p].services[s];
    StatusDetermined(svc, at, status, StatusSpec(svc, at));
    assert FindInProviders(lists[l].providers, spki) == Some(svc);
  }

  // ---------- what it means for the signer ----------

  /** Certificate `k` is the first of the chain whose key is listed. */
  ghost predicate FirstListedCertificate(chain: seq<Certificate>, lists: seq<TrustedList>, k: nat) {
    k < |chain| && chain[k].spki.Some? && !NoListHolds(lists, chain[k].spki.value)
    && forall i :: 0 <= i < k ==> chain[i].spki.None? || NoListHolds(lists, chain[i].spki.value)
  }

  lemma {:induction false} FirstListedFound(chain: seq<Certificate>, lists: seq<TrustedList>, at: int)
    ensures forall k: nat :: FirstListedCertificate(chain, lists, k) ==>
      FirstListed(chain, lists, at) == FindInLists(lists, chain[k].spki.value, at)
    ensures (forall i :: 0 <= i < |chain| ==> chain[i].spki.None? || NoListHolds(lists, chain[i].spki.value))
       ==> FirstListed(chain, lists, at) == None
  {
    hide FindInLists, NoListHolds;
    if chain != [] {
      var rest := chain[1..];
      if chain[0].spki.Some? { ListFound(lists, chain[0].spki.value, at); }
      FirstListedFound(rest, lists, at);
      forall k: nat | FirstListedCertificate(chain, lists, k)
        ensures FirstListed(chain, lists, at) == FindInLists(lists, chain[k].spki.value, at)
      {
        if k > 0 { assert FirstListedCertificate(rest, lists, k - 1); }
      }
    }
  }

  /** A service in force: the three active states a status URI can name. */
  ghost predicate InForce(status: Option<string>) {
    status == Some("http://uri.etsi.org/TrstSvc/TrustedList/Svcstatus/granted")
    || status == Some("http://uri.etsi.org/TrstSvc/TrustedList/Svcstatus/undersupervision")
    || status == Some("http://uri.etsi.org/TrstSvc/TrustedList/Svcstatus/recognisedatnationallevel")
  }

  /**
   The whole judgement from positions and URIs: the first listed certificate of the chain, the
   first listing of its key, that service's status at the time, its type, and the qualified-device
   statements of the service and of the signer's certificate.
   */
  lemma SignerJudged(chain: seq<Certificate>, lists: seq<TrustedList>, qc: QcStatements, at: int,
      baseline: Qualification, k: nat, l: nat, p: nat, s: nat, status: Status)
    requires FirstListedCertificate(chain, lists, k)
    requires FirstListing(lists, chain[k].spki.value, l, p, s)
    requires IsStatusAt(lists[l].providers[p].services[s], at, status)
    ensures var m, svc := FirstListed(chain, lists, at), lists[l].providers[p].services[s];
      var isCa := svc.serviceType == Some("http://uri.etsi.org/TrstSvc/Svctype/CA/QC");
      var denied := "http://uri.etsi.org/TrstSvc/TrustedList/SvcInfoExt/QCNoQSCD" in svc.qualifiers;
      var asserted := "http://uri.etsi.org/TrstSvc/TrustedList/SvcInfoExt/QCWithQSCD" in svc.qualifiers;
      var q, d := QualificationOf(m, qc, baseline), DiagnosticsOf(m, qc);
      m.Some? && m.value.territory == lists[l].territory
      && (!InForce(status.0) ==> q == NotAdES && d == [ServiceNotActive])
      && (InForce(status.0) && !isCa ==> q == baseline && d == [ServiceNotCaQc])
      && (InForce(status.0) && isCa && !denied && (asserted || qc.sscd) ==>
            q == QES && d == if qc.compliance then [MatchedCaQc] else [MatchedCaQc, QesWithoutQcCompliance])
      && (InForce(status.0) && isCa && (denied || !(asserted || qc.sscd)) ==> q == AdESqc && d == [MatchedCaQc])
  {
    hide ServiceHolds, ProviderHolds, ListHolds, NoListHolds, FirstListed, FindInLists, IsStatusAt;
    FirstListedFound(chain, lists, at);
    LookupIsFirstListing(lists, chain[k].spki.value, at, l, p, s, status);
    assert QES != AdESqc;
  }

  /** With no listed certificate in the chain everything is left as it was. */
  lemma UnlistedSignerKeepsBaseline(chain: seq<Certificate>, lists: seq<TrustedList>, qc: QcStatements, at: int,
      baseline: Qualification)
    requires forall i :: 0 <= i < |chain| ==> chain[i].spki.None? || NoListHolds(lists, chain[i].spki.value)
    ensures var m := FirstListed(chain, lists, at);
      QualificationOf(m, qc, baseline) == baseline && DiagnosticsOf(m, qc) == [NoTslMatch]
      && QualifiersOf(m, qc) == CertificateQualifiers(qc)
  {
    hide CertificateQualifiers, FirstListed;
    FirstListedFound(chain, lists, at);
  }

  /** The one URI of each qualifier a service can assert; the other two come from certificates only. */
  lemma QualifierUriExactly(uri: string, q: Qualifier)
    ensures QualifierOf(uri) == Some(q) <==>
      match q
      case QcForESig => uri == "http://uri.etsi.org/TrstSvc/TrustedList/SvcInfoExt/QCForESig"
      case QcForESeal => uri == "http://uri.etsi.org/TrstSvc/TrustedList/SvcInfoExt/QCForESeal"
      case QcQSCDStatusAsInCert => uri == "http://uri.etsi.org/TrstSvc/TrustedList/SvcInfoExt/QCQSCDStatusAsInCert"
      case QcNotQSCD => uri == "http://uri.etsi.org/TrstSvc/TrustedList/SvcInfoExt/QCNoQSCD"
      case QcWithQSCD => uri == "http://uri.etsi.org/TrstSvc/TrustedList/SvcInfoExt/QCWithQSCD"
      case QcStatement => uri == "http://uri.etsi.org/TrstSvc/TrustedList/SvcInfoExt/QCStatement"
      case QcForWSA => false
      case QcWithSSCD => false
  {
    var n := |QC_NO_QSCD|;
    assert |QC_FOR_ESIG| == n + 1 && |QC_FOR_ESEAL| == |QC_WITH_QSCD| == n + 2 && |QC_STATEMENT| == n + 3
        && |QC_QSCD_STATUS_AS_IN_CERT| == n + 12;
    assert QC_FOR_ESEAL[n + 1] == 'l' && QC_WITH_QSCD[n + 1] == 'D';
  }

  // ---------- the order of the reported qualifiers ----------

  ghost predicate FirstAt(v: seq<Qualifier>, q: Qualifier, i: nat) {
    i < |v| && v[i] == q && forall j :: 0 <= j < i ==> v[j] != q
  }

  /** Of two reported qualifiers the one reported first occurs first. */
  lemma {:induction false} KeptInOrder(v: seq<Qualifier>, a: nat, b: nat, i: nat, j: nat)
    requires a < b < |FirstOccurrences(v)|
    requires FirstAt(v, FirstOccurrences(v)[a], i) && FirstAt(v, FirstOccurrences(v)[b], j)
    ensures i < j
  {
    var n := |v| - 1;
    var front, r := v[..n], FirstOccurrences(v);
    assert v == front + [v[n]];
    if b < |FirstOccurrences(front)| {
      FirstInFront(front, v[n], r[a], i);
      FirstInFront(front, v[n], r[b], j);
      KeptInOrder(front, a, b, i, j);
    } else {
      assert r[a] in front && r[b] !in front;
      FirstInFront(front, v[n], r[a], i);
    }
  }

  lemma FirstInFront(front: seq<Qualifier>, last: Qualifier, q: Qualifier, i: nat)
    requires q in front && FirstAt(front + [last], q, i)
    ensures FirstAt(front, q, i)
  {
    var k :| 0 <= k < |front| && front[k] == q;
    assert (front + [last])[k] == q;
    assert forall j :: 0 <= j < |front| ==> front[j] == (front + [last])[j];
  }

  /** The service's qualifiers are listed URI by URI. */
  lemma {:induction false} UriByUri(a: seq<string>, b: seq<string>)
    ensures ServiceQualifiers(a + b) == ServiceQualifiers(a) + ServiceQualifiers(b)
  {
    hide QualifierOf;
    if b == [] {
      assert a + b == a;
    } else {
      var n := |b| - 1;
      UriByUri(a, b[..n]);
      assert (a + b)[..|a| + n] == a + b[..n];
      Append2(ServiceQualifiers(a), ServiceQualifiers(b[..n]), Optional(QualifierOf(b[n])));
    }
  }

  /** The certificate's qualifiers are listed in the order of its flags. */
  lemma FlagOrder()
    ensures CertificateQualifiers(QcStatements(true, true, true, true, true))
         == [QcStatement, QcForESig, QcForESeal, QcForWSA, QcWithSSCD]
  {
  }
}
