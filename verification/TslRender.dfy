/** Writing a trusted list out as XML and reading it back (`crates/eidas-trust/src/parse.rs`). */
module TslRender {
  import opened Wrappers
  import opened TrustModel
  import opened TslTree
  import opened TslLevels

  /** How leaf values are written. Only the decoders of `Codecs` are the parser's own. */
  datatype Encoders = Encoders(cert: Certificate -> string, time: int -> string, number: nat -> string)

  predicate TimeKnown(k: Codecs, e: Encoders, t: Option<int>) {
    t.Some? ==> k.time(e.time(t.value)) == t
  }

  predicate CertsKnown(k: Codecs, e: Encoders, certs: seq<Certificate>) {
    forall c :: c in certs ==> k.cert(e.cert(c)) == Some(c)
  }

  predicate StatusKnown(k: Codecs, e: Encoders, h: ServiceStatus) {
    TimeKnown(k, e, h.startingTime) && CertsKnown(k, e, h.certificates)
  }

  predicate ServiceKnown(k: Codecs, e: Encoders, svc: TrustService) {
    TimeKnown(k, e, svc.startingTime) && CertsKnown(k, e, svc.certificates)
    && forall h :: h in svc.history ==> StatusKnown(k, e, h)
  }

  predicate ProviderKnown(k: Codecs, e: Encoders, p: Provider) {
    forall svc :: svc in p.services ==> ServiceKnown(k, e, svc)
  }

  /** The leaf codecs decode what was encoded, for the certificates, times and number of this list. */
  predicate Known(k: Codecs, e: Encoders, tl: TrustedList) {
    TimeKnown(k, e, tl.issueTime) && TimeKnown(k, e, tl.nextUpdate)
    && (tl.sequenceNumber.Some? ==> k.number(e.number(tl.sequenceNumber.value)) == tl.sequenceNumber)
    && forall p :: p in tl.providers ==> ProviderKnown(k, e, p)
  }

  // ---------- rendering ----------

  /** No text event stands for empty text. */
  function Words(t: string): Forest {
    if t == "" then Nil else Chars(Some(t), Nil)
  }

  function Wrapped(n: string, t: string): Forest {
    Element(n, [], Words(t), Nil)
  }

  function OptLeaf(n: string, t: Option<string>, next: Forest): Forest {
    if t.None? then next else Element(n, [], Words(t.value), next)
  }

  /** The text one element further down, as in `<TSPName><Name>…</Name></TSPName>`. */
  function OptNested(n: string, child: string, t: Option<string>, next: Forest): Forest {
    if t.None? then next else Element(n, [], Wrapped(child, t.value), next)
  }

  function Written<T>(f: T -> string, x: Option<T>): Option<string> {
    if x.None? then None else Some(f(x.value))
  }

  function CertsForest(e: Encoders, certs: seq<Certificate>): Forest {
    if certs == [] then Nil
    else Element("DigitalId", [], Wrapped("X509Certificate", e.cert(certs[0])), CertsForest(e, certs[1..]))
  }

  function QualifierForest(uris: seq<string>): Forest {
    if uris == [] then Nil
    else Hollow("Qualifier", [Attr("uri", Some(uris[0]))], QualifierForest(uris[1..]))
  }

  function ExtensionsForest(uris: seq<string>): Forest {
    Element("Extension", [], Element("Qualifications", [], Element("QualificationElement", [],
      Element("Qualifiers", [], QualifierForest(uris), Nil), Nil), Nil), Nil)
  }

  function InstanceForest(e: Encoders, h: ServiceStatus): Forest {
    OptLeaf("ServiceTypeIdentifier", h.serviceType,
      Element("ServiceDigitalIdentity", [], CertsForest(e, h.certificates), InstanceEnd(e, h)))
  }

  function InstanceEnd(e: Encoders, h: ServiceStatus): Forest {
    OptLeaf("ServiceStatus", h.status,
      OptLeaf("StatusStartingTime", Written(e.time, h.startingTime),
        Element("ServiceInformationExtensions", [], ExtensionsForest(h.qualifiers), Nil)))
  }

  function HistoryForest(e: Encoders, hist: seq<ServiceStatus>): Forest {
    if hist == [] then Nil
    else Element("ServiceHistoryInstance", [], InstanceForest(e, hist[0]), HistoryForest(e, hist[1..]))
  }

  function ServiceInfoForest(e: Encoders, svc: TrustService): Forest {
    OptLeaf("ServiceTypeIdentifier", svc.serviceType,
      OptNested("ServiceName", "Name", svc.name,
        Element("ServiceDigitalIdentity", [], CertsForest(e, svc.certificates), ServiceInfoEnd(e, svc))))
  }

  function ServiceInfoEnd(e: Encoders, svc: TrustService): Forest {
    OptLeaf("ServiceStatus", svc.currentStatus,
      OptLeaf("StatusStartingTime", Written(e.time, svc.startingTime),
        Element("ServiceInformationExtensions", [], ExtensionsForest(svc.qualifiers), Nil)))
  }

  function ServiceForest(e: Encoders, svc: TrustService): Forest {
    Element("ServiceInformation", [], ServiceInfoForest(e, svc),
      Element("ServiceHistory", [], HistoryForest(e, svc.history), Nil))
  }

  function ServicesForest(e: Encoders, services: seq<TrustService>): Forest {
    if services == [] then Nil
    else Element("TSPService", [], ServiceForest(e, services[0]), ServicesForest(e, services[1..]))
  }

  function TspInfoForest(p: Provider): Forest {
    OptNested("TSPName", "Name", p.name,
      OptNested("TSPTradeName", "Name", p.tradeName,
        OptNested("TSPAddress", "CountryName", p.country, Nil)))
  }

  function TspForest(e: Encoders, p: Provider): Forest {
    Element("TSPInformation", [], TspInfoForest(p),
      Element("TSPServices", [], ServicesForest(e, p.services), Nil))
  }

  function ProvidersForest(e: Encoders, ps: seq<Provider>): Forest {
    if ps == [] then Nil
    else Element("TrustServiceProvider", [], TspForest(e, ps[0]), ProvidersForest(e, ps[1..]))
  }

  function SchemeForest(e: Encoders, tl: TrustedList): Forest {
    OptLeaf("TSLSequenceNumber", Written(e.number, tl.sequenceNumber),
      OptNested("SchemeTypeCommunityRules", "URI", tl.schemeType, SchemeEnd(e, tl)))
  }

  function SchemeEnd(e: Encoders, tl: TrustedList): Forest {
    OptLeaf("SchemeTerritory", tl.territory,
      OptLeaf("ListIssueDateTime", Written(e.time, tl.issueTime),
        OptNested("NextUpdate", "dateTime", Written(e.time, tl.nextUpdate), Nil)))
  }

  function Render(e: Encoders, tl: TrustedList): Forest {
    Element("TrustServiceStatusList", [],
      Element("SchemeInformation", [], SchemeForest(e, tl),
        Element("TrustServiceProviderList", [], ProvidersForest(e, tl.providers), Nil)), Nil)
  }

  // ---------- reading one level back ----------

  lemma WordsText(t: string)
    ensures TextOf(Words(t)) == Some(t) && TextInside(Words(t)) == t
    ensures forall c: Context, closing :: InStep(c, closing, Words(t))
  {
    if t != "" {
      assert t + "" == t;
      assert TextOf(Chars(Some(t), Nil)) == Some(t + "");
      assert TextInside(Chars(Some(t), Nil)) == t + "";
    }
    assert TextInside(Words(t)) + "" == TextInside(Words(t));
  }

  lemma WrappedText(n: string, closing: string, t: string)
    requires n != closing
    ensures TextInside(Wrapped(n, t)) == t && InStep(Inside, Some(closing), Wrapped(n, t))
    ensures FirstChildOf(Wrapped(n, t), n) == Some(Some(t)) && InStep(FirstChild(n), Some(closing), Wrapped(n, t))
  {
    WordsText(t);
    assert TextInside(Words(t)) + "" == TextInside(Words(t));
    var l := FirstChildLevel(n);
    assert l.visit(None, n, Words(t)) == Some(Some(t));
    assert !Enters(l, None, n);
    assert Fold(l, Some(t), Nil) == Some(Some(t));
    assert Wrapped(n, t) == Element(n, [], Words(t), Nil);
    assert InStep(Leaf, Some(n), Words(t)) && InStep(FirstChild(n), Some(closing), Words(t));
  }

  lemma {:induction false} CertsBack(k: Codecs, e: Encoders, certs: seq<Certificate>, st: seq<Certificate>)
    requires CertsKnown(k, e, certs)
    ensures Fold(IdentityLevel(k), st, CertsForest(e, certs)) == Some(st + certs)
    ensures InStep(Identity, Some("ServiceDigitalIdentity"), CertsForest(e, certs))
    decreases |certs|
  {
    if certs == [] {
      assert st + certs == st;
    } else {
      var l, t := IdentityLevel(k), e.cert(certs[0]);
      WordsText(t);
      assert Enters(l, st, "DigitalId") && !Enters(l, st, "X509Certificate");
      assert l.visit(st, "X509Certificate", Words(t)) == IdentityVisit(k, st, "X509Certificate", Words(t));
      assert Fold(l, st + [certs[0]], Nil) == Some(st + [certs[0]]);
      assert Fold(l, st, Wrapped("X509Certificate", t)) == Some(st + [certs[0]]);
      CertsBack(k, e, certs[1..], st + [certs[0]]);
      assert st + [certs[0]] + certs[1..] == st + certs;
    }
  }

  lemma {:induction false} QualifiersBack(uris: seq<string>)
    ensures QualifiersOf(QualifierForest(uris)) == uris
    ensures InStep(Qualifiers, Some("ServiceInformationExtensions"), QualifierForest(uris))
  {
    if uris != [] {
      QualifiersBack(uris[1..]);
      assert Uris([]) == [];
      var attrs := [Attr("uri", Some(uris[0]))];
      assert attrs[..0] == [];
      assert Uris(attrs) == [uris[0]];
    }
  }

  predicate Steady(f: Forest) {
    InStep(Qualifiers, Some("ServiceInformationExtensions"), f)
  }

  lemma ExtensionsBack(uris: seq<string>)
    ensures QualifiersOf(ExtensionsForest(uris)) == uris
    ensures InStep(Qualifiers, Some("ServiceInformationExtensions"), ExtensionsForest(uris))
  {
    QualifiersBack(uris);
    var q := QualifierForest(uris);
    var one := Element("Qualifiers", [], q, Nil);
    assert QualifiersOf(one) == QualifiersOf(q) && Steady(one);
    var two := Element("QualificationElement", [], one, Nil);
    assert QualifiersOf(two) == QualifiersOf(one) && Steady(two);
    var three := Element("Qualifications", [], two, Nil);
    assert QualifiersOf(three) == QualifiersOf(two) && Steady(three);
  }

  // ---------- reading the records back ----------

  /** One element taken by a loop in state `st`, which makes `st'` of it. */
  lemma TakenBack<S>(l: Level<S>, closing: Option<string>, st: S, n: string, kids: Forest, next: Forest, st': S)
    requires ActionOn(l.context, n).Take? && l.visit(st, n, kids) == Some(st')
    requires InStep(ActionOn(l.context, n).context, Some(n), kids)
    ensures Fold(l, st, Element(n, [], kids, next)) == Fold(l, st', next)
    ensures InStep(l.context, closing, Element(n, [], kids, next)) == InStep(l.context, closing, next)
  {
  }

  lemma OptLeafBack<S>(l: Level<S>, closing: Option<string>, st: S, n: string, t: Option<string>, next: Forest, st': S)
    requires ActionOn(l.context, n) == Take(Leaf)
    requires if t.None? then st == st' else l.visit(st, n, Words(t.value)) == Some(st')
    ensures Fold(l, st, OptLeaf(n, t, next)) == Fold(l, st', next)
    ensures InStep(l.context, closing, OptLeaf(n, t, next)) == InStep(l.context, closing, next)
  {
    if t.Some? {
      WordsText(t.value);
      TakenBack(l, closing, st, n, Words(t.value), next, st');
    }
  }

  lemma OptNestedBack<S>(l: Level<S>, closing: Option<string>, st: S, n: string, child: string, t: Option<string>,
                         next: Forest, st': S)
    requires n != child && ActionOn(l.context, n) in {Take(FirstChild(child)), Take(Inside)}
    requires if t.None? then st == st' else l.visit(st, n, Wrapped(child, t.value)) == Some(st')
    ensures Fold(l, st, OptNested(n, child, t, next)) == Fold(l, st', next)
    ensures InStep(l.context, closing, OptNested(n, child, t, next)) == InStep(l.context, closing, next)
  {
    if t.Some? {
      WrappedText(child, n, t.value);
      TakenBack(l, closing, st, n, Wrapped(child, t.value), next, st');
    }
  }

  lemma AllWords(t: Option<string>)
    ensures t.Some? ==> TextOf(Words(t.value)) == t
  {
    if t.Some? { WordsText(t.value); }
  }

  lemma AllWrapped(child: string, n: string, t: Option<string>)
    requires child != n
    ensures t.Some? ==> FirstChildOf(Wrapped(child, t.value), child) == Some(t)
    ensures t.Some? ==> TextInside(Wrapped(child, t.value)) == t.value
  {
    if t.Some? { WrappedText(child, n, t.value); }
  }

  /** What the two record levels do with the elements a record is written as. */
  lemma RecordActions()
    ensures forall c | c in {Instance, ServiceInfo} ::
      ActionOn(c, "ServiceTypeIdentifier") == Take(Leaf)
      && ActionOn(c, "ServiceStatus") == Take(Leaf) && ActionOn(c, "StatusStartingTime") == Take(Leaf)
      && ActionOn(c, "ServiceDigitalIdentity") == Take(Identity)
      && ActionOn(c, "ServiceInformationExtensions") == Take(Qualifiers)
    ensures ActionOn(ServiceInfo, "ServiceName") == Take(FirstChild("Name"))
  {
  }

  /** What the text fields of the two records become. */
  lemma TextVisits(k: Codecs, svc: TrustService, h: ServiceStatus, kids: Forest)
    requires TextOf(kids).Some?
    ensures var l, t := ServiceInfoLevel(k), TextOf(kids).value;
      l.visit(svc, "ServiceTypeIdentifier", kids) == Some(svc.(serviceType := Some(t)))
      && l.visit(svc, "ServiceStatus", kids) == Some(svc.(currentStatus := Some(t)))
      && l.visit(svc, "StatusStartingTime", kids) == Some(svc.(startingTime := k.time(t)))
    ensures var l, t := InstanceLevel(k), TextOf(kids).value;
      l.visit(h, "ServiceTypeIdentifier", kids) == Some(h.(serviceType := Some(t)))
      && l.visit(h, "ServiceStatus", kids) == Some(h.(status := Some(t)))
      && l.visit(h, "StatusStartingTime", kids) == Some(h.(startingTime := k.time(t)))
  {
    hide TextOf, ActionOn;
  }

  /** What a text field of either record becomes, when there is one. */
  lemma OptTextVisits(k: Codecs, svc: TrustService, h: ServiceStatus, t: Option<string>)
    ensures t.Some? ==> TextOf(Words(t.value)) == t
    ensures t.Some? ==>
      var l, m, kids := ServiceInfoLevel(k), InstanceLevel(k), Words(t.value);
      l.visit(svc, "ServiceTypeIdentifier", kids) == Some(svc.(serviceType := t))
      && l.visit(svc, "ServiceStatus", kids) == Some(svc.(currentStatus := t))
      && l.visit(svc, "StatusStartingTime", kids) == Some(svc.(startingTime := k.time(t.value)))
      && m.visit(h, "ServiceTypeIdentifier", kids) == Some(h.(serviceType := t))
      && m.visit(h, "ServiceStatus", kids) == Some(h.(status := t))
      && m.visit(h, "StatusStartingTime", kids) == Some(h.(startingTime := k.time(t.value)))
  {
    hide ServiceInfoVisit, InstanceVisit, ActionOn, TextOf, Words;
    AllWords(t);
    if t.Some? { TextVisits(k, svc, h, Words(t.value)); }
  }

  /** What the extensions of either record become. */
  lemma ExtensionVisits(k: Codecs, svc: TrustService, h: ServiceStatus, kids: Forest)
    ensures ServiceInfoLevel(k).visit(svc, "ServiceInformationExtensions", kids)
         == Some(svc.(qualifiers := svc.qualifiers + QualifiersOf(kids)))
    ensures InstanceLevel(k).visit(h, "ServiceInformationExtensions", kids)
         == Some(h.(qualifiers := h.qualifiers + QualifiersOf(kids)))
  {
    hide QualifiersOf, ActionOn;
  }

  lemma InstanceEndBack(k: Codecs, e: Encoders, h: ServiceStatus, st: ServiceStatus)
    requires TimeKnown(k, e, h.startingTime) && st == h.(status := None, startingTime := None, qualifiers := [])
    ensures Fold(InstanceLevel(k), st, InstanceEnd(e, h)) == Some(h)
    ensures InStep(Instance, Some("ServiceHistoryInstance"), InstanceEnd(e, h))
  {
    hide Fold, InStep, Words, TextOf, QualifiersOf, ExtensionsForest, OptLeaf, ActionOn, InstanceVisit;
    RecordActions();
    var l, closing := InstanceLevel(k), Some("ServiceHistoryInstance");
    var time := Written(e.time, h.startingTime);
    var s3 := st.(status := h.status);
    var s4 := s3.(startingTime := h.startingTime);
    OptTextVisits(k, NO_SERVICE, st, h.status);
    OptTextVisits(k, NO_SERVICE, s3, time);
    ExtensionVisits(k, NO_SERVICE, s4, ExtensionsForest(h.qualifiers));
    ExtensionsBack(h.qualifiers);
    assert [] + h.qualifiers == h.qualifiers;
    var f5 := Element("ServiceInformationExtensions", [], ExtensionsForest(h.qualifiers), Nil);
    var f4 := OptLeaf("StatusStartingTime", time, f5);
    OptLeafBack(l, closing, st, "ServiceStatus", h.status, f4, s3);
    OptLeafBack(l, closing, s3, "StatusStartingTime", time, f5, s4);
    TakenBack(l, closing, s4, "ServiceInformationExtensions", ExtensionsForest(h.qualifiers), Nil, h);
    FoldNil(l, closing, h);
  }

  lemma InstanceBack(k: Codecs, e: Encoders, h: ServiceStatus)
    requires StatusKnown(k, e, h)
    ensures Fold(InstanceLevel(k), NO_STATUS, InstanceForest(e, h)) == Some(h)
    ensures InStep(Instance, Some("ServiceHistoryInstance"), InstanceForest(e, h))
  {
    hide Fold, InStep, Words, TextOf, CertsForest, InstanceEnd, OptLeaf, IdentityLevel;
    var l, closing := InstanceLevel(k), Some("ServiceHistoryInstance");
    AllWords(h.serviceType);
    CertsBack(k, e, h.certificates, []);
    assert [] + h.certificates == h.certificates;
    var s1 := NO_STATUS.(serviceType := h.serviceType);
    var s2 := s1.(certificates := h.certificates);
    var f2 := Element("ServiceDigitalIdentity", [], CertsForest(e, h.certificates), InstanceEnd(e, h));
    OptLeafBack(l, closing, NO_STATUS, "ServiceTypeIdentifier", h.serviceType, f2, s1);
    TakenBack(l, closing, s1, "ServiceDigitalIdentity", CertsForest(e, h.certificates), InstanceEnd(e, h), s2);
    InstanceEndBack(k, e, h, s2);
  }

  lemma FoldNil<S>(l: Level<S>, closing: Option<string>, st: S)
    ensures Fold(l, st, Nil) == Some(st) && InStep(l.context, closing, Nil)
  {
  }

  lemma {:induction false} HistoryBack(k: Codecs, e: Encoders, hist: seq<ServiceStatus>, st: seq<ServiceStatus>)
    requires forall h :: h in hist ==> StatusKnown(k, e, h)
    ensures Fold(HistoryLevel(k), st, HistoryForest(e, hist)) == Some(st + hist)
    ensures InStep(History, Some("ServiceHistory"), HistoryForest(e, hist))
    decreases |hist|
  {
    hide InstanceLevel, InstanceForest, StatusKnown, InStep, Fold;
    var l, closing := HistoryLevel(k), Some("ServiceHistory");
    if hist == [] {
      FoldNil(l, closing, st);
      assert st + hist == st;
    } else {
      InstanceBack(k, e, hist[0]);
      assert st + [hist[0]] + hist[1..] == st + hist;
      TakenBack(l, closing, st, "ServiceHistoryInstance", InstanceForest(e, hist[0]), HistoryForest(e, hist[1..]),
          st + [hist[0]]);
      HistoryBack(k, e, hist[1..], st + [hist[0]]);
    }
  }

  lemma ServiceInfoEndBack(k: Codecs, e: Encoders, svc: TrustService, st: TrustService)
    requires TimeKnown(k, e, svc.startingTime)
    requires st == svc.(currentStatus := None, startingTime := None, qualifiers := [], history := [])
    ensures Fold(ServiceInfoLevel(k), st, ServiceInfoEnd(e, svc)) == Some(svc.(history := []))
    ensures InStep(ServiceInfo, Some("ServiceInformation"), ServiceInfoEnd(e, svc))
  {
    hide Fold, InStep, Words, TextOf, QualifiersOf, ExtensionsForest, OptLeaf, ActionOn, ServiceInfoVisit;
    RecordActions();
    var l, closing := ServiceInfoLevel(k), Some("ServiceInformation");
    var time := Written(e.time, svc.startingTime);
    var s4 := st.(currentStatus := svc.currentStatus);
    var s5 := s4.(startingTime := svc.startingTime);
    var s6 := svc.(history := []);
    OptTextVisits(k, st, NO_STATUS, svc.currentStatus);
    OptTextVisits(k, s4, NO_STATUS, time);
    ExtensionVisits(k, s5, NO_STATUS, ExtensionsForest(svc.qualifiers));
    ExtensionsBack(svc.qualifiers);
    assert [] + svc.qualifiers == svc.qualifiers;
    var f6 := Element("ServiceInformationExtensions", [], ExtensionsForest(svc.qualifiers), Nil);
    var f5 := OptLeaf("StatusStartingTime", time, f6);
    OptLeafBack(l, closing, st, "ServiceStatus", svc.currentStatus, f5, s4);
    OptLeafBack(l, closing, s4, "StatusStartingTime", time, f6, s5);
    TakenBack(l, closing, s5, "ServiceInformationExtensions", ExtensionsForest(svc.qualifiers), Nil, s6);
    FoldNil(l, closing, s6);
  }

  lemma NameVisit(k: Codecs, svc: TrustService, kids: Forest)
    requires FirstChildOf(kids, "Name").Some?
    ensures ServiceInfoLevel(k).visit(svc, "ServiceName", kids)
         == Some(svc.(name := Some(OrEmpty(FirstChildOf(kids, "Name").value))))
  {
    hide FirstChildOf, ActionOn;
  }

  lemma CertsVisit(k: Codecs, svc: TrustService, kids: Forest)
    requires Fold(IdentityLevel(k), [], kids).Some?
    ensures ServiceInfoLevel(k).visit(svc, "ServiceDigitalIdentity", kids)
         == Some(svc.(certificates := svc.certificates + Fold(IdentityLevel(k), [], kids).value))
  {
    hide Fold, IdentityLevel, ActionOn;
  }

  lemma ServiceInfoBack(k: Codecs, e: Encoders, svc: TrustService)
    requires ServiceKnown(k, e, svc)
    ensures Fold(ServiceInfoLevel(k), NO_SERVICE, ServiceInfoForest(e, svc)) == Some(svc.(history := []))
    ensures InStep(ServiceInfo, Some("ServiceInformation"), ServiceInfoForest(e, svc))
  {
    hide Fold, InStep, Words, Wrapped, TextOf, FirstChildOf, CertsForest, ServiceInfoEnd, OptLeaf, OptNested,
      IdentityLevel, ActionOn, ServiceInfoVisit;
    RecordActions();
    var l, closing := ServiceInfoLevel(k), Some("ServiceInformation");
    var s1 := NO_SERVICE.(serviceType := svc.serviceType);
    var s2 := s1.(name := svc.name);
    var s3 := s2.(certificates := svc.certificates);
    OptTextVisits(k, NO_SERVICE, NO_STATUS, svc.serviceType);
    AllWrapped("Name", "ServiceName", svc.name);
    if svc.name.Some? { NameVisit(k, s1, Wrapped("Name", svc.name.value)); }
    CertsBack(k, e, svc.certificates, []);
    assert [] + svc.certificates == svc.certificates;
    CertsVisit(k, s2, CertsForest(e, svc.certificates));
    var f4 := ServiceInfoEnd(e, svc);
    var f3 := Element("ServiceDigitalIdentity", [], CertsForest(e, svc.certificates), f4);
    var f2 := OptNested("ServiceName", "Name", svc.name, f3);
    OptLeafBack(l, closing, NO_SERVICE, "ServiceTypeIdentifier", svc.serviceType, f2, s1);
    OptNestedBack(l, closing, s1, "ServiceName", "Name", svc.name, f3, s2);
    TakenBack(l, closing, s2, "ServiceDigitalIdentity", CertsForest(e, svc.certificates), f4, s3);
    ServiceInfoEndBack(k, e, svc, s3);
  }

  lemma ServiceBack(k: Codecs, e: Encoders, svc: TrustService)
    requires ServiceKnown(k, e, svc)
    ensures Fold(ServiceLevel(k), NO_SERVICE, ServiceForest(e, svc)) == Some(svc)
    ensures InStep(Service, Some("TSPService"), ServiceForest(e, svc))
  {
    hide Fold, InStep, ServiceInfoForest, HistoryForest, ServiceInfoLevel, HistoryLevel;
    var l, closing := ServiceLevel(k), Some("TSPService");
    ServiceInfoBack(k, e, svc);
    HistoryBack(k, e, svc.history, []);
    assert [] + svc.history == svc.history;
    var s1 := svc.(history := []);
    var f2 := Element("ServiceHistory", [], HistoryForest(e, svc.history), Nil);
    TakenBack(l, closing, NO_SERVICE, "ServiceInformation", ServiceInfoForest(e, svc), f2, s1);
    assert l.visit(s1, "ServiceHistory", HistoryForest(e, svc.history))
        == ServiceVisit(k, s1, "ServiceHistory", HistoryForest(e, svc.history));
    TakenBack(l, closing, s1, "ServiceHistory", HistoryForest(e, svc.history), Nil, svc);
    FoldNil(l, closing, svc);
  }

  lemma {:induction false} ServicesBack(k: Codecs, e: Encoders, services: seq<TrustService>, st: seq<TrustService>)
    requires forall svc :: svc in services ==> ServiceKnown(k, e, svc)
    ensures Fold(ServicesLevel(k), st, ServicesForest(e, services)) == Some(st + services)
    ensures InStep(Services, Some("TSPServices"), ServicesForest(e, services))
    decreases |services|
  {
    hide ServiceLevel, ServiceForest, ServiceKnown, InStep, Fold;
    var l, closing := ServicesLevel(k), Some("TSPServices");
    if services == [] {
      FoldNil(l, closing, st);
      assert st + services == st;
    } else {
      ServiceBack(k, e, services[0]);
      assert st + [services[0]] + services[1..] == st + services;
      TakenBack(l, closing, st, "TSPService", ServiceForest(e, services[0]), ServicesForest(e, services[1..]),
                st + [services[0]]);
      ServicesBack(k, e, services[1..], st + [services[0]]);
    }
  }

  lemma TspInfoBack(p: Provider)
    ensures Fold(TspInfoLevel(), NO_PROVIDER, TspInfoForest(p)) == Some(p.(services := []))
    ensures InStep(TspInfo, Some("TSPInformation"), TspInfoForest(p))
  {
    hide Fold, InStep, Wrapped, FirstChildOf, OptNested;
    var l, closing := TspInfoLevel(), Some("TSPInformation");
    AllWrapped("Name", "TSPName", p.name);
    AllWrapped("Name", "TSPTradeName", p.tradeName);
    AllWrapped("CountryName", "TSPAddress", p.country);
    var s1 := NO_PROVIDER.(name := p.name);
    var s2 := s1.(tradeName := p.tradeName);
    var s3 := p.(services := []);
    var f3 := OptNested("TSPAddress", "CountryName", p.country, Nil);
    var f2 := OptNested("TSPTradeName", "Name", p.tradeName, f3);
    OptNestedBack(l, closing, NO_PROVIDER, "TSPName", "Name", p.name, f2, s1);
    OptNestedBack(l, closing, s1, "TSPTradeName", "Name", p.tradeName, f3, s2);
    OptNestedBack(l, closing, s2, "TSPAddress", "CountryName", p.country, Nil, s3);
    FoldNil(l, closing, s3);
  }

  lemma TspBack(k: Codecs, e: Encoders, p: Provider)
    requires ProviderKnown(k, e, p)
    ensures Fold(TspLevel(k), NO_PROVIDER, TspForest(e, p)) == Some(p)
    ensures InStep(Tsp, Some("TrustServiceProvider"), TspForest(e, p))
  {
    hide Fold, InStep, TspInfoForest, ServicesForest, TspInfoLevel, ServicesLevel;
    var l, closing := TspLevel(k), Some("TrustServiceProvider");
    TspInfoBack(p);
    ServicesBack(k, e, p.services, []);
    assert [] + p.services == p.services;
    var s1 := p.(services := []);
    var f2 := Element("TSPServices", [], ServicesForest(e, p.services), Nil);
    TakenBack(l, closing, NO_PROVIDER, "TSPInformation", TspInfoForest(p), f2, s1);
    assert l.visit(s1, "TSPServices", ServicesForest(e, p.services))
        == TspVisit(k, s1, "TSPServices", ServicesForest(e, p.services));
    TakenBack(l, closing, s1, "TSPServices", ServicesForest(e, p.services), Nil, p);
    FoldNil(l, closing, p);
  }

  lemma {:induction false} ProvidersBack(k: Codecs, e: Encoders, ps: seq<Provider>, st: seq<Provider>)
    requires forall p :: p in ps ==> ProviderKnown(k, e, p)
    ensures Fold(ProvidersLevel(k), st, ProvidersForest(e, ps)) == Some(st + ps)
    ensures InStep(ProviderList, Some("TrustServiceProviderList"), ProvidersForest(e, ps))
    decreases |ps|
  {
    hide TspLevel, TspForest, ProviderKnown, InStep, Fold;
    var l, closing := ProvidersLevel(k), Some("TrustServiceProviderList");
    if ps == [] {
      FoldNil(l, closing, st);
      assert st + ps == st;
    } else {
      TspBack(k, e, ps[0]);
      assert st + [ps[0]] + ps[1..] == st + ps;
      TakenBack(l, closing, st, "TrustServiceProvider", TspForest(e, ps[0]), ProvidersForest(e, ps[1..]), st + [ps[0]]);
      ProvidersBack(k, e, ps[1..], st + [ps[0]]);
    }
  }

  lemma TakenOnceBack<S>(l: Level<S>, closing: Option<string>, st: S, n: string, kids: Forest, next: Forest, st': S)
    requires ActionOn(l.context, n).TakeOnce? && !l.full(st, n) && l.visit(st, n, kids) == Some(st')
    requires InStep(ActionOn(l.context, n).context, Some(n), kids) && InStep(l.context, closing, kids)
        && closing != Some(n)
    ensures Fold(l, st, Element(n, [], kids, next)) == Fold(l, st', next)
    ensures InStep(l.context, closing, Element(n, [], kids, next)) == InStep(l.context, closing, next)
  {
  }

  lemma SkippedInStep(closing: Option<string>, t: string)
    ensures InStep(Scheme, closing, Wrapped("URI", t))
  {
    hide Words;
    assert ActionOn(Scheme, "URI") == Skip && InStep(Scheme, closing, Nil);
  }

  lemma SchemeTypeBack(k: Codecs, closing: Option<string>, st: TrustedList, t: Option<string>, next: Forest)
    requires st.schemeType.None? && closing == Some("SchemeInformation")
    ensures Fold(SchemeLevel(k), st, OptNested("SchemeTypeCommunityRules", "URI", t, next))
         == Fold(SchemeLevel(k), st.(schemeType := t), next)
    ensures InStep(Scheme, closing, OptNested("SchemeTypeCommunityRules", "URI", t, next))
        == InStep(Scheme, closing, next)
  {
    hide Fold, InStep, Wrapped, TextInside;
    if t.Some? {
      var kids := Wrapped("URI", t.value);
      WrappedText("URI", "SchemeTypeCommunityRules", t.value);
      SkippedInStep(closing, t.value);
      TakenOnceBack(SchemeLevel(k), closing, st, "SchemeTypeCommunityRules", kids, next, st.(schemeType := t));
    }
  }

  lemma SchemeEndBack(k: Codecs, e: Encoders, tl: TrustedList, st: TrustedList)
    requires Known(k, e, tl) && st == tl.(territory := None, issueTime := None, nextUpdate := None, providers := [])
    ensures Fold(SchemeLevel(k), st, SchemeEnd(e, tl)) == Some(tl.(providers := []))
    ensures InStep(Scheme, Some("SchemeInformation"), SchemeEnd(e, tl))
  {
    hide Fold, InStep, Words, Wrapped, TextOf, TextInside, OptLeaf, OptNested;
    var l, closing := SchemeLevel(k), Some("SchemeInformation");
    var issued, update := Written(e.time, tl.issueTime), Written(e.time, tl.nextUpdate);
    AllWords(tl.territory);
    AllWords(issued);
    AllWrapped("dateTime", "NextUpdate", update);
    var s3 := st.(territory := tl.territory);
    var s4 := s3.(issueTime := tl.issueTime);
    var s5 := tl.(providers := []);
    var f5 := OptNested("NextUpdate", "dateTime", update, Nil);
    var f4 := OptLeaf("ListIssueDateTime", issued, f5);
    OptLeafBack(l, closing, st, "SchemeTerritory", tl.territory, f4, s3);
    OptLeafBack(l, closing, s3, "ListIssueDateTime", issued, f5, s4);
    OptNestedBack(l, closing, s4, "NextUpdate", "dateTime", update, Nil, s5);
    FoldNil(l, closing, s5);
  }

  lemma SchemeBack(k: Codecs, e: Encoders, tl: TrustedList)
    requires Known(k, e, tl)
    ensures Fold(SchemeLevel(k), NO_LIST, SchemeForest(e, tl)) == Some(tl.(providers := []))
    ensures InStep(Scheme, Some("SchemeInformation"), SchemeForest(e, tl))
  {
    hide Fold, InStep, Words, TextOf, OptLeaf, OptNested, SchemeEnd;
    var l, closing := SchemeLevel(k), Some("SchemeInformation");
    var number := Written(e.number, tl.sequenceNumber);
    AllWords(number);
    var s1 := NO_LIST.(sequenceNumber := tl.sequenceNumber);
    var s2 := s1.(schemeType := tl.schemeType);
    var f2 := OptNested("SchemeTypeCommunityRules", "URI", tl.schemeType, SchemeEnd(e, tl));
    OptLeafBack(l, closing, NO_LIST, "TSLSequenceNumber", number, f2, s1);
    SchemeTypeBack(k, closing, s1, tl.schemeType, SchemeEnd(e, tl));
    SchemeEndBack(k, e, tl, s2);
  }

  // ---------- main results ----------

  /** The tree a list is written as denotes that list, and keeps every loop in step. */
  lemma RenderBack(k: Codecs, e: Encoders, tl: TrustedList)
    requires Known(k, e, tl)
    ensures ListOf(k, Render(e, tl)) == Some(tl) && InStep(Document, None, Render(e, tl))
  {
    hide Fold, InStep, SchemeForest, ProvidersForest, SchemeLevel, ProvidersLevel;
    var l := DocumentLevel(k);
    SchemeBack(k, e, tl);
    ProvidersBack(k, e, tl.providers, []);
    assert [] + tl.providers == tl.providers;
    var s1 := tl.(providers := []);
    var f2 := Element("TrustServiceProviderList", [], ProvidersForest(e, tl.providers), Nil);
    var f1 := Element("SchemeInformation", [], SchemeForest(e, tl), f2);
    TakenBack(l, None, NO_LIST, "SchemeInformation", SchemeForest(e, tl), f2, s1);
    assert l.visit(s1, "TrustServiceProviderList", ProvidersForest(e, tl.providers))
        == DocumentVisit(k, s1, "TrustServiceProviderList", ProvidersForest(e, tl.providers));
    TakenBack(l, None, s1, "TrustServiceProviderList", ProvidersForest(e, tl.providers), Nil, tl);
    FoldNil(l, None, tl);
    EnteredBack(l, NO_LIST, "TrustServiceStatusList", f1);
  }

  lemma EnteredBack<S>(l: Level<S>, st: S, n: string, kids: Forest)
    requires ActionOn(l.context, n).Enter? && Fold(l, st, kids).Some?
    ensures Fold(l, st, Element(n, [], kids, Nil)) == Fold(l, st, kids)
    ensures InStep(l.context, None, Element(n, [], kids, Nil)) == InStep(l.context, None, kids)
  {
  }

  /**
   Reading undoes writing, whatever unknown subtrees and comments are inserted where the parser
   skips: every document that differs from the written one only there parses to the list.
   */
  lemma RoundTrip(k: Codecs, e: Encoders, tl: TrustedList, document: Forest)
    requires Known(k, e, tl) && Prune(Document, document) == Prune(Document, Render(e, tl))
    ensures ParseEvents(k, Events(document)) == Some(tl)
  {
    hide Prune, InStep, ListOf, ParseEvents, Render, Known;
    RenderBack(k, e, tl);
    SkippedSubtreesNeverLeak(k, Render(e, tl), document);
    ParserFollowsTree(k, Render(e, tl));
  }
}
