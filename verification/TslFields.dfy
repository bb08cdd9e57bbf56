/** The records of a trusted list field by field: which of several elements counts, and what all of them add. */
module TslFields {
  import opened Wrappers
  import opened TrustModel
  import opened TslTree
  import opened TslLevels

  // ---------- certificates ----------

  /** The contents of the certificate elements, in document order. */
  function CertificateElements(f: Forest): seq<Forest> {
    match f
    case Nil => []
    case Element(n, _, kids, next) =>
      (if n == "X509Certificate" then [kids] else CertificateElements(kids)) + CertificateElements(next)
    case Hollow(_, _, next) => CertificateElements(next)
    case Chars(_, next) => CertificateElements(next)
    case CDataChars(_, next) => CertificateElements(next)
    case Misc(next) => CertificateElements(next)
  }

  /** The text of the element is a certificate. */
  function CertificateIn(k: Codecs, kids: Forest): Option<Certificate> {
    var t :- TextOf(kids);
    k.cert(t)
  }

  ghost predicate AreCertificates(k: Codecs, elements: seq<Forest>, certs: seq<Certificate>) {
    |certs| == |elements| && forall i :: 0 <= i < |elements| ==> CertificateIn(k, elements[i]) == Some(certs[i])
  }

  ghost predicate SomeFails(k: Codecs, elements: seq<Forest>) {
    exists i :: 0 <= i < |elements| && CertificateIn(k, elements[i]).None?
  }

  /**
   An identity is read exactly when every certificate element below decodes, and adds those
   certificates in document order.
   */
  lemma {:induction false} IdentityExactly(k: Codecs, before: seq<Certificate>, f: Forest)
    ensures var r, es := Fold(IdentityLevel(k), before, f), CertificateElements(f);
      (r.Some? ==> before <= r.value && AreCertificates(k, es, r.value[|before|..]))
      && (r.None? ==> SomeFails(k, es))
    decreases f
  {
    match f
    case Nil =>
    case Element(n, a, kids, next) =>
      var here := if n == "X509Certificate" then [kids] else CertificateElements(kids);
      var later := CertificateElements(next);
      var mid := StateAfter(IdentityLevel(k), before, n, kids);
      if n != "X509Certificate" { IdentityExactly(k, before, kids); }
      assert CertificateElements(f) == here + later;
      InParts(k, here, later);
      if mid.Some? {
        IdentityExactly(k, mid.value, next);
        var r := Fold(IdentityLevel(k), before, f);
        if r.Some? { TwoParts(k, before, mid.value, r.value, here, later); }
      } else if n == "X509Certificate" {
        assert CertificateIn(k, here[0]).None?;
      }
    case Hollow(n, a, next) => IdentityExactly(k, before, next);
    case Chars(t, next) => IdentityExactly(k, before, next);
    case CDataChars(d, next) => IdentityExactly(k, before, next);
    case Misc(next) => IdentityExactly(k, before, next);
  }

  lemma InParts(k: Codecs, x: seq<Forest>, y: seq<Forest>)
    ensures SomeFails(k, x) || SomeFails(k, y) ==> SomeFails(k, x + y)
  {
    hide CertificateIn;
    var s := x + y;
    if i :| 0 <= i < |x| && CertificateIn(k, x[i]).None? {
      assert CertificateIn(k, s[i]).None?;
    }
    if i :| 0 <= i < |y| && CertificateIn(k, y[i]).None? {
      assert CertificateIn(k, s[|x| + i]).None?;
    }
  }

  lemma TwoParts(k: Codecs, a: seq<Certificate>, b: seq<Certificate>, c: seq<Certificate>,
      x: seq<Forest>, y: seq<Forest>)
    requires a <= b <= c && AreCertificates(k, x, b[|a|..]) && AreCertificates(k, y, c[|b|..])
    ensures a <= c && AreCertificates(k, x + y, c[|a|..])
  {
    var first, second := b[|a|..], c[|b|..];
    assert c[|a|..] == first + second;
  }

  // ---------- sibling elements ----------

  /** The contents of the sibling elements with the name, in order. */
  function Named(f: Forest, name: string): seq<Forest> {
    match f
    case Nil => []
    case Element(n, _, kids, next) => (if n == name then [kids] else []) + Named(next, name)
    case Hollow(_, _, next) => Named(next, name)
    case Chars(_, next) => Named(next, name)
    case CDataChars(_, next) => Named(next, name)
    case Misc(next) => Named(next, name)
  }

  /** The last one decides. */
  function Last<T>(es: seq<Forest>, h: Forest -> T, otherwise: T): T {
    if es == [] then otherwise else h(es[|es| - 1])
  }

  /** Each adds to what was there. */
  function Added<T>(es: seq<Forest>, h: Forest -> seq<T>, before: seq<T>): seq<T> {
    if es == [] then before else Added(es[1..], h, before + h(es[0]))
  }

  /** The loop takes or skips every sibling. */
  ghost predicate NeverEnters<S(!new)>(l: Level<S>, f: Forest) {
    match f
    case Nil => true
    case Element(n, _, _, next) => (forall st :: !Enters(l, st, n)) && NeverEnters(l, next)
    case Hollow(_, _, next) => NeverEnters(l, next)
    case Chars(_, next) => NeverEnters(l, next)
    case CDataChars(_, next) => NeverEnters(l, next)
    case Misc(next) => NeverEnters(l, next)
  }

  /** Elements with the name set the field, and no other element touches it. */
  ghost predicate Sets<S(!new), T>(l: Level<S>, name: string, field: S -> T, h: Forest -> T) {
    forall st, n, kids :: l.visit(st, n, kids).Some? ==>
      field(l.visit(st, n, kids).value) == if n == name then h(kids) else field(st)
  }

  ghost predicate Adds<S(!new), T>(l: Level<S>, name: string, field: S -> seq<T>, h: Forest -> seq<T>) {
    forall st, n, kids :: l.visit(st, n, kids).Some? ==>
      field(l.visit(st, n, kids).value) == if n == name then field(st) + h(kids) else field(st)
  }

  lemma {:induction false} LastCounts<S(!new), T>(l: Level<S>, name: string, field: S -> T, h: Forest -> T,
      st: S, f: Forest)
    requires NeverEnters(l, f) && Sets(l, name, field, h) && Fold(l, st, f).Some?
    ensures field(Fold(l, st, f).value) == Last(Named(f, name), h, field(st))
    decreases f
  {
    match f
    case Nil =>
    case Element(n, a, kids, next) => LastCounts(l, name, field, h, l.visit(st, n, kids).value, next);
    case Hollow(n, a, next) => LastCounts(l, name, field, h, st, next);
    case Chars(t, next) => LastCounts(l, name, field, h, st, next);
    case CDataChars(d, next) => LastCounts(l, name, field, h, st, next);
    case Misc(next) => LastCounts(l, name, field, h, st, next);
  }

  lemma {:induction false} AllCount<S(!new), T>(l: Level<S>, name: string, field: S -> seq<T>, h: Forest -> seq<T>,
      st: S, f: Forest)
    requires NeverEnters(l, f) && Adds(l, name, field, h) && Fold(l, st, f).Some?
    ensures field(Fold(l, st, f).value) == Added(Named(f, name), h, field(st))
    decreases f
  {
    match f
    case Nil =>
    case Element(n, a, kids, next) =>
      AllCount(l, name, field, h, l.visit(st, n, kids).value, next);
      assert n == name ==> Named(f, name)[1..] == Named(next, name);
      assert n != name ==> Named(f, name) == Named(next, name);
    case Hollow(n, a, next) => AllCount(l, name, field, h, st, next);
    case Chars(t, next) => AllCount(l, name, field, h, st, next);
    case CDataChars(d, next) => AllCount(l, name, field, h, st, next);
    case Misc(next) => AllCount(l, name, field, h, st, next);
  }

  lemma {:induction false} NothingEntered<S(!new)>(l: Level<S>, f: Forest)
    requires forall n :: ActionOn(l.context, n).Take? || ActionOn(l.context, n).Skip?
    ensures NeverEnters(l, f)
  {
    match f
    case Nil =>
    case Element(n, a, kids, next) => NothingEntered(l, next);
    case Hollow(n, a, next) => NothingEntered(l, next);
    case Chars(t, next) => NothingEntered(l, next);
    case CDataChars(d, next) => NothingEntered(l, next);
    case Misc(next) => NothingEntered(l, next);
  }

  // ---------- the records ----------

  function TimeIn(k: Codecs): Forest -> Option<int> {
    (kids: Forest) => (var t :- TextOf(kids); k.time(t))
  }

  function CertificatesIn(k: Codecs): Forest -> seq<Certificate> {
    (kids: Forest) => (var r := Fold(IdentityLevel(k), [], kids); if r.Some? then r.value else [])
  }

  /** The first name below, or no text when there is none. */
  function NameIn(kids: Forest): Option<string> {
    var t :- FirstChildOf(kids, "Name");
    Some(if t.Some? then t.value else "")
  }

  lemma {:induction false} Untouched<S(!new), T>(l: Level<S>, field: S -> T, st: S, f: Forest)
    requires NeverEnters(l, f) && Fold(l, st, f).Some?
    requires forall st, n, kids :: l.visit(st, n, kids).Some? ==> field(l.visit(st, n, kids).value) == field(st)
    ensures field(Fold(l, st, f).value) == field(st)
    decreases f
  {
    match f
    case Nil =>
    case Element(n, a, kids, next) => Untouched(l, field, l.visit(st, n, kids).value, next);
    case Hollow(n, a, next) => Untouched(l, field, st, next);
    case Chars(t, next) => Untouched(l, field, st, next);
    case CDataChars(d, next) => Untouched(l, field, st, next);
    case Misc(next) => Untouched(l, field, st, next);
  }

  /**
   A service's information, for any document order and any repetition: of several types, names,
   statuses or times the last counts, and identities and extensions add up.
   */
  lemma ServiceInformationExactly(k: Codecs, svc: TrustService, f: Forest)
    requires Fold(ServiceInfoLevel(k), svc, f).Some?
    ensures var r := Fold(ServiceInfoLevel(k), svc, f).value;
      r.serviceType == Last(Named(f, "ServiceTypeIdentifier"), TextOf, svc.serviceType)
      && r.name == Last(Named(f, "ServiceName"), NameIn, svc.name)
      && r.currentStatus == Last(Named(f, "ServiceStatus"), TextOf, svc.currentStatus)
      && r.startingTime == Last(Named(f, "StatusStartingTime"), TimeIn(k), svc.startingTime)
      && r.certificates == Added(Named(f, "ServiceDigitalIdentity"), CertificatesIn(k), svc.certificates)
      && r.qualifiers == Added(Named(f, "ServiceInformationExtensions"), QualifiersOf, svc.qualifiers)
      && r.history == svc.history
  {
    hide Sets, Adds, NeverEnters, ServiceInfoLevel, Fold, Named, Last, Added;
    var l := ServiceInfoLevel(k);
    ServiceInformationSets(k);
    assert NeverEnters(l, f) by { ServiceInformationTakes(k, f); }
    LastCounts(l, "ServiceTypeIdentifier", (x: TrustService) => x.serviceType, TextOf, svc, f);
    LastCounts(l, "ServiceName", (x: TrustService) => x.name, NameIn, svc, f);
    LastCounts(l, "ServiceStatus", (x: TrustService) => x.currentStatus, TextOf, svc, f);
    LastCounts(l, "StatusStartingTime", (x: TrustService) => x.startingTime, TimeIn(k), svc, f);
    AllCount(l, "ServiceDigitalIdentity", (x: TrustService) => x.certificates, CertificatesIn(k), svc, f);
    AllCount(l, "ServiceInformationExtensions", (x: TrustService) => x.qualifiers, QualifiersOf, svc, f);
    HistoryUntouched(k, svc, f);
  }

  lemma HistoryUntouched(k: Codecs, svc: TrustService, f: Forest)
    requires Fold(ServiceInfoLevel(k), svc, f).Some? && NeverEnters(ServiceInfoLevel(k), f)
    ensures Fold(ServiceInfoLevel(k), svc, f).value.history == svc.history
  {
    hide TextOf, QualifiersOf, FirstChildOf, IdentityLevel, NeverEnters, Fold;
    Untouched(ServiceInfoLevel(k), (x: TrustService) => x.history, svc, f);
  }

  lemma ServiceInformationTakes(k: Codecs, f: Forest)
    ensures NeverEnters(ServiceInfoLevel(k), f)
  {
    NothingEntered(ServiceInfoLevel(k), f);
  }

  lemma ServiceInformationSets(k: Codecs)
    ensures var l := ServiceInfoLevel(k);
      Sets(l, "ServiceTypeIdentifier", (x: TrustService) => x.serviceType, TextOf)
      && Sets(l, "ServiceName", (x: TrustService) => x.name, NameIn)
      && Sets(l, "ServiceStatus", (x: TrustService) => x.currentStatus, TextOf)
      && Sets(l, "StatusStartingTime", (x: TrustService) => x.startingTime, TimeIn(k))
      && Adds(l, "ServiceDigitalIdentity", (x: TrustService) => x.certificates, CertificatesIn(k))
      && Adds(l, "ServiceInformationExtensions", (x: TrustService) => x.qualifiers, QualifiersOf)
  {
    hide TextOf, QualifiersOf, FirstChildOf, IdentityLevel, Fold;
  }

  /** The same for a period of the history. */
  lemma HistoryInstanceExactly(k: Codecs, entry: ServiceStatus, f: Forest)
    requires Fold(InstanceLevel(k), entry, f).Some?
    ensures var r := Fold(InstanceLevel(k), entry, f).value;
      r.serviceType == Last(Named(f, "ServiceTypeIdentifier"), TextOf, entry.serviceType)
      && r.status == Last(Named(f, "ServiceStatus"), TextOf, entry.status)
      && r.startingTime == Last(Named(f, "StatusStartingTime"), TimeIn(k), entry.startingTime)
      && r.certificates == Added(Named(f, "ServiceDigitalIdentity"), CertificatesIn(k), entry.certificates)
      && r.qualifiers == Added(Named(f, "ServiceInformationExtensions"), QualifiersOf, entry.qualifiers)
  {
    hide Sets, Adds, NeverEnters, InstanceLevel, Fold, Named, Last, Added;
    var l := InstanceLevel(k);
    HistoryInstanceSets(k);
    assert NeverEnters(l, f) by { HistoryInstanceTakes(k, f); }
    LastCounts(l, "ServiceTypeIdentifier", (x: ServiceStatus) => x.serviceType, TextOf, entry, f);
    LastCounts(l, "ServiceStatus", (x: ServiceStatus) => x.status, TextOf, entry, f);
    LastCounts(l, "StatusStartingTime", (x: ServiceStatus) => x.startingTime, TimeIn(k), entry, f);
    AllCount(l, "ServiceDigitalIdentity", (x: ServiceStatus) => x.certificates, CertificatesIn(k), entry, f);
    AllCount(l, "ServiceInformationExtensions", (x: ServiceStatus) => x.qualifiers, QualifiersOf, entry, f);
  }

  lemma HistoryInstanceTakes(k: Codecs, f: Forest)
    ensures NeverEnters(InstanceLevel(k), f)
  {
    NothingEntered(InstanceLevel(k), f);
  }

  lemma HistoryInstanceSets(k: Codecs)
    ensures var l := InstanceLevel(k);
      Sets(l, "ServiceTypeIdentifier", (x: ServiceStatus) => x.serviceType, TextOf)
      && Sets(l, "ServiceStatus", (x: ServiceStatus) => x.status, TextOf)
      && Sets(l, "StatusStartingTime", (x: ServiceStatus) => x.startingTime, TimeIn(k))
      && Adds(l, "ServiceDigitalIdentity", (x: ServiceStatus) => x.certificates, CertificatesIn(k))
      && Adds(l, "ServiceInformationExtensions", (x: ServiceStatus) => x.qualifiers, QualifiersOf)
  {
    hide TextOf, QualifiersOf, FirstChildOf, IdentityLevel, Fold;
  }

  function CountryIn(kids: Forest): Option<string> {
    var t :- FirstChildOf(kids, "CountryName");
    t
  }

  /** Of several names, trade names or addresses of a provider the last counts, and of each its first text. */
  lemma ProviderInformationExactly(p: Provider, f: Forest)
    requires Fold(TspInfoLevel(), p, f).Some?
    ensures var r := Fold(TspInfoLevel(), p, f).value;
      r.name == Last(Named(f, "TSPName"), NameIn, p.name)
      && r.tradeName == Last(Named(f, "TSPTradeName"), NameIn, p.tradeName)
      && r.country == Last(Named(f, "TSPAddress"), CountryIn, p.country)
      && r.services == p.services
  {
    hide Sets, NeverEnters, Fold, Named, Last, FirstChildOf;
    var l := TspInfoLevel();
    assert NeverEnters(l, f) by { NothingEntered(l, f); }
    ProviderInformationSets();
    Untouched(l, (x: Provider) => x.services, p, f);
    LastCounts(l, "TSPName", (x: Provider) => x.name, NameIn, p, f);
    LastCounts(l, "TSPTradeName", (x: Provider) => x.tradeName, NameIn, p, f);
    LastCounts(l, "TSPAddress", (x: Provider) => x.country, CountryIn, p, f);
  }

  lemma ProviderInformationSets()
    ensures var l := TspInfoLevel();
      Sets(l, "TSPName", (x: Provider) => x.name, NameIn)
      && Sets(l, "TSPTradeName", (x: Provider) => x.tradeName, NameIn)
      && Sets(l, "TSPAddress", (x: Provider) => x.country, CountryIn)
  {
    hide FirstChildOf;
  }

  // ---------- the scheme ----------

  function NumberIn(k: Codecs): Forest -> Option<nat> {
    (kids: Forest) => (var t :- TextOf(kids); k.number(t))
  }

  function InsideTimeIn(k: Codecs): Forest -> Option<int> {
    (kids: Forest) => k.time(TextInside(kids))
  }

  predicate IsSchemeType(n: string) {
    n == "SchemeTypeCommunityRules" || n == "SchemeType"
  }

  /** Of several territories, numbers or dates the last counts. */
  lemma SchemeFieldsExactly(k: Codecs, tl: TrustedList, f: Forest)
    requires Named(f, "SchemeTypeCommunityRules") == [] && Named(f, "SchemeType") == []
    requires Fold(SchemeLevel(k), tl, f).Some?
    ensures var r := Fold(SchemeLevel(k), tl, f).value;
      r.territory == Last(Named(f, "SchemeTerritory"), TextOf, tl.territory)
      && r.sequenceNumber == Last(Named(f, "TSLSequenceNumber"), NumberIn(k), tl.sequenceNumber)
      && r.issueTime == Last(Named(f, "ListIssueDateTime"), TimeIn(k), tl.issueTime)
      && r.nextUpdate == Last(Named(f, "NextUpdate"), InsideTimeIn(k), tl.nextUpdate)
  {
    hide Sets, NeverEnters, SchemeLevel, Fold, Named, Last;
    var l := SchemeLevel(k);
    SchemeSets(k);
    NoSchemeTypeEntered(k, f);
    LastCounts(l, "SchemeTerritory", (x: TrustedList) => x.territory, TextOf, tl, f);
    LastCounts(l, "TSLSequenceNumber", (x: TrustedList) => x.sequenceNumber, NumberIn(k), tl, f);
    LastCounts(l, "ListIssueDateTime", (x: TrustedList) => x.issueTime, TimeIn(k), tl, f);
    LastCounts(l, "NextUpdate", (x: TrustedList) => x.nextUpdate, InsideTimeIn(k), tl, f);
  }

  lemma SchemeSets(k: Codecs)
    ensures var l := SchemeLevel(k);
      Sets(l, "SchemeTerritory", (x: TrustedList) => x.territory, TextOf)
      && Sets(l, "TSLSequenceNumber", (x: TrustedList) => x.sequenceNumber, NumberIn(k))
      && Sets(l, "ListIssueDateTime", (x: TrustedList) => x.issueTime, TimeIn(k))
      && Sets(l, "NextUpdate", (x: TrustedList) => x.nextUpdate, InsideTimeIn(k))
  {
    hide TextOf, TextInside;
  }

  lemma {:induction false} NoSchemeTypeEntered(k: Codecs, f: Forest)
    requires Named(f, "SchemeTypeCommunityRules") == [] && Named(f, "SchemeType") == []
    ensures NeverEnters(SchemeLevel(k), f)
  {
    match f
    case Nil =>
    case Element(n, a, kids, next) => NoSchemeTypeEntered(k, next);
    case Hollow(n, a, next) => NoSchemeTypeEntered(k, next);
    case Chars(t, next) => NoSchemeTypeEntered(k, next);
    case CDataChars(d, next) => NoSchemeTypeEntered(k, next);
    case Misc(next) => NoSchemeTypeEntered(k, next);
  }

  lemma {:induction false} SchemeTypeStays(k: Codecs, tl: TrustedList, f: Forest)
    requires tl.schemeType.Some? && Fold(SchemeLevel(k), tl, f).Some?
    ensures Fold(SchemeLevel(k), tl, f).value.schemeType == tl.schemeType
    decreases f
  {
    hide TextOf, TextInside;
    match f
    case Nil =>
    case Element(n, a, kids, next) =>
      if IsSchemeType(n) { SchemeTypeStays(k, tl, kids); }
      SchemeTypeStays(k, StateAfter(SchemeLevel(k), tl, n, kids).value, next);
    case Hollow(n, a, next) => SchemeTypeStays(k, tl, next);
    case Chars(t, next) => SchemeTypeStays(k, tl, next);
    case CDataChars(d, next) => SchemeTypeStays(k, tl, next);
    case Misc(next) => SchemeTypeStays(k, tl, next);
  }

  /** The scheme type is all text in the first such element; whatever follows never replaces it. */
  lemma FirstSchemeTypeCounts(k: Codecs, tl: TrustedList, n: string, a: seq<Attr>, kids: Forest, next: Forest)
    requires n == "SchemeTypeCommunityRules" || n == "SchemeType"
    requires tl.schemeType.None? && Fold(SchemeLevel(k), tl, Element(n, a, kids, next)).Some?
    ensures Fold(SchemeLevel(k), tl, Element(n, a, kids, next)).value.schemeType == Some(TextInside(kids))
  {
    hide TextOf, TextInside;
    SchemeTypeStays(k, StateAfter(SchemeLevel(k), tl, n, kids).value, next);
  }
}
