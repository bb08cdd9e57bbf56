/** What each loop of the trusted-list parser makes of its elements, on events and on the tree. */
module TslLevels {
  import opened Wrappers
  import opened TrustModel
  import opened TslTree

  /** Certificate, date and number decoding are left to libraries. */
  datatype Codecs = Codecs(
    cert: string -> Option<Certificate>, time: string -> Option<int>, number: string -> Option<nat>)

  const NO_LIST := TrustedList(None, None, None, None, None, [])
  const NO_PROVIDER := Provider(None, None, None, [])
  const NO_SERVICE := TrustService(None, None, None, None, [], [], [])
  const NO_STATUS := ServiceStatus(None, None, None, [], [])

  function OrEmpty(t: Option<string>): string {
    if t.Some? then t.value else ""
  }

  // ---------- first child with a name ----------

  function FirstChildLevel(child: string): Level<Option<string>> {
    Level(
      FirstChild(child),
      (found: Option<string>, n: string) => found.Some?,
      (found: Option<string>, n: string, s: seq<Event>) =>
        if n == child && found.None? then
          (var (t, rest) :- ReadText(s, n); Some((Some(t), rest)))
        else Some((found, s)),
      (found: Option<string>, n: string, kids: Forest) =>
        if n == child then (var t :- TextOf(kids); Some(Some(t))) else Some(found))
  }

  lemma FirstChildOk(child: string)
    ensures LevelOk(FirstChildLevel(child)) && PruneOk(FirstChildLevel(child))
  {
    var l := FirstChildLevel(child);
    forall st, n, kids, rest ensures FieldOk(l, st, n, kids, rest) {
      if n == child && st.None? && InStep(Leaf, Some(n), kids) {
        ReadLeaf(n, kids, rest);
      }
    }
    forall n, kids ensures VisitOk(l, n, kids) {}
  }

  /** `read_text` on a leaf in step reads its text and stops behind its end tag. */
  lemma ReadLeaf(n: string, kids: Forest, rest: seq<Event>)
    requires InStep(Leaf, Some(n), kids)
    ensures ReadText(Events(kids) + ([End(n)] + rest), n) == Behind(TextOf(kids), rest)
  {
    ReadTextOf(kids, n, [End(n)] + rest);
    assert ([End(n)] + rest)[1..] == rest;
    if TextOf(kids).Some? {
      assert TextOf(kids).value + "" == TextOf(kids).value;
    }
  }

  lemma ReadInside(n: string, kids: Forest, rest: seq<Event>)
    ensures ReadTextInside(Events(kids) + ([End(n)] + rest), n, 1) == (Some(TextInside(kids)), rest)
  {
    ReadTextInsideOf(kids, n, 1, [End(n)] + rest);
    assert ([End(n)] + rest)[1..] == rest;
    assert TextInside(kids) + "" == TextInside(kids);
  }

  lemma SkipWhole(n: string, kids: Forest, rest: seq<Event>)
    ensures SkipElement(Events(kids) + ([End(n)] + rest), 1) == Some(rest)
  {
    SkipElementOf(kids, 1, [End(n)] + rest);
    assert ([End(n)] + rest)[1..] == rest;
  }

  /** The text of the first child with the name, anywhere below. */
  function FirstChildText(s: seq<Event>, closing: string, child: string): (r: Option<(Option<string>, seq<Event>)>)
    ensures r.Some? ==> |r.value.1| <= |s|
  {
    Fields(FirstChildLevel(child), Some(closing), None, s)
  }

  function FirstChildOf(kids: Forest, child: string): Option<Option<string>> {
    Fold(FirstChildLevel(child), None, kids)
  }

  lemma ReadFirstChild(n: string, child: string, kids: Forest, rest: seq<Event>)
    requires InStep(FirstChild(child), Some(n), kids)
    ensures FirstChildText(Events(kids) + ([End(n)] + rest), n, child) == Behind(FirstChildOf(kids, child), rest)
  {
    FirstChildOk(child);
    FieldsElement(FirstChildLevel(child), n, None, kids, rest);
  }

  // ---------- certificates and qualifiers ----------

  function IdentityField(k: Codecs, certs: seq<Certificate>, n: string, s: seq<Event>)
    : (r: Option<(seq<Certificate>, seq<Event>)>)
    ensures r.Some? ==> |r.value.1| <= |s|
  {
    if n == "X509Certificate" then
      var (t, rest) :- ReadText(s, n);
      var c :- k.cert(t);
      Some((certs + [c], rest))
    else Some((certs, s))
  }

  function IdentityVisit(k: Codecs, certs: seq<Certificate>, n: string, kids: Forest): Option<seq<Certificate>> {
    if n == "X509Certificate" then
      var t :- TextOf(kids);
      var c :- k.cert(t);
      Some(certs + [c])
    else Some(certs)
  }

  function IdentityLevel(k: Codecs): Level<seq<Certificate>> {
    Level(Identity, (certs: seq<Certificate>, n: string) => false,
          (certs: seq<Certificate>, n: string, s: seq<Event>) => IdentityField(k, certs, n, s),
          (certs: seq<Certificate>, n: string, kids: Forest) => IdentityVisit(k, certs, n, kids))
  }

  lemma IdentityOk(k: Codecs)
    ensures LevelOk(IdentityLevel(k)) && PruneOk(IdentityLevel(k))
  {
    hide InStep, ReadText, TextOf, Events, Prune;
    var l := IdentityLevel(k);
    forall st, n, kids, rest ensures FieldOk(l, st, n, kids, rest) {
      if n == "X509Certificate" && InStep(Leaf, Some(n), kids) {
        ReadLeaf(n, kids, rest);
      }
    }
    forall n, kids ensures VisitOk(l, n, kids) {
      TextPruned(kids);
    }
  }

  function Uris(attrs: seq<Attr>): seq<string> {
    if attrs == [] then []
    else
      var n := |attrs| - 1;
      Uris(attrs[..n]) + if attrs[n].key == "uri" && attrs[n].value.Some? then [attrs[n].value.value] else []
  }

  function UrisOn(n: string, attrs: seq<Attr>): seq<string> {
    if n == "Qualifier" then Uris(attrs) else []
  }

  function QualifierUris(s: seq<Event>, closing: string): (r: Option<(seq<string>, seq<Event>)>)
    ensures r.Some? ==> |r.value.1| <= |s|
  {
    if s == [] then Some(([], []))
    else
      match s[0]
      case End(n) => if n == closing then Some(([], s[1..])) else QualifierUris(s[1..], closing)
      case Start(n, a) =>
        var (more, rest) :- QualifierUris(s[1..], closing);
        Some((UrisOn(n, a) + more, rest))
      case Empty(n, a) =>
        var (more, rest) :- QualifierUris(s[1..], closing);
        Some((UrisOn(n, a) + more, rest))
      case ReadError => None
      case _ => QualifierUris(s[1..], closing)
  }

  function QualifiersOf(f: Forest): seq<string> {
    match f
    case Nil => []
    case Element(n, a, kids, next) => UrisOn(n, a) + QualifiersOf(kids) + QualifiersOf(next)
    case Hollow(n, a, next) => UrisOn(n, a) + QualifiersOf(next)
    case Chars(_, next) => QualifiersOf(next)
    case CDataChars(_, next) => QualifiersOf(next)
    case Misc(next) => QualifiersOf(next)
  }

  function PrependUris(u: seq<string>, r: Option<(seq<string>, seq<Event>)>): Option<(seq<string>, seq<Event>)> {
    var (v, rest) :- r;
    Some((u + v, rest))
  }

  lemma PrependUrisTwice(u: seq<string>, v: seq<string>, r: Option<(seq<string>, seq<Event>)>)
    ensures PrependUris(u, PrependUris(v, r)) == PrependUris(u + v, r)
    ensures PrependUris([], r) == r
  {
    if r.Some? {
      assert u + (v + r.value.0) == u + v + r.value.0;
      assert [] + r.value.0 == r.value.0;
    }
  }

  lemma QualifierStep(e: Event, s: seq<Event>, closing: string)
    requires e != End(closing) && !e.ReadError?
    ensures QualifierUris([e] + s, closing)
         == PrependUris(if e.Start? || e.Empty? then UrisOn(e.name, e.attrs) else [], QualifierUris(s, closing))
  {
    hide Uris, UrisOn;
    assert ([e] + s)[1..] == s;
    PrependUrisTwice([], [], QualifierUris(s, closing));
  }

  lemma {:induction false} QualifierUrisOf(f: Forest, closing: string, tail: seq<Event>)
    requires InStep(Qualifiers, Some(closing), f)
    ensures QualifierUris(Events(f) + tail, closing) == PrependUris(QualifiersOf(f), QualifierUris(tail, closing))
    decreases f, 1
  {
    hide Uris, UrisOn, QualifierUris, PrependUris;
    var more := QualifierUris(tail, closing);
    PrependUrisTwice([], [], more);
    match f
    case Nil => assert Events(f) + tail == tail;
    case Element(n, a, kids, next) =>
      var after := [End(n)] + (Events(next) + tail);
      assert Events(f) + tail == [Start(n, a)] + (Events(kids) + after);
      QualifierStep(Start(n, a), Events(kids) + after, closing);
      QualifierUrisOf(kids, closing, after);
      QualifierStep(End(n), Events(next) + tail, closing);
      QualifierUrisOf(next, closing, tail);
      PrependUrisTwice([], [], QualifierUris(Events(next) + tail, closing));
      PrependUrisTwice(QualifiersOf(kids), QualifiersOf(next), more);
      PrependUrisTwice(UrisOn(n, a), QualifiersOf(kids) + QualifiersOf(next), more);
      assert UrisOn(n, a) + (QualifiersOf(kids) + QualifiersOf(next)) == QualifiersOf(f);
    case Hollow(n, a, next) =>
      assert Events(f) + tail == [Empty(n, a)] + (Events(next) + tail);
      QualifierStep(Empty(n, a), Events(next) + tail, closing);
      QualifierUrisOf(next, closing, tail);
      PrependUrisTwice(UrisOn(n, a), QualifiersOf(next), more);
    case Chars(t, next) => QualifierDull(Text(t), f, next, closing, tail);
    case CDataChars(d, next) => QualifierDull(CData(d), f, next, closing, tail);
    case Misc(next) => QualifierDull(Other, f, next, closing, tail);
  }

  lemma {:induction false} QualifierDull(e: Event, f: Forest, next: Forest, closing: string, tail: seq<Event>)
    requires next < f && Events(f) == [e] + Events(next) && (e.Text? || e.CData? || e.Other?)
    requires InStep(Qualifiers, Some(closing), next)
    ensures QualifierUris(Events(f) + tail, closing) == PrependUris(QualifiersOf(next), QualifierUris(tail, closing))
    decreases f, 0
  {
    hide Events, QualifierUris, PrependUris;
    assert Events(f) + tail == [e] + (Events(next) + tail);
    QualifierStep(e, Events(next) + tail, closing);
    PrependUrisTwice([], [], QualifierUris(Events(next) + tail, closing));
    QualifierUrisOf(next, closing, tail);
  }

  lemma ReadQualifiers(n: string, kids: Forest, rest: seq<Event>)
    requires InStep(Qualifiers, Some(n), kids)
    ensures QualifierUris(Events(kids) + ([End(n)] + rest), n) == Some((QualifiersOf(kids), rest))
  {
    QualifierUrisOf(kids, n, [End(n)] + rest);
    assert ([End(n)] + rest)[1..] == rest;
    assert QualifiersOf(kids) + [] == QualifiersOf(kids);
  }

  lemma {:induction false} QualifiersPruned(f: Forest)
    ensures QualifiersOf(Prune(Qualifiers, f)) == QualifiersOf(f)
  {
    match f
    case Nil =>
    case Element(n, a, kids, next) => QualifiersPruned(kids); QualifiersPruned(next);
    case Hollow(n, a, next) => QualifiersPruned(next);
    case Chars(t, next) => QualifiersPruned(next);
    case CDataChars(d, next) => QualifiersPruned(next);
    case Misc(next) => QualifiersPruned(next);
  }

  // ---------- records ----------

  function SkipField<S>(st: S, s: seq<Event>): (r: Option<(S, seq<Event>)>)
    ensures r.Some? ==> |r.value.1| <= |s|
  {
    var rest :- SkipElement(s, 1);
    Some((st, rest))
  }

  function ServiceInfoField(k: Codecs, svc: TrustService, n: string, s: seq<Event>)
    : (r: Option<(TrustService, seq<Event>)>)
    ensures r.Some? ==> |r.value.1| <= |s|
  {
    if n == "ServiceTypeIdentifier" then
      var (t, rest) :- ReadText(s, n);
      Some((svc.(serviceType := Some(t)), rest))
    else if n == "ServiceStatus" then
      var (t, rest) :- ReadText(s, n);
      Some((svc.(currentStatus := Some(t)), rest))
    else if n == "StatusStartingTime" then
      var (t, rest) :- ReadText(s, n);
      Some((svc.(startingTime := k.time(t)), rest))
    else if n == "ServiceName" then
      var (t, rest) :- FirstChildText(s, n, "Name");
      Some((svc.(name := Some(OrEmpty(t))), rest))
    else if n == "ServiceDigitalIdentity" then
      var (certs, rest) :- Fields(IdentityLevel(k), Some(n), [], s);
      Some((svc.(certificates := svc.certificates + certs), rest))
    else if n == "ServiceInformationExtensions" then
      var (uris, rest) :- QualifierUris(s, n);
      Some((svc.(qualifiers := svc.qualifiers + uris), rest))
    else SkipField(svc, s)
  }

  function ServiceInfoVisit(k: Codecs, svc: TrustService, n: string, kids: Forest): Option<TrustService> {
    if n == "ServiceTypeIdentifier" then var t :- TextOf(kids); Some(svc.(serviceType := Some(t)))
    else if n == "ServiceStatus" then var t :- TextOf(kids); Some(svc.(currentStatus := Some(t)))
    else if n == "StatusStartingTime" then var t :- TextOf(kids); Some(svc.(startingTime := k.time(t)))
    else if n == "ServiceName" then var t :- FirstChildOf(kids, "Name"); Some(svc.(name := Some(OrEmpty(t))))
    else if n == "ServiceDigitalIdentity" then
      var certs :- Fold(IdentityLevel(k), [], kids);
      Some(svc.(certificates := svc.certificates + certs))
    else if n == "ServiceInformationExtensions" then
      Some(svc.(qualifiers := svc.qualifiers + QualifiersOf(kids)))
    else Some(svc)
  }

  function ServiceInfoLevel(k: Codecs): Level<TrustService> {
    Level(ServiceInfo, (st: TrustService, n: string) => false,
          (st: TrustService, n: string, s: seq<Event>) => ServiceInfoField(k, st, n, s),
          (st: TrustService, n: string, kids: Forest) => ServiceInfoVisit(k, st, n, kids))
  }

  /** What the leaf readers and small loops do on one element in step, all at once. */
  lemma SmallReaders(k: Codecs, n: string, kids: Forest, rest: seq<Event>)
    ensures InStep(Leaf, Some(n), kids) ==>
      ReadText(Events(kids) + ([End(n)] + rest), n) == Behind(TextOf(kids), rest)
    ensures InStep(FirstChild("Name"), Some(n), kids) ==>
      FirstChildText(Events(kids) + ([End(n)] + rest), n, "Name") == Behind(FirstChildOf(kids, "Name"), rest)
    ensures InStep(FirstChild("CountryName"), Some(n), kids) ==>
      FirstChildText(Events(kids) + ([End(n)] + rest), n, "CountryName")
          == Behind(FirstChildOf(kids, "CountryName"), rest)
    ensures InStep(Identity, Some(n), kids) ==>
      Fields(IdentityLevel(k), Some(n), [], Events(kids) + ([End(n)] + rest))
          == Behind(Fold(IdentityLevel(k), [], kids), rest)
    ensures InStep(Qualifiers, Some(n), kids) ==>
      QualifierUris(Events(kids) + ([End(n)] + rest), n) == Some((QualifiersOf(kids), rest))
    ensures ReadTextInside(Events(kids) + ([End(n)] + rest), n, 1) == (Some(TextInside(kids)), rest)
    ensures SkipElement(Events(kids) + ([End(n)] + rest), 1) == Some(rest)
  {
    hide InStep, LevelOk, PruneOk;
    if InStep(Leaf, Some(n), kids) { ReadLeaf(n, kids, rest); }
    if InStep(FirstChild("Name"), Some(n), kids) { ReadFirstChild(n, "Name", kids, rest); }
    if InStep(FirstChild("CountryName"), Some(n), kids) { ReadFirstChild(n, "CountryName", kids, rest); }
    if InStep(Identity, Some(n), kids) {
      IdentityOk(k);
      FieldsElement(IdentityLevel(k), n, [], kids, rest);
    }
    if InStep(Qualifiers, Some(n), kids) { ReadQualifiers(n, kids, rest); }
    ReadInside(n, kids, rest);
    SkipWhole(n, kids, rest);
  }

  lemma SmallPruned(k: Codecs, kids: Forest)
    ensures TextOf(Prune(Leaf, kids)) == TextOf(kids)
    ensures FirstChildOf(Prune(FirstChild("Name"), kids), "Name") == FirstChildOf(kids, "Name")
    ensures FirstChildOf(Prune(FirstChild("CountryName"), kids), "CountryName") == FirstChildOf(kids, "CountryName")
    ensures Fold(IdentityLevel(k), [], Prune(Identity, kids)) == Fold(IdentityLevel(k), [], kids)
    ensures QualifiersOf(Prune(Qualifiers, kids)) == QualifiersOf(kids)
    ensures TextInside(Prune(Inside, kids)) == TextInside(kids)
  {
    hide LevelOk, PruneOk;
    TextPruned(kids);
    InsidePruned(kids);
    QualifiersPruned(kids);
    FirstChildOk("Name");
    FoldPruned(FirstChildLevel("Name"), None, kids);
    FirstChildOk("CountryName");
    FoldPruned(FirstChildLevel("CountryName"), None, kids);
    IdentityOk(k);
    FoldPruned(IdentityLevel(k), [], kids);
  }

  lemma ServiceInfoFieldOk(k: Codecs, st: TrustService, n: string, kids: Forest, rest: seq<Event>)
    ensures FieldOk(ServiceInfoLevel(k), st, n, kids, rest)
  {
    hide InStep, Fields, Fold, FirstChildText, FirstChildOf, ReadText, TextOf, QualifierUris, QualifiersOf, Prune,
      Events, IdentityLevel;
    SmallReaders(k, n, kids, rest);
  }

  lemma ServiceInfoOk(k: Codecs)
    ensures LevelOk(ServiceInfoLevel(k)) && PruneOk(ServiceInfoLevel(k))
  {
    hide InStep, Fields, Fold, FirstChildText, FirstChildOf, ReadText, TextOf, QualifierUris, QualifiersOf, Prune,
      Events, IdentityLevel, FieldOk, ServiceInfoField;
    var l := ServiceInfoLevel(k);
    forall st, n, kids, rest ensures FieldOk(l, st, n, kids, rest) {
      ServiceInfoFieldOk(k, st, n, kids, rest);
    }
    forall n, kids ensures VisitOk(l, n, kids) {
      SmallPruned(k, kids);
    }
  }

  function InstanceField(k: Codecs, e: ServiceStatus, n: string, s: seq<Event>)
    : (r: Option<(ServiceStatus, seq<Event>)>)
    ensures r.Some? ==> |r.value.1| <= |s|
  {
    if n == "ServiceTypeIdentifier" then
      var (t, rest) :- ReadText(s, n);
      Some((e.(serviceType := Some(t)), rest))
    else if n == "ServiceStatus" then
      var (t, rest) :- ReadText(s, n);
      Some((e.(status := Some(t)), rest))
    else if n == "StatusStartingTime" then
      var (t, rest) :- ReadText(s, n);
      Some((e.(startingTime := k.time(t)), rest))
    else if n == "ServiceDigitalIdentity" then
      var (certs, rest) :- Fields(IdentityLevel(k), Some(n), [], s);
      Some((e.(certificates := e.certificates + certs), rest))
    else if n == "ServiceInformationExtensions" then
      var (uris, rest) :- QualifierUris(s, n);
      Some((e.(qualifiers := e.qualifiers + uris), rest))
    else SkipField(e, s)
  }

  function InstanceVisit(k: Codecs, e: ServiceStatus, n: string, kids: Forest): Option<ServiceStatus> {
    if n == "ServiceTypeIdentifier" then var t :- TextOf(kids); Some(e.(serviceType := Some(t)))
    else if n == "ServiceStatus" then var t :- TextOf(kids); Some(e.(status := Some(t)))
    else if n == "StatusStartingTime" then var t :- TextOf(kids); Some(e.(startingTime := k.time(t)))
    else if n == "ServiceDigitalIdentity" then
      var certs :- Fold(IdentityLevel(k), [], kids);
      Some(e.(certificates := e.certificates + certs))
    else if n == "ServiceInformationExtensions" then
      Some(e.(qualifiers := e.qualifiers + QualifiersOf(kids)))
    else Some(e)
  }

  function InstanceLevel(k: Codecs): Level<ServiceStatus> {
    Level(Instance, (st: ServiceStatus, n: string) => false,
          (st: ServiceStatus, n: string, s: seq<Event>) => InstanceField(k, st, n, s),
          (st: ServiceStatus, n: string, kids: Forest) => InstanceVisit(k, st, n, kids))
  }

  lemma InstanceOk(k: Codecs)
    ensures LevelOk(InstanceLevel(k)) && PruneOk(InstanceLevel(k))
  {
    hide InStep, Fields, Fold, ReadText, TextOf, QualifierUris, QualifiersOf, Prune, Events;
    var l := InstanceLevel(k);
    forall st, n, kids, rest ensures FieldOk(l, st, n, kids, rest) {
      SmallReaders(k, n, kids, rest);
    }
    forall n, kids ensures VisitOk(l, n, kids) {
      SmallPruned(k, kids);
    }
  }

  function HistoryField(k: Codecs, st: seq<ServiceStatus>, n: string, s: seq<Event>)
    : (r: Option<(seq<ServiceStatus>, seq<Event>)>)
    ensures r.Some? ==> |r.value.1| <= |s|
  {
    if n == "ServiceHistoryInstance" then
      var (x, rest) :- Fields(InstanceLevel(k), Some(n), NO_STATUS, s);
      Some((st + [x], rest))
    else Some((st, s))
  }

  function HistoryVisit(k: Codecs, st: seq<ServiceStatus>, n: string, kids: Forest): Option<seq<ServiceStatus>> {
    if n == "ServiceHistoryInstance" then
      var x :- Fold(InstanceLevel(k), NO_STATUS, kids);
      Some(st + [x])
    else Some(st)
  }

  function HistoryLevel(k: Codecs): Level<seq<ServiceStatus>> {
    Level(History, (st: seq<ServiceStatus>, n: string) => false,
          (st: seq<ServiceStatus>, n: string, s: seq<Event>) => HistoryField(k, st, n, s),
          (st: seq<ServiceStatus>, n: string, kids: Forest) => HistoryVisit(k, st, n, kids))
  }

  lemma HistoryOk(k: Codecs)
    ensures LevelOk(HistoryLevel(k)) && PruneOk(HistoryLevel(k))
  {
    hide InStep, Fields, Fold, Prune, Events, LevelOk, PruneOk;
    InstanceOk(k);
    var l := HistoryLevel(k);
    forall st, n, kids, rest ensures FieldOk(l, st, n, kids, rest) {
      if InStep(Instance, Some(n), kids) {
        FieldsElement(InstanceLevel(k), n, NO_STATUS, kids, rest);
      }
    }
    forall n, kids ensures VisitOk(l, n, kids) {
      FoldPruned(InstanceLevel(k), NO_STATUS, kids);
    }
    assert LevelOk(l) by { Collect(l); }
    assert PruneOk(l) by { CollectPrune(l); }
  }

  lemma Collect<S(!new)>(l: Level<S>)
    requires forall st, n, kids, rest :: FieldOk(l, st, n, kids, rest)
    ensures LevelOk(l)
  {
  }

  lemma CollectPrune<S(!new)>(l: Level<S>)
    requires l.context != Inside && forall n, kids :: VisitOk(l, n, kids)
    ensures PruneOk(l)
  {
  }

  function ServiceField(k: Codecs, st: TrustService, n: string, s: seq<Event>): (r: Option<(TrustService, seq<Event>)>)
    ensures r.Some? ==> |r.value.1| <= |s|
  {
    if n == "ServiceInformation" then Fields(ServiceInfoLevel(k), Some(n), st, s)
    else if n == "ServiceHistory" then
      var (v, rest) :- Fields(HistoryLevel(k), Some(n), st.history, s);
      Some((st.(history := v), rest))
    else SkipField(st, s)
  }

  function ServiceVisit(k: Codecs, st: TrustService, n: string, kids: Forest): Option<TrustService> {
    if n == "ServiceInformation" then Fold(ServiceInfoLevel(k), st, kids)
    else if n == "ServiceHistory" then
      var v :- Fold(HistoryLevel(k), st.history, kids);
      Some(st.(history := v))
    else Some(st)
  }

  function ServiceLevel(k: Codecs): Level<TrustService> {
    Level(Service, (st: TrustService, n: string) => false,
          (st: TrustService, n: string, s: seq<Event>) => ServiceField(k, st, n, s),
          (st: TrustService, n: string, kids: Forest) => ServiceVisit(k, st, n, kids))
  }

  lemma ServiceOk(k: Codecs)
    ensures LevelOk(ServiceLevel(k)) && PruneOk(ServiceLevel(k))
  {
    hide InStep, Fields, Fold, Prune, Events, LevelOk, PruneOk;
    ServiceInfoOk(k);
    HistoryOk(k);
    var l := ServiceLevel(k);
    forall st, n, kids, rest ensures FieldOk(l, st, n, kids, rest) {
      if n == "ServiceInformation" {
        if InStep(ServiceInfo, Some(n), kids) { FieldsElement(ServiceInfoLevel(k), n, st, kids, rest); }
      } else if n == "ServiceHistory" {
        if InStep(History, Some(n), kids) { FieldsElement(HistoryLevel(k), n, st.history, kids, rest); }
      } else {
        SkipWhole(n, kids, rest);
      }
    }
    forall n, kids ensures VisitOk(l, n, kids) {
      forall st: TrustService
        ensures Fold(ServiceInfoLevel(k), st, Prune(ServiceInfo, kids)) == Fold(ServiceInfoLevel(k), st, kids)
        ensures Fold(HistoryLevel(k), st.history, Prune(History, kids)) == Fold(HistoryLevel(k), st.history, kids)
      {
        FoldPruned(ServiceInfoLevel(k), st, kids);
        FoldPruned(HistoryLevel(k), st.history, kids);
      }
    }
    Collect(l);
    CollectPrune(l);
  }

  function ServicesField(k: Codecs, st: seq<TrustService>, n: string, s: seq<Event>)
    : (r: Option<(seq<TrustService>, seq<Event>)>)
    ensures r.Some? ==> |r.value.1| <= |s|
  {
    if n == "TSPService" then
      var (x, rest) :- Fields(ServiceLevel(k), Some(n), NO_SERVICE, s);
      Some((st + [x], rest))
    else Some((st, s))
  }

  function ServicesVisit(k: Codecs, st: seq<TrustService>, n: string, kids: Forest): Option<seq<TrustService>> {
    if n == "TSPService" then
      var x :- Fold(ServiceLevel(k), NO_SERVICE, kids);
      Some(st + [x])
    else Some(st)
  }

  function ServicesLevel(k: Codecs): Level<seq<TrustService>> {
    Level(Services, (st: seq<TrustService>, n: string) => false,
          (st: seq<TrustService>, n: string, s: seq<Event>) => ServicesField(k, st, n, s),
          (st: seq<TrustService>, n: string, kids: Forest) => ServicesVisit(k, st, n, kids))
  }

  lemma ServicesOk(k: Codecs)
    ensures LevelOk(ServicesLevel(k)) && PruneOk(ServicesLevel(k))
  {
    hide InStep, Fields, Fold, Prune, Events, LevelOk, PruneOk;
    ServiceOk(k);
    var l := ServicesLevel(k);
    forall st, n, kids, rest ensures FieldOk(l, st, n, kids, rest) {
      if InStep(Service, Some(n), kids) { FieldsElement(ServiceLevel(k), n, NO_SERVICE, kids, rest); }
    }
    forall n, kids ensures VisitOk(l, n, kids) {
      FoldPruned(ServiceLevel(k), NO_SERVICE, kids);
    }
    Collect(l);
    CollectPrune(l);
  }

  function TspInfoField(p: Provider, n: string, s: seq<Event>): (r: Option<(Provider, seq<Event>)>)
    ensures r.Some? ==> |r.value.1| <= |s|
  {
    if n == "TSPName" then
      var (t, rest) :- FirstChildText(s, n, "Name");
      Some((p.(name := Some(OrEmpty(t))), rest))
    else if n == "TSPTradeName" then
      var (t, rest) :- FirstChildText(s, n, "Name");
      Some((p.(tradeName := Some(OrEmpty(t))), rest))
    else if n == "TSPAddress" then
      var (t, rest) :- FirstChildText(s, n, "CountryName");
      Some((p.(country := t), rest))
    else SkipField(p, s)
  }

  function TspInfoVisit(p: Provider, n: string, kids: Forest): Option<Provider> {
    if n == "TSPName" then var t :- FirstChildOf(kids, "Name"); Some(p.(name := Some(OrEmpty(t))))
    else if n == "TSPTradeName" then var t :- FirstChildOf(kids, "Name"); Some(p.(tradeName := Some(OrEmpty(t))))
    else if n == "TSPAddress" then var t :- FirstChildOf(kids, "CountryName"); Some(p.(country := t))
    else Some(p)
  }

  function TspInfoLevel(): Level<Provider> {
    Level(TspInfo, (st: Provider, n: string) => false,
          (st: Provider, n: string, s: seq<Event>) => TspInfoField(st, n, s),
          (st: Provider, n: string, kids: Forest) => TspInfoVisit(st, n, kids))
  }

  lemma TspInfoOk(k: Codecs)
    ensures LevelOk(TspInfoLevel()) && PruneOk(TspInfoLevel())
  {
    hide InStep, Fields, Fold, FirstChildText, FirstChildOf, Prune, Events;
    var l := TspInfoLevel();
    forall st, n, kids, rest ensures FieldOk(l, st, n, kids, rest) {
      SmallReaders(k, n, kids, rest);
    }
    forall n, kids ensures VisitOk(l, n, kids) {
      SmallPruned(k, kids);
    }
  }

  function TspField(k: Codecs, st: Provider, n: string, s: seq<Event>): (r: Option<(Provider, seq<Event>)>)
    ensures r.Some? ==> |r.value.1| <= |s|
  {
    if n == "TSPInformation" then Fields(TspInfoLevel(), Some(n), st, s)
    else if n == "TSPServices" then
      var (v, rest) :- Fields(ServicesLevel(k), Some(n), st.services, s);
      Some((st.(services := v), rest))
    else SkipField(st, s)
  }

  function TspVisit(k: Codecs, st: Provider, n: string, kids: Forest): Option<Provider> {
    if n == "TSPInformation" then Fold(TspInfoLevel(), st, kids)
    else if n == "TSPServices" then
      var v :- Fold(ServicesLevel(k), st.services, kids);
      Some(st.(services := v))
    else Some(st)
  }

  function TspLevel(k: Codecs): Level<Provider> {
    Level(Tsp, (st: Provider, n: string) => false,
          (st: Provider, n: string, s: seq<Event>) => TspField(k, st, n, s),
          (st: Provider, n: string, kids: Forest) => TspVisit(k, st, n, kids))
  }

  lemma TspOk(k: Codecs)
    ensures LevelOk(TspLevel(k)) && PruneOk(TspLevel(k))
  {
    hide InStep, Fields, Fold, Prune, Events, LevelOk, PruneOk;
    TspInfoOk(k);
    ServicesOk(k);
    var l := TspLevel(k);
    forall st, n, kids, rest ensures FieldOk(l, st, n, kids, rest) {
      if n == "TSPInformation" {
        if InStep(TspInfo, Some(n), kids) { FieldsElement(TspInfoLevel(), n, st, kids, rest); }
      } else if n == "TSPServices" {
        if InStep(Services, Some(n), kids) { FieldsElement(ServicesLevel(k), n, st.services, kids, rest); }
      } else {
        SkipWhole(n, kids, rest);
      }
    }
    forall n, kids ensures VisitOk(l, n, kids) {
      forall st: Provider
        ensures Fold(TspInfoLevel(), st, Prune(TspInfo, kids)) == Fold(TspInfoLevel(), st, kids)
        ensures Fold(ServicesLevel(k), st.services, Prune(Services, kids)) == Fold(ServicesLevel(k), st.services, kids)
      {
        FoldPruned(TspInfoLevel(), st, kids);
        FoldPruned(ServicesLevel(k), st.services, kids);
      }
    }
    Collect(l);
    CollectPrune(l);
  }

  function ProvidersField(k: Codecs, st: seq<Provider>, n: string, s: seq<Event>)
    : (r: Option<(seq<Provider>, seq<Event>)>)
    ensures r.Some? ==> |r.value.1| <= |s|
  {
    if n == "TrustServiceProvider" then
      var (x, rest) :- Fields(TspLevel(k), Some(n), NO_PROVIDER, s);
      Some((st + [x], rest))
    else Some((st, s))
  }

  function ProvidersVisit(k: Codecs, st: seq<Provider>, n: string, kids: Forest): Option<seq<Provider>> {
    if n == "TrustServiceProvider" then
      var x :- Fold(TspLevel(k), NO_PROVIDER, kids);
      Some(st + [x])
    else Some(st)
  }

  function ProvidersLevel(k: Codecs): Level<seq<Provider>> {
    Level(ProviderList, (st: seq<Provider>, n: string) => false,
          (st: seq<Provider>, n: string, s: seq<Event>) => ProvidersField(k, st, n, s),
          (st: seq<Provider>, n: string, kids: Forest) => ProvidersVisit(k, st, n, kids))
  }

  lemma ProvidersOk(k: Codecs)
    ensures LevelOk(ProvidersLevel(k)) && PruneOk(ProvidersLevel(k))
  {
    hide InStep, Fields, Fold, Prune, Events, LevelOk, PruneOk;
    TspOk(k);
    var l := ProvidersLevel(k);
    forall st, n, kids, rest ensures FieldOk(l, st, n, kids, rest) {
      if InStep(Tsp, Some(n), kids) { FieldsElement(TspLevel(k), n, NO_PROVIDER, kids, rest); }
    }
    forall n, kids ensures VisitOk(l, n, kids) {
      FoldPruned(TspLevel(k), NO_PROVIDER, kids);
    }
    Collect(l);
    CollectPrune(l);
  }

  function SchemeField(k: Codecs, tl: TrustedList, n: string, s: seq<Event>): (r: Option<(TrustedList, seq<Event>)>)
    ensures r.Some? ==> |r.value.1| <= |s|
  {
    if n == "SchemeTerritory" then
      var (t, rest) :- ReadText(s, n);
      Some((tl.(territory := Some(t)), rest))
    else if n == "TSLSequenceNumber" then
      var (t, rest) :- ReadText(s, n);
      Some((tl.(sequenceNumber := k.number(t)), rest))
    else if n == "ListIssueDateTime" then
      var (t, rest) :- ReadText(s, n);
      Some((tl.(issueTime := k.time(t)), rest))
    else if n == "SchemeTypeCommunityRules" || n == "SchemeType" then
      if tl.schemeType.Some? then Some((tl, s))
      else
        var (t, rest) := ReadTextInside(s, n, 1);
        Some((tl.(schemeType := Some(OrEmpty(t))), rest))
    else if n == "NextUpdate" then
      var (t, rest) := ReadTextInside(s, n, 1);
      Some((tl.(nextUpdate := k.time(OrEmpty(t))), rest))
    else SkipField(tl, s)
  }

  function SchemeVisit(k: Codecs, tl: TrustedList, n: string, kids: Forest): Option<TrustedList> {
    if n == "SchemeTerritory" then var t :- TextOf(kids); Some(tl.(territory := Some(t)))
    else if n == "TSLSequenceNumber" then var t :- TextOf(kids); Some(tl.(sequenceNumber := k.number(t)))
    else if n == "ListIssueDateTime" then var t :- TextOf(kids); Some(tl.(issueTime := k.time(t)))
    else if n == "SchemeTypeCommunityRules" || n == "SchemeType" then
      Some(tl.(schemeType := Some(TextInside(kids))))
    else if n == "NextUpdate" then Some(tl.(nextUpdate := k.time(TextInside(kids))))
    else Some(tl)
  }

  /** Only the first scheme type is taken; the loop then walks into any other. */
  function SchemeLevel(k: Codecs): Level<TrustedList> {
    Level(Scheme, (st: TrustedList, n: string) => st.schemeType.Some?,
          (st: TrustedList, n: string, s: seq<Event>) => SchemeField(k, st, n, s),
          (st: TrustedList, n: string, kids: Forest) => SchemeVisit(k, st, n, kids))
  }

  lemma SchemeOk(k: Codecs)
    ensures LevelOk(SchemeLevel(k)) && PruneOk(SchemeLevel(k))
  {
    hide InStep, ReadText, TextOf, ReadTextInside, TextInside, Prune, Events;
    var l := SchemeLevel(k);
    forall st, n, kids, rest ensures FieldOk(l, st, n, kids, rest) {
      SmallReaders(k, n, kids, rest);
    }
    forall n, kids ensures VisitOk(l, n, kids) {
      SmallPruned(k, kids);
    }
  }

  function DocumentField(k: Codecs, st: TrustedList, n: string, s: seq<Event>): (r: Option<(TrustedList, seq<Event>)>)
    ensures r.Some? ==> |r.value.1| <= |s|
  {
    if n == "SchemeInformation" then Fields(SchemeLevel(k), Some(n), st, s)
    else if n == "TrustServiceProviderList" then
      var (v, rest) :- Fields(ProvidersLevel(k), Some(n), st.providers, s);
      Some((st.(providers := v), rest))
    else Some((st, s))
  }

  function DocumentVisit(k: Codecs, st: TrustedList, n: string, kids: Forest): Option<TrustedList> {
    if n == "SchemeInformation" then Fold(SchemeLevel(k), st, kids)
    else if n == "TrustServiceProviderList" then
      var v :- Fold(ProvidersLevel(k), st.providers, kids);
      Some(st.(providers := v))
    else Some(st)
  }

  function DocumentLevel(k: Codecs): Level<TrustedList> {
    Level(Document, (st: TrustedList, n: string) => false,
          (st: TrustedList, n: string, s: seq<Event>) => DocumentField(k, st, n, s),
          (st: TrustedList, n: string, kids: Forest) => DocumentVisit(k, st, n, kids))
  }

  lemma DocumentOk(k: Codecs)
    ensures LevelOk(DocumentLevel(k)) && PruneOk(DocumentLevel(k))
  {
    hide InStep, Fields, Fold, Prune, Events, LevelOk, PruneOk;
    SchemeOk(k);
    ProvidersOk(k);
    var l := DocumentLevel(k);
    forall st, n, kids, rest ensures FieldOk(l, st, n, kids, rest) {
      if n == "SchemeInformation" {
        if InStep(Scheme, Some(n), kids) { FieldsElement(SchemeLevel(k), n, st, kids, rest); }
      } else if n == "TrustServiceProviderList" {
        if InStep(ProviderList, Some(n), kids) { FieldsElement(ProvidersLevel(k), n, st.providers, kids, rest); }
      }
    }
    forall n, kids ensures VisitOk(l, n, kids) {
      forall st: TrustedList
        ensures Fold(SchemeLevel(k), st, Prune(Scheme, kids)) == Fold(SchemeLevel(k), st, kids)
        ensures Fold(ProvidersLevel(k), st.providers, Prune(ProviderList, kids))
            == Fold(ProvidersLevel(k), st.providers, kids)
      {
        FoldPruned(SchemeLevel(k), st, kids);
        FoldPruned(ProvidersLevel(k), st.providers, kids);
      }
    }
    Collect(l);
    CollectPrune(l);
  }

  /** The trusted list a document tree denotes, or nothing when a leaf does not decode. */
  function ListOf(k: Codecs, f: Forest): Option<TrustedList> {
    Fold(DocumentLevel(k), NO_LIST, f)
  }

  /** What the parser returns for any event stream. */
  function ParseEvents(k: Codecs, s: seq<Event>): Option<TrustedList> {
    var (tl, _) :- Fields(DocumentLevel(k), None, NO_LIST, s);
    Some(tl)
  }

  /** Every loop stays in step with the tree: parsing a document in step yields the list it denotes. */
  lemma ParserFollowsTree(k: Codecs, f: Forest)
    requires InStep(Document, None, f)
    ensures ParseEvents(k, Events(f)) == ListOf(k, f)
  {
    hide LevelOk, PruneOk;
    DocumentOk(k);
    FieldsFold(DocumentLevel(k), None, NO_LIST, f, []);
    assert Events(f) + [] == Events(f);
  }

  /**
   Unknown subtrees inserted where the parser skips, and comments anywhere, change nothing: all
   documents in step with the same pruned tree parse alike.
   */
  lemma SkippedSubtreesNeverLeak(k: Codecs, f: Forest, g: Forest)
    requires InStep(Document, None, f) && Prune(Document, f) == Prune(Document, g)
    ensures InStep(Document, None, g) && ParseEvents(k, Events(f)) == ParseEvents(k, Events(g))
  {
    hide LevelOk, PruneOk;
    PruneKeepsStep(Document, None, f);
    PruneKeepsStep(Document, None, g);
    ParserFollowsTree(k, f);
    ParserFollowsTree(k, g);
    DocumentOk(k);
    FoldPruned(DocumentLevel(k), NO_LIST, f);
    FoldPruned(DocumentLevel(k), NO_LIST, g);
  }
}
