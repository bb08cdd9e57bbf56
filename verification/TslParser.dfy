/**
 The trusted-list parser: loops that share one reader, each from the start tag of its element to
 the end tag (`crates/eidas-trust/src/parse.rs`).
 */
module TslParser {
  import opened Wrappers
  import opened TrustModel
  import opened TslTree
  import opened TslLevels

  /** The pull reader: the events not yet read. */
  class Reader {
    var rest: seq<Event>

    constructor (events: seq<Event>)
      ensures rest == events
    {
      rest := events;
    }

    /** `None` is the end of input, which stays the end however often it is read. */
    method Next() returns (e: Option<Event>)
      modifies this
      ensures old(rest) == [] ==> e.None? && rest == []
      ensures old(rest) != [] ==> e == Some(old(rest)[0]) && rest == old(rest)[1..]
    {
      if rest == [] {
        return None;
      }
      e := Some(rest[0]);
      rest := rest[1..];
    }
  }

  /** What was returned and what is left to read are what the specification says; an error ends the parse. */
  ghost predicate Delivers<S>(spec: Option<(S, seq<Event>)>, r: Option<S>, rest: seq<Event>) {
    match spec
    case None => r.None?
    case Some((x, after)) => r == Some(x) && rest == after
  }

  // ---------- small utilities ----------

  method ReadTextUntil(reader: Reader, closing: string) returns (r: Option<string>)
    modifies reader
    ensures Delivers(ReadText(old(reader.rest), closing), r, reader.rest)
  {
    var out := "";
    ghost var goal := ReadText(reader.rest, closing);
    PrependTwice(Some(""), None, goal);
    while true
      invariant goal == PrependText(Some(out), ReadText(reader.rest, closing))
      decreases |reader.rest|
    {
      var e := reader.Next();
      match e {
        case None => break;
        case Some(End(n)) =>
          if n == closing {
            break;
          }
        case Some(Text(t)) =>
          var u :- t;
          PrependTwice(Some(out), Some(u), ReadText(reader.rest, closing));
          out := out + u;
        case Some(CData(d)) =>
          PrependTwice(Some(out), Some(d), ReadText(reader.rest, closing));
          out := out + d;
        case Some(ReadError) => return None;
        case Some(_) =>
      }
    }
    assert out + "" == out;
    return Some(out);
  }

  method ReadTextInsideUntil(reader: Reader, closing: string) returns (r: Option<string>)
    modifies reader
    ensures (r, reader.rest) == ReadTextInside(old(reader.rest), closing, 1)
  {
    var out, depth := "", 1;
    ghost var goal := ReadTextInside(reader.rest, closing, 1);
    PrependInsideTwice("", "", goal);
    while true
      invariant goal == PrependInside(out, ReadTextInside(reader.rest, closing, depth))
      decreases |reader.rest|
    {
      var e := reader.Next();
      match e {
        case None => break;
        case Some(Start(_, _)) => depth := depth + 1;
        case Some(End(n)) =>
          if n == closing {
            depth := depth - 1;
            if depth == 0 {
              break;
            }
          } else {
            depth := depth - 1;
          }
        case Some(Text(t)) =>
          PrependInsideTwice(out, if t.Some? then t.value else "", ReadTextInside(reader.rest, closing, depth));
          if t.Some? {
            out := out + t.value;
          } else {
            assert out + "" == out;
          }
        case Some(CData(d)) =>
          PrependInsideTwice(out, d, ReadTextInside(reader.rest, closing, depth));
          out := out + d;
        case Some(ReadError) => return None;
        case Some(_) =>
      }
    }
    assert out + "" == out;
    return Some(out);
  }

  method SkipToEnd(reader: Reader) returns (r: Option<()>)
    modifies reader
    ensures Delivers(SkipField((), old(reader.rest)), r, reader.rest)
  {
    var depth: nat := 1;
    ghost var goal := SkipElement(reader.rest, 1);
    while depth > 0
      invariant goal == SkipElement(reader.rest, depth)
      decreases |reader.rest|, depth
    {
      var e := reader.Next();
      match e {
        case Some(Start(_, _)) => depth := depth + 1;
        case Some(End(_)) => depth := depth - 1;
        case None => break;
        case Some(ReadError) => return None;
        case Some(_) =>
      }
    }
    return Some(());
  }

  /** Text of the first `child` below, in the two forms the callers use. */
  method FindFirstChild(reader: Reader, closing: string, child: string) returns (r: Option<Option<string>>)
    modifies reader
    ensures Delivers(FirstChildText(old(reader.rest), closing, child), r, reader.rest)
  {
    var found: Option<string> := None;
    ghost var l := FirstChildLevel(child);
    ghost var goal := Fields(l, Some(closing), found, reader.rest);
    while true
      invariant goal == Fields(l, Some(closing), found, reader.rest)
      decreases |reader.rest|
    {
      var e := reader.Next();
      match e {
        case None => break;
        case Some(End(n)) =>
          if n == closing {
            break;
          }
        case Some(Start(n, _)) =>
          if n == child && found.None? {
            var t :- ReadTextUntil(reader, child);
            found := Some(t);
          }
        case Some(ReadError) => return None;
        case Some(_) =>
      }
    }
    return Some(found);
  }

  method ReadFirstName(reader: Reader, closing: string) returns (r: Option<string>)
    modifies reader
    ensures Delivers(FirstName(old(reader.rest), closing), r, reader.rest)
  {
    var found :- FindFirstChild(reader, closing, "Name");
    return Some(OrEmpty(found));
  }

  function FirstName(s: seq<Event>, closing: string): (r: Option<(string, seq<Event>)>)
    ensures r.Some? ==> |r.value.1| <= |s|
  {
    var (t, rest) :- FirstChildText(s, closing, "Name");
    Some((OrEmpty(t), rest))
  }

  // ---------- services ----------

  method ParseDigitalIdentity(reader: Reader, k: Codecs, closing: string) returns (r: Option<seq<Certificate>>)
    modifies reader
    ensures Delivers(Fields(IdentityLevel(k), Some(closing), [], old(reader.rest)), r, reader.rest)
  {
    var out: seq<Certificate> := [];
    ghost var l := IdentityLevel(k);
    ghost var goal := Fields(l, Some(closing), out, reader.rest);
    while true
      invariant goal == Fields(l, Some(closing), out, reader.rest)
      decreases |reader.rest|
    {
      var e := reader.Next();
      match e {
        case None => break;
        case Some(End(n)) =>
          if n == closing {
            break;
          }
        case Some(Start(n, _)) =>
          if n == "X509Certificate" {
            assert l.field(out, n, reader.rest) == IdentityField(k, out, n, reader.rest);
            var b64 :- ReadTextUntil(reader, "X509Certificate");
            var cert :- k.cert(b64);
            out := out + [cert];
          }
        case Some(ReadError) => return None;
        case Some(_) =>
      }
    }
    return Some(out);
  }

  method PushUris(attrs: seq<Attr>, out: seq<string>) returns (r: seq<string>)
    ensures r == out + Uris(attrs)
  {
    r := out;
    for i := 0 to |attrs|
      invariant r == out + Uris(attrs[..i])
    {
      assert attrs[..i + 1][..i] == attrs[..i];
      if attrs[i].key == "uri" {
        if attrs[i].value.Some? {
          r := r + [attrs[i].value.value];
        }
      }
    }
    assert attrs[..|attrs|] == attrs;
  }

  method ParseQualifiers(reader: Reader, closing: string) returns (r: Option<seq<string>>)
    modifies reader
    ensures Delivers(QualifierUris(old(reader.rest), closing), r, reader.rest)
  {
    var out: seq<string> := [];
    ghost var goal := QualifierUris(reader.rest, closing);
    PrependUrisTwice([], [], goal);
    while true
      invariant goal == PrependUris(out, QualifierUris(reader.rest, closing))
      decreases |reader.rest|
    {
      var e := reader.Next();
      match e {
        case None => break;
        case Some(End(n)) =>
          if n == closing {
            break;
          }
        case Some(Start(n, attrs)) =>
          PrependUrisTwice(out, UrisOn(n, attrs), QualifierUris(reader.rest, closing));
          if n == "Qualifier" {
            out := PushUris(attrs, out);
          }
        case Some(Empty(n, attrs)) =>
          PrependUrisTwice(out, UrisOn(n, attrs), QualifierUris(reader.rest, closing));
          if n == "Qualifier" {
            out := PushUris(attrs, out);
          }
        case Some(ReadError) => return None;
        case Some(_) =>
      }
    }
    assert out + [] == out;
    return Some(out);
  }

  method ParseServiceInformation(reader: Reader, k: Codecs, svc0: TrustService) returns (r: Option<TrustService>)
    modifies reader
    ensures Delivers(Fields(ServiceInfoLevel(k), Some("ServiceInformation"), svc0, old(reader.rest)), r, reader.rest)
  {
    hide ReadText, FirstChildText, QualifierUris, IdentityLevel, SkipElement;
    var svc := svc0;
    ghost var l := ServiceInfoLevel(k);
    ghost var goal := Fields(l, Some("ServiceInformation"), svc, reader.rest);
    while true
      invariant goal == Fields(l, Some("ServiceInformation"), svc, reader.rest)
      decreases |reader.rest|
    {
      var e := reader.Next();
      match e {
        case None => break;
        case Some(End(n)) =>
          if n == "ServiceInformation" {
            break;
          }
        case Some(Start(n, _)) =>
          assert l.field(svc, n, reader.rest) == ServiceInfoField(k, svc, n, reader.rest);
          if n == "ServiceTypeIdentifier" {
            var t :- ReadTextUntil(reader, n);
            svc := svc.(serviceType := Some(t));
          } else if n == "ServiceName" {
            var t :- ReadFirstName(reader, n);
            svc := svc.(name := Some(t));
          } else if n == "ServiceStatus" {
            var t :- ReadTextUntil(reader, n);
            svc := svc.(currentStatus := Some(t));
          } else if n == "StatusStartingTime" {
            var t :- ReadTextUntil(reader, n);
            svc := svc.(startingTime := k.time(t));
          } else if n == "ServiceDigitalIdentity" {
            var certs :- ParseDigitalIdentity(reader, k, n);
            svc := svc.(certificates := svc.certificates + certs);
          } else if n == "ServiceInformationExtensions" {
            var uris :- ParseQualifiers(reader, n);
            svc := svc.(qualifiers := svc.qualifiers + uris);
          } else {
            var _ :- SkipToEnd(reader);
          }
        case Some(ReadError) => return None;
        case Some(_) =>
      }
    }
    return Some(svc);
  }

  /** The inner loop of the service history: the fields of one instance. */
  method ParseHistoryInstance(reader: Reader, k: Codecs) returns (r: Option<ServiceStatus>)
    modifies reader
    ensures Delivers(Fields(InstanceLevel(k), Some("ServiceHistoryInstance"), NO_STATUS, old(reader.rest)), r,
        reader.rest)
  {
    hide ReadText, QualifierUris, IdentityLevel, SkipElement;
    var entry := NO_STATUS;
    ghost var l := InstanceLevel(k);
    ghost var goal := Fields(l, Some("ServiceHistoryInstance"), entry, reader.rest);
    while true
      invariant goal == Fields(l, Some("ServiceHistoryInstance"), entry, reader.rest)
      decreases |reader.rest|
    {
      var e := reader.Next();
      match e {
        case None => break;
        case Some(End(n)) =>
          if n == "ServiceHistoryInstance" {
            break;
          }
        case Some(Start(n, _)) =>
          assert l.field(entry, n, reader.rest) == InstanceField(k, entry, n, reader.rest);
          if n == "ServiceTypeIdentifier" {
            var t :- ReadTextUntil(reader, n);
            entry := entry.(serviceType := Some(t));
          } else if n == "ServiceStatus" {
            var t :- ReadTextUntil(reader, n);
            entry := entry.(status := Some(t));
          } else if n == "StatusStartingTime" {
            var t :- ReadTextUntil(reader, n);
            entry := entry.(startingTime := k.time(t));
          } else if n == "ServiceDigitalIdentity" {
            var certs :- ParseDigitalIdentity(reader, k, n);
            entry := entry.(certificates := entry.certificates + certs);
          } else if n == "ServiceInformationExtensions" {
            var uris :- ParseQualifiers(reader, n);
            entry := entry.(qualifiers := entry.qualifiers + uris);
          } else {
            var _ :- SkipToEnd(reader);
          }
        case Some(ReadError) => return None;
        case Some(_) =>
      }
    }
    return Some(entry);
  }

  method ParseServiceHistory(reader: Reader, k: Codecs, history0: seq<ServiceStatus>)
    returns (r: Option<seq<ServiceStatus>>)
    modifies reader
    ensures Delivers(Fields(HistoryLevel(k), Some("ServiceHistory"), history0, old(reader.rest)), r, reader.rest)
  {
    hide InstanceLevel;
    var history := history0;
    ghost var l := HistoryLevel(k);
    ghost var goal := Fields(l, Some("ServiceHistory"), history, reader.rest);
    while true
      invariant goal == Fields(l, Some("ServiceHistory"), history, reader.rest)
      decreases |reader.rest|
    {
      var e := reader.Next();
      match e {
        case None => break;
        case Some(End(n)) =>
          if n == "ServiceHistory" {
            break;
          }
        case Some(Start(n, _)) =>
          if n == "ServiceHistoryInstance" {
            assert l.field(history, n, reader.rest) == HistoryField(k, history, n, reader.rest);
            var entry :- ParseHistoryInstance(reader, k);
            history := history + [entry];
          }
        case Some(ReadError) => return None;
        case Some(_) =>
      }
    }
    return Some(history);
  }

  method ParseTspService(reader: Reader, k: Codecs) returns (r: Option<TrustService>)
    modifies reader
    ensures Delivers(Fields(ServiceLevel(k), Some("TSPService"), NO_SERVICE, old(reader.rest)), r, reader.rest)
  {
    hide SkipElement, ServiceInfoLevel, HistoryLevel;
    var svc := NO_SERVICE;
    ghost var l := ServiceLevel(k);
    ghost var goal := Fields(l, Some("TSPService"), svc, reader.rest);
    while true
      invariant goal == Fields(l, Some("TSPService"), svc, reader.rest)
      decreases |reader.rest|
    {
      var e := reader.Next();
      match e {
        case None => break;
        case Some(End(n)) =>
          if n == "TSPService" {
            break;
          }
        case Some(Start(n, _)) =>
          assert l.field(svc, n, reader.rest) == ServiceField(k, svc, n, reader.rest);
          if n == "ServiceInformation" {
            svc :- ParseServiceInformation(reader, k, svc);
          } else if n == "ServiceHistory" {
            var history :- ParseServiceHistory(reader, k, svc.history);
            svc := svc.(history := history);
          } else {
            var _ :- SkipToEnd(reader);
          }
        case Some(ReadError) => return None;
        case Some(_) =>
      }
    }
    return Some(svc);
  }

  method ParseTspServices(reader: Reader, k: Codecs, services0: seq<TrustService>)
    returns (r: Option<seq<TrustService>>)
    modifies reader
    ensures Delivers(Fields(ServicesLevel(k), Some("TSPServices"), services0, old(reader.rest)), r, reader.rest)
  {
    hide ServiceLevel;
    var services := services0;
    ghost var l := ServicesLevel(k);
    ghost var goal := Fields(l, Some("TSPServices"), services, reader.rest);
    while true
      invariant goal == Fields(l, Some("TSPServices"), services, reader.rest)
      decreases |reader.rest|
    {
      var e := reader.Next();
      match e {
        case None => break;
        case Some(End(n)) =>
          if n == "TSPServices" {
            break;
          }
        case Some(Start(n, _)) =>
          if n == "TSPService" {
            assert l.field(services, n, reader.rest) == ServicesField(k, services, n, reader.rest);
            var svc :- ParseTspService(reader, k);
            services := services + [svc];
          }
        case Some(ReadError) => return None;
        case Some(_) =>
      }
    }
    return Some(services);
  }

  // ---------- providers ----------

  method ParseTspInformation(reader: Reader, tsp0: Provider) returns (r: Option<Provider>)
    modifies reader
    ensures Delivers(Fields(TspInfoLevel(), Some("TSPInformation"), tsp0, old(reader.rest)), r, reader.rest)
  {
    hide FirstChildText, SkipElement;
    var tsp := tsp0;
    ghost var l := TspInfoLevel();
    ghost var goal := Fields(l, Some("TSPInformation"), tsp, reader.rest);
    while true
      invariant goal == Fields(l, Some("TSPInformation"), tsp, reader.rest)
      decreases |reader.rest|
    {
      var e := reader.Next();
      match e {
        case None => break;
        case Some(End(n)) =>
          if n == "TSPInformation" {
            break;
          }
        case Some(Start(n, _)) =>
          assert l.field(tsp, n, reader.rest) == TspInfoField(tsp, n, reader.rest);
          if n == "TSPName" {
            var t :- ReadFirstName(reader, n);
            tsp := tsp.(name := Some(t));
          } else if n == "TSPTradeName" {
            var t :- ReadFirstName(reader, n);
            tsp := tsp.(tradeName := Some(t));
          } else if n == "TSPAddress" {
            var country :- FindFirstChild(reader, n, "CountryName");
            tsp := tsp.(country := country);
          } else {
            var _ :- SkipToEnd(reader);
          }
        case Some(ReadError) => return None;
        case Some(_) =>
      }
    }
    return Some(tsp);
  }

  method ParseTsp(reader: Reader, k: Codecs) returns (r: Option<Provider>)
    modifies reader
    ensures Delivers(Fields(TspLevel(k), Some("TrustServiceProvider"), NO_PROVIDER, old(reader.rest)), r, reader.rest)
  {
    hide SkipElement, TspInfoLevel, ServicesLevel;
    var tsp := NO_PROVIDER;
    ghost var l := TspLevel(k);
    ghost var goal := Fields(l, Some("TrustServiceProvider"), tsp, reader.rest);
    while true
      invariant goal == Fields(l, Some("TrustServiceProvider"), tsp, reader.rest)
      decreases |reader.rest|
    {
      var e := reader.Next();
      match e {
        case None => break;
        case Some(End(n)) =>
          if n == "TrustServiceProvider" {
            break;
          }
        case Some(Start(n, _)) =>
          assert l.field(tsp, n, reader.rest) == TspField(k, tsp, n, reader.rest);
          if n == "TSPInformation" {
            tsp :- ParseTspInformation(reader, tsp);
          } else if n == "TSPServices" {
            var services :- ParseTspServices(reader, k, tsp.services);
            tsp := tsp.(services := services);
          } else {
            var _ :- SkipToEnd(reader);
          }
        case Some(ReadError) => return None;
        case Some(_) =>
      }
    }
    return Some(tsp);
  }

  method ParseProviderList(reader: Reader, k: Codecs, providers0: seq<Provider>) returns (r: Option<seq<Provider>>)
    modifies reader
    ensures Delivers(Fields(ProvidersLevel(k), Some("TrustServiceProviderList"), providers0, old(reader.rest)), r,
        reader.rest)
  {
    hide TspLevel;
    var providers := providers0;
    ghost var l := ProvidersLevel(k);
    ghost var goal := Fields(l, Some("TrustServiceProviderList"), providers, reader.rest);
    while true
      invariant goal == Fields(l, Some("TrustServiceProviderList"), providers, reader.rest)
      decreases |reader.rest|
    {
      var e := reader.Next();
      match e {
        case None => break;
        case Some(End(n)) =>
          if n == "TrustServiceProviderList" {
            break;
          }
        case Some(Start(n, _)) =>
          if n == "TrustServiceProvider" {
            assert l.field(providers, n, reader.rest) == ProvidersField(k, providers, n, reader.rest);
            var tsp :- ParseTsp(reader, k);
            providers := providers + [tsp];
          }
        case Some(ReadError) => return None;
        case Some(_) =>
      }
    }
    return Some(providers);
  }

  // ---------- the list ----------

  method ParseSchemeInformation(reader: Reader, k: Codecs, out0: TrustedList) returns (r: Option<TrustedList>)
    modifies reader
    ensures Delivers(Fields(SchemeLevel(k), Some("SchemeInformation"), out0, old(reader.rest)), r, reader.rest)
  {
    hide ReadText, ReadTextInside, SkipElement;
    var out := out0;
    ghost var l := SchemeLevel(k);
    ghost var goal := Fields(l, Some("SchemeInformation"), out, reader.rest);
    while true
      invariant goal == Fields(l, Some("SchemeInformation"), out, reader.rest)
      decreases |reader.rest|
    {
      var e := reader.Next();
      match e {
        case None => break;
        case Some(End(n)) =>
          if n == "SchemeInformation" {
            break;
          }
        case Some(Start(n, _)) =>
          assert l.field(out, n, reader.rest) == SchemeField(k, out, n, reader.rest);
          if n == "SchemeTerritory" {
            var t :- ReadTextUntil(reader, n);
            out := out.(territory := Some(t));
          } else if n == "SchemeTypeCommunityRules" || n == "SchemeType" {
            // A later one is not read here: the loop walks into it.
            if out.schemeType.None? {
              var t := ReadTextInsideUntil(reader, n);
              out := out.(schemeType := Some(OrEmpty(t)));
            }
          } else if n == "TSLSequenceNumber" {
            var t :- ReadTextUntil(reader, n);
            out := out.(sequenceNumber := k.number(t));
          } else if n == "ListIssueDateTime" {
            var t :- ReadTextUntil(reader, n);
            out := out.(issueTime := k.time(t));
          } else if n == "NextUpdate" {
            var t := ReadTextInsideUntil(reader, n);
            out := out.(nextUpdate := k.time(OrEmpty(t)));
          } else {
            var _ :- SkipToEnd(reader);
          }
        case Some(ReadError) => return None;
        case Some(_) =>
      }
    }
    return Some(out);
  }

  method ParseTrustedList(xml: seq<Event>, k: Codecs) returns (r: Option<TrustedList>)
    ensures r == ParseEvents(k, xml)
  {
    hide SchemeLevel, ProvidersLevel;
    var reader := new Reader(xml);
    var out := NO_LIST;
    ghost var l := DocumentLevel(k);
    ghost var goal := Fields(l, None, out, reader.rest);
    while true
      invariant fresh(reader)
      invariant goal == Fields(l, None, out, reader.rest)
      decreases |reader.rest|
    {
      var e := reader.Next();
      match e {
        case None => break;
        case Some(Start(n, _)) =>
          assert l.field(out, n, reader.rest) == DocumentField(k, out, n, reader.rest);
          if n == "SchemeInformation" {
            out :- ParseSchemeInformation(reader, k, out);
          } else if n == "TrustServiceProviderList" {
            var providers :- ParseProviderList(reader, k, out.providers);
            out := out.(providers := providers);
          }
        case Some(ReadError) => return None;
        case Some(_) =>
      }
    }
    return Some(out);
  }
}
