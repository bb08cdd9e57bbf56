/** The parser's readers in plain terms: which text, which child, which attributes, and what each loop passes over. */
module TslReading {
  import opened Wrappers
  import opened Bytes
  import opened TrustModel
  import opened TslTree
  import opened TslLevels

  // ---------- what is passed over ----------

  /** The elements that are passed over whole, by the loop that meets them. */
  lemma SkippedExactly(c: Context, n: string)
    ensures ActionOn(c, n) == Skip <==>
      match c
      case Scheme =>
        n !in {"SchemeTerritory", "TSLSequenceNumber", "ListIssueDateTime", "SchemeTypeCommunityRules", "SchemeType",
               "NextUpdate"}
      case Tsp => n !in {"TSPInformation", "TSPServices"}
      case TspInfo => n !in {"TSPName", "TSPTradeName", "TSPAddress"}
      case Service => n !in {"ServiceInformation", "ServiceHistory"}
      case ServiceInfo =>
        n !in {"ServiceTypeIdentifier", "ServiceStatus", "StatusStartingTime", "ServiceName", "ServiceDigitalIdentity",
               "ServiceInformationExtensions"}
      case Instance =>
        n !in {"ServiceTypeIdentifier", "ServiceStatus", "StatusStartingTime", "ServiceDigitalIdentity",
               "ServiceInformationExtensions"}
      case Inside => true
      case Document | ProviderList | Services | History | Identity | Qualifiers | FirstChild(_) | Leaf => false
  {
  }

  /** Pointers to other lists, or any element the scheme loop does not know, change nothing whatever they contain. */
  lemma UnknownSchemeElementsNeverLeak(k: Codecs, n: string, a: seq<Attr>, inside: Forest, b: seq<Attr>,
      scheme: Forest, next: Forest)
    requires n !in {"SchemeTerritory", "TSLSequenceNumber", "ListIssueDateTime", "SchemeTypeCommunityRules",
                    "SchemeType", "NextUpdate"}
    requires InStep(Document, None, Element("SchemeInformation", b, scheme, next))
    ensures ParseEvents(k, Events(Element("SchemeInformation", b, Element(n, a, inside, scheme), next)))
         == ParseEvents(k, Events(Element("SchemeInformation", b, scheme, next)))
  {
    hide Events, ParseEvents, InStep;
    SkippedExactly(Scheme, n);
    SkippedSubtreesNeverLeak(k, Element("SchemeInformation", b, scheme, next),
                             Element("SchemeInformation", b, Element(n, a, inside, scheme), next));
  }

  // ---------- text ----------

  function Piece(e: Event): Option<string> {
    match e
    case Text(t) => t
    case CData(d) => Some(d)
    case _ => Some("")
  }

  /** Two texts run together; one that does not resolve spoils both. */
  function Joined(a: Option<string>, b: Option<string>): Option<string> {
    if a.Some? && b.Some? then Some(a.value + b.value) else None
  }

  /** The pieces of text, left to right. */
  function Spoken(s: seq<Event>): Option<string> {
    if s == [] then Some("") else Joined(Spoken(s[..|s| - 1]), Piece(s[|s| - 1]))
  }

  lemma JoinedLaws(a: Option<string>, b: Option<string>, c: Option<string>)
    ensures Joined(Joined(a, b), c) == Joined(a, Joined(b, c))
    ensures Joined(a, Some("")) == a == Joined(Some(""), a)
  {
    if a.Some? && b.Some? && c.Some? { Append2(a.value, b.value, c.value); }
    if a.Some? { assert a.value + "" == a.value == "" + a.value; }
  }

  lemma {:induction false} SpokenAppend(s: seq<Event>, t: seq<Event>)
    ensures Spoken(s + t) == Joined(Spoken(s), Spoken(t))
  {
    hide Joined, Piece;
    if t == [] {
      assert s + t == s;
      JoinedLaws(Spoken(s), None, None);
    } else {
      var n := |t| - 1;
      SpokenAppend(s, t[..n]);
      assert (s + t)[..|s| + n] == s + t[..n];
      JoinedLaws(Spoken(s), Spoken(t[..n]), Piece(t[n]));
    }
  }

  lemma SpokenOne(e: Event)
    ensures Spoken([e]) == Piece(e)
  {
    hide Joined, Piece;
    assert [e][..0] == [];
    JoinedLaws(Piece(e), None, None);
  }

  /** The text of a tree is its pieces of text in document order. */
  lemma {:induction false} TextExactly(f: Forest)
    ensures TextOf(f) == Spoken(Events(f))
    decreases f, 0
  {
    hide Spoken;
    match f
    case Nil => assert Spoken([]) == Some("") by { SpokenNothing(); }
    case Element(n, a, kids, next) =>
      TextExactly(kids);
      TextExactly(next);
      SpokenOne(Start(n, a));
      SpokenOne(End(n));
      SpokenAppend([Start(n, a)], Events(kids));
      SpokenAppend([Start(n, a)] + Events(kids), [End(n)]);
      SpokenAppend([Start(n, a)] + Events(kids) + [End(n)], Events(next));
      JoinedLaws(TextOf(kids), None, None);
    case Hollow(n, a, next) => SpokenHead(Empty(n, a), next);
    case Chars(t, next) => SpokenHead(Text(t), next);
    case CDataChars(d, next) => SpokenHead(CData(d), next);
    case Misc(next) => SpokenHead(Other, next);
  }

  lemma {:induction false} SpokenHead(e: Event, next: Forest)
    ensures TextOf(next) == Spoken(Events(next))
    ensures Spoken([e] + Events(next)) == Joined(Piece(e), TextOf(next))
    ensures Joined(Some(""), TextOf(next)) == TextOf(next)
    decreases next, 1
  {
    hide Spoken, Joined;
    TextExactly(next);
    SpokenOne(e);
    SpokenAppend([e], Events(next));
    JoinedLaws(TextOf(next), None, None);
  }

  lemma SpokenNothing()
    ensures Spoken([]) == Some("")
  {
  }

  // ---------- what every event contributes ----------

  /** The contributions of the events, left to right. */
  function Gather<T>(g: Event -> seq<T>, s: seq<Event>): seq<T> {
    if s == [] then [] else Gather(g, s[..|s| - 1]) + g(s[|s| - 1])
  }

  lemma {:induction false} GatherAppend<T>(g: Event -> seq<T>, s: seq<Event>, t: seq<Event>)
    ensures Gather(g, s + t) == Gather(g, s) + Gather(g, t)
  {
    if t == [] {
      assert s + t == s;
    } else {
      var n := |t| - 1;
      GatherAppend(g, s, t[..n]);
      assert (s + t)[..|s| + n] == s + t[..n];
      Append2(Gather(g, s), Gather(g, t[..n]), g(t[n]));
    }
  }

  lemma NothingGathered<T>(g: Event -> seq<T>)
    ensures Gather(g, []) == []
  {
  }

  lemma GatherHead<T>(g: Event -> seq<T>, e: Event, s: seq<Event>)
    ensures Gather(g, [e] + s) == g(e) + Gather(g, s)
    ensures [] + Gather(g, s) == Gather(g, s)
  {
    GatherAppend(g, [e], s);
    assert [e][..0] == [] && [] + g(e) == g(e);
  }

  lemma GatherElement<T>(g: Event -> seq<T>, f: Forest)
    requires f.Element? && g(End(f.name)) == []
    ensures var below, after := Gather(g, Events(f.kids)), Gather(g, Events(f.next));
      Gather(g, Events(f)) == g(Start(f.name, f.attrs)) + (below + after) && [] + (below + after) == below + after
  {
    hide Events;
    Unfolded(f, []);
    assert Events(f) + [] == Events(f) && Events(f.next) + [] == Events(f.next);
    GatherHead(g, Start(f.name, f.attrs), Events(f.kids) + ([End(f.name)] + Events(f.next)));
    GatherAppend(g, Events(f.kids), [End(f.name)] + Events(f.next));
    GatherHead(g, End(f.name), Events(f.next));
    assert [] + Gather(g, Events(f.next)) == Gather(g, Events(f.next));
  }

  /** Text that does not resolve contributes nothing. */
  function HeardFrom(e: Event): string {
    match e
    case Text(t) => if t.Some? then t.value else ""
    case CData(d) => d
    case _ => ""
  }

  /** The depth-counting reader's text is every resolvable piece in document order. */
  lemma {:induction false} InsideTextExactly(f: Forest)
    ensures TextInside(f) == Gather(HeardFrom, Events(f))
  {
    hide Gather;
    match f
    case Nil => assert Gather(HeardFrom, []) == [] by { NothingGathered(HeardFrom); }
    case Element(n, a, kids, next) =>
      InsideTextExactly(kids);
      InsideTextExactly(next);
      GatherElement(HeardFrom, f);
    case Hollow(n, a, next) => InsideTextExactly(next); GatherHead(HeardFrom, Empty(n, a), Events(next));
    case Chars(t, next) => InsideTextExactly(next); GatherHead(HeardFrom, Text(t), Events(next));
    case CDataChars(d, next) => InsideTextExactly(next); GatherHead(HeardFrom, CData(d), Events(next));
    case Misc(next) => InsideTextExactly(next); GatherHead(HeardFrom, Other, Events(next));
  }

  /** The `uri` attributes of an attribute list whose values resolve, in order. */
  function UriValues(attrs: seq<Attr>): seq<string> {
    if attrs == [] then []
    else
      var here := if attrs[0].key == "uri" && attrs[0].value.Some? then [attrs[0].value.value] else [];
      here + UriValues(attrs[1..])
  }

  function UrisFrom(e: Event): seq<string> {
    if (e.Start? || e.Empty?) && e.name == "Qualifier" then UriValues(e.attrs) else []
  }

  lemma {:induction false} UrisExactly(attrs: seq<Attr>)
    ensures Uris(attrs) == UriValues(attrs)
  {
    if attrs != [] {
      var n := |attrs| - 1;
      UrisExactly(attrs[..n]);
      assert attrs == attrs[..n] + [attrs[n]];
      UriValuesAppend(attrs[..n], attrs[n]);
    }
  }

  lemma {:induction false} UriValuesAppend(attrs: seq<Attr>, last: Attr)
    ensures UriValues(attrs + [last])
         == UriValues(attrs) + if last.key == "uri" && last.value.Some? then [last.value.value] else []
  {
    if attrs == [] {
      assert ([] + [last])[1..] == [];
    } else {
      var rest := attrs[1..];
      UriValuesAppend(rest, last);
      assert (attrs + [last])[1..] == rest + [last];
    }
  }

  /** The qualifiers are the `uri` attributes of all `Qualifier` elements below, in document order. */
  lemma {:induction false} QualifiersExactly(f: Forest)
    ensures QualifiersOf(f) == Gather(UrisFrom, Events(f))
  {
    hide Uris, UriValues, Gather;
    match f
    case Nil => assert Gather(UrisFrom, []) == [] by { NothingGathered(UrisFrom); }
    case Element(n, a, kids, next) =>
      UrisExactly(a);
      QualifiersExactly(kids);
      QualifiersExactly(next);
      GatherElement(UrisFrom, f);
      Append2(UrisOn(n, a), QualifiersOf(kids), QualifiersOf(next));
    case Hollow(n, a, next) =>
      UrisExactly(a);
      QualifiersExactly(next);
      GatherHead(UrisFrom, Empty(n, a), Events(next));
    case Chars(t, next) => QualifiersExactly(next); GatherHead(UrisFrom, Text(t), Events(next));
    case CDataChars(d, next) => QualifiersExactly(next); GatherHead(UrisFrom, CData(d), Events(next));
    case Misc(next) => QualifiersExactly(next); GatherHead(UrisFrom, Other, Events(next));
  }

  // ---------- the first child with a name ----------

  /** What is in the first element with the name, in document order and at any depth. */
  function FirstNamed(f: Forest, name: string): Option<Forest> {
    match f
    case Nil => None
    case Element(n, _, kids, next) =>
      if n == name then Some(kids)
      else if FirstNamed(kids, name).Some? then FirstNamed(kids, name)
      else FirstNamed(next, name)
    case Hollow(_, _, next) => FirstNamed(next, name)
    case Chars(_, next) => FirstNamed(next, name)
    case CDataChars(_, next) => FirstNamed(next, name)
    case Misc(next) => FirstNamed(next, name)
  }

  lemma {:induction false} FoundStays(f: Forest, name: string, found: Option<string>)
    requires found.Some?
    ensures Fold(FirstChildLevel(name), found, f) == Some(found)
  {
    match f
    case Nil =>
    case Element(n, a, kids, next) =>
      FoundStays(kids, name, found);
      FoundStays(next, name, found);
    case Hollow(n, a, next) => FoundStays(next, name, found);
    case Chars(t, next) => FoundStays(next, name, found);
    case CDataChars(d, next) => FoundStays(next, name, found);
    case Misc(next) => FoundStays(next, name, found);
  }

  /**
   A name, trade name or country is the text of the first such element; later ones never count. An
   empty-element tag is no such element.
   */
  lemma {:induction false} FirstChildExactly(f: Forest, name: string)
    ensures FirstChildOf(f, name) ==
      match FirstNamed(f, name)
      case None => Some(None)
      case Some(kids) => (var t :- TextOf(kids); Some(Some(t)))
  {
    hide TextOf;
    match f
    case Nil =>
    case Element(n, a, kids, next) =>
      if n == name {
        if TextOf(kids).Some? { FoundStays(next, name, TextOf(kids)); }
      } else {
        FirstChildExactly(kids, name);
        FirstChildExactly(next, name);
        if FirstNamed(kids, name).Some? && TextOf(FirstNamed(kids, name).value).Some? {
          FoundStays(next, name, TextOf(FirstNamed(kids, name).value));
        }
      }
    case Hollow(n, a, next) => FirstChildExactly(next, name);
    case Chars(t, next) => FirstChildExactly(next, name);
    case CDataChars(d, next) => FirstChildExactly(next, name);
    case Misc(next) => FirstChildExactly(next, name);
  }

  // ---------- the end of the input ----------

  /** An element the input ends in is read as if it were closed there, by every reader. */
  lemma UnclosedReadsAsClosed<S(!new)>(l: Level<S>, n: string, st: S, kids: Forest)
    ensures LevelOk(l) && InStep(l.context, Some(n), kids) ==>
      Fields(l, Some(n), st, Events(kids)) == Fields(l, Some(n), st, Events(kids) + [End(n)])
    ensures InStep(Leaf, Some(n), kids) ==> ReadText(Events(kids), n) == ReadText(Events(kids) + [End(n)], n)
    ensures InStep(Qualifiers, Some(n), kids) ==>
      QualifierUris(Events(kids), n) == QualifierUris(Events(kids) + [End(n)], n)
    ensures ReadTextInside(Events(kids), n, 1) == ReadTextInside(Events(kids) + [End(n)], n, 1)
    ensures SkipElement(Events(kids), 1) == SkipElement(Events(kids) + [End(n)], 1)
  {
    hide LevelOk, InStep;
    assert Events(kids) + [] == Events(kids);
    if LevelOk(l) && InStep(l.context, Some(n), kids) {
      FieldsFold(l, Some(n), st, kids, []);
      FieldsFold(l, Some(n), st, kids, [End(n)]);
    }
    if InStep(Leaf, Some(n), kids) {
      ReadTextOf(kids, n, []);
      ReadTextOf(kids, n, [End(n)]);
    }
    if InStep(Qualifiers, Some(n), kids) {
      QualifierUrisOf(kids, n, []);
      QualifierUrisOf(kids, n, [End(n)]);
    }
    ReadTextInsideOf(kids, n, 1, []);
    ReadTextInsideOf(kids, n, 1, [End(n)]);
    SkipElementOf(kids, 1, []);
    SkipElementOf(kids, 1, [End(n)]);
  }

  /** A reader error in a leaf or between fields ends the parse; in a scheme type it leaves that type empty. */
  lemma ErrorsEnd<S>(k: Codecs, l: Level<S>, n: string, st: S, tl: TrustedList, rest: seq<Event>)
    ensures Fields(l, Some(n), st, [ReadError] + rest).None?
    ensures ReadText([ReadError] + rest, n).None? && SkipElement([ReadError] + rest, 1).None?
    ensures n == "SchemeType" && tl.schemeType.None? ==>
      SchemeField(k, tl, n, [ReadError] + rest) == Some((tl.(schemeType := Some("")), rest))
  {
    assert ([ReadError] + rest)[1..] == rest;
  }
}
