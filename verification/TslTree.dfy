/**
 XML events as a tree, and the table of what the trusted-list parser does with each element:
 read it with a sub-parser, walk into it, or skip it (`crates/eidas-trust/src/parse.rs`).
 */
module TslTree {
  import opened Wrappers
  import opened Bytes

  /** `value` is `None` when the attribute's references do not resolve. */
  datatype Attr = Attr(key: string, value: Option<string>)

  /** Reader events, element names without their prefixes. */
  datatype Event =
    | Start(name: string, attrs: seq<Attr>)
    | Empty(name: string, attrs: seq<Attr>)
    | End(name: string)
    | Text(unescaped: Option<string>)
    | CData(data: string)
    | Other
    | ReadError

  datatype Forest =
    | Nil
    | Element(name: string, attrs: seq<Attr>, kids: Forest, next: Forest)
    | Hollow(name: string, attrs: seq<Attr>, next: Forest)
    | Chars(unescaped: Option<string>, next: Forest)
    | CDataChars(data: string, next: Forest)
    | Misc(next: Forest)

  function Events(f: Forest): seq<Event> {
    match f
    case Nil => []
    case Element(n, a, kids, next) => [Start(n, a)] + Events(kids) + [End(n)] + Events(next)
    case Hollow(n, a, next) => [Empty(n, a)] + Events(next)
    case Chars(t, next) => [Text(t)] + Events(next)
    case CDataChars(d, next) => [CData(d)] + Events(next)
    case Misc(next) => [Other] + Events(next)
  }

  function Head(f: Forest): Event
    requires !f.Nil?
  {
    match f
    case Element(n, a, _, _) => Start(n, a)
    case Hollow(n, a, _) => Empty(n, a)
    case Chars(t, _) => Text(t)
    case CDataChars(d, _) => CData(d)
    case Misc(_) => Other
  }

  /** The events behind the first one. */
  function Behead(f: Forest, tail: seq<Event>): seq<Event>
    requires !f.Nil?
  {
    if f.Element? then Events(f.kids) + ([End(f.name)] + (Events(f.next) + tail)) else Events(f.next) + tail
  }

  /** The first event of a forest, and what follows it. */
  lemma Unfolded(f: Forest, tail: seq<Event>)
    ensures f.Nil? ==> Events(f) + tail == tail
    ensures !f.Nil? ==> Events(f) + tail == [Head(f)] + Behead(f, tail) && (Events(f) + tail)[1..] == Behead(f, tail)
    ensures f.Element? ==> ([End(f.name)] + (Events(f.next) + tail))[1..] == Events(f.next) + tail
  {
    if f.Element? {
      Flat4([Head(f)], Events(f.kids), [End(f.name)], Events(f.next), tail);
      Cut([End(f.name)], Events(f.next) + tail);
    } else if !f.Nil? {
      Append2([Head(f)], Events(f.next), tail);
    }
    if !f.Nil? { Cut([Head(f)], Behead(f, tail)); }
  }

  // ---------- what each loop does with an element ----------

  /** The loop that is running. `FirstChild` looks for the first element with one name. */
  datatype Context =
    | Document | Scheme | ProviderList | Tsp | TspInfo | Services | Service | ServiceInfo
    | History | Instance | Identity | Qualifiers | FirstChild(child: string) | Leaf | Inside

  /**
   `Take`: a sub-parser reads the element. `Enter`: the loop goes on inside it. `Skip`: the whole
   element is passed over. `TakeOnce`: taken the first time, entered later.
   */
  datatype Action = Take(context: Context) | Enter | Skip | TakeOnce(context: Context)

  function ActionOn(c: Context, n: string): Action {
    match c
    case Document =>
      if n == "SchemeInformation" then Take(Scheme)
      else if n == "TrustServiceProviderList" then Take(ProviderList)
      else Enter
    case Scheme =>
      if n == "SchemeTerritory" || n == "TSLSequenceNumber" || n == "ListIssueDateTime" then Take(Leaf)
      else if n == "SchemeTypeCommunityRules" || n == "SchemeType" then TakeOnce(Inside)
      else if n == "NextUpdate" then Take(Inside)
      else Skip
    case ProviderList => if n == "TrustServiceProvider" then Take(Tsp) else Enter
    case Tsp =>
      if n == "TSPInformation" then Take(TspInfo)
      else if n == "TSPServices" then Take(Services)
      else Skip
    case TspInfo =>
      if n == "TSPName" || n == "TSPTradeName" then Take(FirstChild("Name"))
      else if n == "TSPAddress" then Take(FirstChild("CountryName"))
      else Skip
    case Services => if n == "TSPService" then Take(Service) else Enter
    case Service =>
      if n == "ServiceInformation" then Take(ServiceInfo)
      else if n == "ServiceHistory" then Take(History)
      else Skip
    case ServiceInfo =>
      if n == "ServiceTypeIdentifier" || n == "ServiceStatus" || n == "StatusStartingTime" then Take(Leaf)
      else if n == "ServiceName" then Take(FirstChild("Name"))
      else if n == "ServiceDigitalIdentity" then Take(Identity)
      else if n == "ServiceInformationExtensions" then Take(Qualifiers)
      else Skip
    case History => if n == "ServiceHistoryInstance" then Take(Instance) else Enter
    case Instance =>
      if n == "ServiceTypeIdentifier" || n == "ServiceStatus" || n == "StatusStartingTime" then Take(Leaf)
      else if n == "ServiceDigitalIdentity" then Take(Identity)
      else if n == "ServiceInformationExtensions" then Take(Qualifiers)
      else Skip
    case Identity => if n == "X509Certificate" then Take(Leaf) else Enter
    case Qualifiers => Enter
    case FirstChild(child) => if n == child then TakeOnce(Leaf) else Enter
    case Leaf => Enter
    case Inside => Skip
  }

  /**
   The document keeps the loops in step: no element a loop walks into bears the name of the end
   tag that loop waits for. The loops compare names, not depths.
   */
  predicate InStep(c: Context, closing: Option<string>, f: Forest)
    decreases f
  {
    match f
    case Nil => true
    case Element(n, _, kids, next) =>
      InStep(c, closing, next)
      && (match ActionOn(c, n)
          case Take(c') => InStep(c', Some(n), kids)
          case Enter => closing != Some(n) && InStep(c, closing, kids)
          case TakeOnce(c') => InStep(c', Some(n), kids) && closing != Some(n) && InStep(c, closing, kids)
          case Skip => true)
    case Hollow(_, _, next) => InStep(c, closing, next)
    case Chars(_, next) => InStep(c, closing, next)
    case CDataChars(_, next) => InStep(c, closing, next)
    case Misc(next) => InStep(c, closing, next)
  }

  /** The document without what is skipped: unknown elements at the levels that skip, and comments. */
  function Prune(c: Context, f: Forest): Forest
    decreases f
  {
    match f
    case Nil => Nil
    case Element(n, a, kids, next) =>
      (match ActionOn(c, n)
       case Take(c') => Element(n, a, Prune(c', kids), Prune(c, next))
       case Enter => Element(n, a, Prune(c, kids), Prune(c, next))
       case TakeOnce(_) => Element(n, a, kids, Prune(c, next))
       case Skip => if c == Inside then Element(n, a, kids, Prune(c, next)) else Prune(c, next))
    case Hollow(n, a, next) => Hollow(n, a, Prune(c, next))
    case Chars(t, next) => Chars(t, Prune(c, next))
    case CDataChars(d, next) => CDataChars(d, Prune(c, next))
    case Misc(next) => Prune(c, next)
  }

  /** Skipped parts never put a loop out of step. */
  lemma {:induction false} PruneKeepsStep(c: Context, closing: Option<string>, f: Forest)
    ensures InStep(c, closing, f) <==> InStep(c, closing, Prune(c, f))
    decreases f
  {
    hide ActionOn;
    match f
    case Nil =>
    case Element(n, a, kids, next) =>
      PruneKeepsStep(c, closing, next);
      match ActionOn(c, n) {
        case Take(c') => PruneKeepsStep(c', Some(n), kids);
        case Enter => PruneKeepsStep(c, closing, kids);
        case TakeOnce(_) =>
        case Skip =>
      }
    case Hollow(n, a, next) => PruneKeepsStep(c, closing, next);
    case Chars(t, next) => PruneKeepsStep(c, closing, next);
    case CDataChars(d, next) => PruneKeepsStep(c, closing, next);
    case Misc(next) => PruneKeepsStep(c, closing, next);
  }

  // ---------- text ----------

  /** `read_text`: everything up to the first end tag with the given name. */
  function ReadText(s: seq<Event>, closing: string): (r: Option<(string, seq<Event>)>)
    ensures r.Some? ==> |r.value.1| <= |s|
  {
    if s == [] then Some(("", []))
    else
      match s[0]
      case End(n) => if n == closing then Some(("", s[1..])) else ReadText(s[1..], closing)
      case Text(t) =>
        var u :- t;
        var (more, rest) :- ReadText(s[1..], closing);
        Some((u + more, rest))
      case CData(d) =>
        var (more, rest) :- ReadText(s[1..], closing);
        Some((d + more, rest))
      case ReadError => None
      case _ => ReadText(s[1..], closing)
  }

  /** All text below, in document order. */
  function TextOf(f: Forest): Option<string> {
    match f
    case Nil => Some("")
    case Element(_, _, kids, next) =>
      var a :- TextOf(kids);
      var b :- TextOf(next);
      Some(a + b)
    case Hollow(_, _, next) => TextOf(next)
    case Chars(t, next) =>
      var u :- t;
      var b :- TextOf(next);
      Some(u + b)
    case CDataChars(d, next) =>
      var b :- TextOf(next);
      Some(d + b)
    case Misc(next) => TextOf(next)
  }

  function PrependText(t: Option<string>, r: Option<(string, seq<Event>)>): Option<(string, seq<Event>)> {
    var a :- t;
    var (b, rest) :- r;
    Some((a + b, rest))
  }

  lemma PrependTwice(t: Option<string>, u: Option<string>, r: Option<(string, seq<Event>)>)
    ensures PrependText(t, PrependText(u, r)) == PrependText(var a :- t; var b :- u; Some(a + b), r)
    ensures PrependText(Some(""), r) == r
  {
    if r.Some? {
      assert "" + r.value.0 == r.value.0;
      if t.Some? && u.Some? {
        assert t.value + (u.value + r.value.0) == t.value + u.value + r.value.0;
      }
    }
  }

  /** On a tree in step `read_text` reads the text of the tree and goes on behind it. */
  lemma {:induction false} ReadTextOf(f: Forest, closing: string, tail: seq<Event>)
    requires InStep(Leaf, Some(closing), f)
    ensures ReadText(Events(f) + tail, closing) == PrependText(TextOf(f), ReadText(tail, closing))
  {
    hide Events;
    Unfolded(f, tail);
    match f
    case Nil =>
      PrependTwice(None, None, ReadText(tail, closing));
    case Element(n, a, kids, next) =>
      var after := [End(n)] + (Events(next) + tail);
      ReadTextOf(kids, closing, after);
      ReadTextOf(next, closing, tail);
      PrependTwice(TextOf(kids), TextOf(next), ReadText(tail, closing));
    case Hollow(n, a, next) =>
      ReadTextOf(next, closing, tail);
    case Chars(t, next) =>
      ReadTextOf(next, closing, tail);
      PrependTwice(t, TextOf(next), ReadText(tail, closing));
    case CDataChars(d, next) =>
      ReadTextOf(next, closing, tail);
      PrependTwice(Some(d), TextOf(next), ReadText(tail, closing));
    case Misc(next) =>
      ReadTextOf(next, closing, tail);
  }

  lemma {:induction false} ReadTextStopsEarly(f: Forest, closing: string, tail: seq<Event>)
    requires !InStep(Leaf, Some(closing), f)
    ensures var r := ReadText(Events(f) + tail, closing); r.Some? ==> |r.value.1| >= |tail|
    decreases f
  {
    hide Events;
    Unfolded(f, tail);
    match f
    case Element(n, a, kids, next) =>
      var after := [End(n)] + (Events(next) + tail);
      if InStep(Leaf, Some(closing), kids) {
        ReadTextOf(kids, closing, after);
        if n != closing { ReadTextStopsEarly(next, closing, tail); }
      } else {
        ReadTextStopsEarly(kids, closing, after);
      }
    case Hollow(n, a, next) =>
      ReadTextStopsEarly(next, closing, tail);
    case Chars(t, next) =>
      ReadTextStopsEarly(next, closing, tail);
    case CDataChars(d, next) =>
      ReadTextStopsEarly(next, closing, tail);
    case Misc(next) =>
      ReadTextStopsEarly(next, closing, tail);
  }

  /**
   `read_text` counts no depth: it reads a leaf to its own end tag exactly when no element below
   bears the leaf's name.
   */
  lemma LeafReadExactly(n: string, kids: Forest, rest: seq<Event>)
    requires TextOf(kids).Some?
    ensures InStep(Leaf, Some(n), kids)
       <==> ReadText(Events(kids) + ([End(n)] + rest), n) == Some((TextOf(kids).value, rest))
  {
    if InStep(Leaf, Some(n), kids) {
      ReadTextOf(kids, n, [End(n)] + rest);
      assert ([End(n)] + rest)[1..] == rest;
      assert TextOf(kids).value + "" == TextOf(kids).value;
    } else {
      ReadTextStopsEarly(kids, n, [End(n)] + rest);
    }
  }

  /** `read_text_inside`: counts depth; a reader error gives up, unresolved text is dropped. */
  function ReadTextInside(s: seq<Event>, closing: string, depth: int): (r: (Option<string>, seq<Event>))
    ensures |r.1| <= |s|
  {
    if s == [] then (Some(""), [])
    else
      match s[0]
      case Start(_, _) => ReadTextInside(s[1..], closing, depth + 1)
      case End(n) =>
        if n == closing && depth == 1 then (Some(""), s[1..]) else ReadTextInside(s[1..], closing, depth - 1)
      case Text(t) => PrependInside(if t.Some? then t.value else "", ReadTextInside(s[1..], closing, depth))
      case CData(d) => PrependInside(d, ReadTextInside(s[1..], closing, depth))
      case ReadError => (None, s[1..])
      case _ => ReadTextInside(s[1..], closing, depth)
  }

  function PrependInside(t: string, r: (Option<string>, seq<Event>)): (q: (Option<string>, seq<Event>))
    ensures q.1 == r.1
  {
    match r.0
    case None => r
    case Some(u) => (Some(t + u), r.1)
  }

  function TextInside(f: Forest): string {
    match f
    case Nil => ""
    case Element(_, _, kids, next) => TextInside(kids) + TextInside(next)
    case Hollow(_, _, next) => TextInside(next)
    case Chars(t, next) => (if t.Some? then t.value else "") + TextInside(next)
    case CDataChars(d, next) => d + TextInside(next)
    case Misc(next) => TextInside(next)
  }

  lemma PrependInsideTwice(t: string, u: string, r: (Option<string>, seq<Event>))
    ensures PrependInside(t, PrependInside(u, r)) == PrependInside(t + u, r)
    ensures PrependInside("", r) == r
  {
    if r.0.Some? {
      assert t + (u + r.0.value) == t + u + r.0.value;
      assert "" + r.0.value == r.0.value;
    }
  }

  /** Counting depth keeps `read_text_inside` in step with any tree, whatever it is called. */
  lemma {:induction false} ReadTextInsideOf(f: Forest, closing: string, depth: int, tail: seq<Event>)
    requires depth >= 1
    ensures ReadTextInside(Events(f) + tail, closing, depth)
         == PrependInside(TextInside(f), ReadTextInside(tail, closing, depth))
    decreases f
  {
    hide Events;
    Unfolded(f, tail);
    var more := ReadTextInside(tail, closing, depth);
    match f
    case Nil =>
      PrependInsideTwice("", "", more);
    case Element(n, a, kids, next) =>
      var after := [End(n)] + (Events(next) + tail);
      ReadTextInsideOf(kids, closing, depth + 1, after);
      ReadTextInsideOf(next, closing, depth, tail);
      PrependInsideTwice(TextInside(kids), TextInside(next), more);
    case Hollow(n, a, next) =>
      ReadTextInsideOf(next, closing, depth, tail);
    case Chars(t, next) =>
      ReadTextInsideOf(next, closing, depth, tail);
      PrependInsideTwice(if t.Some? then t.value else "", TextInside(next), more);
    case CDataChars(d, next) =>
      ReadTextInsideOf(next, closing, depth, tail);
      PrependInsideTwice(d, TextInside(next), more);
    case Misc(next) =>
      ReadTextInsideOf(next, closing, depth, tail);
  }

  /** `skip_element`. */
  function SkipElement(s: seq<Event>, depth: nat): (r: Option<seq<Event>>)
    ensures r.Some? ==> |r.value| <= |s|
    decreases |s|
  {
    if depth == 0 || s == [] then Some(s)
    else
      match s[0]
      case Start(_, _) => SkipElement(s[1..], depth + 1)
      case End(_) => SkipElement(s[1..], depth - 1)
      case ReadError => None
      case _ => SkipElement(s[1..], depth)
  }

  lemma {:induction false} SkipElementOf(f: Forest, depth: nat, tail: seq<Event>)
    requires depth >= 1
    ensures SkipElement(Events(f) + tail, depth) == SkipElement(tail, depth)
    decreases f
  {
    hide Events;
    Unfolded(f, tail);
    match f
    case Nil =>
    case Element(n, a, kids, next) =>
      var after := [End(n)] + (Events(next) + tail);
      SkipElementOf(kids, depth + 1, after);
      SkipElementOf(next, depth, tail);
    case Hollow(n, a, next) =>
      SkipElementOf(next, depth, tail);
    case Chars(t, next) =>
      SkipElementOf(next, depth, tail);
    case CDataChars(d, next) =>
      SkipElementOf(next, depth, tail);
    case Misc(next) =>
      SkipElementOf(next, depth, tail);
  }

  // ---------- loops over elements ----------

  /** One loop: its context, what it makes of an element on events and on trees. */
  datatype Level<!S> = Level(
    context: Context,
    full: (S, string) -> bool,                                      // a `TakeOnce` element was taken already
    field: (S, string, seq<Event>) -> Option<(S, seq<Event>)>,      // after the start tag
    visit: (S, string, Forest) -> Option<S>)

  predicate Enters<S>(l: Level<S>, st: S, n: string) {
    var a := ActionOn(l.context, n);
    a.Enter? || (a.TakeOnce? && l.full(st, n))
  }

  /** The loop over events: until its end tag or the end of input; an error ends everything. */
  function Fields<S>(l: Level<S>, closing: Option<string>, st: S, s: seq<Event>): (r: Option<(S, seq<Event>)>)
    ensures r.Some? ==> |r.value.1| <= |s|
    decreases |s|
  {
    if s == [] then Some((st, []))
    else
      match s[0]
      case End(n) => if closing == Some(n) then Some((st, s[1..])) else Fields(l, closing, st, s[1..])
      case Start(n, _) =>
        var (st', rest) :- l.field(st, n, s[1..]);
        if |rest| < |s| then Fields(l, closing, st', rest) else None
      case ReadError => None
      case _ => Fields(l, closing, st, s[1..])
  }

  /** The same over the tree. */
  function Fold<S>(l: Level<S>, st: S, f: Forest): Option<S> {
    match f
    case Nil => Some(st)
    case Element(n, _, kids, next) =>
      var st' :- if Enters(l, st, n) then Fold(l, st, kids) else l.visit(st, n, kids);
      Fold(l, st', next)
    case Hollow(_, _, next) => Fold(l, st, next)
    case Chars(_, next) => Fold(l, st, next)
    case CDataChars(_, next) => Fold(l, st, next)
    case Misc(next) => Fold(l, st, next)
  }

  /** The tree fits the sub-parser the element is taken with. */
  predicate Fits(c: Context, n: string, kids: Forest) {
    match ActionOn(c, n)
    case Take(c') => InStep(c', Some(n), kids)
    case TakeOnce(c') => InStep(c', Some(n), kids)
    case _ => true
  }

  function Behind<S>(st: Option<S>, rest: seq<Event>): Option<(S, seq<Event>)> {
    var x :- st;
    Some((x, rest))
  }

  /** Entering leaves state and events alone; taking reads exactly the element. */
  ghost predicate FieldOk<S>(l: Level<S>, st: S, n: string, kids: Forest, rest: seq<Event>) {
    (Enters(l, st, n) ==>
          l.field(st, n, Events(kids) + ([End(n)] + rest)) == Some((st, Events(kids) + ([End(n)] + rest))))
    && (!Enters(l, st, n) && Fits(l.context, n, kids) ==>
          l.field(st, n, Events(kids) + ([End(n)] + rest)) == Behind(l.visit(st, n, kids), rest))
  }

  ghost predicate LevelOk<S(!new)>(l: Level<S>) {
    forall st, n, kids, rest :: FieldOk(l, st, n, kids, rest)
  }

  function Continue<S>(l: Level<S>, closing: Option<string>, st: Option<S>, s: seq<Event>): Option<(S, seq<Event>)> {
    var x :- st;
    Fields(l, closing, x, s)
  }

  /** The state behind an element. */
  function StateAfter<S>(l: Level<S>, st: S, n: string, kids: Forest): Option<S> {
    if Enters(l, st, n) then Fold(l, st, kids) else l.visit(st, n, kids)
  }

  /** Starting in `st`, the loop enters no element with the name of the end tag it waits for. */
  predicate StepFrom<S>(l: Level<S>, closing: Option<string>, st: S, f: Forest)
    decreases f
  {
    match f
    case Nil => true
    case Element(n, _, kids, next) =>
      (Enters(l, st, n) ==> closing != Some(n) && StepFrom(l, closing, st, kids))
      && (match StateAfter(l, st, n, kids)
          case None => true
          case Some(x) => StepFrom(l, closing, x, next))
    case Hollow(_, _, next) => StepFrom(l, closing, st, next)
    case Chars(_, next) => StepFrom(l, closing, st, next)
    case CDataChars(_, next) => StepFrom(l, closing, st, next)
    case Misc(next) => StepFrom(l, closing, st, next)
  }

  /** Starting in `st`, whatever the loop takes fits the sub-parser it is taken with. */
  predicate FitsFrom<S>(l: Level<S>, st: S, f: Forest)
    decreases f
  {
    match f
    case Nil => true
    case Element(n, _, kids, next) =>
      (if Enters(l, st, n) then FitsFrom(l, st, kids) else Fits(l.context, n, kids))
      && (match StateAfter(l, st, n, kids)
          case None => true
          case Some(x) => FitsFrom(l, x, next))
    case Hollow(_, _, next) => FitsFrom(l, st, next)
    case Chars(_, next) => FitsFrom(l, st, next)
    case CDataChars(_, next) => FitsFrom(l, st, next)
    case Misc(next) => FitsFrom(l, st, next)
  }

  /** A document in step is so from every state. */
  lemma {:induction false} InStepFrom<S>(l: Level<S>, closing: Option<string>, st: S, f: Forest)
    requires InStep(l.context, closing, f)
    ensures StepFrom(l, closing, st, f) && FitsFrom(l, st, f)
    decreases f
  {
    hide ActionOn, Fold;
    match f
    case Nil =>
    case Element(n, a, kids, next) =>
      if Enters(l, st, n) { InStepFrom(l, closing, st, kids); }
      if StateAfter(l, st, n, kids).Some? { InStepFrom(l, closing, StateAfter(l, st, n, kids).value, next); }
    case Hollow(n, a, next) => InStepFrom(l, closing, st, next);
    case Chars(t, next) => InStepFrom(l, closing, st, next);
    case CDataChars(d, next) => InStepFrom(l, closing, st, next);
    case Misc(next) => InStepFrom(l, closing, st, next);
  }

  /** In step from the current state the loop computes the fold of the tree and goes on behind it. */
  lemma {:induction false} FieldsFoldFrom<S(!new)>(l: Level<S>, closing: Option<string>, st: S, f: Forest,
      tail: seq<Event>)
    requires LevelOk(l) && FitsFrom(l, st, f) && StepFrom(l, closing, st, f)
    ensures Fields(l, closing, st, Events(f) + tail) == Continue(l, closing, Fold(l, st, f), tail)
    decreases f
  {
    hide ActionOn, LevelOk, Events;
    Unfolded(f, tail);
    match f
    case Nil =>
    case Element(n, a, kids, next) =>
      var rest := Events(next) + tail;
      var body := Events(kids) + ([End(n)] + rest);
      assert |rest| < |body| < |Events(f) + tail|;
      UseField(l, st, n, kids, rest);
      if Enters(l, st, n) { FieldsFoldFrom(l, closing, st, kids, [End(n)] + rest); }
      if StateAfter(l, st, n, kids).Some? {
        FieldsFoldFrom(l, closing, StateAfter(l, st, n, kids).value, next, tail);
      }
    case Hollow(n, a, next) => FieldsFoldFrom(l, closing, st, next, tail);
    case Chars(t, next) => FieldsFoldFrom(l, closing, st, next, tail);
    case CDataChars(d, next) => FieldsFoldFrom(l, closing, st, next, tail);
    case Misc(next) => FieldsFoldFrom(l, closing, st, next, tail);
  }

  lemma UseField<S(!new)>(l: Level<S>, st: S, n: string, kids: Forest, rest: seq<Event>)
    requires LevelOk(l)
    ensures FieldOk(l, st, n, kids, rest)
  {
  }

  /** On a tree in step the event loop computes the fold of the tree and goes on behind it. */
  lemma FieldsFold<S(!new)>(l: Level<S>, closing: Option<string>, st: S, f: Forest, tail: seq<Event>)
    requires LevelOk(l) && InStep(l.context, closing, f)
    ensures Fields(l, closing, st, Events(f) + tail) == Continue(l, closing, Fold(l, st, f), tail)
  {
    hide *;
    InStepFrom(l, closing, st, f);
    FieldsFoldFrom(l, closing, st, f, tail);
  }

  /** A whole sub-parser: reads its element and stops exactly behind the element's end tag. */
  lemma FieldsElement<S(!new)>(l: Level<S>, n: string, st: S, kids: Forest, rest: seq<Event>)
    requires LevelOk(l) && InStep(l.context, Some(n), kids)
    ensures Fields(l, Some(n), st, Events(kids) + ([End(n)] + rest)) == Behind(Fold(l, st, kids), rest)
  {
    hide LevelOk;
    InStepFrom(l, Some(n), st, kids);
    FieldsElementFrom(l, n, st, kids, rest);
  }

  lemma FieldsElementFrom<S(!new)>(l: Level<S>, n: string, st: S, kids: Forest, rest: seq<Event>)
    requires LevelOk(l) && FitsFrom(l, st, kids) && StepFrom(l, Some(n), st, kids)
    ensures Fields(l, Some(n), st, Events(kids) + ([End(n)] + rest)) == Behind(Fold(l, st, kids), rest)
  {
    hide LevelOk;
    FieldsFoldFrom(l, Some(n), st, kids, [End(n)] + rest);
    assert ([End(n)] + rest)[1..] == rest;
  }

  lemma {:induction false} FieldsStopEarly<S(!new)>(l: Level<S>, closing: string, st: S, f: Forest, tail: seq<Event>)
    requires LevelOk(l) && FitsFrom(l, st, f) && !StepFrom(l, Some(closing), st, f)
    ensures var r := Fields(l, Some(closing), st, Events(f) + tail); r.Some? ==> |r.value.1| >= |tail|
    decreases f
  {
    hide ActionOn, LevelOk, Events;
    Unfolded(f, tail);
    match f
    case Element(n, a, kids, next) =>
      var rest := Events(next) + tail;
      var after := StateAfter(l, st, n, kids);
      UseField(l, st, n, kids, rest);
      if Enters(l, st, n) && !StepFrom(l, Some(closing), st, kids) {
        FieldsStopEarly(l, closing, st, kids, [End(n)] + rest);
      } else {
        if Enters(l, st, n) { FieldsFoldFrom(l, Some(closing), st, kids, [End(n)] + rest); }
        if after.Some? && !StepFrom(l, Some(closing), after.value, next) {
          FieldsStopEarly(l, closing, after.value, next, tail);
        }
      }
    case Hollow(n, a, next) => FieldsStopEarly(l, closing, st, next, tail);
    case Chars(t, next) => FieldsStopEarly(l, closing, st, next, tail);
    case CDataChars(d, next) => FieldsStopEarly(l, closing, st, next, tail);
    case Misc(next) => FieldsStopEarly(l, closing, st, next, tail);
  }

  /**
   Any of the loops stops exactly behind its own end tag if and only if nothing it enters on the
   way bears its name, given that whatever its sub-parsers take fits them.
   */
  lemma LoopReadsExactly<S(!new)>(l: Level<S>, n: string, st: S, kids: Forest, rest: seq<Event>)
    requires LevelOk(l) && FitsFrom(l, st, kids) && Fold(l, st, kids).Some?
    ensures StepFrom(l, Some(n), st, kids)
       <==> Fields(l, Some(n), st, Events(kids) + ([End(n)] + rest)) == Some((Fold(l, st, kids).value, rest))
  {
    hide LevelOk, Fields, StepFrom, FitsFrom;
    if StepFrom(l, Some(n), st, kids) {
      FieldsElementFrom(l, n, st, kids, rest);
    } else {
      FieldsStopEarly(l, n, st, kids, [End(n)] + rest);
    }
  }

  /** What a loop does with an element does not depend on what the element's own loop skips. */
  ghost predicate VisitOk<S(!new)>(l: Level<S>, n: string, kids: Forest) {
    match ActionOn(l.context, n)
    case Take(c') => forall st :: l.visit(st, n, Prune(c', kids)) == l.visit(st, n, kids)
    case Skip => forall st :: l.visit(st, n, kids) == Some(st)
    case _ => true
  }

  ghost predicate PruneOk<S(!new)>(l: Level<S>) {
    l.context != Inside && forall n, kids :: VisitOk(l, n, kids)
  }

  /** The fold ignores what is skipped: unknown elements cannot leak into the result. */
  lemma {:induction false} FoldPruned<S(!new)>(l: Level<S>, st: S, f: Forest)
    requires PruneOk(l)
    ensures Fold(l, st, Prune(l.context, f)) == Fold(l, st, f)
    decreases f
  {
    hide ActionOn;
    match f
    case Nil =>
    case Element(n, a, kids, next) =>
      assert VisitOk(l, n, kids);
      var after := if Enters(l, st, n) then Fold(l, st, kids) else l.visit(st, n, kids);
      if ActionOn(l.context, n).Enter? {
        FoldPruned(l, st, kids);
      }
      if after.Some? {
        FoldPruned(l, after.value, next);
      }
    case Hollow(n, a, next) => FoldPruned(l, st, next);
    case Chars(t, next) => FoldPruned(l, st, next);
    case CDataChars(d, next) => FoldPruned(l, st, next);
    case Misc(next) => FoldPruned(l, st, next);
  }

  // ---------- leaves under pruning ----------

  lemma {:induction false} TextPruned(f: Forest)
    ensures TextOf(Prune(Leaf, f)) == TextOf(f)
  {
    match f
    case Nil =>
    case Element(n, a, kids, next) => TextPruned(kids); TextPruned(next);
    case Hollow(n, a, next) => TextPruned(next);
    case Chars(t, next) => TextPruned(next);
    case CDataChars(d, next) => TextPruned(next);
    case Misc(next) => TextPruned(next);
  }

  lemma {:induction false} InsidePruned(f: Forest)
    ensures TextInside(Prune(Inside, f)) == TextInside(f)
  {
    match f
    case Nil =>
    case Element(n, a, kids, next) => InsidePruned(next);
    case Hollow(n, a, next) => InsidePruned(next);
    case Chars(t, next) => InsidePruned(next);
    case CDataChars(d, next) => InsidePruned(next);
    case Misc(next) => InsidePruned(next);
  }
}
