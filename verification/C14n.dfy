/**
 The event loop of the exclusive canonicaliser (`crates/eidas-xades/src/c14n.rs`),
 proved against a recursive print of the document tree.
 */
module C14n {
  import opened Wrappers
  import opened Bytes
  import opened CanonicalOrder

  // ---------- events and trees ----------

  /** One item of the attribute iterator; `BadAttr` is an iterator error. */
  datatype Attr = Attr(key: bytes, value: bytes) | BadAttr

  /** What the pull reader yields before end of input. */
  datatype Event =
    | StartTag(name: bytes, attrs: seq<Attr>)
    | EmptyTag(name: bytes, attrs: seq<Attr>)
    | EndTag(name: bytes)
    | TextEvent(unescaped: Option<bytes>)  // None: the text has an entity `unescape` rejects
    | CDataEvent(data: bytes)
    | OtherEvent                           // comment, processing instruction, declaration, doctype
    | ReadError

  /** A well-formed document: the items of one level, each with its right siblings in `next`. */
  datatype Forest =
    | Nil
    | Element(name: bytes, attrs: seq<Attr>, kids: Forest, next: Forest)
    | Hollow(name: bytes, attrs: seq<Attr>, next: Forest)  // written as an empty-element tag
    | Text(unescaped: Option<bytes>, next: Forest)
    | CData(data: bytes, next: Forest)
    | Other(next: Forest)

  function Events(f: Forest): seq<Event> {
    match f
    case Nil => []
    case Element(name, attrs, kids, next) =>
      [StartTag(name, attrs)] + Events(kids) + [EndTag(name)] + Events(next)
    case Hollow(name, attrs, next) => [EmptyTag(name, attrs)] + Events(next)
    case Text(t, next) => [TextEvent(t)] + Events(next)
    case CData(d, next) => [CDataEvent(d)] + Events(next)
    case Other(next) => [OtherEvent] + Events(next)
  }

  // ---------- names ----------

  /** `split_qname`: the parts before and after the first colon. */
  function SplitQName(qn: bytes): (r: (bytes, bytes))
    ensures COLON in qn ==> qn == r.0 + [COLON] + r.1 && COLON !in r.0
    ensures COLON !in qn ==> r == ([], qn)
  {
    match Position(qn, COLON)
    case Some(i) =>
      assert qn == qn[..i] + [COLON] + qn[i + 1..];
      (qn[..i], qn[i + 1..])
    case None => ([], qn)
  }

  /** The source compares local names only; a namespace in the target is never consulted. */
  predicate ShouldStrip(name: bytes, target: Option<bytes>) {
    target.Some? && SplitQName(name).1 == target.value
  }

  // ---------- escaping ----------

  function EscapeTextByte(b: byte): bytes {
    if b == LT then [38, 108, 116, 59]             // &lt;
    else if b == GT then [38, 103, 116, 59]        // &gt;
    else if b == AMP then [38, 97, 109, 112, 59]   // &amp;
    else if b == CR then [38, 35, 120, 68, 59]     // &#xD;
    else [b]
  }

  function EscapeText(t: bytes): bytes {
    if t == [] then [] else EscapeTextByte(t[0]) + EscapeText(t[1..])
  }

  function EscapeAttrByte(b: byte): bytes {
    if b == DQUOTE then [38, 113, 117, 111, 116, 59]  // &quot;
    else if b == LT then [38, 108, 116, 59]           // &lt;
    else if b == AMP then [38, 97, 109, 112, 59]      // &amp;
    else if b == CR then [38, 35, 120, 68, 59]        // &#xD;
    else if b == LF then [38, 35, 120, 65, 59]        // &#xA;
    else if b == TAB then [38, 35, 120, 57, 59]       // &#x9;
    else [b]
  }

  function EscapeAttr(v: bytes): bytes {
    if v == [] then [] else EscapeAttrByte(v[0]) + EscapeAttr(v[1..])
  }

  lemma EscapeTextSnoc(v: bytes, i: nat)
    requires i < |v|
    ensures EscapeText(v[..i + 1]) == EscapeText(v[..i]) + EscapeTextByte(v[i])
  {
    assert v[..i + 1] == v[..i] + [v[i]];
    EscapeTextAppend(v[..i], [v[i]]);
    assert EscapeText([v[i]][1..]) == [];
  }

  lemma {:induction false} EscapeTextAppend(s: bytes, t: bytes)
    ensures EscapeText(s + t) == EscapeText(s) + EscapeText(t)
  {
    hide EscapeTextByte;
    if s == [] {
      assert s + t == t;
    } else {
      EscapeTextAppend(s[1..], t);
      assert (s + t)[1..] == s[1..] + t;
      Append2(EscapeTextByte(s[0]), EscapeText(s[1..]), EscapeText(t));
    }
  }

  lemma EscapeAttrSnoc(v: bytes, i: nat)
    requires i < |v|
    ensures EscapeAttr(v[..i + 1]) == EscapeAttr(v[..i]) + EscapeAttrByte(v[i])
  {
    assert v[..i + 1] == v[..i] + [v[i]];
    EscapeAttrAppend(v[..i], [v[i]]);
    assert EscapeAttr([v[i]][1..]) == [];
  }

  lemma {:induction false} EscapeAttrAppend(s: bytes, t: bytes)
    ensures EscapeAttr(s + t) == EscapeAttr(s) + EscapeAttr(t)
  {
    hide EscapeAttrByte;
    if s == [] {
      assert s + t == t;
    } else {
      EscapeAttrAppend(s[1..], t);
      assert (s + t)[1..] == s[1..] + t;
      Append2(EscapeAttrByte(s[0]), EscapeAttr(s[1..]), EscapeAttr(t));
    }
  }

  method WriteEscapedText(text: bytes, out: bytes) returns (r: bytes)
    ensures r == out + EscapeText(text)
  {
    r := out;
    for i := 0 to |text|
      invariant r == out + EscapeText(text[..i])
    {
      EscapeTextSnoc(text, i);
      ghost var before := r;
      var b := text[i];
      if b == LT {
        r := r + [38, 108, 116, 59];
      } else if b == GT {
        r := r + [38, 103, 116, 59];
      } else if b == AMP {
        r := r + [38, 97, 109, 112, 59];
      } else if b == CR {
        r := r + [38, 35, 120, 68, 59];
      } else {
        r := r + [b];
      }
      assert r == before + EscapeTextByte(b);
      Append2(out, EscapeText(text[..i]), EscapeTextByte(b));
    }
    assert text[..|text|] == text;
  }

  method WriteEscapedAttrValue(v: bytes, out: bytes) returns (r: bytes)
    ensures r == out + EscapeAttr(v)
  {
    r := out;
    for i := 0 to |v|
      invariant r == out + EscapeAttr(v[..i])
    {
      EscapeAttrSnoc(v, i);
      ghost var before := r;
      var b := v[i];
      if b == DQUOTE {
        r := r + [38, 113, 117, 111, 116, 59];
      } else if b == LT {
        r := r + [38, 108, 116, 59];
      } else if b == AMP {
        r := r + [38, 97, 109, 112, 59];
      } else if b == CR {
        r := r + [38, 35, 120, 68, 59];
      } else if b == LF {
        r := r + [38, 35, 120, 65, 59];
      } else if b == TAB {
        r := r + [38, 35, 120, 57, 59];
      } else {
        r := r + [b];
      }
      assert r == before + EscapeAttrByte(b);
      Append2(out, EscapeAttr(v[..i]), EscapeAttrByte(b));
    }
    assert v[..|v|] == v;
  }

  // ---------- start tags ----------

  const XMLNS: bytes := [120, 109, 108, 110, 115]              // xmlns
  const XMLNS_COLON: bytes := [120, 109, 108, 110, 115, 58]    // xmlns:

  predicate IsNsKey(key: bytes) {
    key == XMLNS || StartsWith(key, XMLNS_COLON)
  }

  /** The tuple an attribute is filed under; the value is the raw text between the quotes. */
  function EntryOf(key: bytes, value: bytes): Entry {
    if key == XMLNS then Entry([], [], value)
    else if StartsWith(key, XMLNS_COLON) then Entry(key[6..], [], value)
    else
      var (prefix, local) := SplitQName(key);
      Entry(prefix, local, value)
  }

  /** Whether the document files `e` among the namespace declarations (`ns`) or the attributes. */
  ghost predicate Files(attrs: seq<Attr>, ns: bool, e: Entry) {
    exists a :: a in attrs && a.Attr? && IsNsKey(a.key) == ns && EntryOf(a.key, a.value) == e
  }

  /** `s` is the ordered set of the tuples `attrs` files under `ns`. */
  ghost predicate IsListing(s: seq<Entry>, attrs: seq<Attr>, ns: bool) {
    Sorted(s) && forall e :: e in s <==> Files(attrs, ns, e)
  }

  /** The ordered set of the tuples filed under `ns`, inserted left to right. */
  function Listing(attrs: seq<Attr>, ns: bool): (s: seq<Entry>)
    ensures IsListing(s, attrs, ns)
  {
    if attrs == [] then []
    else
      var s := Listing(attrs[..|attrs| - 1], ns);
      var a := attrs[|attrs| - 1];
      FilesLast(attrs, ns);
      if a.Attr? && IsNsKey(a.key) == ns then Insert(s, EntryOf(a.key, a.value)) else s
  }

  lemma FilesLast(attrs: seq<Attr>, ns: bool)
    requires attrs != []
    ensures var a := attrs[|attrs| - 1];
      forall e :: Files(attrs, ns, e) <==>
        Files(attrs[..|attrs| - 1], ns, e)
        || (a.Attr? && IsNsKey(a.key) == ns && EntryOf(a.key, a.value) == e)
  {
    var n := |attrs| - 1;
    assert attrs == attrs[..n] + [attrs[n]];
    assert forall x :: x in attrs <==> x in attrs[..n] || x == attrs[n];
  }

  function NsName(prefix: bytes): bytes {
    if prefix == [] then XMLNS else XMLNS_COLON + prefix
  }

  function AttrName(prefix: bytes, local: bytes): bytes {
    if prefix == [] then local else prefix + [COLON] + local
  }

  function KeyText(e: Entry, ns: bool): bytes {
    if ns then NsName(e.prefix) else AttrName(e.prefix, e.local)
  }

  function PrintEntry(e: Entry, ns: bool): bytes {
    [SPACE] + KeyText(e, ns) + [EQUALS, DQUOTE] + EscapeAttr(e.value) + [DQUOTE]
  }

  function PrintEntries(s: seq<Entry>, ns: bool): bytes {
    if s == [] then [] else PrintEntry(s[0], ns) + PrintEntries(s[1..], ns)
  }

  lemma {:induction false} PrintEntriesAppend(s: seq<Entry>, e: Entry, ns: bool)
    ensures PrintEntries(s + [e], ns) == PrintEntries(s, ns) + PrintEntry(e, ns)
  {
    if s == [] {
      assert s + [e] == [e];
      assert PrintEntries([e][1..], ns) == [];
    } else {
      PrintEntriesAppend(s[1..], e, ns);
      assert (s + [e])[1..] == s[1..] + [e];
      Append2(PrintEntry(s[0], ns), PrintEntries(s[1..], ns), PrintEntry(e, ns));
    }
  }

  function PrintOpen(name: bytes, ns: seq<Entry>, attrs: seq<Entry>): bytes {
    [LT] + name + PrintEntries(ns, true) + PrintEntries(attrs, false) + [GT]
  }

  function PrintStart(name: bytes, attrs: seq<Attr>): bytes {
    PrintOpen(name, Listing(attrs, true), Listing(attrs, false))
  }

  function PrintEnd(name: bytes): bytes {
    [LT, SLASH] + name + [GT]
  }

  method EmitEntry(e: Entry, ns: bool, out: bytes) returns (r: bytes)
    ensures r == out + PrintEntry(e, ns)
  {
    r := out + [SPACE];
    if ns {
      if e.prefix == [] {
        r := r + XMLNS;
      } else {
        r := r + XMLNS_COLON;
        r := r + e.prefix;
      }
    } else {
      if e.prefix != [] {
        r := r + e.prefix;
        r := r + [COLON];
      }
      r := r + e.local;
    }
    assert r == out + ([SPACE] + KeyText(e, ns));
    r := r + [EQUALS, DQUOTE];
    r := WriteEscapedAttrValue(e.value, r);
    r := r + [DQUOTE];
  }

  method EmitEntries(s: seq<Entry>, ns: bool, out: bytes) returns (r: bytes)
    ensures r == out + PrintEntries(s, ns)
  {
    r := out;
    assert PrintEntries(s[..0], ns) == [];
    hide *;
    for i := 0 to |s|
      invariant r == out + PrintEntries(s[..i], ns)
    {
      assert s[..i + 1] == s[..i] + [s[i]];
      PrintEntriesAppend(s[..i], s[i], ns);
      Append2(out, PrintEntries(s[..i], ns), PrintEntry(s[i], ns));
      r := EmitEntry(s[i], ns, r);
    }
    assert s[..|s|] == s;
  }

  method CollectAttributes(attrs: seq<Attr>) returns (ok: bool, nsDecls: seq<Entry>, attrList: seq<Entry>)
    ensures ok <==> BadAttr !in attrs
    ensures ok ==> nsDecls == Listing(attrs, true) && attrList == Listing(attrs, false)
  {
    nsDecls, attrList := [], [];
    for i := 0 to |attrs|
      invariant BadAttr !in attrs[..i]
      invariant nsDecls == Listing(attrs[..i], true)
      invariant attrList == Listing(attrs[..i], false)
    {
      assert attrs[..i + 1][..i] == attrs[..i];
      match attrs[i]
      case BadAttr => return false, [], [];
      case Attr(key, value) =>
        if key == XMLNS {
          nsDecls := Insert(nsDecls, Entry([], [], value));
        } else if StartsWith(key, XMLNS_COLON) {
          nsDecls := Insert(nsDecls, Entry(key[6..], [], value));
        } else {
          var (prefix, local) := SplitQName(key);
          attrList := Insert(attrList, Entry(prefix, local, value));
        }
    }
    assert attrs[..|attrs|] == attrs;
    ok := true;
  }

  method EmitStart(name: bytes, attrs: seq<Attr>, out: bytes) returns (r: Option<bytes>)
    ensures r == if BadAttr in attrs then None else Some(out + PrintStart(name, attrs))
  {
    hide Listing, PrintEntries;
    var o := out + [LT];
    o := o + name;
    var ok, nsDecls, attrList := CollectAttributes(attrs);
    if !ok {
      return None;
    }
    o := EmitEntries(nsDecls, true, o);
    o := EmitEntries(attrList, false, o);
    o := o + [GT];
    Append5(out, [LT], name, PrintEntries(nsDecls, true), PrintEntries(attrList, false), [GT]);
    r := Some(o);
  }

  /** Permuting, or repeating, attributes never changes a start tag. */
  lemma StartTagIgnoresAttributeOrder(name: bytes, a: seq<Attr>, b: seq<Attr>)
    requires forall x :: x in a <==> x in b
    ensures PrintStart(name, a) == PrintStart(name, b)
  {
    ListingIgnoresOrder(a, b, true);
    ListingIgnoresOrder(a, b, false);
  }

  lemma ListingIgnoresOrder(a: seq<Attr>, b: seq<Attr>, ns: bool)
    requires forall x :: x in a <==> x in b
    ensures Listing(a, ns) == Listing(b, ns)
  {
    assert forall e :: Files(a, ns, e) <==> Files(b, ns, e);
    SortedUnique(Listing(a, ns), Listing(b, ns));
  }

  // ---------- the event loop ----------

  /** `out`, `depth` and `skip_depth`. The counter is a machine word in the source; only equality matters. */
  datatype State = State(out: bytes, depth: int, skip: Option<int>)

  /** One turn of the loop. */
  function Step(s: State, ev: Event, target: Option<bytes>): Option<State> {
    match ev
    case StartTag(name, attrs) =>
      if s.skip.Some? then Some(s.(depth := s.depth + 1))
      else if ShouldStrip(name, target) then Some(s.(depth := s.depth + 1, skip := Some(s.depth)))
      else if BadAttr in attrs then None
      else Some(s.(depth := s.depth + 1, out := s.out + PrintStart(name, attrs)))
    case EmptyTag(name, attrs) =>
      if s.skip.Some? || ShouldStrip(name, target) then Some(s)
      else if BadAttr in attrs then None
      else Some(s.(out := s.out + PrintStart(name, attrs) + PrintEnd(name)))
    case EndTag(name) =>
      if s.skip.Some? then
        Some(s.(depth := s.depth - 1, skip := if s.depth - 1 == s.skip.value then None else s.skip))
      else Some(s.(depth := s.depth - 1, out := s.out + PrintEnd(name)))
    case TextEvent(t) =>
      if s.skip.Some? then Some(s)
      else if t.None? then None
      else Some(s.(out := s.out + EscapeText(t.value)))
    case CDataEvent(d) =>
      if s.skip.Some? then Some(s) else Some(s.(out := s.out + EscapeText(d)))
    case OtherEvent => Some(s)
    case ReadError => None
  }

  function Run(s: State, events: seq<Event>, target: Option<bytes>): Option<State>
    decreases |events|
  {
    if events == [] then Some(s)
    else
      match Step(s, events[0], target)
      case None => None
      case Some(s') => Run(s', events[1..], target)
  }

  const START := State([], 0, None)

  /** What the loop returns for any event stream, well formed or not. */
  function Canonicalise(events: seq<Event>, target: Option<bytes>): Option<bytes> {
    match Run(START, events, target)
    case None => None
    case Some(s) => Some(s.out)
  }

  /**
   `exc_c14n_with_envelope_strip` over the events of a document. On the events of a tree the
   result is the recursive print of the tree without the stripped subtrees.
   */
  method ExcC14n(events: seq<Event>, target: Option<bytes>) returns (r: Option<bytes>)
    ensures r == Canonicalise(events, target)
    ensures forall f :: events == Events(f) ==> r == CanonicalForm(f, target)
  {
    hide PrintStart, PrintEnd, EscapeText, Events, CanonicalForm, SplitQName;
    forall f | events == Events(f) ensures Canonicalise(events, target) == CanonicalForm(f, target) {
      LoopPrintsTree(f, target);
    }
    var out: bytes := [];
    var depth := 0;
    var skipDepth: Option<int> := None;
    var i := 0;
    while i < |events|
      invariant 0 <= i <= |events|
      invariant Run(START, events, target) == Run(State(out, depth, skipDepth), events[i..], target)
      decreases |events| - i
    {
      assert events[i..][0] == events[i];
      assert events[i..][1..] == events[i + 1..];
      ghost var before := State(out, depth, skipDepth);
      match events[i] {
      case StartTag(name, attrs) =>
        if skipDepth.None? && ShouldStrip(name, target) {
          skipDepth := Some(depth);
          depth := depth + 1;
        } else if skipDepth.Some? {
          depth := depth + 1;
        } else {
          var o := EmitStart(name, attrs, out);
          if o.None? { return None; }
          out := o.value;
          depth := depth + 1;
        }
      case EmptyTag(name, attrs) =>
        if skipDepth.None? && !ShouldStrip(name, target) {
          var o := EmitStart(name, attrs, out);
          if o.None? { return None; }
          out := o.value + PrintEnd(name);
        }
      case EndTag(name) =>
        depth := depth - 1;
        if skipDepth.Some? {
          if depth == skipDepth.value {
            skipDepth := None;
          }
        } else {
          out := out + PrintEnd(name);
        }
      case TextEvent(t) =>
        if skipDepth.None? {
          if t.None? { return None; }
          out := WriteEscapedText(t.value, out);
        }
      case CDataEvent(d) =>
        if skipDepth.None? {
          out := WriteEscapedText(d, out);
        }
      case OtherEvent =>
      case ReadError => return None;
      }
      assert Step(before, events[i], target) == Some(State(out, depth, skipDepth));
      i := i + 1;
    }
    assert events[i..] == [];
    r := Some(out);
  }

  // ---------- the tree specification ----------

  /** The forest without the subtrees whose local name is the target. */
  function Strip(f: Forest, target: Option<bytes>): Forest {
    match f
    case Nil => Nil
    case Element(name, attrs, kids, next) =>
      if ShouldStrip(name, target) then Strip(next, target)
      else Element(name, attrs, Strip(kids, target), Strip(next, target))
    case Hollow(name, attrs, next) =>
      if ShouldStrip(name, target) then Strip(next, target)
      else Hollow(name, attrs, Strip(next, target))
    case Text(t, next) => Text(t, Strip(next, target))
    case CData(d, next) => CData(d, Strip(next, target))
    case Other(next) => Other(Strip(next, target))
  }

  /** Whether printing the forest meets a rejected entity or attribute. */
  predicate HasFault(f: Forest) {
    match f
    case Nil => false
    case Element(_, attrs, kids, next) => BadAttr in attrs || HasFault(kids) || HasFault(next)
    case Hollow(_, attrs, next) => BadAttr in attrs || HasFault(next)
    case Text(t, next) => t.None? || HasFault(next)
    case CData(_, next) => HasFault(next)
    case Other(next) => HasFault(next)
  }

  /** Depth-first print: sorted start tags, expanded empty elements, CDATA as text. */
  function PrintForest(f: Forest): bytes
    requires !HasFault(f)
  {
    match f
    case Nil => []
    case Element(name, attrs, kids, next) =>
      PrintStart(name, attrs) + PrintForest(kids) + PrintEnd(name) + PrintForest(next)
    case Hollow(name, attrs, next) => PrintStart(name, attrs) + PrintEnd(name) + PrintForest(next)
    case Text(t, next) => EscapeText(t.value) + PrintForest(next)
    case CData(d, next) => EscapeText(d) + PrintForest(next)
    case Other(next) => PrintForest(next)
  }

  function CanonicalForm(f: Forest, target: Option<bytes>): Option<bytes> {
    var kept := Strip(f, target);
    if HasFault(kept) then None else Some(PrintForest(kept))
  }

  lemma {:induction false} RunAppend(s: State, a: seq<Event>, b: seq<Event>, target: Option<bytes>)
    ensures Run(s, a + b, target) ==
      match Run(s, a, target) case None => None case Some(s') => Run(s', b, target)
    decreases |a|
  {
    if a == [] {
      assert a + b == b;
    } else {
      assert (a + b)[1..] == a[1..] + b;
      match Step(s, a[0], target)
      case None =>
      case Some(s') => RunAppend(s', a[1..], b, target);
    }
  }

  /** One event, then the others. */
  lemma RunHead(s: State, ev: Event, tail: seq<Event>, target: Option<bytes>)
    ensures Run(s, [ev] + tail, target) ==
      match Step(s, ev, target) case None => None case Some(a) => Run(a, tail, target)
  {
    assert ([ev] + tail)[1..] == tail;
  }

  /** Inside a stripped subtree the loop consumes any forest and emits nothing. */
  lemma {:induction false} RunSkips(s: State, f: Forest, target: Option<bytes>)
    requires s.skip.Some? && s.skip.value < s.depth
    ensures Run(s, Events(f), target) == Some(s)
    decreases f
  {
    hide Run, ShouldStrip;
    match f
    case Nil => RunNothing(s, target);
    case Element(name, attrs, kids, next) =>
      var inner := s.(depth := s.depth + 1);
      RunSkips(inner, kids, target);
      RunSkips(s, next, target);
      RunElement(s, name, attrs, kids, next, target);
    case Hollow(name, attrs, next) =>
      RunHead(s, EmptyTag(name, attrs), Events(next), target);
      RunSkips(s, next, target);
    case Text(t, next) =>
      RunHead(s, TextEvent(t), Events(next), target);
      RunSkips(s, next, target);
    case CData(d, next) =>
      RunHead(s, CDataEvent(d), Events(next), target);
      RunSkips(s, next, target);
    case Other(next) =>
      RunHead(s, OtherEvent, Events(next), target);
      RunSkips(s, next, target);
  }

  lemma RunNothing(s: State, target: Option<bytes>)
    ensures Run(s, [], target) == Some(s)
  {
  }

  /** Running an element splits at its start tag, content, end tag and siblings. */
  lemma RunElement(s: State, name: bytes, attrs: seq<Attr>, kids: Forest, next: Forest, target: Option<bytes>)
    ensures Run(s, Events(Element(name, attrs, kids, next)), target) ==
      var a :- Step(s, StartTag(name, attrs), target);
      var b :- Run(a, Events(kids), target);
      var c :- Step(b, EndTag(name), target);
      Run(c, Events(next), target)
  {
    hide Run, Step;
    var start, end, inner, rest := [StartTag(name, attrs)], [EndTag(name)], Events(kids), Events(next);
    Append2(start + inner, end, rest);
    Append2(start, inner, end + rest);
    RunHead(s, StartTag(name, attrs), inner + (end + rest), target);
    var a := Step(s, StartTag(name, attrs), target);
    if a.Some? {
      RunAppend(a.value, inner, end + rest, target);
      var b := Run(a.value, inner, target);
      if b.Some? { RunHead(b.value, EndTag(name), rest, target); }
    }
  }

  /** Outside, the loop appends exactly the print of the stripped forest, or fails with it. */
  lemma {:induction false} RunPrints(s: State, f: Forest, target: Option<bytes>)
    requires s.skip.None?
    ensures var kept := Strip(f, target);
      Run(s, Events(f), target) ==
        if HasFault(kept) then None else Some(s.(out := s.out + PrintForest(kept)))
    decreases f, 1
  {
    hide PrintStart, PrintEnd, EscapeText, SplitQName, Run, ShouldStrip;
    match f
    case Nil =>
      RunNothing(s, target);
      assert s.out + [] == s.out;
    case Element(name, attrs, kids, next) => RunPrintsElement(s, name, attrs, kids, next, target);
    case Hollow(name, attrs, next) =>
      RunHead(s, EmptyTag(name, attrs), Events(next), target);
      if ShouldStrip(name, target) {
        RunPrints(s, next, target);
      } else if BadAttr !in attrs {
        RunPrints(s.(out := s.out + PrintStart(name, attrs) + PrintEnd(name)), next, target);
        if !HasFault(Strip(next, target)) {
          Append3(s.out, PrintStart(name, attrs), PrintEnd(name), PrintForest(Strip(next, target)));
        }
      }
    case Text(t, next) =>
      RunHead(s, TextEvent(t), Events(next), target);
      if t.Some? {
        RunPrints(s.(out := s.out + EscapeText(t.value)), next, target);
        if !HasFault(Strip(next, target)) {
          Append2(s.out, EscapeText(t.value), PrintForest(Strip(next, target)));
        }
      }
    case CData(d, next) =>
      RunHead(s, CDataEvent(d), Events(next), target);
      RunPrints(s.(out := s.out + EscapeText(d)), next, target);
      if !HasFault(Strip(next, target)) {
        Append2(s.out, EscapeText(d), PrintForest(Strip(next, target)));
      }
    case Other(next) =>
      RunHead(s, OtherEvent, Events(next), target);
      RunPrints(s, next, target);
  }

  lemma {:induction false} RunPrintsElement(s: State, name: bytes, attrs: seq<Attr>, kids: Forest, next: Forest,
      target: Option<bytes>)
    requires s.skip.None?
    ensures var kept := Strip(Element(name, attrs, kids, next), target);
      Run(s, Events(Element(name, attrs, kids, next)), target) ==
        if HasFault(kept) then None else Some(s.(out := s.out + PrintForest(kept)))
    decreases Element(name, attrs, kids, next), 0
  {
    hide PrintStart, PrintEnd, SplitQName, Run, ShouldStrip, Events;
    RunElement(s, name, attrs, kids, next, target);
    if ShouldStrip(name, target) {
      var inner := s.(depth := s.depth + 1, skip := Some(s.depth));
      RunSkips(inner, kids, target);
      RunPrints(s, next, target);
    } else if BadAttr !in attrs {
      var a := s.(depth := s.depth + 1, out := s.out + PrintStart(name, attrs));
      var keptKids, keptNext := Strip(kids, target), Strip(next, target);
      RunPrints(a, kids, target);
      if !HasFault(keptKids) {
        var b := a.(out := a.out + PrintForest(keptKids));
        RunPrints(s.(out := b.out + PrintEnd(name)), next, target);
        if !HasFault(keptNext) {
          Append4(s.out, PrintStart(name, attrs), PrintForest(keptKids), PrintEnd(name), PrintForest(keptNext));
        }
      }
    }
  }

  /** The depth/skip loop refines the recursive print. */
  lemma LoopPrintsTree(f: Forest, target: Option<bytes>)
    ensures Canonicalise(Events(f), target) == CanonicalForm(f, target)
  {
    RunPrints(START, f, target);
    assert !HasFault(Strip(f, target)) ==> [] + PrintForest(Strip(f, target)) == PrintForest(Strip(f, target));
  }

  // ---------- what a signer may change ----------

  /** The same document up to the order and repetition of attributes. */
  ghost predicate SameUpToAttributeOrder(f: Forest, g: Forest) {
    match f
    case Nil => g.Nil?
    case Element(name, attrs, kids, next) =>
      g.Element? && g.name == name && (forall a :: a in attrs <==> a in g.attrs)
      && SameUpToAttributeOrder(kids, g.kids) && SameUpToAttributeOrder(next, g.next)
    case Hollow(name, attrs, next) =>
      g.Hollow? && g.name == name && (forall a :: a in attrs <==> a in g.attrs)
      && SameUpToAttributeOrder(next, g.next)
    case Text(t, next) => g.Text? && g.unescaped == t && SameUpToAttributeOrder(next, g.next)
    case CData(d, next) => g.CData? && g.data == d && SameUpToAttributeOrder(next, g.next)
    case Other(next) => g.Other? && SameUpToAttributeOrder(next, g.next)
  }

  lemma {:induction false} PrintIgnoresAttributeOrder(f: Forest, g: Forest)
    requires SameUpToAttributeOrder(f, g)
    ensures HasFault(f) == HasFault(g)
    ensures !HasFault(f) ==> PrintForest(f) == PrintForest(g)
  {
    match f
    case Nil =>
    case Element(name, attrs, kids, next) =>
      StartTagIgnoresAttributeOrder(name, attrs, g.attrs);
      PrintIgnoresAttributeOrder(kids, g.kids);
      PrintIgnoresAttributeOrder(next, g.next);
    case Hollow(name, attrs, next) =>
      StartTagIgnoresAttributeOrder(name, attrs, g.attrs);
      PrintIgnoresAttributeOrder(next, g.next);
    case Text(t, next) => PrintIgnoresAttributeOrder(next, g.next);
    case CData(d, next) => PrintIgnoresAttributeOrder(next, g.next);
    case Other(next) => PrintIgnoresAttributeOrder(next, g.next);
  }

  /**
   Two documents that agree once the target subtrees are taken out, up to attribute order,
   canonicalise to the same bytes or the same error: a placeholder, a full signature and no
   signature at all are digested alike.
   */
  lemma StrippedSubtreesNeverMatter(f: Forest, g: Forest, target: Option<bytes>)
    requires SameUpToAttributeOrder(Strip(f, target), Strip(g, target))
    ensures Canonicalise(Events(f), target) == Canonicalise(Events(g), target)
  {
    LoopPrintsTree(f, target);
    LoopPrintsTree(g, target);
    PrintIgnoresAttributeOrder(Strip(f, target), Strip(g, target));
  }

  /** Stripping first and canonicalising without a target is the same. */
  lemma {:induction false} StripThenPrint(f: Forest, target: Option<bytes>)
    ensures Strip(Strip(f, target), None) == Strip(f, target)
    ensures Canonicalise(Events(f), target) == Canonicalise(Events(Strip(f, target)), None)
  {
    StripNothing(Strip(f, target));
    LoopPrintsTree(f, target);
    LoopPrintsTree(Strip(f, target), None);
  }

  lemma StripNothing(f: Forest)
    ensures Strip(f, None) == f
  {
  }
}
