/** What a built chain guarantees, and how it depends on the lists it was built from. */
module ChainProperties {
  import opened Wrappers
  import opened Chain

  // ---------- soundness ----------

  /** The link from certificate `k` of the walk to the next. */
  ghost predicate LinkAt(anchors: seq<Cert>, inters: seq<Cert>, at: int, w: Walk, k: nat)
    requires k < |w.sources| && |w.sources| == |w.path| - 1
  {
    && InRange(anchors, inters, w.sources[k])
    && w.path[k + 1] == Lookup(anchors, inters, w.sources[k])
    && MayHaveIssued(w.path[k + 1], w.path[k])
    && CaCapable(w.path[k + 1])
    && ValidAt(w.path[k], at) && ValidAt(w.path[k + 1], at)
    && MatchAnchor(anchors, w.path[k]) == Ok(None)
  }

  /** The certificates link up: sources resolve, issuers match, none is used twice. */
  ghost predicate Linked(anchors: seq<Cert>, inters: seq<Cert>, at: int, w: Walk) {
    && 1 <= |w.path| <= 16
    && |w.sources| == |w.path| - 1
    && (forall k :: 0 <= k < |w.sources| ==> LinkAt(anchors, inters, at, w, k))
    && (forall i, j :: 0 <= i < j < |w.sources| && w.sources[i].Intermediate? ==> w.sources[i] != w.sources[j])
  }

  /** A complete path: linked, in time, and its last certificate the first to match an anchor. */
  ghost predicate IsPath(anchors: seq<Cert>, inters: seq<Cert>, at: int, s: Success) {
    Linked(anchors, inters, at, s.walk)
    && ValidAt(s.walk.path[|s.walk.path| - 1], at)
    && MatchAnchor(anchors, s.walk.path[|s.walk.path| - 1]) == Ok(Some(s.anchor))
  }

  lemma StepKeepsLinked(anchors: seq<Cert>, inters: seq<Cert>, at: int, w: Walk)
    requires Linked(anchors, inters, at, w)
    ensures var t := Step(anchors, inters, at, w);
      match t
      case Go(w') => Linked(anchors, inters, at, w')
      case Stop(Ok(s)) => IsPath(anchors, inters, at, s)
      case Stop(Err(_)) => true
  {
    hide MatchAnchor, CaVerdict, CaCapable, MayHaveIssued, FirstUnused, FirstMatch;
    match Step(anchors, inters, at, w)
    case Stop(_) =>
    case Go(w') =>
      CaVerdictExact(w'.path[|w.path|]);
      var n := |w.sources|;
      assert forall k :: 0 <= k <= n ==> w'.path[k] == w.path[k];
      forall k | 0 <= k <= n ensures LinkAt(anchors, inters, at, w', k) {
        if k < n {
          assert LinkAt(anchors, inters, at, w, k);
        }
      }
      var s := w'.sources[n];
      assert s.Intermediate? ==> s !in w.sources;
      assert forall i :: 0 <= i < n ==> w'.sources[i] == w.sources[i];
  }

  lemma {:induction false} FinishIsPath(anchors: seq<Cert>, inters: seq<Cert>, at: int, w: Walk)
    requires Linked(anchors, inters, at, w)
    ensures var r := Finish(anchors, inters, at, w);
      r.Ok? ==> IsPath(anchors, inters, at, r.value) && w.path <= r.value.walk.path && w.sources <= r.value.walk.sources
    decreases MAX_DEPTH - |w.path|
  {
    hide Linked, IsPath, CaVerdict, MatchAnchor, ChooseIssuer;
    assert 1 <= |w.path| <= MAX_DEPTH by { LinkedSize(anchors, inters, at, w); }
    StepKeepsLinked(anchors, inters, at, w);
    match Step(anchors, inters, at, w)
    case Stop(_) =>
    case Go(w') => FinishIsPath(anchors, inters, at, w');
  }

  lemma LinkedSize(anchors: seq<Cert>, inters: seq<Cert>, at: int, w: Walk)
    requires Linked(anchors, inters, at, w)
    ensures 1 <= |w.path| <= MAX_DEPTH && |w.sources| == |w.path| - 1
  {
  }

  /**
   On success the signer heads a path of one to sixteen certificates whose names and key
   identifiers chain, all valid at `at`, every issuer CA-capable, no intermediate used twice and
   none but the last matching an anchor. The returned chain is that path with the last
   certificate replaced by the anchor's own, which agrees on subject and key.
   */
  lemma BuiltChainIsSound(anchors: seq<Cert>, inters: seq<Cert>, signer: Cert, at: int)
    requires BuildResult(anchors, inters, signer, at).Ok?
    ensures BuildWalk(anchors, inters, signer, at).Ok?
    ensures var s := BuildWalk(anchors, inters, signer, at).value;
      var r := BuildResult(anchors, inters, signer, at).value;
      var n := |s.walk.path|;
      IsPath(anchors, inters, at, s) && s.walk.path[0] == signer
      && |r.chain| == n && 1 <= n <= 16 && r.chain[..n - 1] == s.walk.path[..n - 1]
      && r.chain[n - 1] == r.anchor && r.anchor in anchors
      && r.anchor.subject == s.walk.path[n - 1].subject && r.anchor.spki == s.walk.path[n - 1].spki
  {
    FinishIsPath(anchors, inters, at, Start(signer));
    var s := BuildWalk(anchors, inters, signer, at).value;
    var last := s.walk.path[|s.walk.path| - 1];
    var j: nat :| FirstAnchor(anchors, last, j) && anchors[j] == s.anchor;
  }

  // ---------- remarks and errors ----------

  /** What the checks of the issuers remark, one issuer after the other. */
  function RemarksOn(issuers: seq<Cert>): seq<Diagnostic> {
    if issuers == [] then []
    else
      RemarksOn(issuers[..|issuers| - 1])
      + (match CaVerdict(issuers[|issuers| - 1]) case Ok(d) => d case Err(_) => [])
  }

  lemma {:induction false} WalkRemarks(anchors: seq<Cert>, inters: seq<Cert>, at: int, w: Walk)
    requires 1 <= |w.path| <= MAX_DEPTH && w.diagnostics == RemarksOn(w.path[1..])
    ensures match Finish(anchors, inters, at, w)
      case Ok(s) => s.walk.path != [] && s.walk.diagnostics == RemarksOn(s.walk.path[1..])
      case Err(e) => e != Config
    decreases MAX_DEPTH - |w.path|
  {
    hide MatchAnchor, CaVerdict, ChooseIssuer;
    var tail := w.path[|w.path| - 1];
    match Step(anchors, inters, at, w)
    case Stop(r) =>
      var s := ChooseIssuer(anchors, inters, w.sources, tail);
      if s.Some? { NeverConfig(Lookup(anchors, inters, s.value)); }
    case Go(w') =>
      var n := |w.path|;
      assert w'.path[1..] == w.path[1..] + [w'.path[n]];
      assert w'.path[1..][..n - 1] == w.path[1..];
      WalkRemarks(anchors, inters, at, w');
  }

  lemma NeverConfig(issuer: Cert)
    ensures CaVerdict(issuer).Err? ==> CaVerdict(issuer).error != Config
  {
    ExtensionsNeverConfig(issuer.extensions, issuer.subject);
  }

  lemma {:induction false} ExtensionsNeverConfig(es: seq<Extension>, subject: string)
    ensures CheckExtensions(es, subject).Err? ==> CheckExtensions(es, subject).error != Config
  {
    if es != [] { ExtensionsNeverConfig(es[..|es| - 1], subject); }
  }

  /** The remarks are those on the walked issuers, in order; a configuration error means there are no anchors. */
  lemma RemarksExactly(anchors: seq<Cert>, inters: seq<Cert>, signer: Cert, at: int)
    ensures var r := BuildResult(anchors, inters, signer, at);
      (r == Err(Config) <==> anchors == [])
      && (r.Ok? ==> BuildWalk(anchors, inters, signer, at).Ok?)
      && (r.Ok? ==>
            var path := BuildWalk(anchors, inters, signer, at).value.walk.path;
            path != [] && r.value.diagnostics == RemarksOn(path[1..]))
  {
    hide Finish;
    if anchors != [] {
      assert [signer][1..] == [];
      WalkRemarks(anchors, inters, at, Start(signer));
    }
  }

  // ---------- the returned chain ----------

  /** The key identifiers agree, in the module documentation's words: an AKI asks for that very SKI. */
  predicate KeyIdsAgree(issuer: Cert, cert: Cert) {
    cert.aki.Some? ==> issuer.ski == cert.aki
  }

  ghost predicate DocumentedLink(chain: seq<Cert>, k: nat)
    requires k + 1 < |chain|
  {
    chain[k].issuer == chain[k + 1].subject && CaCapable(chain[k + 1]) && KeyIdsAgree(chain[k + 1], chain[k])
  }

  /** What the module documentation promises of a returned chain. */
  ghost predicate IsDocumentedChain(signer: Cert, chain: seq<Cert>, at: int) {
    && chain != [] && chain[0] == signer
    && (forall k :: 0 <= k < |chain| ==> ValidAt(chain[k], at))
    && (forall k :: 0 <= k < |chain| - 1 ==> DocumentedLink(chain, k))
  }

  /** Between two walked certificates an AKI without a SKI on the other side goes unnoticed. */
  ghost predicate KeyIdsPresent(chain: seq<Cert>) {
    forall k :: 0 <= k < |chain| - 2 ==> KeyIdPresent(chain, k)
  }

  predicate KeyIdPresent(chain: seq<Cert>, k: nat)
    requires k + 1 < |chain|
  {
    chain[k].aki.Some? ==> chain[k + 1].ski.Some?
  }

  /**
   The last certificate is swapped for the anchor's own after the checks. So a returned chain is as
   documented exactly when the anchor itself is valid, and is the signer, or may issue and carries
   the key identifier asked for; and when no walked issuer lacks a key identifier asked for.
   */
  lemma ReturnedChainExactly(anchors: seq<Cert>, inters: seq<Cert>, signer: Cert, at: int)
    requires BuildResult(anchors, inters, signer, at).Ok?
    ensures var r := BuildResult(anchors, inters, signer, at).value;
      var n := |r.chain|;
      IsDocumentedChain(signer, r.chain, at) <==>
        ValidAt(r.anchor, at) && KeyIdsPresent(r.chain)
        && if n == 1 then r.anchor == signer else CaCapable(r.anchor) && KeyIdsAgree(r.anchor, r.chain[n - 2])
  {
    hide MatchAnchor, CaCapable, BuildWalk;
    BuiltChainIsSound(anchors, inters, signer, at);
    var s := BuildWalk(anchors, inters, signer, at).value;
    var r := BuildResult(anchors, inters, signer, at).value;
    var path, chain, n := s.walk.path, r.chain, |r.chain|;
    forall k | 0 <= k < n - 1 ensures ValidAt(path[k], at) && WalkedLink(path, k) && chain[k] == path[k] {
      assert LinkAt(anchors, inters, at, s.walk, k);
      assert chain[k] == chain[..n - 1][k];
    }
    LinksExactly(path, chain);
  }

  ghost predicate WalkedLink(path: seq<Cert>, k: nat)
    requires k + 1 < |path|
  {
    MayHaveIssued(path[k + 1], path[k]) && CaCapable(path[k + 1])
  }

  lemma LinksExactly(path: seq<Cert>, chain: seq<Cert>)
    requires 1 <= |chain| == |path| && chain[..|chain| - 1] == path[..|chain| - 1]
    requires chain[|chain| - 1].subject == path[|chain| - 1].subject
    requires forall k :: 0 <= k < |chain| - 1 ==> WalkedLink(path, k)
    ensures (forall k :: 0 <= k < |chain| - 1 ==> DocumentedLink(chain, k)) <==>
      KeyIdsPresent(chain)
      && (|chain| > 1 ==> CaCapable(chain[|chain| - 1]) && KeyIdsAgree(chain[|chain| - 1], chain[|chain| - 2]))
  {
    hide CaCapable;
    var n := |chain|;
    forall k | 0 <= k < n - 1 ensures chain[k] == path[k] {
      assert chain[k] == chain[..n - 1][k] == path[..n - 1][k];
    }
    forall k | 0 <= k < n - 1
      ensures DocumentedLink(chain, k) <==>
        if k < n - 2 then KeyIdPresent(chain, k)
        else CaCapable(chain[n - 1]) && KeyIdsAgree(chain[n - 1], chain[n - 2])
    {
      assert WalkedLink(path, k);
      if k < n - 2 { assert chain[k + 1] == path[k + 1]; }
    }
    if n > 1 && forall k :: 0 <= k < n - 1 ==> DocumentedLink(chain, k) {
      assert DocumentedLink(chain, n - 2);
    }
  }

  // ---------- an anchor taken as issuer ends the walk ----------

  lemma {:induction false} AnchorMatchesItself(anchors: seq<Cert>, j: nat)
    requires j < |anchors|
    ensures MatchAnchor(anchors, anchors[j]) != Ok(None)
  {
    if j > 0 {
      AnchorMatchesItself(anchors[1..], j - 1);
    }
  }

  /** Once an issuer is taken from the anchor list the next turn ends the walk. */
  lemma AnchorIssuerEndsWalk(anchors: seq<Cert>, inters: seq<Cert>, at: int, w: Walk)
    requires w.path != [] && Step(anchors, inters, at, w).Go?
    ensures var w' := Step(anchors, inters, at, w).walk;
      w'.sources != [] && w'.path != []
      && (w'.sources[|w'.sources| - 1].AnchorList? ==> Step(anchors, inters, at, w').Stop?)
  {
    var w' := Step(anchors, inters, at, w).walk;
    var s := w'.sources[|w'.sources| - 1];
    if s.AnchorList? {
      AnchorMatchesItself(anchors, s.index);
    }
  }

  /** So only the last certificate of a path can come from the anchor list. */
  lemma {:induction false} OnlyLastFromAnchors(anchors: seq<Cert>, inters: seq<Cert>, at: int, s: Success, k: nat)
    requires IsPath(anchors, inters, at, s) && k + 1 < |s.walk.sources|
    ensures s.walk.sources[k].Intermediate?
  {
    hide MatchAnchor, CaCapable, MayHaveIssued;
    assert LinkAt(anchors, inters, at, s.walk, k) && LinkAt(anchors, inters, at, s.walk, k + 1);
    var src := s.walk.sources[k];
    if src.AnchorList? {
      AnchorMatchesItself(anchors, src.index);
    }
  }

  // ---------- appended intermediates ----------

  /** The walk after `n` turns, if it has not stopped by then. */
  function After(anchors: seq<Cert>, inters: seq<Cert>, at: int, w: Walk, n: nat): Option<Walk>
    requires w.path != []
    decreases n
  {
    if n == 0 then Some(w)
    else
      match Step(anchors, inters, at, w)
      case Stop(_) => None
      case Go(w') => After(anchors, inters, at, w', n - 1)
  }

  /** Searching a longer list finds the same first match, if there was one. */
  lemma {:induction false} FirstUnusedExtends(cands: seq<Cert>, more: seq<Cert>, sources: seq<Source>, tail: Cert,
      from: nat)
    requires from <= |cands|
    ensures FirstUnused(cands, sources, tail, from).Some? ==>
      FirstUnused(cands + more, sources, tail, from) == FirstUnused(cands, sources, tail, from)
    ensures FirstUnused(cands, sources, tail, from).None? && (forall c :: c in more ==> !MayHaveIssued(c, tail)) ==>
      FirstUnused(cands + more, sources, tail, from).None?
    decreases |cands| - from
  {
    hide MayHaveIssued;
    if from < |cands| {
      assert (cands + more)[from] == cands[from];
      FirstUnusedExtends(cands, more, sources, tail, from + 1);
    } else {
      var r := FirstUnused(cands + more, sources, tail, from);
      if r.Some? {
        assert (cands + more)[r.value] == more[r.value - |cands|];
      }
    }
  }

  /** A turn that takes an intermediate, or reaches an anchor, is not changed by appending. */
  lemma StepExtends(anchors: seq<Cert>, inters: seq<Cert>, more: seq<Cert>, at: int, w: Walk)
    requires w.path != []
    ensures var t := Step(anchors, inters, at, w);
      (match t
       case Stop(r) => r.Ok?
       case Go(w') => w'.sources[|w.sources|].Intermediate?
                      || forall c :: c in more ==> !MayHaveIssued(c, w.path[|w.path| - 1]))
      ==> Step(anchors, inters + more, at, w) == t
  {
    hide MatchAnchor, CaVerdict, MayHaveIssued;
    var tail := w.path[|w.path| - 1];
    FirstUnusedExtends(inters, more, w.sources, tail, 0);
  }

  /** The certificate whose issuer came from the anchor list, if the walk took one from there. */
  function AnchoredTail(s: Success): Option<Cert>
    requires |s.walk.sources| == |s.walk.path| - 1
  {
    var n := |s.walk.sources|;
    if n > 0 && s.walk.sources[n - 1].AnchorList? then Some(s.walk.path[n - 1]) else None
  }

  /** No appended certificate may pass for the issuer of that certificate. */
  ghost predicate NotIntercepted(more: seq<Cert>, s: Success)
    requires |s.walk.sources| == |s.walk.path| - 1
  {
    AnchoredTail(s).Some? ==> forall c :: c in more ==> !MayHaveIssued(c, AnchoredTail(s).value)
  }

  lemma {:induction false} FinishExtends(anchors: seq<Cert>, inters: seq<Cert>, more: seq<Cert>, at: int, w: Walk)
    requires Linked(anchors, inters, at, w)
    requires Finish(anchors, inters, at, w).Ok?
    ensures var s := Finish(anchors, inters, at, w).value;
      |s.walk.sources| == |s.walk.path| - 1
      && (NotIntercepted(more, s) ==> Finish(anchors, inters + more, at, w) == Ok(s))
    decreases MAX_DEPTH - |w.path|
  {
    hide MatchAnchor, CaVerdict, MayHaveIssued, CaCapable, ChooseIssuer;
    FinishIsPath(anchors, inters, at, w);
    StepKeepsLinked(anchors, inters, at, w);
    StepExtends(anchors, inters, more, at, w);
    var s := Finish(anchors, inters, at, w).value;
    match Step(anchors, inters, at, w)
    case Stop(_) =>
    case Go(w') =>
      FinishIsPath(anchors, inters, at, w');
      FinishExtends(anchors, inters, more, at, w');
      if w'.sources[|w.sources|].AnchorList? {
        LastTurn(anchors, inters, at, w);
      }
  }

  /** After an issuer from the anchor list the walk succeeds with that path, or fails. */
  lemma LastTurn(anchors: seq<Cert>, inters: seq<Cert>, at: int, w: Walk)
    requires Linked(anchors, inters, at, w)
    requires Step(anchors, inters, at, w).Go? && Finish(anchors, inters, at, w).Ok?
    requires Step(anchors, inters, at, w).walk.sources[|w.sources|].AnchorList?
    ensures Finish(anchors, inters, at, w).value.walk == Step(anchors, inters, at, w).walk
  {
    StepKeepsLinked(anchors, inters, at, w);
    AnchorIssuerEndsWalk(anchors, inters, at, w);
  }

  /**
   Appended intermediates cannot displace earlier ones: when no appended certificate passes for
   the issuer of the certificate whose issuer came from the anchors, or when the walk took no
   issuer from the anchors, the whole result is the same.
   */
  lemma AppendedIntermediatesKeepResult(anchors: seq<Cert>, inters: seq<Cert>, more: seq<Cert>, signer: Cert, at: int)
    requires BuildWalk(anchors, inters, signer, at).Ok?
    ensures var s := BuildWalk(anchors, inters, signer, at).value;
      |s.walk.sources| == |s.walk.path| - 1
      && (NotIntercepted(more, s) ==>
            BuildResult(anchors, inters + more, signer, at) == BuildResult(anchors, inters, signer, at))
  {
    FinishExtends(anchors, inters, more, at, Start(signer));
  }

  /** Turns shared with the longer run: all but the one that took an issuer from the anchors. */
  function Shared(s: Success): int
    requires |s.walk.sources| == |s.walk.path| - 1
  {
    |s.walk.path| - if AnchoredTail(s).Some? then 1 else 0
  }

  ghost predicate ReachesPrefix(anchors: seq<Cert>, inters: seq<Cert>, at: int, w: Walk, s: Success, n: int)
    requires w.path != []
  {
    |w.path| <= n <= |s.walk.path| && n <= |s.walk.sources| + 1
    && var reached := After(anchors, inters, at, w, n - |w.path|);
       reached.Some? && reached.value.path == s.walk.path[..n] && reached.value.sources == s.walk.sources[..n - 1]
  }

  lemma {:induction false} AfterExtends(anchors: seq<Cert>, inters: seq<Cert>, more: seq<Cert>, at: int, w: Walk)
    requires Linked(anchors, inters, at, w)
    requires Finish(anchors, inters, at, w).Ok?
    ensures var s := Finish(anchors, inters, at, w).value;
      |s.walk.sources| == |s.walk.path| - 1
      && (Shared(s) >= |w.path| ==> ReachesPrefix(anchors, inters + more, at, w, s, Shared(s)))
    decreases MAX_DEPTH - |w.path|
  {
    hide Step, IsPath, Linked, AnchoredTail;
    LinkedSize(anchors, inters, at, w);
    FinishIsPath(anchors, inters, at, w);
    var s := Finish(anchors, inters, at, w).value;
    PathSize(anchors, inters, at, s);
    StepKeepsLinked(anchors, inters, at, w);
    StepExtends(anchors, inters, more, at, w);
    assert s.walk.path[..|w.path|] == w.path && s.walk.sources[..|w.sources|] == w.sources;
    if Step(anchors, inters, at, w).Go? {
      var w' := Step(anchors, inters, at, w).walk;
      StepGrows(anchors, inters, at, w);
      if w'.sources[|w.sources|].AnchorList? {
        LastTurn(anchors, inters, at, w);
        AnchoredLast(s);
      } else {
        AfterExtends(anchors, inters, more, at, w');
      }
    } else {
      assert s.walk == w by { StopKeepsWalk(anchors, inters, at, w); }
    }
  }

  lemma PathSize(anchors: seq<Cert>, inters: seq<Cert>, at: int, s: Success)
    requires IsPath(anchors, inters, at, s)
    ensures |s.walk.sources| == |s.walk.path| - 1
  {
  }

  lemma StepGrows(anchors: seq<Cert>, inters: seq<Cert>, at: int, w: Walk)
    requires w.path != [] && Step(anchors, inters, at, w).Go?
    ensures var w' := Step(anchors, inters, at, w).walk;
      |w'.path| == |w.path| + 1 && |w'.sources| == |w.sources| + 1
  {
  }

  lemma StopKeepsWalk(anchors: seq<Cert>, inters: seq<Cert>, at: int, w: Walk)
    requires w.path != [] && Step(anchors, inters, at, w).Stop? && Step(anchors, inters, at, w).result.Ok?
    ensures Step(anchors, inters, at, w).result.value.walk == w
  {
  }

  lemma AnchoredLast(s: Success)
    requires |s.walk.sources| == |s.walk.path| - 1 > 0
    requires s.walk.sources[|s.walk.sources| - 1].AnchorList?
    ensures AnchoredTail(s).Some?
  {
  }

  /**
   In every case the longer run walks the same certificates up to the last one whose issuer came
   from the anchors; only there can an appended certificate step in.
   */
  lemma AppendedIntermediatesKeepPrefix(anchors: seq<Cert>, inters: seq<Cert>, more: seq<Cert>, signer: Cert, at: int)
    requires BuildWalk(anchors, inters, signer, at).Ok?
    ensures var s := BuildWalk(anchors, inters, signer, at).value;
      |s.walk.sources| == |s.walk.path| - 1 && 1 <= Shared(s)
      && ReachesPrefix(anchors, inters + more, at, Start(signer), s, Shared(s))
  {
    FinishIsPath(anchors, inters, at, Start(signer));
    AfterExtends(anchors, inters, more, at, Start(signer));
  }

  // ---------- completeness ----------

  predicate IsCandidate(anchors: seq<Cert>, inters: seq<Cert>, c: Cert) {
    c in inters || c in anchors
  }

  ghost predicate MayIssue(anchors: seq<Cert>, inters: seq<Cert>, issuer: Cert, cert: Cert) {
    IsCandidate(anchors, inters, issuer) && MayHaveIssued(issuer, cert)
  }

  ghost predicate EdgeAt(anchors: seq<Cert>, inters: seq<Cert>, p: seq<Cert>, k: nat)
    requires k + 1 < |p|
  {
    MayIssue(anchors, inters, p[k + 1], p[k]) && CaCapable(p[k + 1])
  }

  /** A path a verifier could have followed by hand; nothing is said about how it was found. */
  ghost predicate ValidPath(anchors: seq<Cert>, inters: seq<Cert>, at: int, p: seq<Cert>) {
    && 1 <= |p| <= 16
    && (forall k :: 0 <= k < |p| ==> ValidAt(p[k], at))
    && (forall k :: 0 <= k < |p| - 1 ==> EdgeAt(anchors, inters, p, k))
    && (forall k :: 0 <= k < |p| ==> MatchAnchor(anchors, p[k]).Ok?)
    && MatchAnchor(anchors, p[|p| - 1]) != Ok(None)
  }

  ghost predicate OneIssuerAt(anchors: seq<Cert>, inters: seq<Cert>, p: seq<Cert>, k: nat)
    requires k + 1 < |p|
  {
    forall c :: MayIssue(anchors, inters, c, p[k]) ==> c == p[k + 1]
  }

  /** Every certificate of the path but the last has one possible issuer among the candidates. */
  ghost predicate Unambiguous(anchors: seq<Cert>, inters: seq<Cert>, p: seq<Cert>) {
    forall k :: 0 <= k < |p| - 1 ==> OneIssuerAt(anchors, inters, p, k)
  }

  /** No certificate before the last matches an anchor. */
  ghost predicate FirstToMatch(anchors: seq<Cert>, p: seq<Cert>) {
    forall k :: 0 <= k < |p| - 1 ==> MatchAnchor(anchors, p[k]) == Ok(None)
  }

  /** A valid path has a valid prefix whose last certificate is the first to match. */
  lemma {:induction false} ShortestPrefix(anchors: seq<Cert>, inters: seq<Cert>, at: int, p: seq<Cert>, k: nat)
    returns (n: nat)
    requires ValidPath(anchors, inters, at, p) && k < |p|
    requires forall i :: 0 <= i < k ==> MatchAnchor(anchors, p[i]) == Ok(None)
    ensures 0 < n <= |p| && ValidPath(anchors, inters, at, p[..n]) && FirstToMatch(anchors, p[..n])
    decreases |p| - k
  {
    hide MatchAnchor, CaCapable, MayIssue;
    if MatchAnchor(anchors, p[k]) == Ok(None) {
      n := ShortestPrefix(anchors, inters, at, p, k + 1);
    } else {
      n := k + 1;
      forall i | 0 <= i < n - 1 ensures EdgeAt(anchors, inters, p[..n], i) {
        assert EdgeAt(anchors, inters, p, i);
      }
    }
  }

  /** On an unambiguous path to a first match no certificate repeats: a cycle would never reach it. */
  lemma {:induction false} NoRepeat(anchors: seq<Cert>, inters: seq<Cert>, at: int, p: seq<Cert>, i: nat, j: nat)
    requires ValidPath(anchors, inters, at, p) && Unambiguous(anchors, inters, p) && FirstToMatch(anchors, p)
    requires i < j < |p|
    ensures p[i] != p[j]
    decreases |p| - j
  {
    hide MatchAnchor, CaCapable, MayIssue, ValidAt;
    if j + 1 < |p| {
      NoRepeat(anchors, inters, at, p, i + 1, j + 1);
      assert EdgeAt(anchors, inters, p, i) && OneIssuerAt(anchors, inters, p, j);
    }
  }

  ghost predicate SourceAt(anchors: seq<Cert>, inters: seq<Cert>, w: Walk, k: nat)
    requires k < |w.sources| && |w.sources| == |w.path| - 1
  {
    InRange(anchors, inters, w.sources[k]) && Lookup(anchors, inters, w.sources[k]) == w.path[k + 1]
  }

  /** The walk has followed the path so far. */
  ghost predicate Follows(anchors: seq<Cert>, inters: seq<Cert>, p: seq<Cert>, w: Walk) {
    && 1 <= |w.path| <= |p| && w.path == p[..|w.path|]
    && |w.sources| == |w.path| - 1
    && forall k :: 0 <= k < |w.sources| ==> SourceAt(anchors, inters, w, k)
  }

  lemma StepFollows(anchors: seq<Cert>, inters: seq<Cert>, at: int, p: seq<Cert>, w: Walk)
    requires ValidPath(anchors, inters, at, p) && Unambiguous(anchors, inters, p) && FirstToMatch(anchors, p)
    requires Follows(anchors, inters, p, w) && |w.path| < |p|
    ensures Step(anchors, inters, at, w).Go? && Follows(anchors, inters, p, Step(anchors, inters, at, w).walk)
    ensures |Step(anchors, inters, at, w).walk.path| == |w.path| + 1
  {
    hide MatchAnchor, CaVerdict, CaCapable, MayHaveIssued, ChooseIssuer;
    var n := |w.path|;
    var tail, issuer := p[n - 1], p[n];
    assert w.path[n - 1] == tail;
    assert EdgeAt(anchors, inters, p, n - 1) && OneIssuerAt(anchors, inters, p, n - 1);
    IssuerUnused(anchors, inters, at, p, w);
    ChoiceIs(anchors, inters, w.sources, tail, issuer);
    CaVerdictExact(issuer);
    assert p[..n + 1] == p[..n] + [issuer];
    var w' := Step(anchors, inters, at, w).walk;
    forall k | 0 <= k < n ensures SourceAt(anchors, inters, w', k) {
      if k < n - 1 {
        assert SourceAt(anchors, inters, w, k);
      }
    }
  }

  /** The one candidate that is left is chosen. */
  lemma ChoiceIs(anchors: seq<Cert>, inters: seq<Cert>, sources: seq<Source>, tail: Cert, issuer: Cert)
    requires MayIssue(anchors, inters, issuer, tail)
    requires forall c :: MayIssue(anchors, inters, c, tail) ==> c == issuer
    requires forall i :: 0 <= i < |inters| && inters[i] == issuer ==> Intermediate(i) !in sources
    ensures var s := ChooseIssuer(anchors, inters, sources, tail);
      s.Some? && InRange(anchors, inters, s.value) && Lookup(anchors, inters, s.value) == issuer
  {
    hide MayHaveIssued, FirstUnused, FirstMatch;
    var u, m := FirstUnused(inters, sources, tail, 0), FirstMatch(anchors, tail, 0);
    if u.Some? {
      assert MayIssue(anchors, inters, inters[u.value], tail);
    } else {
      assert issuer !in inters;
      assert m.Some?;
      assert MayIssue(anchors, inters, anchors[m.value], tail);
    }
  }

  /** The next certificate of the path is not among the used intermediates. */
  lemma IssuerUnused(anchors: seq<Cert>, inters: seq<Cert>, at: int, p: seq<Cert>, w: Walk)
    requires ValidPath(anchors, inters, at, p) && Unambiguous(anchors, inters, p) && FirstToMatch(anchors, p)
    requires Follows(anchors, inters, p, w) && |w.path| < |p|
    ensures forall i :: 0 <= i < |inters| && inters[i] == p[|w.path|] ==> Intermediate(i) !in w.sources
  {
    hide MatchAnchor, CaCapable, MayHaveIssued, ValidPath, Unambiguous, FirstToMatch;
    forall i | 0 <= i < |inters| && inters[i] == p[|w.path|] ensures Intermediate(i) !in w.sources {
      forall k | 0 <= k < |w.sources| ensures w.sources[k] != Intermediate(i) {
        NoRepeat(anchors, inters, at, p, k + 1, |w.path|);
        assert SourceAt(anchors, inters, w, k) && w.path[k + 1] == p[k + 1];
      }
    }
  }

  lemma {:induction false} FinishFollows(anchors: seq<Cert>, inters: seq<Cert>, at: int, p: seq<Cert>, w: Walk)
    requires ValidPath(anchors, inters, at, p) && Unambiguous(anchors, inters, p) && FirstToMatch(anchors, p)
    requires Follows(anchors, inters, p, w)
    ensures |w.path| <= MAX_DEPTH && Finish(anchors, inters, at, w).Ok?
    ensures Finish(anchors, inters, at, w).value.walk.path == p
    decreases |p| - |w.path|
  {
    hide MatchAnchor, CaVerdict, CaCapable, MayHaveIssued, ChooseIssuer;
    if |w.path| < |p| {
      StepFollows(anchors, inters, at, p, w);
      FinishFollows(anchors, inters, at, p, Step(anchors, inters, at, w).walk);
    } else {
      assert w.path == p;
    }
  }

  /**
   Greedy completeness: if some valid path of at most sixteen certificates leads from the signer
   to an anchor and every certificate on it has exactly one candidate issuer, the walk succeeds,
   along that path up to its first certificate that matches an anchor.
   */
  lemma UnambiguousPathIsFound(anchors: seq<Cert>, inters: seq<Cert>, signer: Cert, at: int, p: seq<Cert>)
    requires ValidPath(anchors, inters, at, p) && Unambiguous(anchors, inters, p) && p[0] == signer
    ensures BuildResult(anchors, inters, signer, at).Ok?
    ensures BuildWalk(anchors, inters, signer, at).value.walk.path <= p
  {
    var n := ShortestPrefix(anchors, inters, at, p, 0);
    assert anchors != [] by {
      assert MatchAnchor(anchors, p[|p| - 1]).Ok?;
    }
    var q := p[..n];
    forall k | 0 <= k < n - 1 ensures OneIssuerAt(anchors, inters, q, k) {
      assert OneIssuerAt(anchors, inters, p, k);
    }
    hide MatchAnchor, CaVerdict, CaCapable, MayHaveIssued, ValidPath, Unambiguous, FirstToMatch;
    assert Follows(anchors, inters, q, Start(signer)) by {
      assert q[..1] == [signer];
    }
    FinishFollows(anchors, inters, at, q, Start(signer));
  }
}
