/** Small chains: one that is sound, and two returned chains that are not as documented. */
module ChainWitness {
  import opened Wrappers
  import opened Chain
  import opened ChainProperties

  const ROOT := Cert("R", "R", Some([2]), None, None, 0, 10, [BasicConstraints(Some(true)), KeyUsage(Some(true))])
  const LEAF := Cert("S", "R", Some([1]), None, None, 0, 10, [])

  /** The root's subject and key, but expired and no certification authority. */
  const OLD_ANCHOR := Cert("R", "R", Some([2]), None, None, 0, 1, [])

  lemma RootMayIssue()
    ensures CaVerdict(ROOT) == Ok([]) && CaCapable(ROOT)
  {
    var es := ROOT.extensions;
    var none: seq<Diagnostic> := [];
    assert none + none == none;
    assert [es[0]][..0] == [] && es[..1] == [es[0]] && |es| == 2;
    assert CheckExtensions([es[0]], "R") == Ok(none);
    assert CheckExtensions(es, "R") == Ok(none);
    assert HasBasicConstraints(es) && HasKeyUsage(es) by {
      assert es[0] in es && es[1] in es;
    }
    CaVerdictExact(ROOT);
  }

  lemma TwoCertificates()
    ensures BuildResult([ROOT], [], LEAF, 5) == Ok(ValidationResult([LEAF, ROOT], ROOT, []))
  {
    hide CaVerdict, CaCapable;
    var w := Walk([LEAF, ROOT], [AnchorList(0)], []);
    RootMayIssue();
    assert MatchAnchor([ROOT], LEAF) == Ok(None);
    assert Step([ROOT], [], 5, Start(LEAF)) == Go(w);
    assert Step([ROOT], [], 5, w) == Stop(Ok(Success(w, ROOT)));
    assert Finish([ROOT], [], 5, w) == Ok(Success(w, ROOT));
    assert w.path[..1] + [ROOT] == [LEAF, ROOT];
  }

  /** A walked certificate that passes every check is returned as an expired anchor that may not issue. */
  lemma SwappedAnchorIsUnchecked()
    ensures BuildResult([OLD_ANCHOR], [ROOT], LEAF, 5) == Ok(ValidationResult([LEAF, OLD_ANCHOR], OLD_ANCHOR, []))
    ensures !ValidAt(OLD_ANCHOR, 5) && !CaCapable(OLD_ANCHOR)
    ensures !IsDocumentedChain(LEAF, [LEAF, OLD_ANCHOR], 5)
  {
    hide CaVerdict;
    var anchors, inters := [OLD_ANCHOR], [ROOT];
    var w := Walk([LEAF, ROOT], [Intermediate(0)], []);
    RootMayIssue();
    assert MatchAnchor(anchors, LEAF) == Ok(None);
    assert Step(anchors, inters, 5, Start(LEAF)) == Go(w);
    assert Step(anchors, inters, 5, w) == Stop(Ok(Success(w, OLD_ANCHOR)));
    assert Finish(anchors, inters, 5, w) == Ok(Success(w, OLD_ANCHOR));
    assert w.path[..1] + [OLD_ANCHOR] == [LEAF, OLD_ANCHOR];
    assert !ValidAt([LEAF, OLD_ANCHOR][1], 5);
  }

  /** A signer with an anchor's subject and key is returned as that anchor. */
  lemma SignerIsReplaced()
    ensures BuildResult([OLD_ANCHOR], [], ROOT, 5) == Ok(ValidationResult([OLD_ANCHOR], OLD_ANCHOR, []))
    ensures !IsDocumentedChain(ROOT, [OLD_ANCHOR], 5)
  {
    var w := Start(ROOT);
    assert Step([OLD_ANCHOR], [], 5, w) == Stop(Ok(Success(w, OLD_ANCHOR)));
    assert w.path[..0] + [OLD_ANCHOR] == [OLD_ANCHOR];
  }

  // ---------- key identifiers ----------

  const KEYED_LEAF := LEAF.(aki := Some([9]))

  /** An issuer without a key identifier is accepted by name. */
  lemma NameAloneSuffices()
    ensures BuildResult([ROOT], [], KEYED_LEAF, 5) == Ok(ValidationResult([KEYED_LEAF, ROOT], ROOT, []))
    ensures !IsDocumentedChain(KEYED_LEAF, [KEYED_LEAF, ROOT], 5)
  {
    hide CaVerdict, CaCapable;
    var w := Walk([KEYED_LEAF, ROOT], [AnchorList(0)], []);
    RootMayIssue();
    assert MatchAnchor([ROOT], KEYED_LEAF) == Ok(None);
    assert Step([ROOT], [], 5, Start(KEYED_LEAF)) == Go(w);
    assert Step([ROOT], [], 5, w) == Stop(Ok(Success(w, ROOT)));
    assert Finish([ROOT], [], 5, w) == Ok(Success(w, ROOT));
    assert w.path[..1] + [ROOT] == [KEYED_LEAF, ROOT];
    assert !DocumentedLink([KEYED_LEAF, ROOT], 0);
  }

  /** So a chain of three can lack a key identifier between two walked certificates. */
  const MIDDLE := ROOT.(subject := "M", spki := Some([3]))
  const THIRD := KEYED_LEAF.(issuer := "M")

  lemma KeyIdentifierMissing()
    ensures var r := BuildResult([ROOT], [MIDDLE], THIRD, 5);
      r.Ok? && r.value.chain == [THIRD, MIDDLE, ROOT] && !KeyIdsPresent(r.value.chain)
  {
    hide CaVerdict, CaCapable;
    var anchors, inters, path := [ROOT], [MIDDLE], [THIRD, MIDDLE, ROOT];
    var w1 := Walk([THIRD, MIDDLE], [Intermediate(0)], []);
    var w2 := Walk(path, [Intermediate(0), AnchorList(0)], []);
    RootMayIssue();
    MiddleMayIssue();
    assert MatchAnchor(anchors, THIRD) == Ok(None) && MatchAnchor(anchors, MIDDLE) == Ok(None);
    assert Step(anchors, inters, 5, Start(THIRD)) == Go(w1);
    assert Step(anchors, inters, 5, w1) == Go(w2);
    assert Step(anchors, inters, 5, w2) == Stop(Ok(Success(w2, ROOT)));
    assert Finish(anchors, inters, 5, w2) == Ok(Success(w2, ROOT));
    assert Finish(anchors, inters, 5, w1) == Ok(Success(w2, ROOT));
    assert path[..2] + [ROOT] == path;
    assert !KeyIdPresent(path, 0);
  }

  lemma MiddleMayIssue()
    ensures CaVerdict(MIDDLE) == Ok([])
  {
    RootMayIssue();
    var es := MIDDLE.extensions;
    var none: seq<Diagnostic> := [];
    assert none + none == none;
    assert [es[0]][..0] == [] && es[..1] == [es[0]] && |es| == 2;
    assert CheckExtensions([es[0]], "M") == Ok(none);
    assert CheckExtensions(es, "M") == Ok(none);
  }
}
