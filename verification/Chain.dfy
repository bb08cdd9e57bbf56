/** The X.509 chain builder: a greedy walk from the signer to a trust anchor (`crates/eidas-x509/src/chain.rs`). */
module Chain {
  import opened Wrappers
  import opened Bytes

  datatype Error = Config | ChainError | Asn1

  /** The extensions the walk decodes; `None` is a body that does not decode. */
  datatype Extension =
    | BasicConstraints(ca: Option<bool>)
    | KeyUsage(certSign: Option<bool>)
    | ExtKeyUsage(purposes: Option<nat>)
    | OtherExtension

  /** What the walk reads of a certificate. `spki` is `None` when it cannot be encoded again. */
  datatype Cert = Cert(
    subject: string, issuer: string, spki: Option<bytes>,
    ski: Option<bytes>, aki: Option<bytes>,
    notBefore: int, notAfter: int,
    extensions: seq<Extension>)

  datatype Diagnostic = CaHasEku(subject: string) | CaNoKeyUsage(subject: string)

  // ---------- checks on one certificate ----------

  /** The issuer's name is the one asked for, and the key identifiers, where both sides carry one, are equal. */
  ghost predicate MayHaveIssued(issuer: Cert, cert: Cert) {
    issuer.subject == cert.issuer
    && (cert.aki.None? || issuer.ski.None? || cert.aki.value == issuer.ski.value)
  }

  predicate IssuerMatches(candidate: Cert, tail: Cert): (r: bool)
    ensures r <==> MayHaveIssued(candidate, tail)
  {
    candidate.subject == tail.issuer
    && (tail.aki.Some? && candidate.ski.Some? ==> tail.aki == candidate.ski)
  }

  /** Inverted validity windows are errors too, and contain no instant. */
  predicate ValidAt(cert: Cert, at: int) {
    cert.notBefore <= at <= cert.notAfter
  }

  function ValidateLinkTime(cert: Cert, at: int): (r: Result<(), Error>)
    ensures r.Ok? <==> cert.notBefore <= at <= cert.notAfter
  {
    if cert.notBefore > cert.notAfter then Err(ChainError)
    else if at < cert.notBefore then Err(ChainError)
    else if at > cert.notAfter then Err(ChainError)
    else Ok(())
  }

  /** May issue: a CA certificate for signing certificates, with nothing undecodable. */
  ghost predicate CaCapable(cert: Cert) {
    (exists e :: e in cert.extensions && e.BasicConstraints?)
    && forall e :: e in cert.extensions ==>
         match e
         case BasicConstraints(ca) => ca == Some(true)
         case KeyUsage(sign) => sign == Some(true)
         case ExtKeyUsage(p) => p.Some?
         case OtherExtension => true
  }

  function CheckExtension(e: Extension, subject: string): Result<seq<Diagnostic>, Error> {
    match e
    case BasicConstraints(ca) =>
      if ca.None? then Err(Asn1) else if !ca.value then Err(ChainError) else Ok([])
    case KeyUsage(sign) =>
      if sign.None? then Err(Asn1) else if !sign.value then Err(ChainError) else Ok([])
    case ExtKeyUsage(p) =>
      if p.None? then Err(Asn1) else Ok(if p.value > 0 then [CaHasEku(subject)] else [])
    case OtherExtension => Ok([])
  }

  function CheckExtensions(es: seq<Extension>, subject: string): Result<seq<Diagnostic>, Error> {
    if es == [] then Ok([])
    else
      var d :- CheckExtensions(es[..|es| - 1], subject);
      var d' :- CheckExtension(es[|es| - 1], subject);
      Ok(d + d')
  }

  predicate HasBasicConstraints(es: seq<Extension>) {
    exists e :: e in es && e.BasicConstraints?
  }

  predicate HasKeyUsage(es: seq<Extension>) {
    exists e :: e in es && e.KeyUsage?
  }

  function CaVerdict(issuer: Cert): Result<seq<Diagnostic>, Error> {
    var d :- CheckExtensions(issuer.extensions, issuer.subject);
    if !HasBasicConstraints(issuer.extensions) then Err(ChainError)
    else if !HasKeyUsage(issuer.extensions) then Ok(d + [CaNoKeyUsage(issuer.subject)])
    else Ok(d)
  }

  lemma {:induction false} CheckedExtensions(es: seq<Extension>, subject: string)
    ensures CheckExtensions(es, subject).Ok? <==> forall e :: e in es ==> CheckExtension(e, subject).Ok?
  {
    if es != [] {
      var n := |es| - 1;
      CheckedExtensions(es[..n], subject);
      assert es == es[..n] + [es[n]];
      assert forall e :: e in es <==> e in es[..n] || e == es[n];
    }
  }

  /** The issuer check passes exactly the CA-capable certificates. */
  lemma CaVerdictExact(issuer: Cert)
    ensures CaVerdict(issuer).Ok? <==> CaCapable(issuer)
  {
    CheckedExtensions(issuer.extensions, issuer.subject);
    assert forall e :: CheckExtension(e, issuer.subject).Ok? <==>
      match e
      case BasicConstraints(ca) => ca == Some(true)
      case KeyUsage(sign) => sign == Some(true)
      case ExtKeyUsage(p) => p.Some?
      case OtherExtension => true;
  }

  lemma {:induction false} ExtensionRemarks(es: seq<Extension>, subject: string, d: Diagnostic)
    requires CheckExtensions(es, subject).Ok?
    ensures d in CheckExtensions(es, subject).value <==>
      d == CaHasEku(subject) && exists e :: e in es && e.ExtKeyUsage? && e.purposes != Some(0)
  {
    if es != [] {
      var n := |es| - 1;
      ExtensionRemarks(es[..n], subject, d);
      assert es == es[..n] + [es[n]];
      assert forall e :: e in es <==> e in es[..n] || e == es[n];
    }
  }

  /** An issuer that passes is remarked on exactly when it lists extended purposes, or has no key usage. */
  lemma CaRemarksExactly(issuer: Cert, d: Diagnostic)
    requires CaCapable(issuer)
    ensures CaVerdict(issuer).Ok?
    ensures d in CaVerdict(issuer).value <==>
      (d == CaHasEku(issuer.subject)
       && exists e :: e in issuer.extensions && e.ExtKeyUsage? && e.purposes != Some(0))
      || (d == CaNoKeyUsage(issuer.subject) && forall e :: e in issuer.extensions ==> !e.KeyUsage?)
  {
    hide CheckExtensions, CaCapable;
    CaVerdictExact(issuer);
    ExtensionRemarks(issuer.extensions, issuer.subject, d);
  }

  /** The error of extensions that fail: `Asn1` exactly when its first bad extension does not decode. */
  lemma {:induction false} FirstFailureDecides(es: seq<Extension>, subject: string, i: nat)
    requires i < |es|
    requires forall j :: 0 <= j < i ==> CheckExtension(es[j], subject).Ok?
    requires CheckExtension(es[i], subject).Err?
    ensures CheckExtensions(es, subject) ==
      Err(if es[i] in {BasicConstraints(None), KeyUsage(None), ExtKeyUsage(None)} then Asn1 else ChainError)
  {
    var n := |es| - 1;
    if i < n {
      FirstFailureDecides(es[..n], subject, i);
    } else {
      CheckedExtensions(es[..n], subject);
    }
  }

  lemma NoExtensions(es: seq<Extension>, subject: string)
    ensures CheckExtensions(es[..0], subject) == Ok([])
    ensures !HasBasicConstraints(es[..0]) && !HasKeyUsage(es[..0])
  {
  }

  lemma ExtensionsSnoc(es: seq<Extension>, i: nat, subject: string)
    requires i < |es|
    ensures CheckExtensions(es[..i + 1], subject) ==
      var d :- CheckExtensions(es[..i], subject);
      var d' :- CheckExtension(es[i], subject);
      Ok(d + d')
    ensures HasBasicConstraints(es[..i + 1]) <==> HasBasicConstraints(es[..i]) || es[i].BasicConstraints?
    ensures HasKeyUsage(es[..i + 1]) <==> HasKeyUsage(es[..i]) || es[i].KeyUsage?
  {
    hide CheckExtension;
    assert es[..i + 1] == es[..i] + [es[i]];
    assert es[..i + 1][..i] == es[..i];
    assert forall e :: e in es[..i + 1] <==> e in es[..i] || e == es[i];
  }

  method ValidateIssuerCaCapability(issuer: Cert, diagnostics: seq<Diagnostic>)
    returns (r: Result<seq<Diagnostic>, Error>)
    ensures r == match CaVerdict(issuer) case Err(e) => Err(e) case Ok(d) => Ok(diagnostics + d)
  {
    hide CheckExtensions, HasBasicConstraints, HasKeyUsage;
    var exts := issuer.extensions;
    NoExtensions(exts, issuer.subject);
    var sawBc, sawKu := false, false;
    var out := diagnostics;
    for i := 0 to |exts|
      invariant CheckExtensions(exts[..i], issuer.subject).Ok?
      invariant out == diagnostics + CheckExtensions(exts[..i], issuer.subject).value
      invariant sawBc <==> HasBasicConstraints(exts[..i])
      invariant sawKu <==> HasKeyUsage(exts[..i])
    {
      ghost var before := CheckExtensions(exts[..i], issuer.subject).value;
      ExtensionsSnoc(exts, i, issuer.subject);
      ghost var verdict := CheckExtension(exts[i], issuer.subject);
      if verdict.Err? { FirstBadExtension(exts, i, issuer.subject); }
      match exts[i] {
        case BasicConstraints(ca) =>
          sawBc := true;
          if ca.None? { return Err(Asn1); }
          if !ca.value { return Err(ChainError); }
        case KeyUsage(sign) =>
          sawKu := true;
          if sign.None? { return Err(Asn1); }
          if !sign.value { return Err(ChainError); }
        case ExtKeyUsage(p) =>
          if p.None? { return Err(Asn1); }
          if p.value > 0 {
            out := out + [CaHasEku(issuer.subject)];
          }
        case OtherExtension =>
      }
      Append2(diagnostics, before, verdict.value);
      assert out == diagnostics + before + verdict.value;
    }
    assert exts[..|exts|] == exts;
    if !sawBc { return Err(ChainError); }
    if !sawKu {
      Append2(diagnostics, CheckExtensions(exts, issuer.subject).value, [CaNoKeyUsage(issuer.subject)]);
      out := out + [CaNoKeyUsage(issuer.subject)];
    }
    r := Ok(out);
  }

  lemma {:induction false} FirstBadExtension(es: seq<Extension>, i: nat, subject: string)
    requires i < |es| && CheckExtensions(es[..i], subject).Ok? && CheckExtension(es[i], subject).Err?
    ensures CheckExtensions(es, subject) == Err(CheckExtension(es[i], subject).error)
    decreases |es|
  {
    var n := |es| - 1;
    if i < n {
      assert es[..n][..i] == es[..i];
      FirstBadExtension(es[..n], i, subject);
    }
  }

  // ---------- one step of the walk ----------

  /** The anchor is passed over: another subject, or another key that can be encoded. */
  ghost predicate Unlike(anchor: Cert, cert: Cert) {
    anchor.subject != cert.subject || (anchor.spki.Some? && anchor.spki != cert.spki)
  }

  /** Anchor `j` has the certificate's subject and key, and every one before it is passed over. */
  ghost predicate FirstAnchor(anchors: seq<Cert>, cert: Cert, j: nat) {
    j < |anchors| && anchors[j].subject == cert.subject && anchors[j].spki.Some? && anchors[j].spki == cert.spki
    && forall i :: 0 <= i < j ==> Unlike(anchors[i], cert)
  }

  /** Anchor `j` has the certificate's subject and a key that cannot be encoded; every one before it is passed over. */
  ghost predicate FirstTrouble(anchors: seq<Cert>, cert: Cert, j: nat) {
    j < |anchors| && anchors[j].subject == cert.subject && anchors[j].spki.None?
    && forall i :: 0 <= i < j ==> Unlike(anchors[i], cert)
  }

  /** The first anchor with the certificate's subject and key, unless a key that cannot be encoded comes first. */
  function MatchAnchor(anchors: seq<Cert>, cert: Cert): (r: Result<Option<Cert>, Error>)
    ensures r.Ok? && r.value.Some? ==> exists j: nat :: FirstAnchor(anchors, cert, j) && anchors[j] == r.value.value
    ensures r.Ok? && r.value.None? ==> cert.spki.Some? && forall a :: a in anchors ==> Unlike(a, cert)
    ensures r.Err? ==> r.error == Asn1 && (cert.spki.None? || exists j: nat :: FirstTrouble(anchors, cert, j))
  {
    if cert.spki.None? then Err(Asn1)
    else if anchors == [] then Ok(None)
    else
      FirstAnchorShifts(anchors, cert);
      if anchors[0].subject != cert.subject then MatchAnchor(anchors[1..], cert)
      else if anchors[0].spki.None? then Err(Asn1)
      else if anchors[0].spki == cert.spki then Ok(Some(anchors[0]))
      else MatchAnchor(anchors[1..], cert)
  }

  lemma FirstAnchorShifts(anchors: seq<Cert>, cert: Cert)
    requires anchors != []
    ensures anchors[0].subject == cert.subject && cert.spki.Some? && anchors[0].spki == cert.spki ==>
      FirstAnchor(anchors, cert, 0)
    ensures anchors[0].subject == cert.subject && anchors[0].spki.None? ==> FirstTrouble(anchors, cert, 0)
    ensures Unlike(anchors[0], cert) ==>
      (forall j: nat :: FirstAnchor(anchors[1..], cert, j) ==> FirstAnchor(anchors, cert, j + 1))
      && (forall j: nat :: FirstTrouble(anchors[1..], cert, j) ==> FirstTrouble(anchors, cert, j + 1))
    ensures forall a :: a in anchors <==> a == anchors[0] || a in anchors[1..]
  {
    assert forall i :: 0 < i < |anchors| ==> anchors[i] == anchors[1..][i - 1];
  }

  /** Where a walked issuer came from. */
  datatype Source = Intermediate(index: nat) | AnchorList(index: nat)

  /** The first candidate at or after `from`, not among the used intermediates, that may have issued `tail`. */
  function FirstUnused(cands: seq<Cert>, sources: seq<Source>, tail: Cert, from: nat): (r: Option<nat>)
    ensures r.Some? ==> from <= r.value < |cands| && Intermediate(r.value) !in sources
                        && IssuerMatches(cands[r.value], tail)
    ensures r.Some? ==> forall i :: from <= i < r.value ==> Intermediate(i) in sources || !IssuerMatches(cands[i], tail)
    ensures r.None? ==> forall i :: from <= i < |cands| ==> Intermediate(i) in sources || !IssuerMatches(cands[i], tail)
    decreases |cands| - from
  {
    if from >= |cands| then None
    else if Intermediate(from) !in sources && IssuerMatches(cands[from], tail) then Some(from)
    else FirstUnused(cands, sources, tail, from + 1)
  }

  function FirstMatch(cands: seq<Cert>, tail: Cert, from: nat): (r: Option<nat>)
    ensures r.Some? ==> from <= r.value < |cands| && IssuerMatches(cands[r.value], tail)
    ensures r.Some? ==> forall i :: from <= i < r.value ==> !IssuerMatches(cands[i], tail)
    ensures r.None? ==> forall i :: from <= i < |cands| ==> !IssuerMatches(cands[i], tail)
    decreases |cands| - from
  {
    if from >= |cands| then None
    else if IssuerMatches(cands[from], tail) then Some(from)
    else FirstMatch(cands, tail, from + 1)
  }

  /** Intermediates first; anchors get one last look. */
  function ChooseIssuer(anchors: seq<Cert>, inters: seq<Cert>, sources: seq<Source>, tail: Cert): (r: Option<Source>)
    ensures r.Some? && r.value.Intermediate? ==>
      var i := r.value.index;
      i < |inters| && Intermediate(i) !in sources && MayHaveIssued(inters[i], tail)
      && forall k :: 0 <= k < i ==> Intermediate(k) in sources || !MayHaveIssued(inters[k], tail)
    ensures r.None? || r.value.AnchorList? ==>
      forall k :: 0 <= k < |inters| ==> Intermediate(k) in sources || !MayHaveIssued(inters[k], tail)
    ensures r.Some? && r.value.AnchorList? ==>
      var j := r.value.index;
      j < |anchors| && MayHaveIssued(anchors[j], tail) && forall k :: 0 <= k < j ==> !MayHaveIssued(anchors[k], tail)
    ensures r.None? ==> forall k :: 0 <= k < |anchors| ==> !MayHaveIssued(anchors[k], tail)
  {
    match FirstUnused(inters, sources, tail, 0)
    case Some(i) => Some(Intermediate(i))
    case None =>
      match FirstMatch(anchors, tail, 0)
      case Some(j) => Some(AnchorList(j))
      case None => None
  }

  predicate InRange(anchors: seq<Cert>, inters: seq<Cert>, s: Source) {
    match s
    case Intermediate(i) => i < |inters|
    case AnchorList(j) => j < |anchors|
  }

  function Lookup(anchors: seq<Cert>, inters: seq<Cert>, s: Source): Cert
    requires InRange(anchors, inters, s)
  {
    match s
    case Intermediate(i) => inters[i]
    case AnchorList(j) => anchors[j]
  }

  /** The certificates walked so far, where each but the first came from, and what was noted. */
  datatype Walk = Walk(path: seq<Cert>, sources: seq<Source>, diagnostics: seq<Diagnostic>)

  datatype Turn = Go(walk: Walk) | Stop(result: Result<Success, Error>)

  /** A walk that reached an anchor. */
  datatype Success = Success(walk: Walk, anchor: Cert)

  const MAX_DEPTH := 16

  function Step(anchors: seq<Cert>, inters: seq<Cert>, at: int, w: Walk): Turn
    requires w.path != []
  {
    var tail := w.path[|w.path| - 1];
    match MatchAnchor(anchors, tail)
    case Err(e) => Stop(Err(e))
    case Ok(Some(anchor)) =>
      if ValidateLinkTime(tail, at).Err? then Stop(Err(ChainError)) else Stop(Ok(Success(w, anchor)))
    case Ok(None) =>
      match ChooseIssuer(anchors, inters, w.sources, tail)
      case None => Stop(Err(ChainError))
      case Some(s) =>
        var issuer := Lookup(anchors, inters, s);
        if ValidateLinkTime(tail, at).Err? || ValidateLinkTime(issuer, at).Err? then Stop(Err(ChainError))
        else
          match CaVerdict(issuer)
          case Err(e) => Stop(Err(e))
          case Ok(d) =>
            if |w.path| + 1 > MAX_DEPTH then Stop(Err(ChainError))
            else Go(Walk(w.path + [issuer], w.sources + [s], w.diagnostics + d))
  }

  /** The walk to its end. It ends: every step that goes on adds a certificate, up to sixteen. */
  function Finish(anchors: seq<Cert>, inters: seq<Cert>, at: int, w: Walk): Result<Success, Error>
    requires 1 <= |w.path| <= MAX_DEPTH
    decreases MAX_DEPTH - |w.path|
  {
    match Step(anchors, inters, at, w)
    case Stop(r) => r
    case Go(w') => Finish(anchors, inters, at, w')
  }

  function Start(signer: Cert): Walk {
    Walk([signer], [], [])
  }

  function BuildWalk(anchors: seq<Cert>, inters: seq<Cert>, signer: Cert, at: int): Result<Success, Error> {
    if anchors == [] then Err(Config) else Finish(anchors, inters, at, Start(signer))
  }

  /** What the caller gets: the last walked certificate is replaced by the anchor's own. */
  datatype ValidationResult = ValidationResult(chain: seq<Cert>, anchor: Cert, diagnostics: seq<Diagnostic>)

  function ResultOf(s: Success): ValidationResult
    requires s.walk.path != []
  {
    var path := s.walk.path;
    ValidationResult(path[..|path| - 1] + [s.anchor], s.anchor, s.walk.diagnostics)
  }

  lemma {:induction false} FinishKeepsPath(anchors: seq<Cert>, inters: seq<Cert>, at: int, w: Walk)
    requires 1 <= |w.path| <= MAX_DEPTH
    ensures var r := Finish(anchors, inters, at, w); r.Ok? ==> w.path <= r.value.walk.path
    decreases MAX_DEPTH - |w.path|
  {
    match Step(anchors, inters, at, w)
    case Stop(r) =>
    case Go(w') => FinishKeepsPath(anchors, inters, at, w');
  }

  function BuildResult(anchors: seq<Cert>, inters: seq<Cert>, signer: Cert, at: int)
    : (r: Result<ValidationResult, Error>)
    ensures r.Ok? ==> r.value.chain != []
    ensures anchors == [] ==> r == Err(Config)
  {
    match BuildWalk(anchors, inters, signer, at)
    case Err(e) => Err(e)
    case Ok(s) =>
      FinishKeepsPath(anchors, inters, at, Start(signer));
      Ok(ResultOf(s))
  }

  // ---------- the builder ----------

  class ChainBuilder {
    var anchors: seq<Cert>
    var intermediates: seq<Cert>

    constructor ()
      ensures anchors == [] && intermediates == []
    {
      anchors, intermediates := [], [];
    }

    method WithAnchors(certs: seq<Cert>)
      modifies this
      ensures anchors == old(anchors) + certs && intermediates == old(intermediates)
    {
      anchors := anchors + certs;
    }

    method PushAnchor(cert: Cert)
      modifies this
      ensures anchors == old(anchors) + [cert] && intermediates == old(intermediates)
    {
      anchors := anchors + [cert];
    }

    method WithIntermediates(certs: seq<Cert>)
      modifies this
      ensures intermediates == old(intermediates) + certs && anchors == old(anchors)
    {
      intermediates := intermediates + certs;
    }

    method PushIntermediate(cert: Cert)
      modifies this
      ensures intermediates == old(intermediates) + [cert] && anchors == old(anchors)
    {
      intermediates := intermediates + [cert];
    }

    method Build(signer: Cert, at: int) returns (r: Result<ValidationResult, Error>)
      ensures r == BuildResult(anchors, intermediates, signer, at)
    {
      hide CaVerdict, MatchAnchor, FirstAnchor, FirstTrouble, Unlike, ChooseIssuer;
      if anchors == [] { return Err(Config); }
      var diagnostics: seq<Diagnostic> := [];
      var chain := [signer];
      var used := new bool[|intermediates|](_ => false);
      ghost var sources: seq<Source> := [];
      ghost var goal := Finish(anchors, intermediates, at, Start(signer));
      while true
        invariant 1 <= |chain| <= MAX_DEPTH
        invariant forall i :: 0 <= i < used.Length ==> (used[i] <==> Intermediate(i) in sources)
        invariant goal == Finish(anchors, intermediates, at, Walk(chain, sources, diagnostics))
        decreases MAX_DEPTH - |chain|
      {
        var tail := chain[|chain| - 1];
        var known := MatchAnchor(anchors, tail);
        if known.Err? { return Err(known.error); }
        if known.value.Some? {
          if ValidateLinkTime(tail, at).Err? { return Err(ChainError); }
          var anchor := known.value.value;
          chain := chain[..|chain| - 1];
          chain := chain + [anchor];
          return Ok(ValidationResult(chain, anchor, diagnostics));
        }
        var source := FindIssuer(used, sources, tail);
        if source.None? { return Err(ChainError); }
        var issuer := Lookup(anchors, intermediates, source.value);
        if ValidateLinkTime(tail, at).Err? { return Err(ChainError); }
        if ValidateLinkTime(issuer, at).Err? { return Err(ChainError); }
        var checked := ValidateIssuerCaCapability(issuer, diagnostics);
        if checked.Err? { return Err(checked.error); }
        diagnostics := checked.value;
        if source.value.Intermediate? {
          used[source.value.index] := true;
        }
        chain := chain + [issuer];
        sources := sources + [source.value];
        if |chain| > MAX_DEPTH { return Err(ChainError); }
      }
    }

    /** The two searches of one turn: intermediates with their used flags, then anchors. */
    method FindIssuer(used: array<bool>, ghost sources: seq<Source>, tail: Cert) returns (r: Option<Source>)
      requires used.Length == |intermediates|
      requires forall i :: 0 <= i < used.Length ==> (used[i] <==> Intermediate(i) in sources)
      ensures r == ChooseIssuer(anchors, intermediates, sources, tail)
      ensures r.Some? ==> InRange(anchors, intermediates, r.value)
    {
      for idx := 0 to |intermediates|
        invariant FirstUnused(intermediates, sources, tail, 0) == FirstUnused(intermediates, sources, tail, idx)
      {
        if used[idx] { continue; }
        if IssuerMatches(intermediates[idx], tail) {
          return Some(Intermediate(idx));
        }
      }
      for j := 0 to |anchors|
        invariant FirstUnused(intermediates, sources, tail, 0).None?
        invariant FirstMatch(anchors, tail, 0) == FirstMatch(anchors, tail, j)
      {
        if IssuerMatches(anchors[j], tail) {
          return Some(AnchorList(j));
        }
      }
      r := None;
    }
  }
}
