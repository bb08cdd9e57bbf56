/**
 The algorithm policy and its ETSI TS 119 312 table (`crates/eidas-core/src/algorithm.rs`,
 `crates/eidas-policy/src/lib.rs`).
 */
module Policy {
  import opened Wrappers

  datatype HashAlgorithm = Md5 | Sha1 | Sha224 | Sha256 | Sha384 | Sha512 | Sha3_256 | Sha3_384 | Sha3_512 {
    function OutputBits(): nat {
      match this
      case Md5 => 128
      case Sha1 => 160
      case Sha224 => 224
      case Sha256 | Sha3_256 => 256
      case Sha384 | Sha3_384 => 384
      case Sha512 | Sha3_512 => 512
    }
  }

  datatype SignatureAlgorithm = RsaPkcs1v15 | RsaPss | Ecdsa | EdDsa | Dsa

  datatype AlgorithmId = AlgorithmId(signature: SignatureAlgorithm, hash: HashAlgorithm, keyBits: nat)

  datatype Decision = Accept | Sunset(sunset: int) | Reject {
    predicate IsAcceptedAt(at: int) {
      match this
      case Accept => true
      case Sunset(s) => at < s
      case Reject => false
    }
  }

  /** The blanket rules an algorithm without an explicit entry falls back to. */
  datatype Rules = Rules(minRsaBits: nat, minEccBits: nat, minHashBits: nat, allowSha1: bool)

  const DEFAULT_RULES := Rules(2048, 224, 224, false)

  /** The three maps and the rules, as one value. Reasons of rejection are not kept. */
  datatype Table = Table(permitted: set<AlgorithmId>, forbidden: set<AlgorithmId>, sunsets: map<AlgorithmId, int>,
      rules: Rules)

  function Fallback(rules: Rules, alg: AlgorithmId): Decision {
    if alg.hash == Md5 then Reject
    else if alg.hash == Sha1 && !rules.allowSha1 then Reject
    else if alg.hash.OutputBits() < rules.minHashBits then Reject
    else
      match alg.signature
      case Dsa => Reject
      case RsaPkcs1v15 | RsaPss => if alg.keyBits < rules.minRsaBits then Reject else Accept
      case Ecdsa | EdDsa => if alg.keyBits < rules.minEccBits then Reject else Accept
  }

  /** The rules let the hash be used; digest sizes in bits. */
  ghost predicate HashSuffices(rules: Rules, hash: HashAlgorithm) {
    match hash
    case Md5 => false
    case Sha1 => rules.allowSha1 && rules.minHashBits <= 160
    case Sha224 => rules.minHashBits <= 224
    case Sha256 | Sha3_256 => rules.minHashBits <= 256
    case Sha384 | Sha3_384 => rules.minHashBits <= 384
    case Sha512 | Sha3_512 => rules.minHashBits <= 512
  }

  /** Under any rules: never MD5 or DSA, SHA-1 only when allowed, and hash and key of at least the least sizes. */
  lemma FallbackExactly(rules: Rules, alg: AlgorithmId)
    ensures Fallback(rules, alg) == Accept <==>
      HashSuffices(rules, alg.hash)
      && ((alg.signature in {RsaPkcs1v15, RsaPss} && rules.minRsaBits <= alg.keyBits)
          || (alg.signature in {Ecdsa, EdDsa} && rules.minEccBits <= alg.keyBits))
    ensures Fallback(rules, alg) == Accept || Fallback(rules, alg) == Reject
  {
  }

  function Evaluate(t: Table, alg: AlgorithmId, at: int): Decision {
    if alg in t.forbidden then Reject
    else if alg in t.permitted then
      if alg in t.sunsets && at >= t.sunsets[alg] then Sunset(t.sunsets[alg]) else Accept
    else if alg in t.sunsets && at >= t.sunsets[alg] then Sunset(t.sunsets[alg])
    else Fallback(t.rules, alg)
  }

  // ---------- the policy object ----------

  datatype Op = Permit(alg: AlgorithmId) | Forbid(alg: AlgorithmId) | SetSunset(alg: AlgorithmId, at: int)

  function Apply(t: Table, op: Op): Table {
    match op
    case Permit(alg) =>
      t.(forbidden := t.forbidden - {alg}, sunsets := t.sunsets - {alg}, permitted := t.permitted + {alg})
    case Forbid(alg) => t.(permitted := t.permitted - {alg}, forbidden := t.forbidden + {alg})
    case SetSunset(alg, at) => t.(sunsets := t.sunsets[alg := at])
  }

  function ApplyAll(t: Table, ops: seq<Op>): Table {
    if ops == [] then t else Apply(ApplyAll(t, ops[..|ops| - 1]), ops[|ops| - 1])
  }

  function Empty(rules: Rules): Table {
    Table({}, {}, map[], rules)
  }

  class AlgorithmPolicy {
    var permitted: set<AlgorithmId>
    var forbidden: set<AlgorithmId>
    var sunsets: map<AlgorithmId, int>
    var rules: Rules

    function Contents(): Table
      reads this
    {
      Table(permitted, forbidden, sunsets, rules)
    }

    constructor ()
      ensures Contents() == Empty(DEFAULT_RULES) == Table({}, {}, map[], Rules(2048, 224, 224, false))
    {
      permitted, forbidden, sunsets, rules := {}, {}, map[], DEFAULT_RULES;
    }

    method SetRules(r: Rules)
      modifies this
      ensures Contents() == old(Contents()).(rules := r)
    {
      rules := r;
    }

    method PermitAlgorithm(alg: AlgorithmId)
      modifies this
      ensures Contents() == Apply(old(Contents()), Permit(alg))
    {
      forbidden := forbidden - {alg};
      sunsets := sunsets - {alg};
      permitted := permitted + {alg};
    }

    method ForbidAlgorithm(alg: AlgorithmId)
      modifies this
      ensures Contents() == Apply(old(Contents()), Forbid(alg))
    {
      permitted := permitted - {alg};
      forbidden := forbidden + {alg};
    }

    method SunsetAlgorithm(alg: AlgorithmId, at: int)
      modifies this
      ensures Contents() == Apply(old(Contents()), SetSunset(alg, at))
    {
      sunsets := sunsets[alg := at];
    }

    method Decide(alg: AlgorithmId, at: int) returns (d: Decision)
      ensures d == Evaluate(Contents(), alg, at)
      ensures d.IsAcceptedAt(at) <==> d == Accept
    {
      if alg in forbidden { return Reject; }
      if alg in permitted {
        if alg in sunsets {
          var s := sunsets[alg];
          if at >= s { return Sunset(s); }
        }
        return Accept;
      }
      if alg in sunsets {
        var s := sunsets[alg];
        if at >= s { return Sunset(s); }
      }
      d := Fallback(rules, alg);
    }
  }

  // ---------- what any run of updates leaves ----------

  /** The last `permit` or `forbid` of an algorithm, if any. */
  function LastMark(ops: seq<Op>, alg: AlgorithmId): Option<bool> {
    if ops == [] then None
    else
      match ops[|ops| - 1]
      case Permit(a) => if a == alg then Some(true) else LastMark(ops[..|ops| - 1], alg)
      case Forbid(a) => if a == alg then Some(false) else LastMark(ops[..|ops| - 1], alg)
      case SetSunset(_, _) => LastMark(ops[..|ops| - 1], alg)
  }

  /** The last sunset of an algorithm since it was last permitted, if any; forbidding keeps it. */
  function LastSunset(ops: seq<Op>, alg: AlgorithmId): Option<int> {
    if ops == [] then None
    else
      match ops[|ops| - 1]
      case Permit(a) => if a == alg then None else LastSunset(ops[..|ops| - 1], alg)
      case Forbid(_) => LastSunset(ops[..|ops| - 1], alg)
      case SetSunset(a, at) => if a == alg then Some(at) else LastSunset(ops[..|ops| - 1], alg)
  }

  /**
   After any sequence of updates the permitted and forbidden sets are disjoint, and each entry is
   what the last relevant update says: a permit clears earlier sunsets, later sunsets bind it, a
   forbid overrides both without clearing the sunset.
   */
  lemma {:induction false} UpdatesLeave(rules: Rules, ops: seq<Op>, alg: AlgorithmId)
    ensures var t := ApplyAll(Empty(rules), ops);
      t.permitted !! t.forbidden && t.rules == rules
      && (alg in t.permitted <==> LastMark(ops, alg) == Some(true))
      && (alg in t.forbidden <==> LastMark(ops, alg) == Some(false))
      && (alg in t.sunsets <==> LastSunset(ops, alg).Some?)
      && (alg in t.sunsets ==> t.sunsets[alg] == LastSunset(ops, alg).value)
  {
    if ops != [] {
      UpdatesLeave(rules, ops[..|ops| - 1], alg);
    }
  }

  /** So the verdict after any run depends on the last updates of that algorithm only. */
  lemma VerdictAfterUpdates(rules: Rules, ops: seq<Op>, alg: AlgorithmId, at: int)
    ensures var sunset := LastSunset(ops, alg);
      Evaluate(ApplyAll(Empty(rules), ops), alg, at) ==
        if LastMark(ops, alg) == Some(false) then Reject
        else if sunset.Some? && at >= sunset.value then Sunset(sunset.value)
        else if LastMark(ops, alg) == Some(true) then Accept
        else Fallback(rules, alg)
  {
    UpdatesLeave(rules, ops, alg);
  }

  /**
   The documentation lets an explicit permit override sunsets. It does, for an algorithm whose last
   mark is a permit, exactly as long as no sunset set after that permit has come.
   */
  lemma PermitOverridesSunsetsExactly(rules: Rules, ops: seq<Op>, alg: AlgorithmId, at: int)
    requires LastMark(ops, alg) == Some(true)
    ensures Evaluate(ApplyAll(Empty(rules), ops), alg, at) == Accept <==>
      LastSunset(ops, alg).None? || at < LastSunset(ops, alg).value
  {
    VerdictAfterUpdates(rules, ops, alg, at);
  }

  /** Permitted first and given a sunset then: the sunset binds. */
  lemma LaterSunsetBinds(rules: Rules, alg: AlgorithmId, sunset: int, at: int)
    requires at >= sunset
    ensures LastMark([Permit(alg), SetSunset(alg, sunset)], alg) == Some(true)
    ensures Evaluate(ApplyAll(Empty(rules), [Permit(alg), SetSunset(alg, sunset)]), alg, at) == Sunset(sunset)
  {
    var ops := [Permit(alg), SetSunset(alg, sunset)];
    assert ops[..1] == [Permit(alg)];
    assert LastMark(ops[..1], alg) == Some(true);
    VerdictAfterUpdates(rules, ops, alg, at);
  }

  /**
   At its own evaluation time a decision is accepted exactly when it is `Accept`, and acceptance
   at an instant implies acceptance at every earlier one.
   */
  lemma AcceptanceIsBackwardClosed(t: Table, alg: AlgorithmId, at: int, earlier: int)
    requires earlier <= at
    ensures Evaluate(t, alg, at).IsAcceptedAt(at) <==> Evaluate(t, alg, at) == Accept
    ensures Evaluate(t, alg, at) == Accept ==> Evaluate(t, alg, earlier) == Accept
  {
  }

  /**
   For a permitted algorithm the sunset a decision carries answers for every other time as the
   policy itself would; the last accepted instant is the one before the sunset.
   */
  lemma SunsetDecisionCarries(t: Table, alg: AlgorithmId, at: int, other: int)
    requires alg in t.permitted && Evaluate(t, alg, at).Sunset?
    ensures Evaluate(t, alg, at).IsAcceptedAt(other) <==> Evaluate(t, alg, other) == Accept
    ensures Evaluate(t, alg, at).IsAcceptedAt(other) <==> other < Evaluate(t, alg, at).sunset <= at
  {
  }

  // ---------- the 2023 table ----------

  const END_2028: int := 1861920000  // 2029-01-01T00:00:00Z in seconds since the epoch

  const RSA_FAMILIES := [RsaPkcs1v15, RsaPss]
  const RSA_HASHES := [Sha224, Sha256, Sha384, Sha512, Sha3_256, Sha3_384, Sha3_512]
  const DSA_HASHES := [Sha224, Sha256, Sha384, Sha512]

  predicate SunsetsIn2028(alg: AlgorithmId) {
    alg.signature in RSA_FAMILIES && alg.hash in RSA_HASHES && alg.keyBits == 2048
  }

  predicate ForbiddenDsa(alg: AlgorithmId) {
    alg.signature == Dsa && alg.hash in DSA_HASHES && (alg.keyBits == 2048 || alg.keyBits == 3072)
  }

  /** The table the two loops build. */
  ghost predicate IsEtsi2023(t: Table) {
    t.rules == DEFAULT_RULES && t.permitted == {}
    && (forall a :: a in t.sunsets <==> SunsetsIn2028(a))
    && (forall a :: a in t.sunsets ==> t.sunsets[a] == END_2028)
    && (forall a :: a in t.forbidden <==> ForbiddenDsa(a))
  }

  method Etsi119312Of2023() returns (p: AlgorithmPolicy)
    ensures fresh(p) && IsEtsi2023(p.Contents())
  {
    p := new AlgorithmPolicy();
    p.SetRules(Rules(2048, 224, 224, false));
    SunsetRsa(p);
    ForbidDsa(p);
  }

  /** RSA at 2048 bits, in both paddings and with every accepted hash. */
  method SunsetRsa(p: AlgorithmPolicy)
    requires p.Contents() == Empty(DEFAULT_RULES)
    modifies p
    ensures p.rules == DEFAULT_RULES && p.permitted == {} && p.forbidden == {}
    ensures forall a :: a in p.sunsets <==> SunsetsIn2028(a)
    ensures forall a :: a in p.sunsets ==> p.sunsets[a] == END_2028
  {
    for i := 0 to |RSA_FAMILIES|
      invariant p.rules == DEFAULT_RULES && p.permitted == {} && p.forbidden == {}
      invariant forall a :: a in p.sunsets <==> a.signature in RSA_FAMILIES[..i] && SunsetsIn2028(a)
      invariant forall a :: a in p.sunsets ==> p.sunsets[a] == END_2028
    {
      var sig := RSA_FAMILIES[i];
      for j := 0 to |RSA_HASHES|
        invariant p.rules == DEFAULT_RULES && p.permitted == {} && p.forbidden == {}
        invariant forall a :: a in p.sunsets <==>
          SunsetsIn2028(a) && (a.signature in RSA_FAMILIES[..i] || (a.signature == sig && a.hash in RSA_HASHES[..j]))
        invariant forall a :: a in p.sunsets ==> p.sunsets[a] == END_2028
      {
        assert RSA_HASHES[..j + 1] == RSA_HASHES[..j] + [RSA_HASHES[j]];
        p.SunsetAlgorithm(AlgorithmId(sig, RSA_HASHES[j], 2048), END_2028);
      }
      assert RSA_FAMILIES[..i + 1] == RSA_FAMILIES[..i] + [sig];
      assert RSA_HASHES[..|RSA_HASHES|] == RSA_HASHES;
    }
    assert RSA_FAMILIES[..|RSA_FAMILIES|] == RSA_FAMILIES;
  }

  method ForbidDsa(p: AlgorithmPolicy)
    requires p.permitted == {} && p.forbidden == {}
    modifies p
    ensures p.rules == old(p.rules) && p.permitted == {} && p.sunsets == old(p.sunsets)
    ensures forall a :: a in p.forbidden <==> ForbiddenDsa(a)
  {
    for j := 0 to |DSA_HASHES|
      invariant p.rules == old(p.rules) && p.permitted == {} && p.sunsets == old(p.sunsets)
      invariant forall a :: a in p.forbidden <==> ForbiddenDsa(a) && a.hash in DSA_HASHES[..j]
    {
      assert DSA_HASHES[..j + 1] == DSA_HASHES[..j] + [DSA_HASHES[j]];
      p.ForbidAlgorithm(AlgorithmId(Dsa, DSA_HASHES[j], 2048));
      p.ForbidAlgorithm(AlgorithmId(Dsa, DSA_HASHES[j], 3072));
    }
    assert DSA_HASHES[..|DSA_HASHES|] == DSA_HASHES;
  }

  /** The entries one by one: what ends in 2028, what is forbidden, and the blanket rules. */
  lemma EtsiTableExactly(t: Table, alg: AlgorithmId)
    requires IsEtsi2023(t)
    ensures t.rules == Rules(2048, 224, 224, false) && t.permitted == {}
    ensures alg in t.forbidden <==>
      alg.signature == Dsa && alg.hash in {Sha224, Sha256, Sha384, Sha512} && alg.keyBits in {2048, 3072}
    ensures alg in t.sunsets <==>
      (alg.signature.RsaPkcs1v15? || alg.signature.RsaPss?) && alg.hash != Md5 && alg.hash != Sha1
      && alg.keyBits == 2048
    ensures alg in t.sunsets ==> t.sunsets[alg] == 1861920000
  {
    assert RSA_HASHES[0] == Sha224 && RSA_HASHES[1] == Sha256 && RSA_HASHES[2] == Sha384
        && RSA_HASHES[3] == Sha512 && RSA_HASHES[4] == Sha3_256 && RSA_HASHES[5] == Sha3_384
        && RSA_HASHES[6] == Sha3_512;
    assert RSA_FAMILIES[0] == RsaPkcs1v15 && RSA_FAMILIES[1] == RsaPss;
    assert alg.hash in RSA_HASHES <==> alg.hash != Md5 && alg.hash != Sha1;
    assert DSA_HASHES[0] == Sha224 && DSA_HASHES[1] == Sha256 && DSA_HASHES[2] == Sha384 && DSA_HASHES[3] == Sha512;
  }

  /**
   The table in closed form, for every algorithm, key size and time: SHA-2 or SHA-3; RSA from
   2048 bits, at exactly 2048 only before 2029; elliptic curves from 224 bits; DSA never.
   */
  lemma EtsiClosedForm(t: Table, alg: AlgorithmId, at: int)
    requires IsEtsi2023(t)
    ensures Evaluate(t, alg, at) == Accept <==>
      alg.hash != Md5 && alg.hash != Sha1
      && match alg.signature
         case RsaPkcs1v15 | RsaPss => alg.keyBits > 2048 || (alg.keyBits == 2048 && at < 1861920000)
         case Ecdsa | EdDsa => alg.keyBits >= 224
         case Dsa => false
  {
    assert RSA_FAMILIES[0] == RsaPkcs1v15 && RSA_FAMILIES[1] == RsaPss;
    assert RSA_HASHES[0] == Sha224 && RSA_HASHES[1] == Sha256 && RSA_HASHES[2] == Sha384
        && RSA_HASHES[3] == Sha512 && RSA_HASHES[4] == Sha3_256 && RSA_HASHES[5] == Sha3_384
        && RSA_HASHES[6] == Sha3_512;
    assert SunsetsIn2028(alg) <==>
      (alg.signature.RsaPkcs1v15? || alg.signature.RsaPss?) && alg.hash != Md5 && alg.hash != Sha1
      && alg.keyBits == 2048;
  }

  /** A larger key is never judged worse. */
  lemma EtsiMonotoneInKeySize(t: Table, alg: AlgorithmId, larger: nat, at: int)
    requires IsEtsi2023(t) && alg.keyBits <= larger
    requires Evaluate(t, alg, at) == Accept
    ensures Evaluate(t, alg.(keyBits := larger), at) == Accept
  {
    EtsiClosedForm(t, alg, at);
    EtsiClosedForm(t, alg.(keyBits := larger), at);
  }
}
