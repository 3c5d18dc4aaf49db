/** Two-round threshold Schnorr signing (RFC 9591, sections 4 and 5) over an abstract ciphersuite. */
module Frost {
  import opened Outcomes
  import opened Modular
  import opened Lagrange
  import opened Ciphersuites

  datatype Nonces = Nonces(d: int, e: int)
  datatype Signature<+G> = Signature(R: G, z: int)
  datatype Partial<+G> = Partial(id: int, z: int, publicShare: G)

  datatype FrostError = MissingBindingFactor | NoInverse | NotASigner | DuplicateShare | BelowThreshold | ShareRejected(id: int)

  type Factors = map<int, int>

  // ----- commitment lists -----

  function Ids<G(==,!new)>(cs: seq<Commitment<G>>): (ids: seq<int>)
    ensures |ids| == |cs|
  {
    seq(|cs|, i requires 0 <= i < |cs| => cs[i].id)
  }

  // Stable sort by signer id.
  function SortById<G(==,!new)>(s: seq<Commitment<G>>): (r: seq<Commitment<G>>)
    ensures multiset(r) == multiset(s)
  {
    if s == [] then [] else
      assert s == [s[0]] + s[1..];
      InsertById(s[0], SortById(s[1..]))
  }

  function InsertById<G(==,!new)>(c: Commitment<G>, s: seq<Commitment<G>>): (r: seq<Commitment<G>>)
    ensures multiset(r) == multiset(s) + multiset{c}
  {
    if s == [] || c.id <= s[0].id then [c] + s
    else
      assert s == [s[0]] + s[1..];
      [s[0]] + InsertById(c, s[1..])
  }

  function Find<G(==,!new)>(s: seq<Commitment<G>>, id: int): (r: Option<Commitment<G>>)
    ensures r.Some? ==> r.value in s && r.value.id == id
    ensures r.None? ==> forall c :: c in s ==> c.id != id
  {
    if s == [] then None else if s[0].id == id then Some(s[0]) else Find(s[1..], id)
  }

  // ----- round one and the group commitment -----

  function Commit<G(==,!new)>(cs: Ciphersuite<G>, id: int, nonces: Nonces): Commitment<G> {
    Commitment(id, cs.Base(nonces.d), cs.Base(nonces.e))
  }

  // The binding factors of part of a sorted list, the last entry for an id winning.
  function FactorsOf<G(!new)>(cs: Ciphersuite<G>, gpk: G, msg: Msg, sorted: seq<Commitment<G>>,
                              part: seq<Commitment<G>>): Factors {
    if part == [] then map[]
    else
      var c := part[|part| - 1];
      FactorsOf(cs, gpk, msg, sorted, part[..|part| - 1])[c.id := cs.BindingFactor(gpk, msg, sorted, c.id)]
  }

  function Rhos<G(==,!new)>(cs: Ciphersuite<G>, gpk: G, msg: Msg, commitments: seq<Commitment<G>>): Factors {
    var sorted := SortById(commitments);
    FactorsOf(cs, gpk, msg, sorted, sorted)
  }

  method BindingFactors<G(==,!new)>(cs: Ciphersuite<G>, gpk: G, msg: Msg,
                                    commitments: seq<Commitment<G>>) returns (out: Factors)
    ensures out == Rhos(cs, gpk, msg, commitments)
  {
    hide SortById;
    var sorted := SortById(commitments);
    out := map[];
    for i := 0 to |sorted|
      invariant out == FactorsOf(cs, gpk, msg, sorted, sorted[..i])
    {
      var c := sorted[i];
      out := out[c.id := cs.BindingFactor(gpk, msg, sorted, c.id)];
      assert sorted[..i + 1][..i] == sorted[..i];
    }
    assert sorted[..|sorted|] == sorted;
  }

  lemma {:induction false} FactorsCover<G(!new)>(cs: Ciphersuite<G>, gpk: G, msg: Msg, sorted: seq<Commitment<G>>,
                                                 part: seq<Commitment<G>>)
    ensures forall i :: 0 <= i < |part| ==>
              part[i].id in FactorsOf(cs, gpk, msg, sorted, part)
  {
    if part != [] {
      FactorsCover(cs, gpk, msg, sorted, part[..|part| - 1]);
    }
  }

  // Every commitment in the list has a binding factor.
  lemma RhosCover<G(!new)>(cs: Ciphersuite<G>, gpk: G, msg: Msg, commitments: seq<Commitment<G>>, i: nat)
    requires i < |commitments|
    ensures commitments[i].id in Rhos(cs, gpk, msg, commitments)
  {
    hide SortById, FactorsOf;
    var sorted := SortById(commitments);
    FactorsCover(cs, gpk, msg, sorted, sorted);
    assert commitments[i] in multiset(sorted);
    var j :| 0 <= j < |sorted| && sorted[j] == commitments[i];
  }

  function Rho(rhos: Factors, id: int): int {
    if id in rhos then rhos[id] else 0
  }

  // D + rho * E
  function CommitmentShare<G(==,!new)>(cs: Ciphersuite<G>, c: Commitment<G>, rho: int): G {
    cs.Add(c.D, cs.Mul(rho, c.E))
  }

  // Sum of a point per commitment, added up from the left.
  ghost function SumOver<G(!new)>(cs: Ciphersuite<G>, f: Commitment<G> -> G, s: seq<Commitment<G>>): G {
    if s == [] then cs.identity else cs.Add(SumOver(cs, f, s[..|s| - 1]), f(s[|s| - 1]))
  }

  ghost function ShareOf<G(!new)>(cs: Ciphersuite<G>, rhos: Factors): Commitment<G> -> G {
    (c: Commitment<G>) => CommitmentShare(cs, c, Rho(rhos, c.id))
  }

  ghost predicate Covered<G(!new)>(s: seq<Commitment<G>>, rhos: Factors) {
    forall i :: 0 <= i < |s| ==> s[i].id in rhos
  }

  ghost function GroupR<G(!new)>(cs: Ciphersuite<G>, commitments: seq<Commitment<G>>, rhos: Factors): Option<G> {
    var sorted := SortById(commitments);
    if Covered(sorted, rhos) then Some(SumOver(cs, ShareOf(cs, rhos), sorted)) else None
  }

  method GroupCommitment<G(==,!new)>(cs: Ciphersuite<G>, commitments: seq<Commitment<G>>,
                                     rhos: Factors) returns (r: Option<G>)
    ensures r == GroupR(cs, commitments, rhos)
  {
    hide SortById;
    var sorted := SortById(commitments);
    var R := cs.identity;
    for i := 0 to |sorted|
      invariant R == SumOver(cs, ShareOf(cs, rhos), sorted[..i])
      invariant forall j :: 0 <= j < i ==> sorted[j].id in rhos
    {
      var c := sorted[i];
      if c.id !in rhos {
        return None;
      }
      assert sorted[..i + 1][..i] == sorted[..i];
      R := cs.Add(R, cs.Add(c.D, cs.Mul(rhos[c.id], c.E)));
    }
    assert sorted[..|sorted|] == sorted;
    r := Some(R);
  }

  // The binding factors and the group commitment every participant derives from one commitment list.
  ghost function SessionR<G(!new)>(cs: Ciphersuite<G>, gpk: G, msg: Msg, commitments: seq<Commitment<G>>): G {
    SumOver(cs, ShareOf(cs, Rhos(cs, gpk, msg, commitments)), SortById(commitments))
  }

  lemma GroupRIsSessionR<G(!new)>(cs: Ciphersuite<G>, gpk: G, msg: Msg, commitments: seq<Commitment<G>>)
    ensures GroupR(cs, commitments, Rhos(cs, gpk, msg, commitments)) == Some(SessionR(cs, gpk, msg, commitments))
  {
    hide SortById, FactorsOf, SumOver;
    var sorted := SortById(commitments);
    FactorsCover(cs, gpk, msg, sorted, sorted);
  }

  // ----- round two -----

  // d + e * rho + lam * secret * challenge, reduced as the source reduces it.
  function Response(nonces: Nonces, rho: int, lam: int, secret: int, challenge: int, m: int): int
    requires m > 0
  {
    Mod(nonces.d + Mod(nonces.e * rho, m) + Mod(Mod(lam * secret, m) * challenge, m), m)
  }

  ghost function SignShare<G(!new)>(cs: Ciphersuite<G>, id: int, nonces: Nonces, secret: int, gpk: G, msg: Msg,
                                    commitments: seq<Commitment<G>>): Result<int, FrostError>
    requires cs.order > 0
  {
    var rhos := Rhos(cs, gpk, msg, commitments);
    var c := cs.Challenge(SessionR(cs, gpk, msg, commitments), gpk, msg);
    match Coefficient(id, Ids(commitments), cs.order)
    case None => Err(NoInverse)
    case Some(lam) =>
      if id !in rhos then Err(NotASigner) else Ok(Response(nonces, rhos[id], lam, secret, c, cs.order))
  }

  method SignShareUnchecked<G(==,!new)>(cs: Ciphersuite<G>, id: int, nonces: Nonces, secretShare: int, gpk: G, msg: Msg,
                                        commitments: seq<Commitment<G>>) returns (r: Result<int, FrostError>)
    requires cs.order > 0
    ensures r == SignShare(cs, id, nonces, secretShare, gpk, msg, commitments)
  {
    hide SortById, FactorsOf, SumOver, Coefficient;
    var rhos := BindingFactors(cs, gpk, msg, commitments);
    var R := GroupCommitment(cs, commitments, rhos);
    GroupRIsSessionR(cs, gpk, msg, commitments);
    var c := cs.Challenge(R.value, gpk, msg);
    var lam := LagrangeCoefficient(id, Ids(commitments), cs.order);
    if lam.None? {
      return Err(NoInverse);
    }
    if id !in rhos {
      return Err(NotASigner);
    }
    r := Ok(Response(nonces, rhos[id], lam.value, secretShare, c, cs.order));
  }

  // What the coordinator checks of one share: z * G == D + rho * E + (c * lam) * Y.
  ghost predicate ShareEquation<G(!new)>(cs: Ciphersuite<G>, com: Commitment<G>, rho: int, lam: int, challenge: int,
                                         z: int, Y: G)
    requires cs.order > 0
  {
    cs.Base(z) == cs.Add(CommitmentShare(cs, com, rho), cs.Mul(Mod(challenge * lam, cs.order), Y))
  }

  ghost function ShareCheck<G(!new)>(cs: Ciphersuite<G>, id: int, z: int, Y: G, gpk: G, msg: Msg,
                                     commitments: seq<Commitment<G>>): Result<bool, FrostError>
    requires cs.order > 0
  {
    var c := cs.Challenge(SessionR(cs, gpk, msg, commitments), gpk, msg);
    match Find(commitments, id)
    case None => Ok(false)
    case Some(com) =>
      match Coefficient(id, Ids(commitments), cs.order)
      case None => Err(NoInverse)
      case Some(lam) => Ok(ShareEquation(cs, com, Rho(Rhos(cs, gpk, msg, commitments), id), lam, c, z, Y))
  }

  method VerifySignatureShare<G(==,!new)>(cs: Ciphersuite<G>, id: int, zShare: int, publicShare: G, gpk: G, msg: Msg,
                                          commitments: seq<Commitment<G>>) returns (r: Result<bool, FrostError>)
    requires cs.order > 0
    ensures r == ShareCheck(cs, id, zShare, publicShare, gpk, msg, commitments)
  {
    hide SortById, FactorsOf, SumOver, Coefficient, Find;
    var rhos := BindingFactors(cs, gpk, msg, commitments);
    var R := GroupCommitment(cs, commitments, rhos);
    GroupRIsSessionR(cs, gpk, msg, commitments);
    var c := cs.Challenge(R.value, gpk, msg);
    var commitment := Find(commitments, id);
    if commitment.None? {
      return Ok(false);
    }
    var rho := Rho(rhos, id);
    var lam := LagrangeCoefficient(id, Ids(commitments), cs.order);
    if lam.None? {
      return Err(NoInverse);
    }
    var lhs := cs.Base(zShare);
    var commShare := cs.Add(commitment.value.D, cs.Mul(rho, commitment.value.E));
    var rhs := cs.Add(commShare, cs.Mul(Mod(c * lam.value, cs.order), publicShare));
    r := Ok(lhs == rhs);
  }

  // ----- aggregation and verification -----

  function SumMod(zs: seq<int>, m: int): int
    requires m > 0
  {
    if zs == [] then 0 else Mod(SumMod(zs[..|zs| - 1], m) + zs[|zs| - 1], m)
  }

  method Aggregate<G>(cs: Ciphersuite<G>, R: G, zShares: seq<int>) returns (sig: Signature<G>)
    requires cs.order > 0
    ensures sig == Signature(R, SumMod(zShares, cs.order))
  {
    var z := 0;
    for i := 0 to |zShares|
      invariant z == SumMod(zShares[..i], cs.order)
    {
      assert zShares[..i + 1][..i] == zShares[..i];
      z := Mod(z + zShares[i], cs.order);
    }
    assert zShares[..|zShares|] == zShares;
    sig := Signature(R, z);
  }

  predicate Verify<G(==)>(cs: Ciphersuite<G>, gpk: G, msg: Msg, sig: Signature<G>) {
    cs.Base(sig.z) == cs.Add(sig.R, cs.Mul(cs.Challenge(sig.R, gpk, msg), gpk))
  }

  function Zs<G>(partials: seq<Partial<G>>): (zs: seq<int>)
    ensures |zs| == |partials|
  {
    seq(|partials|, i requires 0 <= i < |partials| => partials[i].z)
  }

  ghost predicate DistinctIds<G(!new)>(partials: seq<Partial<G>>) {
    forall i, j :: 0 <= i < j < |partials| ==> partials[i].id != partials[j].id
  }

  ghost predicate Checks<G(!new)>(cs: Ciphersuite<G>, p: Partial<G>, gpk: G, msg: Msg, commitments: seq<Commitment<G>>)
    requires cs.order > 0
  {
    ShareCheck(cs, p.id, p.z, p.publicShare, gpk, msg, commitments) == Ok(true)
  }

  // The first share that does not check, and whether its signer is named for it.
  ghost predicate Blamed<G(!new)>(cs: Ciphersuite<G>, partials: seq<Partial<G>>, i: nat, gpk: G, msg: Msg,
                                  commitments: seq<Commitment<G>>, error: FrostError)
    requires cs.order > 0 && i < |partials|
  {
    var p := partials[i];
    var checked := ShareCheck(cs, p.id, p.z, p.publicShare, gpk, msg, commitments);
    && (forall j :: 0 <= j < i ==> Checks(cs, partials[j], gpk, msg, commitments))
    && ((checked == Ok(false) && error == ShareRejected(p.id)) || (checked == Err(NoInverse) && error == NoInverse))
  }

  // Duplicates are looked for first, then the threshold, then the shares one by one.
  ghost predicate Refusal<G(!new)>(cs: Ciphersuite<G>, gpk: G, msg: Msg, commitments: seq<Commitment<G>>,
                                   partials: seq<Partial<G>>, threshold: nat, error: FrostError)
    requires cs.order > 0
  {
    if !DistinctIds(partials) then error == DuplicateShare
    else if |partials| < threshold then error == BelowThreshold
    else exists i :: 0 <= i < |partials| && Blamed(cs, partials, i, gpk, msg, commitments, error)
  }

  // Returns a signature exactly when there are enough distinct shares and every one of them verifies.
  method CoordinatorAggregate<G(==,!new)>(cs: Ciphersuite<G>, R: G, gpk: G, msg: Msg, commitments: seq<Commitment<G>>,
                                          partials: seq<Partial<G>>, threshold: nat)
      returns (r: Result<Signature<G>, FrostError>)
    requires cs.order > 0
    ensures r.Ok? <==> DistinctIds(partials) && |partials| >= threshold
                       && forall i :: 0 <= i < |partials| ==> Checks(cs, partials[i], gpk, msg, commitments)
    ensures r.Ok? ==> r.value == Signature(R, SumMod(Zs(partials), cs.order))
    ensures r.Err? ==> Refusal(cs, gpk, msg, commitments, partials, threshold, r.error)
  {
    hide ShareCheck;
    var seen: set<int> := {};
    for i := 0 to |partials|
      invariant forall id :: id in seen <==> exists j :: 0 <= j < i && partials[j].id == id
      invariant DistinctIds(partials[..i]) && |seen| == i
    {
      if partials[i].id in seen {
        var j :| 0 <= j < i && partials[j].id == partials[i].id;
        return Err(DuplicateShare);
      }
      seen := seen + {partials[i].id};
    }
    assert partials[..|partials|] == partials;
    if |seen| < threshold {
      return Err(BelowThreshold);
    }
    for i := 0 to |partials|
      invariant forall j :: 0 <= j < i ==> Checks(cs, partials[j], gpk, msg, commitments)
    {
      var s := partials[i];
      var ok := VerifySignatureShare(cs, s.id, s.z, s.publicShare, gpk, msg, commitments);
      if ok.Err? {
        ThrowsNoInverse(cs, s.id, s.z, s.publicShare, gpk, msg, commitments);
        assert Blamed(cs, partials, i, gpk, msg, commitments, NoInverse);
        return Err(NoInverse);
      }
      if !ok.value {
        assert Blamed(cs, partials, i, gpk, msg, commitments, ShareRejected(s.id));
        return Err(ShareRejected(s.id));
      }
    }
    var sig := Aggregate(cs, R, Zs(partials));
    r := Ok(sig);
  }

  lemma ThrowsNoInverse<G(!new)>(cs: Ciphersuite<G>, id: int, z: int, Y: G, gpk: G, msg: Msg,
                                 commitments: seq<Commitment<G>>)
    requires cs.order > 0 && ShareCheck(cs, id, z, Y, gpk, msg, commitments).Err?
    ensures ShareCheck(cs, id, z, Y, gpk, msg, commitments) == Err(NoInverse)
  {
  }
}
