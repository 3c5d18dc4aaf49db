/** A share made over one commitment list and checked over another: a nonce posted in between can make an honest
    signer's share fail. */
module SigningRaces {
  import opened Outcomes
  import opened Modular
  import opened Lagrange
  import opened Ciphersuites
  import opened Frost
  import opened ThresholdSigning

  // What a list contributes to its signer's response beside the hiding nonce: rho * e + c * lambda * secret.
  ghost function ListPart<G(!new)>(cs: Ciphersuite<G>, id: int, n: Nonces, secret: int, gpk: G, msg: Msg,
                                   commitments: seq<Commitment<G>>): int
    requires cs.order > 0
  {
    var c := cs.Challenge(SessionR(cs, gpk, msg, commitments), gpk, msg);
    Rho(Rhos(cs, gpk, msg, commitments), id) * n.e + Mod(c * Lam(id, Ids(commitments), cs.order), cs.order) * secret
  }

  // The list holds the signer's own commitment, under an id nobody shares.
  ghost predicate Holds<G(!new)>(cs: Ciphersuite<G>, id: int, n: Nonces, commitments: seq<Commitment<G>>)
    requires cs.order > 0
  {
    Commit(cs, id, n) in commitments && DistinctMod(Ids(commitments), cs.order)
  }

  lemma ShareIs<G(!new)>(cs: Ciphersuite<G>, id: int, n: Nonces, secret: int, gpk: G, msg: Msg,
                         commitments: seq<Commitment<G>>)
    requires Lawful(cs) && Holds(cs, id, n, commitments)
    ensures var z := SignShare(cs, id, n, secret, gpk, msg, commitments);
      z.Ok? && cs.Base(z.value) == cs.Base(n.d + ListPart(cs, id, n, secret, gpk, msg, commitments))
  {
    hide Cong, IsAbelian, IsLinear, IsPrime, Coefficient, Response, SessionR, Rhos, DistinctMod, Ids;
    PrimeIsPositive(cs.order);
    var k :| 0 <= k < |commitments| && commitments[k] == Commit(cs, id, n);
    CoefficientExists(commitments, k, cs.order);
    RhosCover(cs, gpk, msg, commitments, k);
    var rho := Rhos(cs, gpk, msg, commitments)[id];
    var c, lam := cs.Challenge(SessionR(cs, gpk, msg, commitments), gpk, msg), Lam(id, Ids(commitments), cs.order);
    ResponseIs(n, rho, lam, secret, c, cs.order);
    BaseRespectsCong(cs, Response(n, rho, lam, secret, c, cs.order), n.d + rho * n.e + Mod(c * lam, cs.order) * secret);
  }

  lemma CheckIs<G(!new)>(cs: Ciphersuite<G>, id: int, n: Nonces, secret: int, z: int, gpk: G, msg: Msg,
                         commitments: seq<Commitment<G>>)
    requires Lawful(cs) && Holds(cs, id, n, commitments)
    ensures ShareCheck(cs, id, z, cs.Base(secret), gpk, msg, commitments)
            == Ok(cs.Base(z) == cs.Base(n.d + ListPart(cs, id, n, secret, gpk, msg, commitments)))
  {
    hide Cong, IsAbelian, IsLinear, IsPrime, Coefficient, SessionR, Rhos, DistinctMod, Ids, Find;
    PrimeIsPositive(cs.order);
    var k :| 0 <= k < |commitments| && commitments[k] == Commit(cs, id, n);
    CoefficientExists(commitments, k, cs.order);
    DistinctIdsMeans(commitments, cs.order);
    FindIsUnique(commitments, k);
    var rho := Rho(Rhos(cs, gpk, msg, commitments), id);
    var c, lam := cs.Challenge(SessionR(cs, gpk, msg, commitments), gpk, msg), Lam(id, Ids(commitments), cs.order);
    var m := Mod(c * lam, cs.order);
    BaseAdds(cs, n.d + rho * n.e, m * secret);
    BaseAdds(cs, n.d, rho * n.e);
    BaseNests(cs, rho, n.e);
    BaseNests(cs, m, secret);
  }

  lemma SameShift<G(!new)>(cs: Ciphersuite<G>, d: int, x: int, y: int)
    requires Lawful(cs)
    ensures cs.Base(d + x) == cs.Base(d + y) <==> cs.Base(x) == cs.Base(y)
  {
    hide IsAbelian, IsPrime;
    BaseAdds(cs, d, x);
    BaseAdds(cs, d, y);
    BaseAdds(cs, -d, d + x);
    BaseAdds(cs, -d, d + y);
    assert -d + (d + x) == x && -d + (d + y) == y;
  }

  // An honest share made over one list passes over another exactly if both lists contribute the same in the
  // exponent.
  lemma ShareAcrossLists<G(!new)>(cs: Ciphersuite<G>, id: int, n: Nonces, secret: int, gpk: G, msg: Msg,
                                  signed: seq<Commitment<G>>, checked: seq<Commitment<G>>)
    requires Lawful(cs) && Holds(cs, id, n, signed) && Holds(cs, id, n, checked)
    ensures var z := SignShare(cs, id, n, secret, gpk, msg, signed);
      z.Ok? && ShareCheck(cs, id, z.value, cs.Base(secret), gpk, msg, checked)
               == Ok(cs.Base(ListPart(cs, id, n, secret, gpk, msg, signed)) == cs.Base(ListPart(cs, id, n, secret, gpk, msg, checked)))
  {
    hide Holds, Lawful, SignShare, ShareCheck, ListPart;
    PositiveOrder(cs);
    ShareIs(cs, id, n, secret, gpk, msg, signed);
    var z := SignShare(cs, id, n, secret, gpk, msg, signed).value;
    CheckIs(cs, id, n, secret, z, gpk, msg, checked);
    SameShift(cs, n.d, ListPart(cs, id, n, secret, gpk, msg, signed), ListPart(cs, id, n, secret, gpk, msg, checked));
  }

  lemma PositiveOrder<G(!new)>(cs: Ciphersuite<G>)
    requires Lawful(cs)
    ensures cs.order > 0
  {
  }

  // A late nonce: signer 1 signs over its own commitment alone, then signer 2's is posted. In a group of any prime
  // order the honest share no longer passes.
  lemma LateNonceBlamesSigner(p: int)
    requires IsPrime(p)
    ensures var cs, n := Residues(p), Nonces(0, 0);
      var signed, checked := [Commitment(1, 0, 0)], [Commitment(1, 0, 0), Commitment(2, 0, 0)];
      var z := SignShare(cs, 1, n, 1, 1, [], signed);
      && Lawful(cs) && Holds(cs, 1, n, signed) && Holds(cs, 1, n, checked)
      && z.Ok? && ShareCheck(cs, 1, z.value, cs.Base(1), 1, [], checked) == Ok(false)
  {
    hide Lawful, SignShare, ShareCheck, SessionR, Rhos, Coefficient, MulResidue, AddPairs;
    var cs, n := Residues(p), Nonces(0, 0);
    var signed, checked := [Commitment(1, 0, 0)], [Commitment(1, 0, 0), Commitment(2, 0, 0)];
    LawfulSuiteExists(p);
    BaseIsResidue(p, 0);
    ModUnique(0, 0, 0, p);
    assert Ids(signed) == [1] && Ids(checked) == [1, 2];
    DistinctPair(p);
    assert Commit(cs, 1, n) == Commitment(1, 0, 0) == signed[0] == checked[0];
    FirstCoefficient(p);
    LoneCoefficient(p);
    ModUnique(1, 0, 1, p);
    ModUnique(2 % p, 0, 2 % p, p);
    OneShareSum(p);
    PartOfZeroNonces(p, signed, 1);
    PartOfZeroNonces(p, checked, 2 % p);
    BaseIsResidue(p, 1);
    BaseIsResidue(p, 2 % p);
    ShareAcrossLists(cs, 1, n, 1, 1, [], signed, checked);
  }

  lemma PartOfZeroNonces(p: int, commitments: seq<Commitment<int>>, lam: int)
    requires p > 1 && Lam(1, Ids(commitments), p) == lam && 0 <= lam < p
    ensures ListPart(Residues(p), 1, Nonces(0, 0), 1, 1, [], commitments) == lam
  {
    hide SessionR, Rhos, Coefficient, Ids;
    var rho := Rho(Rhos(Residues(p), 1, [], commitments), 1);
    assert rho * 0 == 0;
    assert 1 * lam == lam;
    ModUnique(lam, 0, lam, p);
  }

  lemma LoneCoefficient(p: int)
    requires p > 1
    ensures Coefficient(1, [1], p) == Some(1)
  {
    assert [1][1..] == [] && Num(1, [1]) == 1 && Den(1, [1]) == 1;
    CongRefl(1, p);
    assert Cong(1 * 1, 1, p);
    InverseUnique(1, 1, Inverse(1, p).value, p);
    ModUnique(1, 0, 1, p);
  }
}
