/** Threshold signing is correct, an honest share passes its check over the list it was made for, and checked
    aggregation yields a valid signature exactly when the commitments left unanswered cancel out. */
module ThresholdSigning {
  import opened Outcomes
  import opened Modular
  import opened Lagrange
  import opened Ciphersuites
  import opened Frost
  import opened GroupSums

  // ----- one share -----

  lemma ResponseIs(n: Nonces, rho: int, lam: int, secret: int, c: int, m: int)
    requires m > 0
    ensures Cong(Response(n, rho, lam, secret, c, m), n.d + rho * n.e + Mod(c * lam, m) * secret, m)
  {
    hide Cong;
    var er, ls := Mod(n.e * rho, m), Mod(lam * secret, m);
    CongMod(n.e * rho, m);
    CongMod(lam * secret, m);
    CongMod(ls * c, m);
    CongRefl(c, m);
    CongMul(ls, lam * secret, c, c, m);
    CongTrans(Mod(ls * c, m), ls * c, lam * secret * c, m);
    CongMod(c * lam, m);
    CongRefl(secret, m);
    CongMul(Mod(c * lam, m), c * lam, secret, secret, m);
    CongSym(Mod(c * lam, m) * secret, c * lam * secret, m);
    ResponseAlgebra(n.e, rho, lam, secret, c);
    CongTrans(Mod(ls * c, m), lam * secret * c, Mod(c * lam, m) * secret, m);
    CongRefl(n.d, m);
    CongAdd(n.d, n.d, er, rho * n.e, m);
    CongAdd(n.d + er, n.d + rho * n.e, Mod(ls * c, m), Mod(c * lam, m) * secret, m);
    CongMod(n.d + er + Mod(ls * c, m), m);
    CongTrans(Response(n, rho, lam, secret, c, m), n.d + er + Mod(ls * c, m), n.d + rho * n.e + Mod(c * lam, m) * secret, m);
  }

  lemma ResponseAlgebra(e: int, rho: int, lam: int, secret: int, c: int)
    ensures e * rho == rho * e && lam * secret * c == c * lam * secret
  {
  }

  lemma HonestResponse<G(!new)>(cs: Ciphersuite<G>, id: int, n: Nonces, rho: int, lam: int, secret: int, c: int)
    requires Lawful(cs)
    ensures ShareEquation(cs, Commit(cs, id, n), rho, lam, c, Response(n, rho, lam, secret, c, cs.order), cs.Base(secret))
  {
    hide Cong, IsAbelian, IsLinear, IsPrime, Response;
    PrimeIsPositive(cs.order);
    var k := Mod(c * lam, cs.order);
    ResponseIs(n, rho, lam, secret, c, cs.order);
    BaseRespectsCong(cs, Response(n, rho, lam, secret, c, cs.order), n.d + rho * n.e + k * secret);
    BaseAdds(cs, n.d + rho * n.e, k * secret);
    BaseAdds(cs, n.d, rho * n.e);
    BaseNests(cs, rho, n.e);
    BaseNests(cs, k, secret);
  }

  lemma PrimeIsPositive(m: int)
    requires IsPrime(m)
    ensures m > 0
  {
  }

  lemma {:induction false} FindIsUnique<G(!new)>(s: seq<Commitment<G>>, k: nat)
    requires k < |s| && NoDuplicates(s)
    ensures Find(s, s[k].id) == Some(s[k])
  {
    if k > 0 {
      FindIsUnique(s[1..], k - 1);
    }
  }

  lemma DistinctIdsMeans<G(!new)>(commitments: seq<Commitment<G>>, m: int)
    requires m > 0 && DistinctMod(Ids(commitments), m)
    ensures NoDuplicates(commitments)
    ensures forall k, j :: 0 <= k < |commitments| && 0 <= j < |commitments| ==>
              Ids(commitments)[j] == commitments[k].id || Ids(commitments)[j] % m != commitments[k].id % m
  {
    var ids := Ids(commitments);
    forall k, j | 0 <= k < |commitments| && 0 <= j < |commitments|
      ensures ids[j] == commitments[k].id || ids[j] % m != commitments[k].id % m
    {
      assert ids[k] == commitments[k].id;
      if j < k { assert ids[j] % m != ids[k] % m; }
      if k < j { assert ids[k] % m != ids[j] % m; }
    }
    forall i, j | 0 <= i < j < |commitments| ensures commitments[i].id != commitments[j].id {
      assert ids[i] % m != ids[j] % m && ids[i] == commitments[i].id && ids[j] == commitments[j].id;
    }
  }

  lemma CoefficientExists<G(!new)>(commitments: seq<Commitment<G>>, k: nat, m: int)
    requires IsPrime(m) && k < |commitments| && DistinctMod(Ids(commitments), m)
    ensures Coefficient(commitments[k].id, Ids(commitments), m).Some?
  {
    DistinctIdsMeans(commitments, m);
    DenInverts(commitments[k].id, Ids(commitments), m);
  }

  // An honest signer's share passes the coordinator's check over the same commitment list.
  lemma HonestShareChecks<G(!new)>(cs: Ciphersuite<G>, k: nat, n: Nonces, secret: int, gpk: G, msg: Msg,
                                   commitments: seq<Commitment<G>>)
    requires Lawful(cs) && k < |commitments| && DistinctMod(Ids(commitments), cs.order)
    requires commitments[k] == Commit(cs, commitments[k].id, n)
    ensures var id := commitments[k].id;
            && SignShare(cs, id, n, secret, gpk, msg, commitments).Ok?
            && ShareCheck(cs, id, SignShare(cs, id, n, secret, gpk, msg, commitments).value, cs.Base(secret), gpk, msg, commitments) == Ok(true)
  {
    hide IsAbelian, IsLinear, IsPrime, Coefficient, Response, SessionR, Rhos, ShareEquation, Find, DistinctMod;
    PrimeIsPositive(cs.order);
    var id := commitments[k].id;
    CoefficientExists(commitments, k, cs.order);
    RhosCover(cs, gpk, msg, commitments, k);
    DistinctIdsMeans(commitments, cs.order);
    FindIsUnique(commitments, k);
    var rhos := Rhos(cs, gpk, msg, commitments);
    var c := cs.Challenge(SessionR(cs, gpk, msg, commitments), gpk, msg);
    HonestResponse(cs, id, n, rhos[id], Coefficient(id, Ids(commitments), cs.order).value, secret, c);
  }

  // ----- what the shares add up to -----

  // A signer's contribution to the signature equation, for secret shares on the polynomial f.
  ghost function Contribution<G(!new)>(cs: Ciphersuite<G>, rhos: Factors, challenge: int, ids: seq<int>,
                                       f: seq<int>): Commitment<G> -> G
    requires cs.order > 0
  {
    (c: Commitment<G>) =>
      cs.Add(CommitmentShare(cs, c, Rho(rhos, c.id)), cs.Base(challenge * (Lam(c.id, ids, cs.order) * Eval(f, c.id))))
  }

  lemma CheckedShareIsContribution<G(!new)>(cs: Ciphersuite<G>, com: Commitment<G>, rho: int, lam: int, c: int,
                                            z: int, share: int)
    requires Lawful(cs) && ShareEquation(cs, com, rho, lam, c, z, cs.Base(share))
    ensures cs.Base(z) == cs.Add(CommitmentShare(cs, com, rho), cs.Base(c * (lam * share)))
  {
    hide Cong, IsAbelian, IsLinear, IsPrime;
    PrimeIsPositive(cs.order);
    var k := Mod(c * lam, cs.order);
    BaseNests(cs, k, share);
    CongMod(c * lam, cs.order);
    CongRefl(share, cs.order);
    CongMul(k, c * lam, share, share, cs.order);
    MulAssoc(c, lam, share);
    BaseRespectsCong(cs, k * share, c * (lam * share));
  }

  lemma {:induction false} ContributionsSplit<G(!new)>(cs: Ciphersuite<G>, rhos: Factors, c: int, ids: seq<int>,
                                                       f: seq<int>, part: seq<Commitment<G>>)
    requires Lawful(cs)
    ensures SumOver(cs, Contribution(cs, rhos, c, ids, f), part)
            == cs.Add(SumOver(cs, ShareOf(cs, rhos), part), cs.Base(c * Weighted(Ids(part), ids, f, cs.order)))
  {
    hide IsAbelian, IsLinear, Lam, Eval;
    var m := cs.order;
    if part == [] {
      EmptySums(cs, rhos, c, ids, f);
      MulZero(c);
    } else {
      var x, rest := part[0], part[1..];
      assert part == [x] + rest;
      assert Ids(part)[1..] == Ids(rest);
      ContributionsSplit(cs, rhos, c, ids, f, rest);
      hide SumOver, Weighted;
      SumCons(cs, Contribution(cs, rhos, c, ids, f), x, rest);
      SumCons(cs, ShareOf(cs, rhos), x, rest);
      WeightedCons(Ids(part), ids, f, m);
      var t, w := Lam(x.id, ids, m) * Eval(f, x.id), Weighted(Ids(rest), ids, f, m);
      AddShuffle(cs, CommitmentShare(cs, x, Rho(rhos, x.id)), cs.Base(c * t), SumOver(cs, ShareOf(cs, rhos), rest), cs.Base(c * w));
      BaseAdds(cs, c * t, c * w);
      Distribute(c, t, w);
    }
  }

  lemma EmptySums<G(!new)>(cs: Ciphersuite<G>, rhos: Factors, c: int, ids: seq<int>, f: seq<int>)
    requires Lawful(cs)
    ensures SumOver(cs, Contribution(cs, rhos, c, ids, f), []) == cs.identity == SumOver(cs, ShareOf(cs, rhos), [])
    ensures cs.Add(cs.identity, cs.Base(0)) == cs.identity
  {
    hide IsAbelian;
    AddIdentity(cs, cs.identity);
  }

  lemma WeightedCons(part: seq<int>, ids: seq<int>, f: seq<int>, m: int)
    requires m > 0 && part != []
    ensures Weighted(part, ids, f, m) == Lam(part[0], ids, m) * Eval(f, part[0]) + Weighted(part[1..], ids, f, m)
  {
  }

  lemma Distribute(c: int, t: int, w: int)
    ensures c * (t + w) == c * t + c * w
  {
  }

  // All contributions together make up the right-hand side of the verification equation.
  lemma AllContributions<G(!new)>(cs: Ciphersuite<G>, f: seq<int>, gpk: G, msg: Msg, commitments: seq<Commitment<G>>)
    requires Lawful(cs) && commitments != [] && DistinctMod(Ids(commitments), cs.order)
    requires |f| <= |commitments| && gpk == cs.Base(Eval(f, 0))
    ensures var R := SessionR(cs, gpk, msg, commitments);
            var c := cs.Challenge(R, gpk, msg);
            SumOver(cs, Contribution(cs, Rhos(cs, gpk, msg, commitments), c, Ids(commitments), f), commitments)
            == cs.Add(R, cs.Mul(c, gpk))
  {
    hide Cong, IsAbelian, IsLinear, IsPrime, SortById, FactorsOf, SumOver, Weighted, Eval, DistinctMod;
    PrimeIsPositive(cs.order);
    var ids, rhos := Ids(commitments), Rhos(cs, gpk, msg, commitments);
    var R := SessionR(cs, gpk, msg, commitments);
    var c := cs.Challenge(R, gpk, msg);
    ContributionsSplit(cs, rhos, c, ids, f, commitments);
    SumPermutes(cs, ShareOf(cs, rhos), SortById(commitments), commitments);
    Interpolates(ids, f, cs.order);
    CongScale(c, Weighted(ids, ids, f, cs.order), Eval(f, 0), cs.order);
    BaseRespectsCong(cs, c * Weighted(ids, ids, f, cs.order), c * Eval(f, 0));
    BaseNests(cs, c, Eval(f, 0));
  }

  // ----- checked aggregation -----

  // The commitments answered by the partials, in their order, and those nobody answered.
  ghost function Answered<G(!new)>(commitments: seq<Commitment<G>>, partials: seq<Partial<G>>): (r: seq<Commitment<G>>)
    requires forall i :: 0 <= i < |partials| ==> Find(commitments, partials[i].id).Some?
    ensures |r| == |partials|
  {
    seq(|partials|, i requires 0 <= i < |partials| => Find(commitments, partials[i].id).value)
  }

  ghost predicate IsAnswered<G(!new)>(c: Commitment<G>, partials: seq<Partial<G>>) {
    exists i :: 0 <= i < |partials| && partials[i].id == c.id
  }

  ghost function Unanswered<G(!new)>(commitments: seq<Commitment<G>>,
                                     partials: seq<Partial<G>>): (r: seq<Commitment<G>>)
    ensures forall c :: c in r <==> c in commitments && !IsAnswered(c, partials)
  {
    if commitments == [] then []
    else
      assert forall c :: c in commitments <==> c == commitments[0] || c in commitments[1..];
      (if IsAnswered(commitments[0], partials) then [] else [commitments[0]]) + Unanswered(commitments[1..], partials)
  }

  lemma {:induction false} UnansweredDistinct<G(!new)>(commitments: seq<Commitment<G>>, partials: seq<Partial<G>>)
    requires NoDuplicates(commitments)
    ensures NoDuplicates(Unanswered(commitments, partials))
  {
    if commitments != [] {
      UnansweredDistinct(commitments[1..], partials);
      var u := Unanswered(commitments[1..], partials);
      forall j | 0 <= j < |u| ensures commitments[0].id != u[j].id {
        assert u[j] in u;
        var k :| 0 <= k < |commitments[1..]| && commitments[1..][k] == u[j];
      }
    }
  }

  lemma UnansweredDiffers<G(!new)>(commitments: seq<Commitment<G>>, partials: seq<Partial<G>>, i: nat, j: nat)
    requires forall i :: 0 <= i < |partials| ==> Find(commitments, partials[i].id).Some?
    requires i < |partials| && j < |Unanswered(commitments, partials)|
    ensures Answered(commitments, partials)[i].id != Unanswered(commitments, partials)[j].id
  {
    hide Find, Unanswered;
    var c := Unanswered(commitments, partials)[j];
    assert !IsAnswered(c, partials);
    assert Answered(commitments, partials)[i].id == partials[i].id;
  }

  lemma AnsweredAndUnanswered<G(!new)>(commitments: seq<Commitment<G>>, partials: seq<Partial<G>>)
    requires NoDuplicates(commitments) && DistinctIds(partials)
    requires forall i :: 0 <= i < |partials| ==> Find(commitments, partials[i].id).Some?
    ensures multiset(commitments) == multiset(Answered(commitments, partials) + Unanswered(commitments, partials))
  {
    hide Find, Unanswered;
    var a, u := Answered(commitments, partials), Unanswered(commitments, partials);
    var all := a + u;
    UnansweredDistinct(commitments, partials);
    forall i, j | 0 <= i < j < |all| ensures all[i].id != all[j].id {
      if i < |a| <= j {
        UnansweredDiffers(commitments, partials, i, j - |a|);
      }
    }
    forall x ensures x in commitments <==> x in all {
      if x in commitments && x !in u {
        assert IsAnswered(x, partials);
        var i :| 0 <= i < |partials| && partials[i].id == x.id;
        var k :| 0 <= k < |commitments| && commitments[k] == x;
        FindIsUnique(commitments, k);
        assert a[i] == x;
      }
      if x in a {
        var i :| 0 <= i < |a| && a[i] == x;
      }
    }
    SameElementsSameMultiset(commitments, all);
  }

  // Every share verified, against a public share on f.
  ghost predicate AllCheck<G(!new)>(cs: Ciphersuite<G>, f: seq<int>, gpk: G, msg: Msg,
                                    commitments: seq<Commitment<G>>, partials: seq<Partial<G>>)
    requires cs.order > 0
  {
    forall i :: 0 <= i < |partials| ==>
      Checks(cs, partials[i], gpk, msg, commitments) && partials[i].publicShare == cs.Base(Eval(f, partials[i].id))
  }

  lemma CheckedIsFound<G(!new)>(cs: Ciphersuite<G>, p: Partial<G>, share: int, gpk: G, msg: Msg,
                                commitments: seq<Commitment<G>>, f: seq<int>)
    requires Lawful(cs) && Checks(cs, p, gpk, msg, commitments) && p.publicShare == cs.Base(share)
    requires share == Eval(f, p.id)
    ensures Find(commitments, p.id).Some?
    ensures var c := cs.Challenge(SessionR(cs, gpk, msg, commitments), gpk, msg);
            cs.Base(p.z) == Contribution(cs, Rhos(cs, gpk, msg, commitments), c, Ids(commitments), f)(Find(commitments, p.id).value)
  {
    hide IsAbelian, IsLinear, IsPrime, Coefficient, SessionR, Rhos, Eval, Find, ShareEquation;
    PrimeIsPositive(cs.order);
    var c := cs.Challenge(SessionR(cs, gpk, msg, commitments), gpk, msg);
    var rho := Rho(Rhos(cs, gpk, msg, commitments), p.id);
    var lam := Lam(p.id, Ids(commitments), cs.order);
    var com := Find(commitments, p.id).value;
    assert ShareEquation(cs, com, rho, lam, c, p.z, cs.Base(share));
    CheckedShareIsContribution(cs, com, rho, lam, c, p.z, share);
  }

  lemma {:induction false} SumOfBases<G(!new)>(cs: Ciphersuite<G>, v: Commitment<G> -> G, coms: seq<Commitment<G>>,
                                               zs: seq<int>)
    requires Lawful(cs) && |coms| == |zs| && forall i :: 0 <= i < |zs| ==> cs.Base(zs[i]) == v(coms[i])
    ensures cs.Base(SumMod(zs, cs.order)) == SumOver(cs, v, coms)
  {
    hide IsAbelian, IsPrime, IsLinear;
    PrimeIsPositive(cs.order);
    if zs == [] {
      EmptyBases(cs, v);
    } else {
      var n := |zs| - 1;
      SumOfBases(cs, v, coms[..n], zs[..n]);
      AddToSumMod(cs, SumMod(zs[..n], cs.order), zs[n]);
    }
  }

  lemma EmptyBases<G(!new)>(cs: Ciphersuite<G>, v: Commitment<G> -> G)
    requires IsLinear(cs) && cs.order > 0
    ensures cs.Base(SumMod([], cs.order)) == SumOver(cs, v, [])
  {
  }

  lemma AggregateSums<G(!new)>(cs: Ciphersuite<G>, f: seq<int>, gpk: G, msg: Msg, commitments: seq<Commitment<G>>,
                               partials: seq<Partial<G>>)
    requires Lawful(cs) && AllCheck(cs, f, gpk, msg, commitments, partials)
    ensures forall i :: 0 <= i < |partials| ==> Find(commitments, partials[i].id).Some?
    ensures var c := cs.Challenge(SessionR(cs, gpk, msg, commitments), gpk, msg);
            cs.Base(SumMod(Zs(partials), cs.order))
            == SumOver(cs, Contribution(cs, Rhos(cs, gpk, msg, commitments), c, Ids(commitments), f), Answered(commitments, partials))
  {
    hide IsAbelian, IsLinear, IsPrime, SessionR, Rhos, Eval, Find, Checks, Contribution, SumOver, SumMod;
    PrimeIsPositive(cs.order);
    var c := cs.Challenge(SessionR(cs, gpk, msg, commitments), gpk, msg);
    var v := Contribution(cs, Rhos(cs, gpk, msg, commitments), c, Ids(commitments), f);
    forall i | 0 <= i < |partials|
      ensures Find(commitments, partials[i].id).Some?
      ensures cs.Base(partials[i].z) == v(Find(commitments, partials[i].id).value)
    {
      CheckedIsFound(cs, partials[i], Eval(f, partials[i].id), gpk, msg, commitments, f);
    }
    SumOfBases(cs, v, Answered(commitments, partials), Zs(partials));
  }

  lemma AddToSumMod<G(!new)>(cs: Ciphersuite<G>, z: int, w: int)
    requires Lawful(cs)
    ensures cs.Base(Mod(z + w, cs.order)) == cs.Add(cs.Base(z), cs.Base(w))
  {
    hide Cong, IsAbelian, IsPrime;
    PrimeIsPositive(cs.order);
    CongMod(z + w, cs.order);
    BaseRespectsCong(cs, Mod(z + w, cs.order), z + w);
    BaseAdds(cs, z, w);
  }

  lemma Cancels<G(!new)>(cs: Ciphersuite<G>, z: int, q: G)
    requires Lawful(cs)
    ensures cs.Base(z) == cs.Add(cs.Base(z), q) <==> q == cs.identity
  {
    hide IsAbelian, IsPrime;
    AddIdentity(cs, cs.Base(z));
    AddIdentity(cs, q);
    BaseAdds(cs, -z, z);
    AddAssociates(cs, cs.Base(-z), cs.Base(z), q);
  }

  // Whatever the shares are, if each of them passes its check the aggregate is a valid signature exactly
  // when the contributions of the commitments nobody answered sum to the identity.
  lemma AggregateVerifiesIff<G(!new)>(cs: Ciphersuite<G>, f: seq<int>, gpk: G, msg: Msg,
                                      commitments: seq<Commitment<G>>, partials: seq<Partial<G>>)
    requires Lawful(cs) && commitments != [] && DistinctMod(Ids(commitments), cs.order)
    requires |f| <= |commitments| && gpk == cs.Base(Eval(f, 0))
    requires DistinctIds(partials) && AllCheck(cs, f, gpk, msg, commitments, partials)
    ensures var R := SessionR(cs, gpk, msg, commitments);
            var c := cs.Challenge(R, gpk, msg);
            Verify(cs, gpk, msg, Signature(R, SumMod(Zs(partials), cs.order))) <==>
            SumOver(cs, Contribution(cs, Rhos(cs, gpk, msg, commitments), c, Ids(commitments), f), Unanswered(commitments, partials))
            == cs.identity
  {
    hide IsAbelian, IsLinear, IsPrime, SessionR, Rhos, Eval, Find, Checks, Contribution, SumOver, AllCheck, DistinctMod;
    PrimeIsPositive(cs.order);
    var R := SessionR(cs, gpk, msg, commitments);
    var c := cs.Challenge(R, gpk, msg);
    var v := Contribution(cs, Rhos(cs, gpk, msg, commitments), c, Ids(commitments), f);
    AllContributions(cs, f, gpk, msg, commitments);
    AggregateSums(cs, f, gpk, msg, commitments, partials);
    DistinctIdsMeans(commitments, cs.order);
    AnsweredAndUnanswered(commitments, partials);
    SumPermutes(cs, v, commitments, Answered(commitments, partials) + Unanswered(commitments, partials));
    SumConcat(cs, v, Answered(commitments, partials), Unanswered(commitments, partials));
    Cancels(cs, SumMod(Zs(partials), cs.order), SumOver(cs, v, Unanswered(commitments, partials)));
  }

  // In particular, when every committed signer answered, the aggregate always verifies.
  lemma FullAggregateVerifies<G(!new)>(cs: Ciphersuite<G>, f: seq<int>, gpk: G, msg: Msg,
                                       commitments: seq<Commitment<G>>, partials: seq<Partial<G>>)
    requires Lawful(cs) && commitments != [] && DistinctMod(Ids(commitments), cs.order)
    requires |f| <= |commitments| && gpk == cs.Base(Eval(f, 0))
    requires DistinctIds(partials) && AllCheck(cs, f, gpk, msg, commitments, partials)
    requires forall c :: c in commitments ==> IsAnswered(c, partials)
    ensures Verify(cs, gpk, msg, Signature(SessionR(cs, gpk, msg, commitments), SumMod(Zs(partials), cs.order)))
  {
    hide IsAbelian, IsLinear, IsPrime, SessionR, Rhos, Eval, Checks, Contribution, AllCheck, DistinctMod, Verify;
    AggregateVerifiesIff(cs, f, gpk, msg, commitments, partials);
    var u := Unanswered(commitments, partials);
    if u != [] {
      assert u[0] in u;
    }
  }

  // Commitments to the identity contribute nothing, whatever the binding factors.
  lemma {:induction false} ZeroShares(p: int, rhos: Factors, s: seq<Commitment<int>>)
    requires p > 1 && forall c :: c in s ==> c.D == 0 && c.E == 0
    ensures SumOver(Residues(p), ShareOf(Residues(p), rhos), s) == 0
  {
    hide AddPairs, MulResidue;
    ZeroIsNeutral(p, 0);
    if s != [] {
      var c := s[|s| - 1];
      ZeroTimes(p, Rho(rhos, c.id));
      ZeroShares(p, rhos, s[..|s| - 1]);
    }
  }

  lemma ZeroTimes(p: int, k: int)
    requires p > 0
    ensures MulResidue(p, k, 0) == 0
  {
    assert k * 0 == 0;
  }

  lemma ZeroSession(p: int, gpk: int, msg: Msg, commitments: seq<Commitment<int>>)
    requires p > 1 && forall c :: c in commitments ==> c.D == 0 && c.E == 0
    ensures SessionR(Residues(p), gpk, msg, commitments) == 0
  {
    hide SortById, SumOver;
    var sorted := SortById(commitments);
    forall c | c in sorted ensures c.D == 0 && c.E == 0 {
      assert c in multiset(sorted);
      assert c in commitments;
    }
    ZeroShares(p, Rhos(Residues(p), gpk, msg, commitments), sorted);
  }

  lemma FirstCoefficient(p: int)
    requires p > 1
    ensures Coefficient(1, [1, 2], p) == Some(2 % p)
  {
    assert [1, 2][1..] == [2] && [2][1..] == [];
    assert Num(1, [2]) == 2 && Den(1, [2]) == 1;
    assert Num(1, [1, 2]) == 2 && Den(1, [1, 2]) == 1;
    CongRefl(1, p);
    assert Cong(1 * 1, 1, p);
    InverseUnique(1, 1, Inverse(1, p).value, p);
  }

  lemma FirstShareChecks(p: int, rho: int)
    requires p > 1
    ensures ShareEquation(Residues(p), Commitment(1, 0, 0), rho, 2 % p, 1, 2, 1)
  {
    hide AddPairs, MulResidue;
    var cs := Residues(p);
    ZeroTimes(p, rho);
    ZeroIsNeutral(p, 0);
    ModUnique(2 % p, 0, 2 % p, p);
    BaseIsResidue(p, 2);
    BaseIsResidue(p, 2 % p);
    ZeroIsNeutral(p, 2 % p);
    PairsCommute(p, 0, 2 % p);
    assert 1 * (2 % p) == 2 % p;
  }

  lemma OneShareSum(p: int)
    requires p > 1
    ensures SumMod([2], p) == 2 % p && 2 % p != 1
  {
    assert [2][..0] == [] && SumMod([], p) == 0;
    if p > 2 { ModUnique(2, 0, 2, p); }
  }

  lemma NotValid(p: int, msg: Msg)
    requires p > 1
    ensures !Verify(Residues(p), 1, msg, Signature(0, 2 % p))
  {
    hide AddPairs, MulResidue;
    BaseIsResidue(p, 2 % p);
    BaseIsResidue(p, 1);
    ModUnique(2 % p, 0, 2 % p, p);
    ModUnique(1, 0, 1, p);
    ZeroIsNeutral(p, 1);
    PairsCommute(p, 0, 1);
    OneShareSum(p);
  }

  // A signature from a partial answer can indeed fail: over a group of any prime order, two signers commit and
  // only the first one's share arrives. It passes its check, and the signature is not valid.
  lemma PartialAnswerFails(p: int)
    requires IsPrime(p)
    ensures var cs := Residues(p);
      var commitments, partials := [Commitment(1, 0, 0), Commitment(2, 0, 0)], [Partial(1, 2, 1)];
      && Lawful(cs) && DistinctMod(Ids(commitments), cs.order)
      && cs.Base(Eval([1], 0)) == 1 && DistinctIds(partials) && AllCheck(cs, [1], 1, [], commitments, partials)
      && !Verify(cs, 1, [], Signature(SessionR(cs, 1, [], commitments), SumMod(Zs(partials), cs.order)))
  {
    hide Lawful, SessionR, Rhos, Coefficient, ShareEquation, Verify, SumMod, MulResidue;
    var cs := Residues(p);
    var commitments, partial := [Commitment(1, 0, 0), Commitment(2, 0, 0)], Partial(1, 2, 1);
    LawfulSuiteExists(p);
    ZeroSession(p, 1, [], commitments);
    FirstCoefficient(p);
    assert Ids(commitments) == [1, 2];
    DistinctPair(p);
    assert Find(commitments, 1) == Some(commitments[0]);
    FirstShareChecks(p, Rho(Rhos(cs, 1, [], commitments), 1));
    assert Eval([1], 1) == Eval([1], 0) == 1;
    BaseIsResidue(p, 1);
    ModUnique(1, 0, 1, p);
    assert Checks(cs, partial, 1, [], commitments);
    assert Zs([partial]) == [2];
    OneShareSum(p);
    NotValid(p, []);
  }

  lemma DistinctPair(p: int)
    requires p > 1
    ensures DistinctMod([1, 2], p)
  {
    ModUnique(1, 0, 1, p);
    OneShareSum(p);
  }

  // ----- the whole protocol -----

  // A signer of one session: its id, its round-one nonces and its secret share.
  datatype Signer = Signer(id: int, nonces: Nonces, secret: int)

  ghost function SessionCommitments<G(!new)>(cs: Ciphersuite<G>, signers: seq<Signer>): (r: seq<Commitment<G>>)
    ensures |r| == |signers|
  {
    seq(|signers|, i requires 0 <= i < |signers| => Commit(cs, signers[i].id, signers[i].nonces))
  }

  ghost predicate SharesOn(f: seq<int>, signers: seq<Signer>, m: int)
    requires m > 0
  {
    forall i :: 0 <= i < |signers| ==> Cong(signers[i].secret, Eval(f, signers[i].id), m)
  }

  ghost function HonestPartials<G(!new)>(cs: Ciphersuite<G>, f: seq<int>, gpk: G, msg: Msg,
                                         signers: seq<Signer>): (r: seq<Partial<G>>)
    requires cs.order > 0
    ensures |r| == |signers|
  {
    var commitments := SessionCommitments(cs, signers);
    seq(|signers|, i requires 0 <= i < |signers| =>
      var s := signers[i];
      var z := SignShare(cs, s.id, s.nonces, s.secret, gpk, msg, commitments);
      Partial(s.id, if z.Ok? then z.value else 0, cs.Base(Eval(f, s.id))))
  }

  lemma HonestPartialChecks<G(!new)>(cs: Ciphersuite<G>, f: seq<int>, gpk: G, msg: Msg, signers: seq<Signer>, i: nat)
    requires Lawful(cs) && i < |signers| && SharesOn(f, signers, cs.order)
    requires DistinctMod(Ids(SessionCommitments(cs, signers)), cs.order)
    ensures var commitments, s := SessionCommitments(cs, signers), signers[i];
            && SignShare(cs, s.id, s.nonces, s.secret, gpk, msg, commitments).Ok?
            && Checks(cs, HonestPartials(cs, f, gpk, msg, signers)[i], gpk, msg, commitments)
  {
    hide Cong, IsAbelian, IsLinear, IsPrime, SignShare, ShareCheck, Eval, DistinctMod;
    PrimeIsPositive(cs.order);
    var commitments, s := SessionCommitments(cs, signers), signers[i];
    HonestShareChecks(cs, i, s.nonces, s.secret, gpk, msg, commitments);
    BaseRespectsCong(cs, s.secret, Eval(f, s.id));
  }

  // Completeness: any set of at least t signers holding shares of a polynomial with t coefficients, with
  // whatever nonces, produces shares that sum to a valid signature under the constant term's key.
  lemma HonestSigningVerifies<G(!new)>(cs: Ciphersuite<G>, f: seq<int>, gpk: G, msg: Msg, signers: seq<Signer>)
    requires Lawful(cs) && signers != [] && |f| <= |signers| && gpk == cs.Base(Eval(f, 0))
    requires DistinctMod(Ids(SessionCommitments(cs, signers)), cs.order) && SharesOn(f, signers, cs.order)
    ensures var commitments := SessionCommitments(cs, signers);
            && (forall s :: s in signers ==> SignShare(cs, s.id, s.nonces, s.secret, gpk, msg, commitments).Ok?)
            && AllCheck(cs, f, gpk, msg, commitments, HonestPartials(cs, f, gpk, msg, signers))
            && Verify(cs, gpk, msg, Signature(SessionR(cs, gpk, msg, commitments),
                                              SumMod(Zs(HonestPartials(cs, f, gpk, msg, signers)), cs.order)))
  {
    hide Cong, IsAbelian, IsLinear, IsPrime, SignShare, Checks, Eval, DistinctMod, SharesOn, Verify, SessionR;
    PrimeIsPositive(cs.order);
    var commitments, partials := SessionCommitments(cs, signers), HonestPartials(cs, f, gpk, msg, signers);
    forall i | 0 <= i < |signers|
      ensures Checks(cs, partials[i], gpk, msg, commitments)
      ensures SignShare(cs, signers[i].id, signers[i].nonces, signers[i].secret, gpk, msg, commitments).Ok?
    {
      HonestPartialChecks(cs, f, gpk, msg, signers, i);
    }
    DistinctIdsMeans(commitments, cs.order);
    forall i, j | 0 <= i < j < |partials| ensures partials[i].id != partials[j].id {
      assert commitments[i].id != commitments[j].id;
    }
    forall c | c in commitments ensures IsAnswered(c, partials) {
      var k :| 0 <= k < |commitments| && commitments[k] == c;
      assert partials[k].id == c.id;
    }
    FullAggregateVerifies(cs, f, gpk, msg, commitments, partials);
  }
}
