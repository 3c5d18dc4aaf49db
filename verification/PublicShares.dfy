/** Public shares computed from the dealers' Feldman commitments alone, and why honest signers always match. */
module PublicShares {
  import opened Outcomes
  import opened Modular
  import opened Lagrange
  import opened Ciphersuites
  import opened Frost
  import opened ThresholdSigning

  // A dealer's public commitment to a polynomial: each coefficient times the generator.
  function Feldman<G>(cs: Ciphersuite<G>, f: seq<int>): (r: seq<G>)
    ensures |r| == |f|
  {
    seq(|f|, k requires 0 <= k < |f| => cs.Base(f[k]))
  }

  function Power(x: int, n: nat): int {
    if n == 0 then 1 else Power(x, n - 1) * x
  }

  lemma {:induction false} EvalSnoc(f: seq<int>, a: int, x: int)
    ensures Eval(f + [a], x) == Eval(f, x) + Power(x, |f|) * a
  {
    if f == [] {
      assert ([] + [a])[1..] == [];
      assert x * Eval([], x) == 0;
    } else {
      EvalSnoc(f[1..], a, x);
      assert (f + [a])[1..] == f[1..] + [a];
      PowerFront(x, |f|);
      SnocAlgebra(x, Eval(f[1..], x), Power(x, |f| - 1), a);
    }
  }

  lemma SnocAlgebra(x: int, e: int, p: int, a: int)
    ensures x * (e + p * a) == x * e + x * p * a
  {
  }

  lemma {:induction false} PowerFront(x: int, n: nat)
    requires n > 0
    ensures Power(x, n) == x * Power(x, n - 1)
  {
    if n > 1 { PowerFront(x, n - 1); }
  }

  // The running power is reduced modulo the order at every step; the points are not affected by that.
  method PublicShareAt<G(!new)>(cs: Ciphersuite<G>, i: int, commitments: seq<G>, ghost f: seq<int>) returns (share: G)
    requires Lawful(cs) && commitments == Feldman(cs, f)
    ensures share == cs.Base(Eval(f, i))
  {
    EmptyStart(cs, f, i);
    hide Cong, IsAbelian, IsLinear, IsPrime, Eval, Power;
    var rhs, ipow := cs.identity, 1;
    for k := 0 to |commitments|
      invariant rhs == cs.Base(Eval(f[..k], i))
      invariant Cong(ipow, Power(i, k), cs.order)
    {
      TermIsBase(cs, ipow, Power(i, k), f[k]);
      EvalSnoc(f[..k], f[k], i);
      assert f[..k + 1] == f[..k] + [f[k]];
      BaseAdds(cs, Eval(f[..k], i), Power(i, k) * f[k]);
      rhs := cs.Add(rhs, cs.Mul(ipow, commitments[k]));
      PowerStep(i, k);
      ProductStepPlain(ipow, Power(i, k), i, cs.order);
      ipow := Mod(ipow * i, cs.order);
    }
    assert f[..|f|] == f;
    share := rhs;
  }

  lemma EmptyStart<G(!new)>(cs: Ciphersuite<G>, f: seq<int>, i: int)
    requires Lawful(cs)
    ensures cs.order > 0 && cs.identity == cs.Base(Eval(f[..0], i)) == cs.Base(Eval([], i))
    ensures Cong(1, Power(i, 0), cs.order)
  {
    hide IsAbelian;
  }

  lemma PowerStep(x: int, n: nat)
    ensures Power(x, n + 1) == Power(x, n) * x
  {
  }

  lemma ProductStepPlain(acc: int, exact: int, i: int, m: int)
    requires m > 0 && Cong(acc, exact, m)
    ensures Cong(Mod(acc * i, m), exact * i, m)
  {
    CongRefl(i, m);
    CongMul(acc, exact, i, i, m);
    CongMod(acc * i, m);
  }

  lemma TermIsBase<G(!new)>(cs: Ciphersuite<G>, p: int, q: int, a: int)
    requires Lawful(cs) && Cong(p, q, cs.order)
    ensures cs.Mul(p, cs.Base(a)) == cs.Base(q * a)
  {
    hide IsAbelian, Cong;
    BaseNests(cs, p, a);
    CongRefl(a, cs.order);
    CongMul(p, q, a, a, cs.order);
    BaseRespectsCong(cs, p * a, q * a);
  }

  // ----- all dealers -----

  // Coefficient-wise sum of two polynomials of any lengths.
  function AddPoly(f: seq<int>, g: seq<int>): (r: seq<int>)
    ensures |r| == if |f| >= |g| then |f| else |g|
  {
    if f == [] then g else if g == [] then f else [f[0] + g[0]] + AddPoly(f[1..], g[1..])
  }

  lemma {:induction false} EvalAddPoly(f: seq<int>, g: seq<int>, x: int)
    ensures Eval(AddPoly(f, g), x) == Eval(f, x) + Eval(g, x)
  {
    if f != [] && g != [] {
      EvalAddPoly(f[1..], g[1..], x);
      assert AddPoly(f, g)[1..] == AddPoly(f[1..], g[1..]);
      Distribute(x, Eval(f[1..], x), Eval(g[1..], x));
    }
  }

  // The group polynomial: the sum of all dealers' polynomials.
  function SumPoly(fs: seq<seq<int>>): seq<int> {
    if fs == [] then [] else AddPoly(SumPoly(fs[..|fs| - 1]), fs[|fs| - 1])
  }

  lemma SumPolyStep(fs: seq<seq<int>>, d: nat, x: int)
    requires d < |fs|
    ensures Eval(SumPoly(fs[..d + 1]), x) == Eval(SumPoly(fs[..d]), x) + Eval(fs[d], x)
  {
    hide Eval;
    assert fs[..d + 1][..d] == fs[..d];
    EvalAddPoly(SumPoly(fs[..d]), fs[d], x);
  }

  method AggregatePublicShareAt<G(!new)>(cs: Ciphersuite<G>, i: int, dealers: seq<seq<G>>,
                                         ghost fs: seq<seq<int>>) returns (share: G)
    requires Lawful(cs) && |dealers| == |fs| && forall d :: 0 <= d < |fs| ==> dealers[d] == Feldman(cs, fs[d])
    ensures share == cs.Base(Eval(SumPoly(fs), i))
  {
    EmptyStart(cs, [], i);
    assert SumPoly(fs[..0]) == [];
    hide IsAbelian, IsLinear, IsPrime, Feldman, Eval, Cong, SumPoly;
    var acc := cs.identity;
    for d := 0 to |dealers|
      invariant acc == cs.Base(Eval(SumPoly(fs[..d]), i))
    {
      var one := PublicShareAt(cs, i, dealers[d], fs[d]);
      SumPolyStep(fs, d, i);
      BaseAdds(cs, Eval(SumPoly(fs[..d]), i), Eval(fs[d], i));
      acc := cs.Add(acc, one);
    }
    assert fs[..|fs|] == fs;
    share := acc;
  }

  // A signer whose secret share is its point on the dealers' summed polynomial passes the check,
  // over the list it signed, against the public share anyone computes from the dealers' commitments.
  method CheckHonestSigner<G(==,!new)>(cs: Ciphersuite<G>, k: nat, n: Nonces, secret: int, gpk: G, msg: Msg,
                                       commitments: seq<Commitment<G>>, dealers: seq<seq<G>>, ghost fs: seq<seq<int>>)
      returns (verdict: Result<bool, FrostError>)
    requires Lawful(cs) && |dealers| == |fs| && forall d :: 0 <= d < |fs| ==> dealers[d] == Feldman(cs, fs[d])
    requires k < |commitments| && DistinctMod(Ids(commitments), cs.order)
    requires commitments[k] == Commit(cs, commitments[k].id, n)
    requires Cong(secret, Eval(SumPoly(fs), commitments[k].id), cs.order)
    ensures verdict == Ok(true)
  {
    hide Cong, IsAbelian, IsLinear, IsPrime, Feldman, DistinctMod, SignShare, ShareCheck;
    PrimeIsPositive(cs.order);
    var id := commitments[k].id;
    var z := SignShareUnchecked(cs, id, n, secret, gpk, msg, commitments);
    HonestShareChecks(cs, k, n, secret, gpk, msg, commitments);
    var publicShare := AggregatePublicShareAt(cs, id, dealers, fs);
    BaseRespectsCong(cs, secret, Eval(SumPoly(fs), id));
    verdict := VerifySignatureShare(cs, id, z.value, publicShare, gpk, msg, commitments);
  }
}
