/** Lagrange interpolation at zero modulo a prime: the coefficient loop, and the theorem that the weighted
    shares of any low-degree polynomial sum to its constant term. */
module Lagrange {
  import opened Outcomes
  import opened Modular

  // ----- polynomials over the integers, constant term first -----

  function Eval(c: seq<int>, x: int): int {
    if c == [] then 0 else c[0] + x * Eval(c[1..], x)
  }

  // Synthetic division by (x - a).
  function Quotient(c: seq<int>, a: int): (q: seq<int>)
    ensures |q| == if |c| == 0 then 0 else |c| - 1
  {
    if |c| <= 1 then [] else [Eval(c[1..], a)] + Quotient(c[1..], a)
  }

  lemma {:induction false} Divide(c: seq<int>, a: int, x: int)
    ensures Eval(c, x) == Eval(c, a) + (x - a) * Eval(Quotient(c, a), x)
  {
    hide Eval;
    if |c| <= 1 {
      ShortQuotient(c, a, x);
    } else {
      var d := c[1..];
      Divide(d, a, x);
      EvalStep(c, x);
      EvalStep(c, a);
      QuotientTail(c, a, x);
      DivideAlgebra(x, a, Eval(d, a), Eval(Quotient(d, a), x));
    }
  }

  lemma EvalStep(c: seq<int>, x: int)
    requires c != []
    ensures Eval(c, x) == c[0] + x * Eval(c[1..], x)
  {
  }

  lemma ShortQuotient(c: seq<int>, a: int, x: int)
    requires |c| <= 1
    ensures Eval(c, x) == Eval(c, a) && (x - a) * Eval(Quotient(c, a), x) == 0
  {
    assert Quotient(c, a) == [];
    assert (x - a) * 0 == 0 && x * 0 == 0 == a * 0;
    if |c| == 1 {
      assert c[1..] == [];
    }
  }

  lemma DivideAlgebra(x: int, a: int, p: int, q: int)
    ensures x * (p + (x - a) * q) == a * p + (x - a) * (p + x * q)
  {
  }

  lemma QuotientTail(c: seq<int>, a: int, x: int)
    requires |c| > 1
    ensures Eval(Quotient(c, a), x) == Eval(c[1..], a) + x * Eval(Quotient(c[1..], a), x)
  {
    assert Quotient(c, a)[1..] == Quotient(c[1..], a);
  }

  // ----- numerators and denominators -----

  // The product of the other ids, and of their differences with this one.
  function Num(id: int, ids: seq<int>): int {
    if ids == [] then 1 else (if ids[0] == id then 1 else ids[0]) * Num(id, ids[1..])
  }

  function Den(id: int, ids: seq<int>): int {
    if ids == [] then 1 else (if ids[0] == id then 1 else ids[0] - id) * Den(id, ids[1..])
  }

  lemma {:induction false} NumSnoc(id: int, ids: seq<int>, j: int)
    ensures Num(id, ids + [j]) == Num(id, ids) * (if j == id then 1 else j)
    ensures Den(id, ids + [j]) == Den(id, ids) * (if j == id then 1 else j - id)
  {
    if ids == [] {
      assert [j][1..] == [];
    } else {
      NumSnoc(id, ids[1..], j);
      assert (ids + [j])[1..] == ids[1..] + [j];
      var f, g := if ids[0] == id then 1 else ids[0], if j == id then 1 else j;
      MulAssoc(f, Num(id, ids[1..]), g);
      var d, e := if ids[0] == id then 1 else ids[0] - id, if j == id then 1 else j - id;
      MulAssoc(d, Den(id, ids[1..]), e);
    }
  }

  lemma MulAssoc(a: int, b: int, c: int)
    ensures a * (b * c) == a * b * c
  {
  }

  // The coefficient of one id: num / den modulo m, when den has an inverse.
  ghost function Coefficient(id: int, ids: seq<int>, m: int): (r: Option<int>)
    requires m > 0
  {
    match Inverse(Den(id, ids), m)
    case None => None
    case Some(inv) => Some((Num(id, ids) * inv) % m)
  }

  // The source's loop: both products reduced at every step, then one modular inverse.
  method LagrangeCoefficient(id: int, signerSet: seq<int>, m: int) returns (r: Option<int>)
    requires m > 0
    ensures r == Coefficient(id, signerSet, m)
  {
    hide Cong, Inverse;
    var num, den := 1, 1;
    CongRefl(1, m);
    for i := 0 to |signerSet|
      invariant Cong(num, Num(id, signerSet[..i]), m) && Cong(den, Den(id, signerSet[..i]), m)
    {
      var j := signerSet[i];
      assert signerSet[..i + 1] == signerSet[..i] + [j];
      NumSnoc(id, signerSet[..i], j);
      if j != id {
        ProductStep(num, Num(id, signerSet[..i]), j, m);
        ProductStep(den, Den(id, signerSet[..i]), j - id, m);
        num := Mod(num * Mod(j, m), m);
        den := Mod(den * Mod(j - id, m), m);
      }
    }
    assert signerSet[..|signerSet|] == signerSet;
    var inv := ModInverse(den, m);
    SameInverse(den, Den(id, signerSet), m);
    if inv.None? {
      return None;
    }
    CongScale(inv.value, num, Num(id, signerSet), m);
    SameResidue(num * inv.value, Num(id, signerSet) * inv.value, m);
    r := Some(Mod(num * inv.value, m));
  }

  lemma ProductStep(acc: int, exact: int, j: int, m: int)
    requires m > 0 && Cong(acc, exact, m)
    ensures Cong(Mod(acc * Mod(j, m), m), exact * j, m)
  {
    CongMod(j, m);
    CongMul(acc, exact, Mod(j, m), j, m);
    CongMod(acc * Mod(j, m), m);
  }

  lemma SameResidue(a: int, b: int, m: int)
    requires m > 0 && Cong(a, b, m)
    ensures Mod(a, m) == b % m
  {
  }

  lemma SameInverse(x: int, y: int, m: int)
    requires m > 0 && Cong(x, y, m)
    ensures Inverse(x, m) == Inverse(y, m)
  {
    hide Cong;
    CongSym(x, y, m);
    if Invertible(x, m) {
      InvertibleRespectsCong(x, y, m);
      var v := Inverse(x, m).value;
      CongRefl(v, m);
      CongMul(x, y, v, v, m);
      CongSym(x * v, y * v, m);
      CongTrans(y * v, x * v, 1, m);
      InverseUnique(y, v, Inverse(y, m).value, m);
    } else if Invertible(y, m) {
      InvertibleRespectsCong(y, x, m);
    }
  }

  // ----- interpolation -----

  ghost predicate DistinctMod(ids: seq<int>, m: int)
    requires m > 0
  {
    forall i, j :: 0 <= i < j < |ids| ==> ids[i] % m != ids[j] % m
  }

  // The coefficient as a number; 0 when there is none.
  ghost function Lam(id: int, ids: seq<int>, m: int): int
    requires m > 0
  {
    var r := Coefficient(id, ids, m); if r.Some? then r.value else 0
  }

  // Sum over `part` of the coefficient (with respect to `ids`) times a polynomial's value.
  ghost function Weighted(part: seq<int>, ids: seq<int>, c: seq<int>, m: int): int
    requires m > 0
  {
    if part == [] then 0
    else Lam(part[0], ids, m) * Eval(c, part[0]) + Weighted(part[1..], ids, c, m)
  }

  lemma DifferenceInverts(x: int, y: int, m: int)
    requires IsPrime(m) && x % m != y % m
    ensures Invertible(x - y, m)
  {
    if (x - y) % m == 0 {
      CongOf(x, y, (x - y) / m, m);
    }
    PrimeInverts(x - y, m);
  }

  lemma {:induction false} DenInverts(id: int, ids: seq<int>, m: int)
    requires IsPrime(m) && forall j :: 0 <= j < |ids| ==> ids[j] == id || ids[j] % m != id % m
    ensures Invertible(Den(id, ids), m)
  {
    hide Cong, Invertible;
    if ids == [] {
      OneInverts(m);
    } else {
      DenInverts(id, ids[1..], m);
      if ids[0] == id { OneInverts(m); } else { DifferenceInverts(ids[0], id, m); }
      InvertibleProduct(if ids[0] == id then 1 else ids[0] - id, Den(id, ids[1..]), m);
    }
  }

  lemma OneInverts(m: int)
    requires m > 0
    ensures Invertible(1, m)
  {
    CongRefl(1, m);
    assert Cong(1 * 1, 1, m);
  }

  // Den times the coefficient is Num.
  lemma LamSolves(id: int, ids: seq<int>, m: int)
    requires m > 0 && Invertible(Den(id, ids), m)
    ensures Cong(Den(id, ids) * Lam(id, ids, m), Num(id, ids), m)
  {
    hide Cong;
    var d, n := Den(id, ids), Num(id, ids);
    var inv := Inverse(d, m).value;
    CongMod(n * inv, m);
    CongScale(d, (n * inv) % m, n * inv, m);
    CongScale(n, d * inv, 1, m);
    assert d * (n * inv) == n * (d * inv);
    CongTrans(d * Lam(id, ids, m), n * (d * inv), n, m);
  }

  // Removing node a: the coefficient of any other node changes by the factor a / (a - i).
  lemma RemoveNode(i: int, a: int, t: seq<int>, m: int)
    requires IsPrime(m) && a % m != i % m
    requires forall j :: 0 <= j < |t| ==> t[j] == i || t[j] % m != i % m
    ensures Cong(Lam(i, [a] + t, m) * (i - a), -a * Lam(i, t, m), m)
  {
    hide Cong, Invertible, Lam;
    var s := [a] + t;
    assert s[1..] == t;
    DenInverts(i, t, m);
    DenInverts(i, s, m);
    LamSolves(i, t, m);
    LamSolves(i, s, m);
    RemoveAlgebra(Den(i, t), Lam(i, s, m), Lam(i, t, m), Num(i, t), a, i, m);
  }

  lemma RemoveAlgebra(d: int, big: int, small: int, n: int, a: int, i: int, m: int)
    requires m > 0 && Invertible(d, m)
    requires Cong((a - i) * d * big, a * n, m) && Cong(d * small, n, m)
    ensures Cong(big * (i - a), -a * small, m)
  {
    hide Cong, Invertible;
    CongScale(-1, (a - i) * d * big, a * n, m);
    CongScale(-a, d * small, n, m);
    CongSym(-a * (d * small), -a * n, m);
    assert -1 * ((a - i) * d * big) == d * (big * (i - a));
    assert -1 * (a * n) == -a * n;
    assert -a * (d * small) == d * (-a * small);
    CongTrans(d * (big * (i - a)), -a * n, d * (-a * small), m);
    CongCancel(d, big * (i - a), -a * small, m);
  }

  // The same sum with every value multiplied by the distance of its id from a.
  ghost function Shifted(part: seq<int>, ids: seq<int>, a: int, c: seq<int>, m: int): int
    requires m > 0
  {
    if part == [] then 0
    else Lam(part[0], ids, m) * ((part[0] - a) * Eval(c, part[0])) + Shifted(part[1..], ids, a, c, m)
  }

  lemma {:induction false} DivideInSum(part: seq<int>, ids: seq<int>, a: int, c: seq<int>, m: int)
    requires m > 0
    ensures Weighted(part, ids, c, m)
            == Eval(c, a) * Weighted(part, ids, [1], m) + Shifted(part, ids, a, Quotient(c, a), m)
  {
    if part == [] {
      assert Eval(c, a) * 0 == 0;
    } else {
      DivideInSum(part[1..], ids, a, c, m);
      var x, l := part[0], Lam(part[0], ids, m);
      Divide(c, a, x);
      ConstantOne(x);
      DivideTerm(l, Eval(c, a), (x - a) * Eval(Quotient(c, a), x), Weighted(part[1..], ids, [1], m));
    }
  }

  lemma ConstantOne(x: int)
    ensures Eval([1], x) == 1
  {
    assert x * Eval([], x) == 0;
  }

  lemma DivideTerm(l: int, p: int, q: int, w: int)
    ensures l * (p + q) + p * w == p * (l * 1 + w) + l * q
  {
  }

  lemma {:induction false} ShiftRemovesNode(part: seq<int>, a: int, t: seq<int>, c: seq<int>, m: int)
    requires IsPrime(m) && DistinctMod([a] + t, m) && forall i :: 0 <= i < |part| ==> part[i] in t
    ensures Cong(Shifted(part, [a] + t, a, c, m), -a * Weighted(part, t, c, m), m)
  {
    hide Cong, Lam, Eval;
    if part == [] {
      assert -a * 0 == 0;
      CongRefl(0, m);
    } else {
      var i, v := part[0], Eval(c, part[0]);
      ShiftRemovesNode(part[1..], a, t, c, m);
      OthersDiffer(a, t, i, m);
      RemoveNode(i, a, t, m);
      var big, small := Lam(i, [a] + t, m), Lam(i, t, m);
      ShiftOneTerm(big, small, i, v, a, Shifted(part[1..], [a] + t, a, c, m), Weighted(part[1..], t, c, m), m);
    }
  }

  lemma ShiftOneTerm(big: int, small: int, i: int, v: int, a: int, shifted: int, weighted: int, m: int)
    requires m > 0 && Cong(big * (i - a), -a * small, m) && Cong(shifted, -a * weighted, m)
    ensures Cong(big * ((i - a) * v) + shifted, -a * (small * v + weighted), m)
  {
    hide Cong;
    CongRefl(v, m);
    CongMul(big * (i - a), -a * small, v, v, m);
    CongAdd(big * (i - a) * v, -a * small * v, shifted, -a * weighted, m);
    ShiftTerm(big, i - a, v, a, small, weighted);
  }

  lemma ShiftTerm(big: int, d: int, v: int, a: int, small: int, w: int)
    ensures big * d * v == big * (d * v)
    ensures -a * small * v + -a * w == -a * (small * v + w)
  {
  }

  lemma OthersDiffer(a: int, t: seq<int>, i: int, m: int)
    requires m > 0 && DistinctMod([a] + t, m) && i in t
    ensures a % m != i % m
    ensures forall j :: 0 <= j < |t| ==> t[j] == i || t[j] % m != i % m
  {
    var s := [a] + t;
    var k :| 0 <= k < |t| && t[k] == i;
    assert s[0] % m != s[k + 1] % m;
    forall j | 0 <= j < |t| ensures t[j] == i || t[j] % m != i % m {
      if j < k { assert s[j + 1] % m != s[k + 1] % m; }
      if k < j { assert s[k + 1] % m != s[j + 1] % m; }
    }
  }

  // Splitting off the first node a of the whole set.
  lemma SplitNode(a: int, t: seq<int>, c: seq<int>, m: int)
    requires IsPrime(m) && DistinctMod([a] + t, m)
    ensures var s := [a] + t;
            Cong(Weighted(s, s, c, m),
                 Eval(c, a) * Weighted(s, s, [1], m) + -a * Weighted(t, t, Quotient(c, a), m), m)
  {
    hide Cong, Lam, Eval, Quotient;
    var s, q := [a] + t, Quotient(c, a);
    assert s[1..] == t;
    DivideInSum(s, s, a, c, m);
    assert Lam(a, s, m) * ((a - a) * Eval(q, a)) == 0;
    ShiftRemovesNode(t, a, t, q, m);
    var one := Eval(c, a) * Weighted(s, s, [1], m);
    CongRefl(one, m);
    CongAdd(one, one, Shifted(t, s, a, q, m), -a * Weighted(t, t, q, m), m);
  }

  lemma {:induction false} SameCoefficients(part: seq<int>, s: seq<int>, s': seq<int>, c: seq<int>, m: int)
    requires m > 0 && forall i :: Num(i, s) == Num(i, s') && Den(i, s) == Den(i, s')
    ensures Weighted(part, s, c, m) == Weighted(part, s', c, m)
  {
    if part != [] {
      SameCoefficients(part[1..], s, s', c, m);
      assert Num(part[0], s) == Num(part[0], s') && Den(part[0], s) == Den(part[0], s');
    }
  }

  lemma SwapProducts(a: int, b: int, u: seq<int>, i: int)
    ensures Num(i, [a, b] + u) == Num(i, [b, a] + u) && Den(i, [a, b] + u) == Den(i, [b, a] + u)
  {
    assert ([a, b] + u)[1..] == [b] + u && ([b, a] + u)[1..] == [a] + u;
    assert ([b] + u)[1..] == u && ([a] + u)[1..] == u;
    var fa, fb, n := if a == i then 1 else a, if b == i then 1 else b, Num(i, u);
    MulSwap(fa, fb, n);
    var da, db, d := if a == i then 1 else a - i, if b == i then 1 else b - i, Den(i, u);
    MulSwap(da, db, d);
  }

  lemma MulSwap(a: int, b: int, c: int)
    ensures a * (b * c) == b * (a * c)
  {
  }

  // The order of the first two nodes does not matter.
  lemma SwapFirstTwo(a: int, b: int, u: seq<int>, c: seq<int>, m: int)
    requires m > 0
    ensures var s, s' := [a, b] + u, [b, a] + u; Weighted(s, s, c, m) == Weighted(s', s', c, m)
  {
    hide Lam, Eval;
    var s, s' := [a, b] + u, [b, a] + u;
    forall i ensures Num(i, s) == Num(i, s') && Den(i, s) == Den(i, s') {
      SwapProducts(a, b, u, i);
    }
    SameCoefficients(s, s, s', c, m);
    assert s[1..] == [b] + u && s'[1..] == [a] + u && ([b] + u)[1..] == u && ([a] + u)[1..] == u;
  }

  // The coefficients of two or more nodes sum to 1.
  lemma WeightsSumToOne(a: int, b: int, u: seq<int>, m: int)
    requires IsPrime(m) && DistinctMod([a, b] + u, m)
    requires Cong(Weighted([a] + u, [a] + u, [1], m), 1, m) && Cong(Weighted([b] + u, [b] + u, [1], m), 1, m)
    ensures var s := [a, b] + u; Cong(Weighted(s, s, [1], m), 1, m)
  {
    hide Cong, Weighted, Invertible;
    var s, s' := [a, b] + u, [b, a] + u;
    var x, one := Weighted(s, s, [0, 1], m), Weighted(s, s, [1], m);
    assert s == [a] + ([b] + u) && s' == [b] + ([a] + u);
    forall i, j | 0 <= i < j < |s'| ensures s'[i] % m != s'[j] % m {
      assert s[0] % m != s[1] % m;
      assert i >= 2 ==> s[i] % m != s[j] % m;
      assert i == 0 && j >= 2 ==> s[1] % m != s[j] % m;
      assert i == 1 && j >= 2 ==> s[0] % m != s[j] % m;
    }
    MomentOfNode(a, [b] + u, m);
    MomentOfNode(b, [a] + u, m);
    SwapFirstTwo(a, b, u, [0, 1], m);
    SwapFirstTwo(a, b, u, [1], m);
    CongScale(-1, x, b * one + -b, m);
    CongAdd(x, a * one + -a, -1 * x, -1 * (b * one + -b), m);
    MomentAlgebra(a, b, one, x);
    assert s[0] % m != s[1] % m;
    DifferenceInverts(a, b, m);
    CongShift((a - b) * one, (a - b) * 1, m);
    CongCancel(a - b, one, 1, m);
  }

  lemma CongShift(p: int, q: int, m: int)
    requires m > 0 && Cong(0, p - q, m)
    ensures Cong(p, q, m)
  {
    CongRefl(q, m);
    CongAdd(0, p - q, q, q, m);
    CongSym(q, p, m);
  }

  lemma MomentAlgebra(a: int, b: int, one: int, x: int)
    ensures x + -1 * x == 0
    ensures a * one + -a + -1 * (b * one + -b) == (a - b) * one - (a - b) * 1
  {
  }

  // The first moment, split at node a, when the other nodes' coefficients sum to 1.
  lemma MomentOfNode(a: int, t: seq<int>, m: int)
    requires IsPrime(m) && DistinctMod([a] + t, m) && Cong(Weighted(t, t, [1], m), 1, m)
    ensures var s := [a] + t;
            Cong(Weighted(s, s, [0, 1], m), a * Weighted(s, s, [1], m) + -a, m)
  {
    hide Cong, Weighted;
    var s := [a] + t;
    SplitNode(a, t, [0, 1], m);
    IdentityPolynomial(a);
    CongScale(-a, Weighted(t, t, [1], m), 1, m);
    var p := a * Weighted(s, s, [1], m);
    CongRefl(p, m);
    CongAdd(p, p, -a * Weighted(t, t, [1], m), -a * 1, m);
    CongTrans(Weighted(s, s, [0, 1], m), p + -a * Weighted(t, t, [1], m), p + -a * 1, m);
  }

  lemma IdentityPolynomial(a: int)
    ensures Eval([0, 1], a) == a && Quotient([0, 1], a) == [1]
  {
    assert [0, 1][1..] == [1];
    ConstantOne(a);
    assert a * 1 == a;
    assert Quotient([1], a) == [];
  }

  lemma SingleNode(a: int, c: seq<int>, m: int)
    requires IsPrime(m) && |c| <= 1
    ensures Cong(Weighted([a], [a], c, m), Eval(c, 0), m)
  {
    hide Cong, Lam;
    assert [a][1..] == [];
    DenInverts(a, [a], m);
    LamSolves(a, [a], m);
    var l := Lam(a, [a], m);
    ConstantPolynomial(c, a);
    CongScale(Eval(c, 0), l, 1, m);
  }

  lemma ConstantPolynomial(c: seq<int>, a: int)
    requires |c| <= 1
    ensures Eval(c, a) == Eval(c, 0)
  {
    if |c| == 1 {
      assert a * Eval(c[1..], a) == 0;
    }
  }

  // Interpolation at zero: for ids distinct modulo a prime and any polynomial with at most as many
  // coefficients as ids, the weighted values sum to the constant term.
  lemma {:induction false} Interpolates(ids: seq<int>, c: seq<int>, m: int)
    requires IsPrime(m) && ids != [] && DistinctMod(ids, m) && |c| <= |ids|
    ensures Cong(Weighted(ids, ids, c, m), Eval(c, 0), m)
    decreases |ids|
  {
    hide Cong, Weighted;
    var a, t := ids[0], ids[1..];
    assert ids == [a] + t;
    if t == [] {
      assert ids == [a];
      SingleNode(a, c, m);
    } else {
      var b, u := t[0], t[1..];
      assert ids == [a, b] + u && t == [b] + u;
      TailDistinct(ids, m);
      SecondRemovedDistinct(a, b, u, m);
      ConstantOne(0);
      Interpolates(t, [1], m);
      Interpolates([a] + u, [1], m);
      WeightsSumToOne(a, b, u, m);
      Interpolates(t, Quotient(c, a), m);
      InterpolationStep(a, t, c, m);
    }
  }

  lemma InterpolationStep(a: int, t: seq<int>, c: seq<int>, m: int)
    requires IsPrime(m) && DistinctMod([a] + t, m)
    requires Cong(Weighted([a] + t, [a] + t, [1], m), 1, m)
    requires Cong(Weighted(t, t, Quotient(c, a), m), Eval(Quotient(c, a), 0), m)
    ensures Cong(Weighted([a] + t, [a] + t, c, m), Eval(c, 0), m)
  {
    hide Cong, Weighted, Eval, Quotient, DistinctMod;
    var s, q, p := [a] + t, Quotient(c, a), Eval(c, a);
    SplitNode(a, t, c, m);
    var one, w := Weighted(s, s, [1], m), Weighted(t, t, q, m);
    CongScale(p, one, 1, m);
    CongScale(-a, w, Eval(q, 0), m);
    CongAdd(p * one, p * 1, -a * w, -a * Eval(q, 0), m);
    Divide(c, a, 0);
    StepAlgebra(p, a, Eval(q, 0));
    CongTrans(Weighted(s, s, c, m), p * one + -a * w, Eval(c, 0), m);
  }

  lemma StepAlgebra(p: int, a: int, v: int)
    ensures p * 1 + -a * v == p + (0 - a) * v
  {
  }

  lemma TailDistinct(ids: seq<int>, m: int)
    requires m > 0 && ids != [] && DistinctMod(ids, m)
    ensures DistinctMod(ids[1..], m)
  {
  }

  lemma SecondRemovedDistinct(a: int, b: int, u: seq<int>, m: int)
    requires m > 0 && DistinctMod([a, b] + u, m)
    ensures DistinctMod([a] + u, m)
  {
    var s, r := [a, b] + u, [a] + u;
    forall i, j | 0 <= i < j < |r| ensures r[i] % m != r[j] % m {
      assert s[if i == 0 then 0 else i + 1] % m != s[j + 1] % m;
    }
  }
}
