/** The group and hash interface the threshold-signing code is parameterised over, and its laws. */
module Ciphersuites {
  import opened Modular

  type Msg = seq<nat>

  datatype Commitment<+G> = Commitment(id: int, D: G, E: G)

  datatype Ciphersuite<!G> = Ciphersuite(
    generator: G, identity: G, order: int,
    add: (G, G) -> G,
    scalarMul: (int, G) -> G,
    bindingFactor: (G, Msg, seq<Commitment<G>>, int) -> int,
    challenge: (G, G, Msg) -> int)
  {
    function Add(p: G, q: G): G { add(p, q) }
    function Mul(k: int, p: G): G { scalarMul(k, p) }
    function Base(k: int): G { Mul(k, generator) }
    function BindingFactor(gpk: G, msg: Msg, sorted: seq<Commitment<G>>, id: int): int { bindingFactor(gpk, msg,
                           sorted, id) }
    function Challenge(R: G, gpk: G, msg: Msg): int { challenge(R, gpk, msg) }
  }

  // An abelian group whose generator has prime order; scalars act linearly on the generator's multiples.
  // Nothing is assumed about scalar multiples of other points, such as a stranger's nonce commitments.
  ghost predicate Lawful<G(!new)>(cs: Ciphersuite<G>) {
    IsPrime(cs.order) && IsAbelian(cs) && IsLinear(cs)
  }

  ghost predicate IsAbelian<G(!new)>(cs: Ciphersuite<G>) {
    && (forall p: G, q: G :: cs.Add(p, q) == cs.Add(q, p))
    && (forall p: G, q: G, r: G :: cs.Add(cs.Add(p, q), r) == cs.Add(p, cs.Add(q, r)))
    && (forall p: G :: cs.Add(p, cs.identity) == p)
  }

  ghost predicate IsLinear<G(!new)>(cs: Ciphersuite<G>) {
    && (forall a: int, b: int :: cs.Add(cs.Base(a), cs.Base(b)) == cs.Base(a + b))
    && (forall a: int, b: int :: cs.Mul(a, cs.Base(b)) == cs.Base(a * b))
    && cs.Base(cs.order) == cs.identity && cs.Base(0) == cs.identity
  }

  // For every prime there is a group that satisfies the laws, so no theorem that assumes them is vacuous,
  // however many signers it speaks of. Its elements are all integers a + p * b, read as pairs of a residue a
  // modulo p and an integer b, and added as such pairs.
  function AddPairs(p: int, x: int, y: int): int
    requires p > 0
  {
    Residue(p, Residue(p, x) + Residue(p, y)) + p * (Quotient(p, x) + Quotient(p, y))
  }

  function Residue(p: int, x: int): int
    requires p > 0
  {
    x % p
  }

  function Quotient(p: int, x: int): int
    requires p > 0
  {
    x / p
  }

  function MulResidue(p: int, k: int, x: int): int
    requires p > 0
  {
    k * x % p
  }

  function Residues(p: int): Ciphersuite<int>
    requires p > 1
  {
    Ciphersuite(1, 0, p, (x, y) => AddPairs(p, x, y), (k, x) => MulResidue(p, k, x),
                (gpk, msg, sorted, id) => OwnId(id), (R, gpk, msg) => One())
  }

  function OwnId(id: int): int { id }
  function One(): int { 1 }

  lemma PairParts(p: int, r: int, q: int)
    requires p > 0 && 0 <= r < p
    ensures (r + p * q) % p == r && (r + p * q) / p == q
  {
    ModUnique(r + p * q, q, r, p);
    var d := (r + p * q) / p - q;
    assert p * d == 0 by { DivLaw(r + p * q, p); Expands(p, (r + p * q) / p, q); }
    MulBounds(d, p);
  }

  lemma DivLaw(x: int, p: int)
    requires p > 0
    ensures x == p * (x / p) + x % p
  {
  }

  lemma Expands(p: int, a: int, b: int)
    ensures p * (a - b) == p * a - p * b
  {
  }

  lemma PairsAssociate(p: int, x: int, y: int, z: int)
    requires p > 0
    ensures AddPairs(p, AddPairs(p, x, y), z) == AddPairs(p, x, AddPairs(p, y, z))
  {
    hide AddPairs, Residue, Quotient;
    PairsAdd(p, x, y);
    PairsAdd(p, y, z);
    PairsAdd(p, AddPairs(p, x, y), z);
    PairsAdd(p, x, AddPairs(p, y, z));
    ResiduesAssociate(p, Residue(p, x), Residue(p, y), Residue(p, z));
    SamePair(p, AddPairs(p, AddPairs(p, x, y), z), AddPairs(p, x, AddPairs(p, y, z)));
  }

  lemma SamePair(p: int, s: int, t: int)
    requires p > 0 && Residue(p, s) == Residue(p, t) && Quotient(p, s) == Quotient(p, t)
    ensures s == t
  {
    DivLaw(s, p);
    DivLaw(t, p);
  }

  lemma PairsAdd(p: int, x: int, y: int)
    requires p > 0
    ensures var s := AddPairs(p, x, y);
      && Residue(p, s) == Residue(p, Residue(p, x) + Residue(p, y))
      && Quotient(p, s) == Quotient(p, x) + Quotient(p, y)
  {
    PairParts(p, (x % p + y % p) % p, x / p + y / p);
  }

  lemma ResiduesAssociate(p: int, a: int, b: int, c: int)
    requires p > 0
    ensures Residue(p, Residue(p, a + b) + c) == Residue(p, a + Residue(p, b + c))
  {
    hide Cong;
    CongMod(a + b, p);
    CongMod(b + c, p);
    CongRefl(c, p);
    CongRefl(a, p);
    CongAdd(Mod(a + b, p), a + b, c, c, p);
    CongAdd(a, a, Mod(b + c, p), b + c, p);
    CongSym(a + Mod(b + c, p), a + (b + c), p);
    CongTrans(Mod(a + b, p) + c, a + b + c, a + Mod(b + c, p), p);
    CongIs(Mod(a + b, p) + c, a + Mod(b + c, p), p);
  }

  lemma CongIs(a: int, b: int, m: int)
    requires m > 0 && Cong(a, b, m)
    ensures a % m == b % m
  {
  }

  lemma ZeroIsNeutral(p: int, x: int)
    requires p > 1
    ensures AddPairs(p, x, 0) == x
  {
    DivLaw(x, p);
    ModUnique(x % p, 0, x % p, p);
  }

  lemma ResiduesAreLinear(p: int, a: int, b: int)
    requires p > 1
    ensures AddPairs(p, a % p, b % p) == (a + b) % p
    ensures MulResidue(p, a, b % p) == a * b % p
  {
    PairParts(p, a % p, 0);
    PairParts(p, b % p, 0);
    CongMod(a, p);
    CongMod(b, p);
    CongRefl(a, p);
    CongAdd(a % p, a, b % p, b, p);
    CongMul(a, a, b % p, b, p);
  }

  lemma LawfulSuiteExists(p: int)
    requires IsPrime(p)
    ensures Lawful(Residues(p)) && Residues(p).order == p
  {
    hide MulResidue, AddPairs;
    var cs := Residues(p);
    forall x: int, y: int ensures cs.Add(x, y) == cs.Add(y, x) { PairsCommute(p, x, y); }
    forall x: int, y: int, z: int ensures cs.Add(cs.Add(x, y), z) == cs.Add(x, cs.Add(y, z)) { PairsAssociate(p, x, y, z); }
    forall x: int ensures cs.Add(x, cs.identity) == x { ZeroIsNeutral(p, x); }
    forall k ensures cs.Base(k) == k % p { BaseIsResidue(p, k); }
    forall a: int, b: int ensures cs.Add(cs.Base(a), cs.Base(b)) == cs.Base(a + b) && cs.Mul(a, cs.Base(b)) == cs.Base(a * b) {
      ResiduesAreLinear(p, a, b);
    }
    ModUnique(p, 1, 0, p);
  }

  lemma PairsCommute(p: int, x: int, y: int)
    requires p > 0
    ensures AddPairs(p, x, y) == AddPairs(p, y, x)
  {
  }

  lemma BaseIsResidue(p: int, k: int)
    requires p > 0
    ensures MulResidue(p, k, 1) == k % p
  {
  }

  // ----- the laws, one at a time -----

  lemma AddCommutes<G(!new)>(cs: Ciphersuite<G>, p: G, q: G)
    requires IsAbelian(cs)
    ensures cs.Add(p, q) == cs.Add(q, p)
  {
  }

  lemma AddAssociates<G(!new)>(cs: Ciphersuite<G>, p: G, q: G, r: G)
    requires IsAbelian(cs)
    ensures cs.Add(cs.Add(p, q), r) == cs.Add(p, cs.Add(q, r))
  {
  }

  lemma AddIdentity<G(!new)>(cs: Ciphersuite<G>, p: G)
    requires IsAbelian(cs)
    ensures cs.Add(p, cs.identity) == p && cs.Add(cs.identity, p) == p
  {
  }

  lemma BaseAdds<G(!new)>(cs: Ciphersuite<G>, a: int, b: int)
    requires IsLinear(cs)
    ensures cs.Add(cs.Base(a), cs.Base(b)) == cs.Base(a + b)
  {
  }

  lemma BaseNests<G(!new)>(cs: Ciphersuite<G>, a: int, b: int)
    requires IsLinear(cs)
    ensures cs.Mul(a, cs.Base(b)) == cs.Base(a * b)
  {
  }

  lemma AddShuffle<G(!new)>(cs: Ciphersuite<G>, a: G, b: G, c: G, d: G)
    requires IsAbelian(cs)
    ensures cs.Add(cs.Add(a, b), cs.Add(c, d)) == cs.Add(cs.Add(a, c), cs.Add(b, d))
  {
    hide IsAbelian;
    AddAssociates(cs, a, b, cs.Add(c, d));
    AddAssociates(cs, b, c, d);
    AddCommutes(cs, b, c);
    AddAssociates(cs, c, b, d);
    AddAssociates(cs, a, c, cs.Add(b, d));
  }

  // Multiples of the generator depend on the scalar only modulo the order.
  lemma BaseRespectsCong<G(!new)>(cs: Ciphersuite<G>, a: int, b: int)
    requires Lawful(cs) && Cong(a, b, cs.order)
    ensures cs.Base(a) == cs.Base(b)
  {
    hide Cong, IsAbelian;
    var k := CongDiff(a, b, cs.order);
    BaseAdds(cs, b, k * cs.order);
    BaseNests(cs, k, cs.order);
    BaseNests(cs, k, 0);
    MulZero(k);
    AddIdentity(cs, cs.Base(b));
  }

  lemma MulZero(k: int)
    ensures k * 0 == 0
  {
  }
}
