/** The commitment tree as a function of its leaves: adjacent nodes are paired level by level and an odd
    last node passes up unchanged. The on-chain frontier and both client trees are proved against this. */
module LeanImt {
  import opened Hashing

  const TREE_DEPTH: nat := 32
  const CAPACITY: nat := 0x1_0000_0000

  // `n >> k`
  function Shr(n: nat, k: nat): nat {
    if k == 0 then n else Shr(n, k - 1) / 2
  }

  function Pair(h: NodeHash, s: seq<Fr>, level: nat): (up: seq<Fr>)
    ensures |up| == (|s| + 1) / 2
  {
    seq((|s| + 1) / 2, j requires 0 <= j < (|s| + 1) / 2 =>
      if 2 * j + 1 < |s| then Node(h, s[2 * j], s[2 * j + 1], level) else s[2 * j])
  }

  function Level(h: NodeHash, leaves: seq<Fr>, k: nat): seq<Fr> {
    if k == 0 then leaves else Pair(h, Level(h, leaves, k - 1), k - 1)
  }

  // The root of a tree of the given depth; an empty tree has root 0.
  function RootAt(h: NodeHash, leaves: seq<Fr>, depth: nat): Fr {
    if leaves == [] || Level(h, leaves, depth) == [] then 0 else Level(h, leaves, depth)[0]
  }

  function Root(h: NodeHash, leaves: seq<Fr>): Fr {
    RootAt(h, leaves, TREE_DEPTH)
  }

  function SiblingIndex(i: nat): nat {
    if i % 2 == 0 then i + 1 else i - 1
  }

  function Sibling(s: seq<Fr>, i: nat): Fr {
    if SiblingIndex(i) < |s| then s[SiblingIndex(i)] else 0
  }

  ghost predicate NonZero(s: seq<Fr>) {
    forall i :: 0 <= i < |s| ==> s[i] != 0
  }

  // ----- shifting -----

  lemma {:induction false} ShrSucc(n: nat, k: nat)
    ensures Shr(n, k) <= Shr(n + 1, k) <= Shr(n, k) + 1
  {
    if k > 0 { ShrSucc(n, k - 1); }
  }

  lemma {:induction false} ShrZeroAbove(n: nat, k: nat, j: nat)
    requires k <= j && Shr(n, k) == 0
    ensures Shr(n, j) == 0
  {
    if k < j { ShrZeroAbove(n, k, j - 1); }
  }

  lemma {:induction false} ShrHalves(n: nat, k: nat)
    ensures Shr(n / 2, k) == Shr(n, k + 1)
  {
    if k > 0 { ShrHalves(n, k - 1); }
  }

  function Pow2(k: nat): (p: nat)
    ensures p > 0
  {
    if k == 0 then 1 else 2 * Pow2(k - 1)
  }

  lemma {:induction false} ShrZeroIff(n: nat, k: nat)
    ensures Shr(n, k) == 0 <==> n < Pow2(k)
  {
    if k > 0 {
      ShrHalves(n, k - 1);
      ShrZeroIff(n / 2, k - 1);
    }
  }

  lemma CapacityIs()
    ensures Pow2(TREE_DEPTH) == CAPACITY
  {
    assert Pow2(8) == 0x100;
    assert Pow2(16) == 0x1_0000;
    assert Pow2(24) == 0x100_0000;
  }

  // ----- shape of the levels -----

  lemma {:induction false} LevelWidth(h: NodeHash, leaves: seq<Fr>, k: nat)
    ensures leaves == [] ==> Level(h, leaves, k) == []
    ensures leaves != [] ==> |Level(h, leaves, k)| == Shr(|leaves| - 1, k) + 1
  {
    if k > 0 { LevelWidth(h, leaves, k - 1); }
  }

  lemma {:induction false} LevelNonZero(h: NodeHash, leaves: seq<Fr>, k: nat)
    requires NeverZero(h) && NonZero(leaves)
    ensures NonZero(Level(h, leaves, k))
  {
    if k > 0 { LevelNonZero(h, leaves, k - 1); }
  }

  // A tree within capacity has exactly one node at its top level.
  lemma TopIsSingle(h: NodeHash, leaves: seq<Fr>, depth: nat)
    requires 0 < |leaves| <= Pow2(depth)
    ensures Level(h, leaves, depth) == [RootAt(h, leaves, depth)]
  {
    hide Level, Shr, Pow2;
    LevelWidth(h, leaves, depth);
    ShrZeroIff(|leaves| - 1, depth);
  }

  // A level with one node stays that node all the way up.
  lemma {:induction false} SingletonRises(h: NodeHash, leaves: seq<Fr>, k: nat, j: nat)
    requires k <= j && |Level(h, leaves, k)| == 1
    ensures Level(h, leaves, j) == Level(h, leaves, k)
  {
    if k < j { SingletonRises(h, leaves, k, j - 1); }
  }

  // Appending a leaf leaves every completed node of every level as it was.
  lemma {:induction false} CompletedNodesStay(h: NodeHash, leaves: seq<Fr>, x: Fr, k: nat)
    ensures Shr(|leaves|, k) <= |Level(h, leaves, k)|
    ensures |Level(h, leaves + [x], k)| == Shr(|leaves|, k) + 1
    ensures forall j :: 0 <= j < Shr(|leaves|, k) ==> Level(h, leaves + [x], k)[j] == Level(h, leaves, k)[j]
  {
    LevelWidth(h, leaves + [x], k);
    if k > 0 {
      CompletedNodesStay(h, leaves, x, k - 1);
    }
  }

  lemma Bottom(h: NodeHash, leaves: seq<Fr>)
    ensures Level(h, leaves, 0) == leaves && Shr(|leaves|, 0) == |leaves|
  {
  }

  lemma LastOfPair(h: NodeHash, s: seq<Fr>, k: nat, i: nat)
    requires |s| == i + 1
    ensures |Pair(h, s, k)| == i / 2 + 1
    ensures Pair(h, s, k)[i / 2] == if i % 2 == 0 then s[i] else Node(h, s[i - 1], s[i], k)
  {
  }

  // One level up, an even last node passes through and an odd one is hashed with its left neighbour.
  lemma LastNodeClimbs(h: NodeHash, leaves: seq<Fr>, k: nat, i: nat)
    requires |Level(h, leaves, k)| == i + 1
    ensures var s, up := Level(h, leaves, k), Level(h, leaves, k + 1);
            |up| == i / 2 + 1 && up[i / 2] == if i % 2 == 0 then s[i] else Node(h, s[i - 1], s[i], k)
  {
    hide Pair;
    LastOfPair(h, Level(h, leaves, k), k, i);
  }

  lemma ShrStep(n: nat, k: nat)
    ensures Shr(n, k + 1) == Shr(n, k) / 2
  {
  }

  // ----- inputs the hash refuses -----

  // Inserting the last of these leaves hashes the climbing node with its left neighbour at every level where its
  // index is odd. The hash takes only numbers below its field's order.
  predicate HashableAt(h: NodeHash, order: nat, leaves: seq<Fr>, k: nat)
    requires leaves != []
  {
    var s, i := Level(h, leaves, k), Shr(|leaves| - 1, k);
    i % 2 == 1 && i < |s| ==> s[i - 1] < order && s[i] < order
  }

  predicate Hashable(h: NodeHash, order: nat, leaves: seq<Fr>)
    requires leaves != []
  {
    forall k :: 0 <= k < TREE_DEPTH ==> HashableAt(h, order, leaves, k)
  }

  lemma NothingHashedAbove(h: NodeHash, order: nat, leaves: seq<Fr>, k: nat, j: nat)
    requires leaves != [] && k <= j && Shr(|leaves| - 1, k) == 0
    ensures HashableAt(h, order, leaves, j)
  {
    ShrZeroAbove(|leaves| - 1, k, j);
  }
}
