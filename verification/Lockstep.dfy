/** The three trees, driven side by side: the parity the known-answer test checks for eight leaves, for any
    sequence of leaves, refused ones included. */
module Lockstep {
  import opened Hashing
  import opened LeanImt
  import opened Outcomes
  import opened PoolAccount
  import opened FullTrees

  predicate Refused(h: NodeHash, order: nat, tree: seq<Fr>, leaf: Fr) {
    leaf == 0 || |tree| >= CAPACITY || !Hashable(h, order, tree + [leaf])
  }

  function Grown(h: NodeHash, order: nat, leaves: seq<Fr>): (tree: seq<Fr>)
    ensures |tree| <= CAPACITY && forall i :: 0 <= i < |tree| ==> tree[i] != 0
  {
    if leaves == [] then []
    else
      var tree, leaf := Grown(h, order, leaves[..|leaves| - 1]), leaves[|leaves| - 1];
      if Refused(h, order, tree, leaf) then tree else tree + [leaf]
  }

  // The root reported for the last of these leaves, if it was taken.
  function Reported(h: NodeHash, order: nat, leaves: seq<Fr>): Option<Fr>
    requires leaves != []
  {
    if Refused(h, order, Grown(h, order, leaves[..|leaves| - 1]), leaves[|leaves| - 1]) then None
    else Some(Root(h, Grown(h, order, leaves)))
  }

  ghost predicate Reports(h: NodeHash, order: nat, leaves: seq<Fr>, roots: seq<Option<Fr>>) {
    |roots| == |leaves| && forall i :: 0 <= i < |leaves| ==> roots[i] == Reported(h, order, leaves[..i + 1])
  }

  lemma OneMoreReport(h: NodeHash, order: nat, leaves: seq<Fr>, i: nat, roots: seq<Option<Fr>>)
    requires i < |leaves| && Reports(h, order, leaves[..i], roots)
    ensures Reports(h, order, leaves[..i + 1], roots + [Reported(h, order, leaves[..i + 1])])
  {
    hide Reported, Hashable;
    var now := leaves[..i + 1];
    assert now[..i + 1] == now;
    forall k | 0 <= k < i ensures roots[k] == Reported(h, order, now[..k + 1]) {
      assert now[..k + 1] == leaves[..i][..k + 1];
    }
  }

  // One leaf offered to all three, unless the chain's hash refuses it: the clients never hear of such a leaf.
  method Offer(pool: Pool, mirror: IndexerTree, wallet: SdkTree, leaf: Fr)
      returns (onChain: Option<Fr>, indexer: Option<Fr>, sdk: Option<Fr>)
    requires pool.Valid() && mirror.Valid() && wallet.Valid()
    requires pool.h == mirror.h == wallet.h && mirror.depth == wallet.depth == TREE_DEPTH
    requires pool.leaves == mirror.Leaves() == wallet.Leaves()
    modifies pool, pool.sideNodes, pool.roots, mirror, wallet
    ensures pool.Valid() && mirror.Valid() && wallet.Valid()
    ensures var was := old(pool.leaves);
            var now := if Refused(pool.h, pool.order, was, leaf) then was else was + [leaf];
            && pool.leaves == mirror.Leaves() == wallet.Leaves() == now
            && onChain == indexer == sdk == if Refused(pool.h, pool.order, was, leaf) then None else Some(Root(pool.h, now))
  {
    hide RootAt, Level, IsFrontier, IsRing, Pow2, Hashable;
    CapacityIs();
    var full := pool.nextLeafIndex >= CAPACITY;
    var a := pool.Insert(leaf);
    if a.Err? && leaf != 0 && !full {
      return None, None, None;
    }
    var b := mirror.Insert(leaf);
    var c := wallet.Insert(leaf);
    onChain := if a.Ok? then Some(a.value.1) else None;
    indexer := if b.Ok? then Some(b.value) else None;
    sdk := if c.Ok? then Some(c.value) else None;
  }

  method Drive(h: NodeHash, order: nat, leaves: seq<Fr>)
      returns (onChain: seq<Option<Fr>>, indexer: seq<Option<Fr>>, sdk: seq<Option<Fr>>)
    requires NeverZero(h)
    ensures onChain == indexer == sdk && Reports(h, order, leaves, onChain)
  {
    hide Root, Pool.Valid, IndexerTree.Valid, SdkTree.Valid, Reports, Hashable;
    var pool := new Pool(h, order);
    var mirror := new IndexerTree(h, TREE_DEPTH);
    var wallet := new SdkTree(h, TREE_DEPTH);
    onChain, indexer, sdk := [], [], [];
    NothingReported(h, order, leaves);
    for i := 0 to |leaves|
      invariant fresh(pool) && fresh(pool.sideNodes) && fresh(pool.roots) && fresh(mirror) && fresh(wallet)
      invariant pool.Valid() && mirror.Valid() && wallet.Valid()
      invariant pool.h == mirror.h == wallet.h == h && pool.order == order && mirror.depth == wallet.depth == TREE_DEPTH
      invariant pool.leaves == mirror.Leaves() == wallet.Leaves() == Grown(h, order, leaves[..i])
      invariant onChain == indexer == sdk && Reports(h, order, leaves[..i], onChain)
    {
      assert leaves[..i + 1][..i] == leaves[..i];
      OneMoreReport(h, order, leaves, i, onChain);
      var a, b, c := Offer(pool, mirror, wallet, leaves[i]);
      onChain, indexer, sdk := onChain + [a], indexer + [b], sdk + [c];
    }
    assert leaves[..|leaves|] == leaves;
  }

  lemma NothingReported(h: NodeHash, order: nat, leaves: seq<Fr>)
    ensures Reports(h, order, leaves[..0], [])
  {
  }
}
