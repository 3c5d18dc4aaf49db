/** The pool account: the 32-node frontier and the 256-slot root ring, with the frontier insert.

    The account never stores the leaves. The ghost field `leaves` records them, and `Valid` says how
    frontier, ring and counters follow from them. */
module PoolAccount {
  import opened Hashing
  import opened LeanImt
  import opened Outcomes
  import opened PoolErrors

  type Key = nat  // a public key; the default key is 0

  const ROOT_RING: nat := 256
  const NUM_VERIFIERS: nat := 7

  type VerifierTable = v: seq<Key> | |v| == NUM_VERIFIERS witness [0, 0, 0, 0, 0, 0, 0]

  // The frontier of n leaves: wherever bit k of n is set, the last completed node of level k.
  ghost predicate IsFrontier(h: NodeHash, leaves: seq<Fr>, side: seq<Fr>) {
    && |side| == TREE_DEPTH
    && forall k :: 0 <= k < TREE_DEPTH ==> FrontierEntry(h, leaves, k, side[k])
  }

  ghost predicate FrontierEntry(h: NodeHash, leaves: seq<Fr>, k: nat, x: Fr) {
    var n := Shr(|leaves|, k);
    n % 2 == 1 ==> n <= |Level(h, leaves, k)| && x == Level(h, leaves, k)[n - 1]
  }

  // The number of the latest root pushed into a slot after n pushes, if any.
  function LatestPush(n: nat, slot: nat): (p: Option<nat>)
    requires slot < ROOT_RING
    ensures p.None? <==> n <= slot
    ensures p.Some? ==> p.value < n <= p.value + ROOT_RING && p.value % ROOT_RING == slot
  {
    if n <= slot then None else Some(n - 1 - (n - 1 - slot) % ROOT_RING)
  }

  // What a ring slot holds: push number p pushed the root of the first p + 1 leaves.
  function SlotRoot(h: NodeHash, leaves: seq<Fr>, slot: nat): Fr
    requires slot < ROOT_RING
  {
    match LatestPush(|leaves|, slot)
    case None => 0
    case Some(p) => Root(h, leaves[..p + 1])
  }

  ghost predicate IsRing(h: NodeHash, leaves: seq<Fr>, ring: seq<Fr>) {
    |ring| == ROOT_RING && forall s :: 0 <= s < ROOT_RING ==> ring[s] == SlotRoot(h, leaves, s)
  }

  lemma LatestPushUnique(n: nat, slot: nat, p: nat)
    requires slot < ROOT_RING && p < n <= p + ROOT_RING && p % ROOT_RING == slot
    ensures LatestPush(n, slot) == Some(p)
  {
  }

  // One more push moves only the slot it lands in.
  lemma PushMovesOneSlot(n: nat, slot: nat)
    requires slot < ROOT_RING
    ensures LatestPush(n + 1, slot) == if slot == n % ROOT_RING then Some(n) else LatestPush(n, slot)
  {
    if slot == n % ROOT_RING {
      LatestPushUnique(n + 1, slot, n);
    } else if LatestPush(n, slot).Some? {
      LatestPushUnique(n + 1, slot, LatestPush(n, slot).value);
    }
  }

  lemma RingAfterPush(h: NodeHash, leaves: seq<Fr>, ring: seq<Fr>)
    requires leaves != [] && IsRing(h, leaves[..|leaves| - 1], ring)
    ensures IsRing(h, leaves, ring[(|leaves| - 1) % ROOT_RING := Root(h, leaves)])
  {
    hide Level, Root;
    var n := |leaves| - 1;
    var ring' := ring[n % ROOT_RING := Root(h, leaves)];
    assert leaves[..n + 1] == leaves;
    forall s | 0 <= s < ROOT_RING ensures ring'[s] == SlotRoot(h, leaves, s) {
      PushMovesOneSlot(n, s);
      var p := LatestPush(n, s);
      if p.Some? {
        assert leaves[..n][..p.value + 1] == leaves[..p.value + 1];
      }
    }
  }

  lemma RootNonZero(h: NodeHash, leaves: seq<Fr>)
    requires NeverZero(h) && NonZero(leaves) && 0 < |leaves| <= CAPACITY
    ensures Root(h, leaves) != 0
  {
    CapacityIs();
    TopIsSingle(h, leaves, TREE_DEPTH);
    LevelNonZero(h, leaves, TREE_DEPTH);
  }

  // Root `root` was the tree's root after m of its n leaves, at most 255 inserts ago.
  ghost predicate InWindow(h: NodeHash, leaves: seq<Fr>, root: Fr, m: nat) {
    0 < m <= |leaves| < m + ROOT_RING && root == Root(h, leaves[..m])
  }

  // A slot is empty or holds a root the tree really had within the last 256 inserts.
  lemma SlotsHoldTheWindow(h: NodeHash, leaves: seq<Fr>, slot: nat)
    requires NeverZero(h) && NonZero(leaves) && |leaves| <= CAPACITY && slot < ROOT_RING
    ensures SlotRoot(h, leaves, slot) == 0 <==> |leaves| <= slot
    ensures SlotRoot(h, leaves, slot) != 0 ==> exists m :: InWindow(h, leaves, SlotRoot(h, leaves, slot), m)
  {
    hide Root, Level;
    if |leaves| > slot {
      var p := LatestPush(|leaves|, slot).value;
      RootNonZero(h, leaves[..p + 1]);
      assert InWindow(h, leaves, SlotRoot(h, leaves, slot), p + 1);
    }
  }

  // The ring knows a nonzero root exactly when it is one of the last min(n, 256) roots.
  lemma KnownIffInWindow(h: NodeHash, leaves: seq<Fr>, ring: seq<Fr>, root: Fr)
    requires NeverZero(h) && NonZero(leaves) && |leaves| <= CAPACITY && IsRing(h, leaves, ring) && root != 0
    ensures root in ring <==> exists m :: InWindow(h, leaves, root, m)
  {
    hide Root, Level;
    if root in ring {
      var s :| 0 <= s < ROOT_RING && ring[s] == root;
      SlotsHoldTheWindow(h, leaves, s);
    }
    if exists m :: InWindow(h, leaves, root, m) {
      var m: nat :| InWindow(h, leaves, root, m);
      var s := (m - 1) % ROOT_RING;
      LatestPushUnique(|leaves|, s, m - 1);
      assert ring[s] == root;
    }
  }

  // Unwritten slots read as zero, so zero counts as known until every slot is written.
  lemma ZeroKnownIffNotFull(h: NodeHash, leaves: seq<Fr>, ring: seq<Fr>)
    requires NeverZero(h) && NonZero(leaves) && |leaves| <= CAPACITY && IsRing(h, leaves, ring)
    ensures 0 in ring <==> |leaves| < ROOT_RING
  {
    hide Root, Level, SlotRoot;
    if 0 in ring {
      var s :| 0 <= s < ROOT_RING && ring[s] == 0;
      SlotsHoldTheWindow(h, leaves, s);
    }
    if |leaves| < ROOT_RING {
      SlotsHoldTheWindow(h, leaves, |leaves|);
      assert ring[|leaves|] == 0;
    }
  }

  // On a fresh account the scan finds zero.
  method ZeroIsKnownAtFirst(h: NodeHash, order: nat) returns (known: bool)
    requires NeverZero(h)
    ensures known
  {
    var pool := new Pool(h, order);
    known := pool.IsKnownRoot(0);
    ZeroKnownIffNotFull(h, [], pool.roots[..]);
  }

  class Pool {
    const h: NodeHash
    const order: nat  // of the hash's field
    var authority: Key
    var paused: bool
    var complianceVersion: nat
    var compliancePkX: Fr
    var compliancePkY: Fr
    var verifiers: VerifierTable
    var nextLeafIndex: nat
    const sideNodes: array<Fr>
    var rootCursor: nat
    const roots: array<Fr>
    ghost var leaves: seq<Fr>

    ghost predicate Valid()
      reads this, sideNodes, roots
    {
      && sideNodes != roots
      && NeverZero(h) && NonZero(leaves) && |leaves| <= CAPACITY
      && nextLeafIndex == |leaves|
      && rootCursor == |leaves| % ROOT_RING
      && IsFrontier(h, leaves, sideNodes[..])
      && IsRing(h, leaves, roots[..])
    }

    // A freshly allocated account is all zero bytes.
    constructor (h: NodeHash, order: nat)
      requires NeverZero(h)
      ensures Valid() && leaves == [] && this.h == h && this.order == order && fresh(sideNodes) && fresh(roots)
      ensures !paused && complianceVersion == 0 && authority == 0 && verifiers == seq(NUM_VERIFIERS, _ => 0)
      ensures compliancePkX == 0 && compliancePkY == 0
    {
      this.h, this.order := h, order;
      authority, paused, complianceVersion, compliancePkX, compliancePkY := 0, false, 0, 0, 0;
      verifiers := seq(NUM_VERIFIERS, _ => 0);
      nextLeafIndex, rootCursor, leaves := 0, 0, [];
      sideNodes := new Fr[TREE_DEPTH](_ => 0);
      roots := new Fr[ROOT_RING](_ => 0);
      new;
      forall k | 0 <= k < TREE_DEPTH ensures FrontierEntry(h, leaves, k, sideNodes[k]) {
        ShrZeroAbove(0, 0, k);
      }
    }

    function RootAtSlot(slot: nat): Fr
      requires slot < roots.Length
      reads roots
    {
      roots[slot]
    }

    // Advance the ring: the caller has just appended to `leaves`.
    method PushRoot(root: Fr)
      requires roots.Length == ROOT_RING && roots != sideNodes
      requires leaves != [] && rootCursor == (|leaves| - 1) % ROOT_RING
      requires IsRing(h, leaves[..|leaves| - 1], roots[..]) && root == Root(h, leaves)
      modifies this`rootCursor, roots
      ensures rootCursor == |leaves| % ROOT_RING && IsRing(h, leaves, roots[..])
    {
      hide Root, SlotRoot;
      ghost var before := roots[..];
      roots[rootCursor] := root;
      RingAfterPush(h, leaves, before);
      assert roots[..] == before[rootCursor := root];
      rootCursor := (rootCursor + 1) % ROOT_RING;
    }

    method IsKnownRoot(root: Fr) returns (known: bool)
      requires Valid()
      ensures known <==> root in roots[..]
    {
      for i := 0 to ROOT_RING
        invariant root !in roots[..i]
      {
        if roots[i] == root {
          return true;
        }
      }
      return false;
    }

    // The frontier insert. At an even index the node is stored and passes up, at an odd one it is hashed with
    // the stored sibling; at index 0 the climb ends early.
    method Insert(leaf: Fr) returns (r: Result<(nat, Fr), PoolError>)
      requires Valid()
      modifies this`nextLeafIndex, this`rootCursor, this`leaves, sideNodes, roots
      ensures Valid()
      ensures leaf == 0 ==> r == Err(InvalidLeaf)
      ensures leaf != 0 && |old(leaves)| == CAPACITY ==> r == Err(InvalidAccountData)
      ensures leaf != 0 && |old(leaves)| < CAPACITY ==>
                if Hashable(h, order, old(leaves) + [leaf])
                then leaves == old(leaves) + [leaf] && r == Ok((|old(leaves)|, Root(h, leaves)))
                else r == Err(InvalidLeaf)
      ensures r.Err? ==> leaves == old(leaves) && roots[..] == old(roots[..])
    {
      hide Level, Shr, Pair, RootAt, SlotRoot, FrontierEntry, HashableAt;
      if leaf == 0 {
        return Err(InvalidLeaf);
      }
      var leafIndex := nextLeafIndex;
      if leafIndex >= CAPACITY {
        return Err(InvalidAccountData);
      }
      ghost var was, side := leaves, sideNodes[..];
      ghost var now := was + [leaf];
      var node, index, level := leaf, leafIndex, 0;
      Bottom(h, now);
      Bottom(h, was);
      while level < TREE_DEPTH
        invariant level <= TREE_DEPTH
        invariant index == Shr(leafIndex, level)
        invariant |Level(h, now, level)| == index + 1 && node == Level(h, now, level)[index]
        invariant forall k :: 0 <= k < level ==> FrontierEntry(h, now, k, sideNodes[k])
        invariant forall k :: level <= k < TREE_DEPTH ==> sideNodes[k] == side[k]
        invariant forall k :: 0 <= k < TREE_DEPTH ==> FrontierEntry(h, was, k, sideNodes[k])
        invariant forall k :: 0 <= k < level ==> HashableAt(h, order, now, k)
        modifies sideNodes
      {
        LastNodeClimbs(h, now, level, index);
        ShrStep(leafIndex, level);
        if index % 2 == 0 {
          StoreStep(h, was, leaf, level, node);
          EvenIsFree(h, order, was, leaf, level, node);
          sideNodes[level] := node;
          if index == 0 {
            break;
          }
        } else {
          HashStep(h, was, leaf, level, side[level]);
          var sibling := sideNodes[level];
          OddIsHashed(h, order, now, level, sibling, node);
          if sibling >= order || node >= order {
            return Err(InvalidLeaf);
          }
          node := Node(h, sibling, node, level);
        }
        index := index / 2;
        level := level + 1;
      }
      forall k | level < k < TREE_DEPTH ensures HashableAt(h, order, now, k) {
        NothingHashedAbove(h, order, now, level, k);
      }
      ClimbEnds(h, now, level, node, sideNodes[..]);
      leaves := now;
      nextLeafIndex := leafIndex + 1;
      assert leaves[..|leaves| - 1] == was;
      PushRoot(node);
      r := Ok((leafIndex, node));
    }
  }

  // At an even index the old frontier does not use the level, and the insert hashes nothing there.
  lemma EvenIsFree(h: NodeHash, order: nat, leaves: seq<Fr>, leaf: Fr, k: nat, x: Fr)
    requires Shr(|leaves|, k) % 2 == 0
    ensures FrontierEntry(h, leaves, k, x) && HashableAt(h, order, leaves + [leaf], k)
  {
  }

  lemma OddIsHashed(h: NodeHash, order: nat, leaves: seq<Fr>, k: nat, sibling: Fr, node: Fr)
    requires leaves != [] && var i := Shr(|leaves| - 1, k); i % 2 == 1 && |Level(h, leaves, k)| == i + 1
    requires var s := Level(h, leaves, k); sibling == s[|s| - 2] && node == s[|s| - 1]
    ensures HashableAt(h, order, leaves, k) <==> sibling < order && node < order
  {
  }

  lemma EmptyBitIsFree(h: NodeHash, leaves: seq<Fr>, k: nat, x: Fr)
    requires Shr(|leaves|, k) == 0
    ensures FrontierEntry(h, leaves, k, x)
  {
  }

  // When the climb stops, early at index 0 or at the top, node is the root and the frontier is complete.
  lemma ClimbEnds(h: NodeHash, leaves: seq<Fr>, level: nat, node: Fr, side: seq<Fr>)
    requires 0 < |leaves| <= CAPACITY && level <= TREE_DEPTH == |side|
    requires |Level(h, leaves, level)| == Shr(|leaves| - 1, level) + 1
    requires node == Level(h, leaves, level)[Shr(|leaves| - 1, level)]
    requires level < TREE_DEPTH ==> Shr(|leaves| - 1, level) == 0 && FrontierEntry(h, leaves, level, side[level])
    requires forall k :: 0 <= k < level ==> FrontierEntry(h, leaves, k, side[k])
    ensures node == Root(h, leaves) && IsFrontier(h, leaves, side)
  {
    hide Level, Shr, FrontierEntry;
    CapacityIs();
    TopIsSingle(h, leaves, TREE_DEPTH);
    if level < TREE_DEPTH {
      SingletonRises(h, leaves, level, TREE_DEPTH);
      forall k | level < k < TREE_DEPTH ensures FrontierEntry(h, leaves, k, side[k]) {
        ShrSucc(|leaves| - 1, level);
        ShrStep(|leaves|, level);
        ShrZeroAbove(|leaves|, level + 1, k);
        EmptyBitIsFree(h, leaves, k, side[k]);
      }
    }
  }

  // Level k's step of the insert when the climbing node is even: it becomes the side node.
  lemma StoreStep(h: NodeHash, leaves: seq<Fr>, x: Fr, k: nat, node: Fr)
    requires Shr(|leaves|, k) % 2 == 0
    requires |Level(h, leaves + [x], k)| == Shr(|leaves|, k) + 1
    requires node == Level(h, leaves + [x], k)[Shr(|leaves|, k)]
    ensures FrontierEntry(h, leaves + [x], k, node)
  {
    hide Level, Shr;
    ShrSucc(|leaves|, k);
  }

  // ... and when it is odd: the stored side node is its left sibling and stays where it is.
  lemma HashStep(h: NodeHash, leaves: seq<Fr>, x: Fr, k: nat, side: Fr)
    requires Shr(|leaves|, k) % 2 == 1 && FrontierEntry(h, leaves, k, side)
    ensures |Level(h, leaves + [x], k)| == Shr(|leaves|, k) + 1
    ensures side == Level(h, leaves + [x], k)[Shr(|leaves|, k) - 1]
    ensures FrontierEntry(h, leaves + [x], k, side)
  {
    hide Level, Shr;
    ShrSucc(|leaves|, k);
    CompletedNodesStay(h, leaves, x, k);
  }
}
