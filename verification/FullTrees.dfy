/** The two client-side trees, which keep every level and decide "pass through" by comparing with zero.
    Both are proved to hold exactly the levels of `LeanImt`, hence the on-chain root and valid paths. */
module FullTrees {
  import opened Hashing
  import opened LeanImt
  import opened Outcomes
  import InclusionProof

  datatype TreeError = ZeroLeaf | TreeFull | IndexOutOfBounds

  // The parent of two nodes by comparison with zero: a zero side passes the other one through.
  function ZeroAwareParent(h: NodeHash, left: Fr, right: Fr, level: nat): Fr {
    if left == 0 && right == 0 then 0
    else if right == 0 then left
    else if left == 0 then right
    else Node(h, left, right, level)
  }

  // Writing an array element at an index of at most the length.
  function SetOrPush(s: seq<Fr>, i: nat, x: Fr): seq<Fr>
    requires i <= |s|
  {
    if i < |s| then s[i := x] else s + [x]
  }

  // Comparing with zero agrees with index parity for the last node of a level.
  lemma ZeroTestIsParityTest(h: NodeHash, leaves: seq<Fr>, k: nat, i: nat)
    requires NeverZero(h) && NonZero(leaves) && |Level(h, leaves, k)| == i + 1
    ensures var s, up := Level(h, leaves, k), Level(h, leaves, k + 1);
            && |up| == i / 2 + 1
            && up[i / 2] == (if i % 2 == 0 then ZeroAwareParent(h, s[i], Sibling(s, i), k)
                             else ZeroAwareParent(h, Sibling(s, i), s[i], k))
  {
    hide Level;
    LevelNonZero(h, leaves, k);
    LastNodeClimbs(h, leaves, k, i);
  }

  // Writing the new last node into the old level gives the new level.
  lemma LevelAfterInsert(h: NodeHash, leaves: seq<Fr>, x: Fr, k: nat)
    ensures var i, now := Shr(|leaves|, k), Level(h, leaves + [x], k);
            && |now| == i + 1
            && i <= |Level(h, leaves, k)|
            && now == SetOrPush(Level(h, leaves, k), i, now[i])
  {
    hide Level, Shr;
    CompletedNodesStay(h, leaves, x, k);
    ShrMonotone(|leaves|, k);
    LevelWidth(h, leaves, k);
  }

  lemma {:induction false} ShrMonotone(n: nat, k: nat)
    ensures n > 0 ==> Shr(n - 1, k) <= Shr(n, k)
  {
    if n > 0 { ShrSucc(n - 1, k); }
  }

  // ----- the indexer's tree: depth + 1 levels, the root is the top one -----

  class IndexerTree {
    const h: NodeHash
    const depth: nat
    var levels: seq<seq<Fr>>
    var nextIndex: nat
    var root: Fr

    ghost predicate Valid()
      reads this
    {
      && NeverZero(h) && 1 <= depth <= TREE_DEPTH && |levels| == depth + 1
      && NonZero(levels[0]) && nextIndex == |levels[0]| <= Pow2(depth)
      && (forall k :: 0 <= k <= depth ==> levels[k] == Level(h, levels[0], k))
      && root == RootAt(h, levels[0], depth)
    }

    ghost function Leaves(): seq<Fr>
      requires Valid()
      reads this
    {
      levels[0]
    }

    constructor (h: NodeHash, depth: nat)
      requires NeverZero(h) && 1 <= depth <= TREE_DEPTH
      ensures Valid() && Leaves() == [] && this.h == h && this.depth == depth
    {
      this.h, this.depth, nextIndex, root := h, depth, 0, 0;
      levels := seq(depth + 1, _ => []);
      new;
      forall k | 0 <= k <= depth ensures levels[k] == Level(h, [], k) {
        LevelWidth(h, [], k);
      }
    }

    method Insert(leaf: Fr) returns (r: Result<Fr, TreeError>)
      requires Valid()
      modifies this
      ensures Valid()
      ensures leaf == 0 ==> r == Err(ZeroLeaf)
      ensures leaf != 0 && |old(Leaves())| == Pow2(depth) ==> r == Err(TreeFull)
      ensures leaf != 0 && |old(Leaves())| < Pow2(depth) ==>
                Leaves() == old(Leaves()) + [leaf] && r == Ok(RootAt(h, Leaves(), depth))
      ensures r.Err? ==> Leaves() == old(Leaves())
    {
      hide Level, Shr, Pow2, RootAt, ZeroAwareParent;
      if leaf == 0 {
        return Err(ZeroLeaf);
      }
      if nextIndex >= Pow2(depth) {
        return Err(TreeFull);
      }
      ghost var was := levels[0];
      ghost var now := was + [leaf];
      var leafIndex := nextIndex;
      levels := levels[0 := SetOrPush(levels[0], leafIndex, leaf)];
      nextIndex := nextIndex + 1;
      var node, indexAtLevel := leaf, leafIndex;
      Bottom(h, now);
      Bottom(h, was);
      for level := 0 to depth
        invariant |levels| == depth + 1 && nextIndex == leafIndex + 1
        invariant indexAtLevel == Shr(leafIndex, level)
        invariant |Level(h, now, level)| == indexAtLevel + 1 && node == Level(h, now, level)[indexAtLevel]
        invariant forall k :: 0 <= k <= level ==> levels[k] == Level(h, now, k)
        invariant forall k :: level < k <= depth ==> levels[k] == Level(h, was, k)
      {
        ShrStep(leafIndex, level);
        ZeroTestIsParityTest(h, now, level, indexAtLevel);
        LevelAfterInsert(h, was, leaf, level + 1);
        var sibling := Sibling(levels[level], indexAtLevel);
        var left := if indexAtLevel % 2 == 0 then node else sibling;
        var right := if indexAtLevel % 2 == 0 then sibling else node;
        var parent := ZeroAwareParent(h, left, right, level);
        var parentIndex := indexAtLevel / 2;
        levels := levels[level + 1 := SetOrPush(levels[level + 1], parentIndex, parent)];
        node, indexAtLevel := parent, parentIndex;
      }
      TopIsSingle(h, now, depth);
      assert Level(h, now, depth) == [node];
      root := node;
      r := Ok(node);
    }

    // The sibling path of an inserted leaf, zero beyond the frontier.
    method GetPath(leafIndex: int) returns (r: Result<seq<Fr>, TreeError>)
      requires Valid()
      ensures r == if 0 <= leafIndex < |Leaves()|
                   then Ok(InclusionProof.PathFrom(h, Leaves(), leafIndex, 0, depth)) else Err(IndexOutOfBounds)
    {
      hide Level;
      if leafIndex < 0 || leafIndex >= nextIndex {
        return Err(IndexOutOfBounds);
      }
      var path, indexAtLevel := [], leafIndex;
      for level := 0 to depth
        invariant indexAtLevel >= 0
        invariant path + InclusionProof.PathFrom(h, Leaves(), indexAtLevel, level, depth - level)
                  == InclusionProof.PathFrom(h, Leaves(), leafIndex, 0, depth)
      {
        path := path + [Sibling(levels[level], indexAtLevel)];
        indexAtLevel := indexAtLevel / 2;
      }
      assert path + [] == path;
      r := Ok(path);
    }
  }

  // ----- the SDK's tree: depth levels, the root is kept apart -----

  class SdkTree {
    const h: NodeHash
    const depth: nat
    var levels: seq<seq<Fr>>
    var nextLeafIndex: nat
    var currentRoot: Fr

    ghost predicate Valid()
      reads this
    {
      && NeverZero(h) && 1 <= depth <= TREE_DEPTH && |levels| == depth
      && NonZero(levels[0]) && nextLeafIndex == |levels[0]| <= Pow2(depth)
      && (forall k :: 0 <= k < depth ==> levels[k] == Level(h, levels[0], k))
      && currentRoot == RootAt(h, levels[0], depth)
    }

    ghost function Leaves(): seq<Fr>
      requires Valid()
      reads this
    {
      levels[0]
    }

    constructor (h: NodeHash, depth: nat)
      requires NeverZero(h) && 1 <= depth <= TREE_DEPTH
      ensures Valid() && Leaves() == [] && this.h == h && this.depth == depth
    {
      this.h, this.depth, nextLeafIndex, currentRoot := h, depth, 0, 0;
      levels := seq(depth, _ => []);
      new;
      forall k | 0 <= k < depth ensures levels[k] == Level(h, [], k) {
        LevelWidth(h, [], k);
      }
    }

    method Insert(leaf: Fr) returns (r: Result<Fr, TreeError>)
      requires Valid()
      modifies this
      ensures Valid()
      ensures leaf == 0 ==> r == Err(ZeroLeaf)
      ensures leaf != 0 && |old(Leaves())| == Pow2(depth) ==> r == Err(TreeFull)
      ensures leaf != 0 && |old(Leaves())| < Pow2(depth) ==>
                Leaves() == old(Leaves()) + [leaf] && r == Ok(RootAt(h, Leaves(), depth))
      ensures r.Err? ==> Leaves() == old(Leaves())
    {
      hide Level, Shr, Pow2, RootAt, ZeroAwareParent;
      if leaf == 0 {
        return Err(ZeroLeaf);
      }
      var leafIndex := nextLeafIndex;
      if leafIndex >= Pow2(depth) {
        return Err(TreeFull);
      }
      ghost var was := levels[0];
      ghost var now := was + [leaf];
      levels := levels[0 := levels[0] + [leaf]];
      nextLeafIndex := nextLeafIndex + 1;
      var node, index := leaf, leafIndex;
      Bottom(h, now);
      Bottom(h, was);
      for level := 0 to depth
        invariant |levels| == depth && nextLeafIndex == leafIndex + 1
        invariant index == Shr(leafIndex, level)
        invariant |Level(h, now, level)| == index + 1 && node == Level(h, now, level)[index]
        invariant forall k :: 0 <= k <= level && k < depth ==> levels[k] == Level(h, now, k)
        invariant forall k :: level < k < depth ==> levels[k] == Level(h, was, k)
      {
        ShrStep(leafIndex, level);
        ZeroTestIsParityTest(h, now, level, index);
        LevelAfterInsert(h, was, leaf, level + 1);
        var sibling := Sibling(levels[level], index);
        var left := if index % 2 == 0 then node else sibling;
        var right := if index % 2 == 0 then sibling else node;
        node := ZeroAwareParent(h, left, right, level);
        var parentIndex := index / 2;
        if level < depth - 1 {
          var nextLevel := levels[level + 1];
          if parentIndex >= |nextLevel| {
            nextLevel := nextLevel + [node];
          } else {
            nextLevel := nextLevel[parentIndex := node];
          }
          levels := levels[level + 1 := nextLevel];
        }
        index := parentIndex;
      }
      TopIsSingle(h, now, depth);
      assert Level(h, now, depth) == [node];
      currentRoot := node;
      r := Ok(node);
    }

    // Only indices that are too large are refused.
    method GetMerklePath(index: int) returns (r: Result<seq<Option<Fr>>, TreeError>)
      requires Valid()
      ensures r == if index >= |Leaves()| then Err(IndexOutOfBounds) else Ok(ReadPath(h, Leaves(), index, 0, depth))
    {
      hide Level, ReadPath, ReadSibling;
      if index >= nextLeafIndex {
        return Err(IndexOutOfBounds);
      }
      var path: seq<Option<Fr>>, currentIndex := [], index;
      NothingRead(path + ReadPath(h, Leaves(), index, 0, depth), h, Leaves(), index);
      for level := 0 to depth
        invariant path + ReadPath(h, Leaves(), currentIndex, level, depth - level) == ReadPath(h, Leaves(), index, 0, depth)
      {
        ReadStep(h, Leaves(), currentIndex, level, depth - level, path);
        path := path + [ReadSibling(levels[level], currentIndex)];
        currentIndex := currentIndex / 2;
      }
      NothingRead(path, h, Leaves(), currentIndex);
      r := Ok(path);
    }
  }

  // Reading an array outside its bounds gives undefined; past the end the tree's zero value is taken instead.
  function ReadSibling(s: seq<Fr>, i: int): Option<Fr> {
    var sibling := if i % 2 == 0 then i + 1 else i - 1;
    if sibling >= |s| then Some(0) else if sibling < 0 then None else Some(s[sibling])
  }

  // What is read from level k on: the sibling path of an index that is not negative. A negative index stays negative
  // on the way up, and every one of its siblings is undefined.
  function ReadPath(h: NodeHash, leaves: seq<Fr>, index: int, k: nat, depth: nat): (r: seq<Option<Fr>>)
    ensures |r| == depth
  {
    if index < 0 then Undefined(depth) else Defined(InclusionProof.PathFrom(h, leaves, index, k, depth))
  }

  function Undefined(n: nat): (r: seq<Option<Fr>>)
    ensures |r| == n && forall i :: 0 <= i < n ==> r[i] == None
  {
    seq(n, _ => None)
  }

  function Defined(path: seq<Fr>): (r: seq<Option<Fr>>)
    ensures |r| == |path| && forall i :: 0 <= i < |path| ==> r[i] == Some(path[i])
  {
    seq(|path|, i requires 0 <= i < |path| => Some(path[i]))
  }

  lemma NothingRead(path: seq<Option<Fr>>, h: NodeHash, leaves: seq<Fr>, index: int)
    ensures forall k: nat :: path + ReadPath(h, leaves, index, k, 0) == path
    ensures [] + path == path
  {
  }

  lemma ReadStep(h: NodeHash, leaves: seq<Fr>, index: int, k: nat, depth: nat, before: seq<Option<Fr>>)
    requires depth > 0
    ensures before + ReadPath(h, leaves, index, k, depth)
            == (before + [ReadSibling(Level(h, leaves, k), index)]) + ReadPath(h, leaves, index / 2, k + 1, depth - 1)
  {
    hide Level;
    var s := Level(h, leaves, k);
    assert ReadPath(h, leaves, index, k, depth) == [ReadSibling(s, index)] + ReadPath(h, leaves, index / 2, k + 1, depth - 1) by {
      if index >= 0 {
        assert ReadSibling(s, index) == Some(Sibling(s, index));
      }
    }
  }
}
