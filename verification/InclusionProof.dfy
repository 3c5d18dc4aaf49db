/** The circuits' membership fold, and exactly which (leaf, index, path) triples it accepts for a root. */
module InclusionProof {
  import opened Hashing
  import opened LeanImt
  import opened Outcomes

  // The loop body of the fold from level k on. A zero sibling is an empty level: it passes the node
  // through and is legal only under a left child.
  function Fold(h: NodeHash, current: Fr, index: nat, path: seq<Fr>, k: nat): Option<Fr>
    decreases |path|
  {
    if path == [] then Some(current)
    else if path[0] != 0 then
      Fold(h, FoldStep(h, current, index, path[0], k), index / 2, path[1..], k + 1)
    else if index % 2 == 1 then None
    else Fold(h, current, index / 2, path[1..], k + 1)
  }

  function FoldStep(h: NodeHash, current: Fr, index: nat, sibling: Fr, k: nat): Fr {
    if index % 2 == 1 then Node(h, sibling, current, k) else Node(h, current, sibling, k)
  }

  // The index must fit the tree depth: the circuit decomposes it into that many bits.
  function InclusionRoot(h: NodeHash, leaf: Fr, index: nat, path: seq<Fr>): Option<Fr> {
    if |path| == TREE_DEPTH && index < CAPACITY then Fold(h, leaf, index, path, 0) else None
  }

  // The sibling path of a leaf from level k on, zero where the level has no sibling.
  function PathFrom(h: NodeHash, leaves: seq<Fr>, index: nat, k: nat, depth: nat): (path: seq<Fr>)
    ensures |path| == depth
    decreases depth
  {
    if depth == 0 then []
    else [Sibling(Level(h, leaves, k), index)] + PathFrom(h, leaves, index / 2, k + 1, depth - 1)
  }

  function Path(h: NodeHash, leaves: seq<Fr>, index: nat): seq<Fr> {
    PathFrom(h, leaves, index, 0, TREE_DEPTH)
  }

  // ----- one level of the fold -----

  lemma PairIndex(h: NodeHash, s: seq<Fr>, k: nat, i: nat)
    requires i < |s|
    ensures i / 2 < |Pair(h, s, k)|
    ensures i % 2 == 1 ==> Pair(h, s, k)[i / 2] == Node(h, s[i - 1], s[i], k)
    ensures i % 2 == 0 ==> Pair(h, s, k)[i / 2] == if i + 1 < |s| then Node(h, s[i], s[i + 1], k) else s[i]
  {
  }

  // Folding in the true sibling of node i of a level gives its parent.
  lemma StepUp(h: NodeHash, s: seq<Fr>, k: nat, i: nat)
    requires NonZero(s) && i < |s|
    ensures i / 2 < |Pair(h, s, k)|
    ensures Sibling(s, i) != 0 ==> Pair(h, s, k)[i / 2] == FoldStep(h, s[i], i, Sibling(s, i), k)
    ensures Sibling(s, i) == 0 ==> i % 2 == 0 && Pair(h, s, k)[i / 2] == s[i]
  {
    hide Pair;
    PairIndex(h, s, k, i);
  }

  // Conversely, a step that reaches parent i / 2 started at node i and used its true sibling.
  lemma StepDown(h: NodeHash, s: seq<Fr>, k: nat, i: nat, current: Fr, sibling: Fr)
    requires NodeInjective(h) && NonZero(s) && Below(h, current, k) && i / 2 < |Pair(h, s, k)|
    requires forall j :: 0 <= j < |s| ==> Below(h, s[j], k)
    requires sibling != 0 ==> FoldStep(h, current, i, sibling, k) == Pair(h, s, k)[i / 2]
    requires sibling == 0 ==> i % 2 == 0 && current == Pair(h, s, k)[i / 2]
    ensures i < |s| && current == s[i] && sibling == Sibling(s, i)
  {
    hide Pair;
    var l := i / 2 * 2;
    PairIndex(h, s, k, l);
    if sibling != 0 && l + 1 == |s| {
      assert false;  // s[l] passed up, so it would be a node hash of level k
    }
    if sibling == 0 && l + 1 < |s| {
      assert false;  // current would be the hash of s[l] and s[l + 1] at level k
    }
  }

  // ----- whole paths -----

  lemma {:induction false} LevelIsBelow(h: NodeHash, leaves: seq<Fr>, k: nat)
    requires NodeInjective(h) && forall j :: 0 <= j < |leaves| ==> Below(h, leaves[j], 0)
    ensures forall j :: 0 <= j < |Level(h, leaves, k)| ==> Below(h, Level(h, leaves, k)[j], k)
  {
    if k > 0 {
      LevelIsBelow(h, leaves, k - 1);
      var s, up := Level(h, leaves, k - 1), Level(h, leaves, k);
      forall j | 0 <= j < |up| ensures Below(h, up[j], k) {
        assert Below(h, s[2 * j], k - 1);
        PairIndex(h, s, k - 1, 2 * j);
      }
    }
  }

  lemma LevelUp(h: NodeHash, leaves: seq<Fr>, k: nat)
    ensures Level(h, leaves, k + 1) == Pair(h, Level(h, leaves, k), k)
  {
  }

  lemma {:induction false} FoldComplete(h: NodeHash, leaves: seq<Fr>, index: nat, k: nat, depth: nat)
    requires NeverZero(h) && NonZero(leaves)
    requires index < |Level(h, leaves, k)| && |Level(h, leaves, k + depth)| == 1
    ensures Fold(h, Level(h, leaves, k)[index], index, PathFrom(h, leaves, index, k, depth), k)
            == Some(Level(h, leaves, k + depth)[0])
    decreases depth
  {
    hide Level, Pair;
    if depth == 0 {
    } else {
      LevelNonZero(h, leaves, k);
      StepUp(h, Level(h, leaves, k), k, index);
      LevelUp(h, leaves, k);
      FoldComplete(h, leaves, index / 2, k + 1, depth - 1);
      var path := PathFrom(h, leaves, index, k, depth);
      assert path[1..] == PathFrom(h, leaves, index / 2, k + 1, depth - 1);
    }
  }

  lemma {:induction false} FoldSound(h: NodeHash, leaves: seq<Fr>, current: Fr, index: nat, path: seq<Fr>, k: nat)
    requires NeverZero(h) && NodeInjective(h) && NonZero(leaves)
    requires forall j :: 0 <= j < |leaves| ==> Below(h, leaves[j], 0)
    requires Below(h, current, k) && Shr(index, |path|) == 0
    requires |Level(h, leaves, k + |path|)| == 1
    requires Fold(h, current, index, path, k) == Some(Level(h, leaves, k + |path|)[0])
    ensures index < |Level(h, leaves, k)| && current == Level(h, leaves, k)[index]
    ensures path == PathFrom(h, leaves, index, k, |path|)
    decreases |path|
  {
    hide Level, Pair, Shr;
    if path == [] {
      NoShift(index);
    } else {
      var s := Level(h, leaves, k);
      LevelNonZero(h, leaves, k);
      LevelIsBelow(h, leaves, k);
      LevelUp(h, leaves, k);
      ShrHalves(index, |path| - 1);
      var next := if path[0] != 0 then FoldStep(h, current, index, path[0], k) else current;
      FoldSound(h, leaves, next, index / 2, path[1..], k + 1);
      StepDown(h, s, k, index, current, path[0]);
      assert path == [path[0]] + path[1..];
    }
  }

  lemma NoShift(n: nat)
    ensures Shr(n, 0) == n
  {
  }

  // Completeness: the sibling path of any inserted leaf folds to the current root.
  lemma PathFoldsToRoot(h: NodeHash, leaves: seq<Fr>, index: nat)
    requires NeverZero(h) && NonZero(leaves) && index < |leaves| <= CAPACITY
    ensures InclusionRoot(h, leaves[index], index, Path(h, leaves, index)) == Some(Root(h, leaves))
  {
    hide Level, PathFrom, Fold;
    CapacityIs();
    TopIsSingle(h, leaves, TREE_DEPTH);
    Bottom(h, leaves);
    FoldComplete(h, leaves, index, 0, TREE_DEPTH);
  }

  // Exactness: against the root of these leaves the fold accepts each leaf at its own index with its own
  // sibling path, and nothing else, whatever sibling values a prover supplies.
  lemma AcceptsExactlyTheLeaves(h: NodeHash, leaves: seq<Fr>, leaf: Fr, index: nat, path: seq<Fr>)
    requires NeverZero(h) && NodeInjective(h) && NonZero(leaves) && 0 < |leaves| <= CAPACITY
    requires Below(h, leaf, 0) && forall j :: 0 <= j < |leaves| ==> Below(h, leaves[j], 0)
    ensures InclusionRoot(h, leaf, index, path) == Some(Root(h, leaves))
            <==> index < |leaves| && leaf == leaves[index] && path == Path(h, leaves, index)
  {
    hide Level, PathFrom, Fold;
    if index < |leaves| && leaf == leaves[index] && path == Path(h, leaves, index) {
      PathFoldsToRoot(h, leaves, index);
    }
    if InclusionRoot(h, leaf, index, path) == Some(Root(h, leaves)) {
      CapacityIs();
      TopIsSingle(h, leaves, TREE_DEPTH);
      ShrZeroIff(index, TREE_DEPTH);
      Bottom(h, leaves);
      FoldSound(h, leaves, leaf, index, path, 0);
    }
  }

  // The tree never returns to an earlier root.
  lemma RootsNeverRepeat(h: NodeHash, leaves: seq<Fr>, m: nat, n: nat)
    requires NeverZero(h) && NodeInjective(h) && NonZero(leaves) && 0 < m < n <= |leaves| <= CAPACITY
    requires forall j :: 0 <= j < |leaves| ==> Below(h, leaves[j], 0)
    ensures Root(h, leaves[..m]) != Root(h, leaves[..n])
  {
    hide Root, Path, InclusionRoot, Below;
    var last := leaves[n - 1];
    var path := Path(h, leaves[..n], n - 1);
    PathFoldsToRoot(h, leaves[..n], n - 1);
    AcceptsExactlyTheLeaves(h, leaves[..m], last, n - 1, path);
  }
}
