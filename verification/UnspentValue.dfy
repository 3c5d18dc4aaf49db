/** The value still spendable in the tree, asset by asset, and how the two primitive moves change it. */
module UnspentValue {
  import opened Hashing
  import opened LeanImt
  import opened Outcomes
  import opened PoolAccount
  import opened Circuits
  import InclusionProof

  // The note a leaf commits to, if any.
  ghost function Opened(H: Hashes, leaf: Fr): Option<Note> {
    if exists n: Note :: H.Leaf(n) == leaf then var n: Note :| H.Leaf(n) == leaf; Some(n) else None
  }

  lemma OpenedIsUnique(H: Hashes, n: Note)
    requires CollisionFree(H)
    ensures Opened(H, H.Leaf(n)) == Some(n)
  {
  }

  // The value of leaf i if it commits to a note of this asset whose nullifier is not recorded.
  ghost function Live(H: Hashes, leaf: Fr, i: nat, spent: set<Fr>, asset: Fr): nat {
    match Opened(H, leaf)
    case None => 0
    case Some(n) => if n.assetId == asset && H.Nullifier(n.psi, i) !in spent then n.value else 0
  }

  ghost function Unspent(H: Hashes, leaves: seq<Fr>, spent: set<Fr>, asset: Fr): nat {
    if leaves == [] then 0
    else
      var i := |leaves| - 1;
      Unspent(H, leaves[..i], spent, asset) + Live(H, leaves[i], i, spent, asset)
  }

  // Leaf i commits to this note, and this is the note's nullifier there.
  ghost predicate IsNullifierAt(H: Hashes, leaves: seq<Fr>, nullifier: Fr, i: nat, note: Note) {
    i < |leaves| && leaves[i] == H.Leaf(note) && nullifier == H.Nullifier(note.psi, i)
  }

  // The tree holds no leaf that is 0 or a node hash, and every recorded nullifier belongs to one of its leaves.
  ghost predicate TreeInv(H: Hashes, leaves: seq<Fr>, spent: set<Fr>) {
    && |leaves| <= CAPACITY && NonZero(leaves)
    && (forall i :: 0 <= i < |leaves| ==> Below(H.node, leaves[i], 0))
    && (forall nf :: nf in spent ==> exists i, note :: IsNullifierAt(H, leaves, nf, i, note))
  }

  // ----- appending a note -----

  lemma AppendNote(H: Hashes, leaves: seq<Fr>, spent: set<Fr>, note: Note, asset: Fr)
    requires CollisionFree(H) && TreeInv(H, leaves, spent)
    ensures Unspent(H, leaves + [H.Leaf(note)], spent, asset)
            == Unspent(H, leaves, spent, asset) + if note.assetId == asset then note.value else 0
  {
    var n := |leaves|;
    var now := leaves + [H.Leaf(note)];
    assert now[..n] == leaves;
    OpenedIsUnique(H, note);
    FutureNullifierIsFresh(H, leaves, spent, note);
  }

  lemma FutureNullifierIsFresh(H: Hashes, leaves: seq<Fr>, spent: set<Fr>, note: Note)
    requires CollisionFree(H) && TreeInv(H, leaves, spent)
    ensures H.Nullifier(note.psi, |leaves|) !in spent
  {
  }

  lemma AppendKeepsTree(H: Hashes, leaves: seq<Fr>, spent: set<Fr>, leaf: Fr)
    requires TreeInv(H, leaves, spent) && leaf != 0 && Below(H.node, leaf, 0) && |leaves| < CAPACITY
    ensures TreeInv(H, leaves + [leaf], spent)
  {
    forall nf | nf in spent ensures exists i, note :: IsNullifierAt(H, leaves + [leaf], nf, i, note) {
      var i, note :| IsNullifierAt(H, leaves, nf, i, note);
      assert IsNullifierAt(H, leaves + [leaf], nf, i, note);
    }
  }

  // ----- recording a nullifier -----

  lemma {:induction false} OtherLeavesKeepTheirValue(H: Hashes, leaves: seq<Fr>, spent: set<Fr>, nf: Fr, k: nat,
                                                     note: Note, asset: Fr)
    requires CollisionFree(H) && nf == H.Nullifier(note.psi, k) && |leaves| <= k
    ensures Unspent(H, leaves, spent + {nf}, asset) == Unspent(H, leaves, spent, asset)
  {
    if leaves != [] {
      OtherLeavesKeepTheirValue(H, leaves[..|leaves| - 1], spent, nf, k, note, asset);
    }
  }

  lemma {:induction false} RecordNullifier(H: Hashes, leaves: seq<Fr>, spent: set<Fr>, nf: Fr, k: nat, note: Note,
                                           asset: Fr)
    requires CollisionFree(H) && IsNullifierAt(H, leaves, nf, k, note) && nf !in spent
    ensures Unspent(H, leaves, spent, asset)
            == Unspent(H, leaves, spent + {nf}, asset) + if note.assetId == asset then note.value else 0
  {
    var i := |leaves| - 1;
    if k < i {
      assert IsNullifierAt(H, leaves[..i], nf, k, note);
      RecordNullifier(H, leaves[..i], spent, nf, k, note, asset);
    } else {
      OtherLeavesKeepTheirValue(H, leaves[..i], spent, nf, k, note, asset);
      OpenedIsUnique(H, note);
    }
  }

  lemma RecordKeepsTree(H: Hashes, leaves: seq<Fr>, spent: set<Fr>, nf: Fr, k: nat, note: Note)
    requires TreeInv(H, leaves, spent) && IsNullifierAt(H, leaves, nf, k, note)
    ensures TreeInv(H, leaves, spent + {nf})
  {
  }

  // ----- what an accepted spend spends -----

  // A spend proved under any root in the ring opens the very leaf stored at its index.
  lemma SpendHitsItsLeaf(H: Hashes, leaves: seq<Fr>, spent: set<Fr>, slot: nat, sp: Spend, nf: Fr)
    requires CollisionFree(H) && TreeInv(H, leaves, spent) && slot < ROOT_RING
    requires SlotRoot(H.node, leaves, slot) != 0 && Opens(H, sp, nf, SlotRoot(H.node, leaves, slot))
    ensures IsNullifierAt(H, leaves, nf, sp.index, sp.note)
  {
    hide Root, InclusionProof.InclusionRoot;
    var root := SlotRoot(H.node, leaves, slot);
    SlotsHoldTheWindow(H.node, leaves, slot);
    var m: nat :| InWindow(H.node, leaves, root, m);
    InclusionProof.AcceptsExactlyTheLeaves(H.node, leaves[..m], H.Leaf(sp.note), sp.index, sp.path);
  }

  // Among accepted spends the nullifier and the leaf index determine each other: every inserted note has
  // exactly one nullifier, and no two notes share one.
  lemma OneNullifierPerLeaf(H: Hashes, leaves: seq<Fr>, spent: set<Fr>,
                            slot1: nat, sp1: Spend, nf1: Fr, slot2: nat, sp2: Spend, nf2: Fr)
    requires CollisionFree(H) && TreeInv(H, leaves, spent) && slot1 < ROOT_RING && slot2 < ROOT_RING
    requires SlotRoot(H.node, leaves, slot1) != 0 && Opens(H, sp1, nf1, SlotRoot(H.node, leaves, slot1))
    requires SlotRoot(H.node, leaves, slot2) != 0 && Opens(H, sp2, nf2, SlotRoot(H.node, leaves, slot2))
    ensures nf1 == nf2 <==> sp1.index == sp2.index
    ensures sp1.index == sp2.index ==> sp1.note == sp2.note
  {
    hide SlotRoot, Opens, Below;
    SpendHitsItsLeaf(H, leaves, spent, slot1, sp1, nf1);
    SpendHitsItsLeaf(H, leaves, spent, slot2, sp2, nf2);
  }
}
