/** Field elements, the note record and the hash functions everything else is built on. */
module Hashing {

  // A canonical field element, read as the number its 32 big-endian bytes denote.
  type Fr = nat

  // `poseidon_v1([left, right, level])`, kept abstract.
  type NodeHash = (Fr, Fr, nat) -> Fr

  function Node(h: NodeHash, left: Fr, right: Fr, level: nat): Fr {
    h(left, right, level)
  }

  // The eight committed fields of a note, in commitment order.
  datatype Note = Note(
    noteVersion: Fr, assetId: Fr, noteType: Fr, conditionsHash: Fr,
    value: nat, owner: Fr, psi: Fr, parents: Fr)

  // The three hash functions of the protocol: tree nodes, note commitments and nullifiers.
  datatype Hashes = Hashes(node: NodeHash, commit: Note -> Fr, nullify: (Fr, nat) -> Fr) {
    function Leaf(note: Note): Fr { commit(note) }
    function Nullifier(psi: Fr, leafIndex: nat): Fr { nullify(psi, leafIndex) }
  }

  // All the refinement and completeness results need: no node hashes to the empty marker 0.
  ghost predicate NeverZero(h: NodeHash) {
    forall l: Fr, r: Fr, k: nat :: Node(h, l, r, k) != 0
  }

  // Collision resistance of the node hash, level included, in its ideal form.
  ghost predicate NodeInjective(h: NodeHash) {
    forall l: Fr, r: Fr, k: nat, l': Fr, r': Fr, k': nat ::
      Node(h, l, r, k) == Node(h, l', r', k') ==> l == l' && r == r' && k == k'
  }

  // x is not a node hash of level k or above. A leaf must be `Below` level 0, i.e. no node hash at all.
  ghost predicate Below(h: NodeHash, x: Fr, k: nat) {
    forall l: Fr, r: Fr, j: nat :: k <= j ==> Node(h, l, r, j) != x
  }

  // Ideal hashing: injective in every argument, and the domains of leaves and nodes never meet.
  ghost predicate CollisionFree(H: Hashes) {
    && NeverZero(H.node)
    && NodeInjective(H.node)
    && (forall n: Note, m: Note :: H.Leaf(n) == H.Leaf(m) ==> n == m)
    && (forall n: Note :: Below(H.node, H.Leaf(n), 0))
    && (forall p: Fr, i: nat, q: Fr, j: nat :: H.Nullifier(p, i) == H.Nullifier(q, j) ==> p == q && i == j)
  }

  // ----- the assumption above has a model -----

  function Triangle(n: nat): nat {
    if n == 0 then 0 else Triangle(n - 1) + n
  }

  // Cantor's pairing function, shifted away from 0.
  function Cantor(a: nat, b: nat): (c: nat)
    ensures c > 0
  {
    Triangle(a + b) + b + 1
  }

  lemma {:induction false} TriangleGrows(m: nat, n: nat)
    requires m < n
    ensures Triangle(m) + m < Triangle(n)
  {
    if m + 1 < n {
      TriangleGrows(m, n - 1);
    }
  }

  lemma CantorInjective(a: nat, b: nat, a': nat, b': nat)
    requires Cantor(a, b) == Cantor(a', b')
    ensures a == a' && b == b'
  {
    if a + b < a' + b' {
      TriangleGrows(a + b, a' + b');
    } else if a' + b' < a + b {
      TriangleGrows(a' + b', a + b);
    }
  }

  function CantorNote(n: Note): nat {
    Cantor(n.noteVersion, Cantor(n.assetId, Cantor(n.noteType, Cantor(n.conditionsHash,
      Cantor(n.value, Cantor(n.owner, Cantor(n.psi, n.parents)))))))
  }

  lemma CantorNoteInjective(n: Note, m: Note)
    requires CantorNote(n) == CantorNote(m)
    ensures n == m
  {
    var n6, m6 := Cantor(n.psi, n.parents), Cantor(m.psi, m.parents);
    var n5, m5 := Cantor(n.owner, n6), Cantor(m.owner, m6);
    var n4, m4 := Cantor(n.value, n5), Cantor(m.value, m5);
    var n3, m3 := Cantor(n.conditionsHash, n4), Cantor(m.conditionsHash, m4);
    var n2, m2 := Cantor(n.noteType, n3), Cantor(m.noteType, m3);
    var n1, m1 := Cantor(n.assetId, n2), Cantor(m.assetId, m2);
    CantorInjective(n.noteVersion, n1, m.noteVersion, m1);
    CantorInjective(n.assetId, n2, m.assetId, m2);
    CantorInjective(n.noteType, n3, m.noteType, m3);
    CantorInjective(n.conditionsHash, n4, m.conditionsHash, m4);
    CantorInjective(n.value, n5, m.value, m5);
    CantorInjective(n.owner, n6, m.owner, m6);
    CantorInjective(n.psi, n.parents, m.psi, m.parents);
  }

  // Nodes take odd numbers, leaves even ones.
  function CantorNode(l: Fr, r: Fr, k: nat): Fr {
    2 * Cantor(l, Cantor(r, k)) + 1
  }

  function CantorLeaf(n: Note): Fr {
    2 * CantorNote(n) + 2
  }

  lemma CollisionFreeHashesExist()
    ensures CollisionFree(Hashes(CantorNode, CantorLeaf, Cantor))
  {
    var H := Hashes(CantorNode, CantorLeaf, Cantor);
    assert NodeInjective(H.node) by {
      forall l: Fr, r: Fr, k: nat, l': Fr, r': Fr, k': nat | Node(H.node, l, r, k) == Node(H.node, l', r', k')
        ensures l == l' && r == r' && k == k'
      {
        CantorInjective(l, Cantor(r, k), l', Cantor(r', k'));
        CantorInjective(r, k, r', k');
      }
    }
    assert forall n: Note, m: Note :: H.Leaf(n) == H.Leaf(m) ==> n == m by {
      forall n: Note, m: Note | H.Leaf(n) == H.Leaf(m) ensures n == m {
        assert CantorLeaf(n) == CantorLeaf(m);
        CantorNoteInjective(n, m);
      }
    }
    assert forall n: Note :: Below(H.node, H.Leaf(n), 0) by {
      forall n: Note ensures Below(H.node, H.Leaf(n), 0) {
        forall l: Fr, r: Fr, j: nat ensures Node(H.node, l, r, j) != H.Leaf(n) {
          OddIsNotEven(Cantor(l, Cantor(r, j)), CantorNote(n));
        }
      }
    }
    forall p: Fr, i: nat, q: Fr, j: nat | H.Nullifier(p, i) == H.Nullifier(q, j) ensures p == q && i == j {
      CantorInjective(p, i, q, j);
    }
  }

  lemma OddIsNotEven(x: nat, y: nat)
    ensures 2 * x + 1 != 2 * y + 2
  {
  }
}
