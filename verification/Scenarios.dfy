/** Concrete pools: environments with honest verifiers, and runs that show what can go wrong. */
module Scenarios {
  import opened Hashing
  import opened LeanImt
  import opened Outcomes
  import opened PoolErrors
  import opened PoolAccount
  import opened Circuits
  import opened PoolSpec
  import opened UnspentValue
  import opened Solvency
  import opened SolventRuns
  import InclusionProof
  import Genesis

  // ----- a pool with honest verifiers, where all mints share one asset id -----

  const TABLE: VerifierTable := [1, 2, 3, 4, 5, 6, 7]

  // Verifier program i + 1 accepts exactly what circuit i allows.
  ghost predicate Accepts(H: Hashes, key: Key, pub: seq<Fr>) {
    exists c: CircuitId :: c.Id() + 1 == key && Relation(H, c, pub)
  }

  ghost function OneIdEnv(H: Hashes, order: nat, id: Fr): Env {
    Env(H, order, (key: Key) => id, (key: Key) => key, (proof: Proof) => true,
        (key: Key, pub: seq<Fr>, proof: Proof) => Accepts(H, key, pub))
  }

  lemma TableIsHonest(H: Hashes, order: nat, id: Fr)
    ensures HonestTable(OneIdEnv(H, order, id), TABLE)
  {
    var env := OneIdEnv(H, order, id);
    forall c: CircuitId ensures Honest(env, TABLE[c.Id()], c) {
      TableKey(c);
      forall pub: seq<Fr>, proof: Proof | env.Accepts(TABLE[c.Id()], pub, proof) ensures Relation(H, c, pub) {
        var d: CircuitId :| d.Id() + 1 == TABLE[c.Id()] && Relation(H, d, pub);
        SameCircuit(c, d);
      }
    }
  }

  lemma TableKey(c: CircuitId)
    ensures TABLE[c.Id()] == c.Id() + 1
  {
  }

  lemma SameCircuit(c: CircuitId, d: CircuitId)
    requires c.Id() == d.Id()
    ensures c == d
  {
  }

  // ----- initialize, then deposit one note -----

  const ZEROS: seq<Fr> := [0, 0, 0, 0, 0, 0, 0]

  function Start(genesis: Fr): Tx {
    Initialize(0, 0, 0, TABLE, genesis)
  }

  function DepositOf(H: Hashes, note: Note): Tx
    requires note.value < 0x1_0000_0000_0000_0000
  {
    Deposit(1, note.value, 1, 0, [H.Leaf(note), 0, note.value, note.assetId] + ZEROS, note.value)
  }

  function Started(genesis: Fr): State {
    EMPTY.(initialized := true, verifiers := TABLE, leaves := [genesis])
  }

  function Deposited(H: Hashes, genesis: Fr, note: Note): State {
    Started(genesis).(leaves := [genesis, H.Leaf(note)], assets := map[note.assetId := 1], vaults := map[1 := note.value])
  }

  lemma FirstLeafIsTaken(h: NodeHash, order: nat, leaf: Fr)
    ensures Hashable(h, order, [leaf])
  {
    hide Level, HashableAt;
    assert Shr(0, 0) == 0;
    forall k | 0 <= k < TREE_DEPTH ensures HashableAt(h, order, [leaf], k) {
      NothingHashedAbove(h, order, [leaf], 0, k);
    }
  }

  lemma SecondLeafIsTaken(h: NodeHash, order: nat, a: Fr, b: Fr)
    requires a < order && b < order
    ensures Hashable(h, order, [a, b])
  {
    hide HashableAt;
    var leaves := [a, b];
    ShrStep(1, 0);
    assert Shr(1, 1) == 0;
    forall k | 0 <= k < TREE_DEPTH ensures HashableAt(h, order, leaves, k) {
      if k == 0 { BottomIsTaken(h, order, a, b); } else { NothingHashedAbove(h, order, leaves, 1, k); }
    }
  }

  lemma BottomIsTaken(h: NodeHash, order: nat, a: Fr, b: Fr)
    requires a < order && b < order
    ensures HashableAt(h, order, [a, b], 0)
  {
  }

  lemma StartSucceeds(env: Env, genesis: Fr)
    requires genesis != 0
    ensures Execute(env, EMPTY, Start(genesis)).Ok? && Execute(env, EMPTY, Start(genesis)).value.0 == Started(genesis)
  {
    hide Hashable, Root;
    FirstLeafIsTaken(env.hashes.node, env.order, genesis);
    assert [] + [genesis] == [genesis];
  }

  lemma DepositSucceeds(H: Hashes, order: nat, genesis: Fr, note: Note)
    requires note.value < 0x1_0000_0000_0000_0000 && H.Leaf(note) != 0 && genesis < order && H.Leaf(note) < order
    ensures var r := Execute(OneIdEnv(H, order, note.assetId), Started(genesis), DepositOf(H, note));
      r.Ok? && r.value.0 == Deposited(H, genesis, note)
  {
    hide Hashable, Root, Relation;
    var env, s, tx := OneIdEnv(H, order, note.assetId), Started(genesis), DepositOf(H, note);
    SecondLeafIsTaken(H.node, order, genesis, H.Leaf(note));
    assert s.leaves + [H.Leaf(note)] == [genesis, H.Leaf(note)];
    DepositIsProved(H, order, note);
    assert |tx.inputs| == 11 && tx.inputs[0] == H.Leaf(note) && tx.inputs[2] == note.value && tx.inputs[3] == note.assetId;
  }

  lemma DepositIsProved(H: Hashes, order: nat, note: Note)
    requires note.value < 0x1_0000_0000_0000_0000
    ensures OneIdEnv(H, order, note.assetId).Accepts(1, [0, 0] + DepositOf(H, note).inputs, 0)
  {
    var pub := [0, 0] + DepositOf(H, note).inputs;
    assert DepositHolds(H, pub, note);
    assert Relation(H, DepositC, pub);
    assert DepositC.Id() + 1 == 1;
  }

  lemma TwoSteps(env: Env, a: Tx, b: Tx)
    requires Execute(env, EMPTY, a).Ok? && Execute(env, Execute(env, EMPTY, a).value.0, b).Ok?
    ensures Run(env, [a, b]).0 == Execute(env, Execute(env, EMPTY, a).value.0, b).value.0
  {
    hide Execute;
    assert [a, b][..1] == [a] && [a][..0] == [];
    assert Run(env, [a]).0 == Execute(env, EMPTY, a).value.0;
  }

  lemma RunDeposits(H: Hashes, order: nat, genesis: Fr, note: Note)
    requires note.value < 0x1_0000_0000_0000_0000 && H.Leaf(note) != 0 && genesis != 0
    requires genesis < order && H.Leaf(note) < order
    ensures Run(OneIdEnv(H, order, note.assetId), [Start(genesis), DepositOf(H, note)]).0 == Deposited(H, genesis, note)
  {
    hide Execute;
    var env := OneIdEnv(H, order, note.assetId);
    StartSucceeds(env, genesis);
    DepositSucceeds(H, order, genesis, note);
    TwoSteps(env, Start(genesis), DepositOf(H, note));
  }

  lemma RunIsTrusted(H: Hashes, order: nat, id: Fr, premine: Option<Note>, genesis: Fr, note: Note)
    requires Opened(H, genesis) == premine && Below(H.node, genesis, 0) && note.value < 0x1_0000_0000_0000_0000
    ensures var env, txs := OneIdEnv(H, order, id), [Start(genesis), DepositOf(H, note)];
      AllTrusted(env, premine, txs) && NoDonations(txs)
  {
    hide Execute, HonestTable, Run, Opened, Below;
    TableIsHonest(H, order, id);
  }

  // ----- a premined pool that is not backed -----

  // Whatever the hash, a genesis note worth something and one deposit of its asset make a trusted run, without
  // donations, whose state is not backed.
  lemma PreminedPoolIsNotBacked(H: Hashes, note: Note) returns (env: Env, txs: seq<Tx>)
    requires CollisionFree(H) && H.Leaf(note) != 0 && note.value > 0
    ensures env.hashes == H && AllTrusted(env, Some(note), txs) && NoDonations(txs) && !Backed(env, Run(env, txs).0)
  {
    hide CollisionFree, AllTrusted, NoDonations, Run, Backed, Opened, Below;
    var paid := SomeNote(H, note);
    var genesis := H.Leaf(note);
    var order := genesis + H.Leaf(paid) + 1;
    env, txs := OneIdEnv(H, order, note.assetId), [Start(genesis), DepositOf(H, paid)];
    OpenedIsUnique(H, note);
    LeafIsBelow(H, note);
    RunIsTrusted(H, order, note.assetId, Some(note), genesis, paid);
    RunDeposits(H, order, genesis, paid);
    Genesis.GenesisValueIsUnbacked(env, note, txs);
  }

  // The same note worth 0 or 1, whichever does not commit to 0.
  lemma SomeNote(H: Hashes, note: Note) returns (paid: Note)
    requires CollisionFree(H)
    ensures H.Leaf(paid) != 0 && paid.assetId == note.assetId && paid.value < 2
  {
    paid := note.(value := 0);
    if H.Leaf(paid) == 0 {
      paid := note.(value := 1);
      assert paid != note.(value := 0);
    }
  }

  // ----- two mints with one asset id -----

  // Withdraw the deposited note in full, but ask the vault of another mint with the same asset id for it.
  function WithdrawFromOther(H: Hashes, note: Note): Tx
    requires note.value < 0x1_0000_0000_0000_0000
  {
    Withdraw(false, 2, 2, 9, 3, 0,
             [note.value, 9, 0, H.Nullifier(note.psi, 1), note.assetId, H.Leaf(note.(value := 0)), 0] + ZEROS, note.value, 1)
  }

  lemma ThirdLeafIsTaken(h: NodeHash, order: nat, a: Fr, b: Fr, c: Fr)
    requires Node(h, a, b, 0) < order && c < order
    ensures Hashable(h, order, [a, b, c])
  {
    hide HashableAt;
    ShrStep(2, 0);
    ShrStep(2, 1);
    assert Shr(2, 1) == 1 && Shr(2, 2) == 0;
    forall k | 0 <= k < TREE_DEPTH ensures HashableAt(h, order, [a, b, c], k) {
      if k <= 1 { LowLevelsAreTaken(h, order, a, b, c, k); } else { NothingHashedAbove(h, order, [a, b, c], 2, k); }
    }
  }

  lemma LowLevelsAreTaken(h: NodeHash, order: nat, a: Fr, b: Fr, c: Fr, k: nat)
    requires Node(h, a, b, 0) < order && c < order && k <= 1
    ensures HashableAt(h, order, [a, b, c], k)
  {
    var leaves := [a, b, c];
    if k == 1 {
      assert Level(h, leaves, 0) == leaves;
      assert Level(h, leaves, 1) == Pair(h, leaves, 0);
      assert Pair(h, leaves, 0)[0] == Node(h, a, b, 0) && Pair(h, leaves, 0)[1] == c;
    }
  }

  lemma WithdrawalIsProved(H: Hashes, order: nat, genesis: Fr, note: Note)
    requires NeverZero(H.node) && genesis != 0 && H.Leaf(note) != 0 && note.value < 0x1_0000_0000_0000_0000
    ensures var tx, root := WithdrawFromOther(H, note), Root(H.node, [genesis, H.Leaf(note)]);
      var i := tx.inputs;
      OneIdEnv(H, order, note.assetId).Accepts(3, [i[0], i[1], i[2], 0, 0, i[3], root] + i[4..], 0)
  {
    hide Root, InclusionProof.Path, InclusionProof.InclusionRoot;
    var tx, leaves := WithdrawFromOther(H, note), [genesis, H.Leaf(note)];
    var i, root := tx.inputs, Root(H.node, leaves);
    var pub := [i[0], i[1], i[2], 0, 0, i[3], root] + i[4..];
    var sp, change := Spend(note, 1, InclusionProof.Path(H.node, leaves, 1)), note.(value := 0);
    InclusionProof.PathFoldsToRoot(H.node, leaves, 1);
    assert Opens(H, sp, i[3], root);
    assert |pub| == 17 && pub[5] == i[3] && pub[6] == root && pub[7] == i[4] && pub[8] == i[5];
    assert WithdrawHolds(H, pub, sp, change);
    assert Relation(H, WithdrawC, pub);
    assert WithdrawC.Id() + 1 == 3;
  }

  lemma WithdrawalPassesChecks(H: Hashes, order: nat, genesis: Fr, note: Note)
    requires NeverZero(H.node) && genesis != 0 && H.Leaf(note) != 0 && H.Leaf(note.(value := 0)) != 0
    requires note.value < 0x1_0000_0000_0000_0000
    requires Node(H.node, genesis, H.Leaf(note), 0) < order && H.Leaf(note.(value := 0)) < order
    ensures PassesChecks(OneIdEnv(H, order, note.assetId), Deposited(H, genesis, note), WithdrawFromOther(H, note))
  {
    hide Root, Relation, Hashable, Accepts;
    var env, s, tx := OneIdEnv(H, order, note.assetId), Deposited(H, genesis, note), WithdrawFromOther(H, note);
    var leaves, change := s.leaves, H.Leaf(note.(value := 0));
    assert |tx.inputs| == 14 && tx.inputs[..7] == [note.value, 9, 0, H.Nullifier(note.psi, 1), note.assetId, change, 0];
    RootNonZero(H.node, leaves);
    SlotOne(H.node, leaves);
    ThirdLeafIsTaken(H.node, order, genesis, H.Leaf(note), change);
    assert leaves + [change] == [genesis, H.Leaf(note), change];
    WithdrawalIsProved(H, order, genesis, note);
  }

  lemma SlotOne(h: NodeHash, leaves: seq<Fr>)
    requires |leaves| == 2
    ensures SlotRoot(h, leaves, 1) == Root(h, leaves)
  {
    hide Root;
    LatestPushUnique(2, 1, 1);
    assert leaves[..2] == leaves;
  }

  // With Cantor's hashes 1 is neither a note commitment nor a tree node.
  lemma OneIsSpare(H: Hashes)
    requires H == Hashes(CantorNode, CantorLeaf, Cantor)
    ensures Opened(H, 1) == None && Below(H.node, 1, 0)
  {
    forall n: Note ensures H.Leaf(n) > 1 {}
    forall l: Fr, r: Fr, k: nat ensures Node(H.node, l, r, k) != 1 {}
  }

  // A trusted run without donations after which a withdrawal that passes every check finds its vault short.
  lemma CollidingMintIsShort(note: Note) returns (env: Env, txs: seq<Tx>, tx: Tx)
    requires 0 < note.value < 0x1_0000_0000_0000_0000
    ensures CollisionFree(env.hashes) && AllTrusted(env, None, txs) && NoDonations(txs)
    ensures Execute(env, Run(env, txs).0, tx) == Err(TokenTransferFailed)
  {
    hide CollisionFree, AllTrusted, NoDonations, Run, Opened, Below, Execute, PassesChecks;
    var H := Hashes(CantorNode, CantorLeaf, Cantor);
    CollisionFreeHashesExist();
    OneIsSpare(H);
    var order := H.Leaf(note) + H.Leaf(note.(value := 0)) + Node(H.node, 1, H.Leaf(note), 0) + 2;
    env, txs := OneIdEnv(H, order, note.assetId), [Start(1), DepositOf(H, note)];
    tx := WithdrawFromOther(H, note);
    CantorNeverZero(H, note);
    RunIsTrusted(H, order, note.assetId, None, 1, note);
    RunDeposits(H, order, 1, note);
    WithdrawalPassesChecks(H, order, 1, note);
    WithdrawalFailsIff(env, txs, tx);
  }

  lemma CantorNeverZero(H: Hashes, note: Note)
    requires H == Hashes(CantorNode, CantorLeaf, Cantor)
    ensures NeverZero(H.node) && H.Leaf(note) != 0 && H.Leaf(note.(value := 0)) != 0
  {
  }
}
