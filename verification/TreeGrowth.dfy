/** How the pool's tree can grow: nonzero leaves, up to capacity, that the hash takes. And what a genesis leaf the
    hash would not take does to it. */
module TreeGrowth {
  import opened Hashing
  import opened LeanImt
  import opened Outcomes
  import opened PoolAccount
  import opened Circuits
  import opened PoolSpec

  // A tree as the pool accepts it, one leaf after the other.
  ghost predicate WellGrown(env: Env, leaves: seq<Fr>) {
    && NonZero(leaves) && |leaves| <= CAPACITY
    && forall i: nat :: WasTaken(env, leaves, i)
  }

  // The hash took leaf i when it was inserted.
  ghost predicate WasTaken(env: Env, leaves: seq<Fr>, i: nat) {
    i < |leaves| ==> Hashable(env.hashes.node, env.order, leaves[..i + 1])
  }

  lemma NoLeavesYet(env: Env)
    ensures WellGrown(env, [])
  {
  }

  lemma InsertKeepsGrown(env: Env, s: State, leaf: Fr, eph: Fr, tag: Option<Fr>, wrap: Option<Fr>, ct: seq<Fr>)
    requires WellGrown(env, s.leaves)
    ensures var r := InsertAndEmit(env, s, leaf, eph, tag, wrap, ct); r.Ok? ==> WellGrown(env, r.value.0.leaves)
  {
    hide Hashable, Root;
    if InsertAndEmit(env, s, leaf, eph, tag, wrap, ct).Ok? {
      var now := s.leaves + [leaf];
      forall i: nat ensures WasTaken(env, now, i) {
        if i < |s.leaves| {
          assert WasTaken(env, s.leaves, i);
          assert now[..i + 1] == s.leaves[..i + 1];
        } else if i == |s.leaves| {
          assert now[..i + 1] == now;
        }
      }
    }
  }

  lemma TransferKeepsGrown(env: Env, s: State, circuit: CircuitId, verifier: Key, proof: Proof,
                           inputs: seq<Fr>, rootIndex: U8)
    requires WellGrown(env, s.leaves)
    ensures var r := DoTransfer(env, s, circuit, verifier, proof, inputs, rootIndex); r.Ok? ==> WellGrown(env, r.value.0.leaves)
  {
    hide WellGrown, InsertAndEmit, VerifyCpi, ResolveRoot;
    if DoTransfer(env, s, circuit, verifier, proof, inputs, rootIndex).Ok? {
      var s1 := InsertAndEmit(env, s, inputs[1], inputs[2], Some(inputs[3]), Some(inputs[4]), inputs[5..12]).value.0;
      InsertKeepsGrown(env, s, inputs[1], inputs[2], Some(inputs[3]), Some(inputs[4]), inputs[5..12]);
      InsertKeepsGrown(env, s1, inputs[12], inputs[13], None, None, inputs[14..21]);
    }
  }

  lemma SplitKeepsGrown(env: Env, s: State, verifier: Key, proof: Proof, inputs: seq<Fr>,
                        rootIndex: U8)
    requires WellGrown(env, s.leaves)
    ensures var r := DoSplit(env, s, verifier, proof, inputs, rootIndex); r.Ok? ==> WellGrown(env, r.value.0.leaves)
  {
    hide WellGrown, InsertAndEmit, VerifyCpi, ResolveRoot;
    if DoSplit(env, s, verifier, proof, inputs, rootIndex).Ok? {
      var s1 := InsertAndEmit(env, s, inputs[1], inputs[2], None, None, inputs[3..10]).value.0;
      InsertKeepsGrown(env, s, inputs[1], inputs[2], None, None, inputs[3..10]);
      InsertKeepsGrown(env, s1, inputs[10], inputs[11], None, None, inputs[12..19]);
    }
  }

  lemma OneInsertKeepsGrown(env: Env, s: State, tx: Tx)
    requires WellGrown(env, s.leaves) && (tx.Deposit? || tx.JoinMultisig? || tx.Withdraw?)
    ensures WellGrown(env, Process(env, s, tx).0.leaves)
  {
    hide WellGrown, InsertAndEmit, VerifyCpi, ResolveRoot;
    if Execute(env, s, tx).Ok? {
      var inputs := tx.inputs;
      match tx {
        case Deposit(_, _, _, _, _, _) => InsertKeepsGrown(env, s, inputs[0], inputs[1], None, None, inputs[4..11]);
        case JoinMultisig(_, _, _, _) => InsertKeepsGrown(env, s, inputs[2], inputs[3], None, None, inputs[4..11]);
        case Withdraw(_, _, _, _, _, _, _, _, _) => InsertKeepsGrown(env, s, inputs[5], inputs[6], None, None, inputs[7..14]);
      }
    }
  }

  lemma TransactionKeepsGrown(env: Env, s: State, tx: Tx)
    requires WellGrown(env, s.leaves)
    ensures WellGrown(env, Process(env, s, tx).0.leaves)
  {
    hide WellGrown, InsertAndEmit, DoTransfer, DoSplit, DoDeposit, DoJoin, DoWithdraw;
    match tx {
      case Initialize(authority, pkX, pkY, verifiers, genesis) => InitializeKeepsGrown(env, s, tx);
      case Transfer(multisig, verifier, proof, inputs, rootIndex) =>
        TransferKeepsGrown(env, s, if multisig then TransferMultisigC else TransferC, verifier, proof, inputs, rootIndex);
      case SplitMultisig(verifier, proof, inputs, rootIndex) => SplitKeepsGrown(env, s, verifier, proof, inputs, rootIndex);
      case SetVerifier(_, _, _) =>
      case RotateComplianceKey(_, _, _) =>
      case SetPaused(_, _) =>
      case Donate(_, _) =>
      case _ => OneInsertKeepsGrown(env, s, tx);
    }
  }

  lemma InitializeKeepsGrown(env: Env, s: State, tx: Tx)
    requires WellGrown(env, s.leaves) && tx.Initialize?
    ensures WellGrown(env, Process(env, s, tx).0.leaves)
  {
    hide WellGrown, InsertAndEmit;
    var s0 := s.(initialized := true, authority := tx.authority, paused := false, complianceVersion := 0,
                 compliancePkX := tx.pkX, compliancePkY := tx.pkY, verifiers := tx.verifiers, leaves := []);
    NoLeavesYet(env);
    InsertKeepsGrown(env, s0, tx.genesisLeaf, 0, None, None, [0, 0, 0, 0, 0, 0, 0]);
  }

  lemma {:induction false} RunKeepsGrown(env: Env, txs: seq<Tx>)
    ensures WellGrown(env, Run(env, txs).0.leaves)
  {
    hide Process, WellGrown;
    if txs == [] {
      NoLeavesYet(env);
    } else {
      var n := |txs| - 1;
      RunKeepsGrown(env, txs[..n]);
      TransactionKeepsGrown(env, Run(env, txs[..n]).0, txs[n]);
    }
  }

  // ----- which inserts the hash refuses -----

  // All values of the hash are elements of its field.
  ghost predicate FieldHash(h: NodeHash, order: nat) {
    forall l: Fr, r: Fr, k: nat :: Node(h, l, r, k) < order
  }

  // The last node of a level is the last leaf until it is hashed for the first time, and a hash from there on.
  lemma {:induction false} LastNode(h: NodeHash, order: nat, leaves: seq<Fr>, k: nat)
    requires FieldHash(h, order) && leaves != []
    ensures |Level(h, leaves, k)| == Shr(|leaves| - 1, k) + 1
    ensures var n := |leaves| - 1; var x := Level(h, leaves, k)[Shr(n, k)];
      && (x == leaves[n] || x < order)
      && ((forall j :: 0 <= j < k ==> Shr(n, j) % 2 == 0) ==> x == leaves[n])
  {
    hide Level;
    LevelWidth(h, leaves, k);
    if k == 0 {
      Bottom(h, leaves);
    } else {
      LastNode(h, order, leaves, k - 1);
      LastNodeClimbs(h, leaves, k - 1, Shr(|leaves| - 1, k - 1));
    }
  }

  // Above the leaves, a node with a right neighbour is a hash.
  lemma LeftNodeIsHash(h: NodeHash, order: nat, leaves: seq<Fr>, k: nat, i: nat)
    requires FieldHash(h, order) && k > 0 && i + 1 < |Level(h, leaves, k)|
    ensures Level(h, leaves, k)[i] < order
  {
    var below := Level(h, leaves, k - 1);
    assert Level(h, leaves, k) == Pair(h, below, k - 1);
    assert 2 * i + 1 < |below|;
    assert Level(h, leaves, k)[i] == Node(h, below[2 * i], below[2 * i + 1], k - 1);
  }

  lemma LowestBit(n: nat, from: nat) returns (k: nat)
    requires n < CAPACITY && Shr(n, from) > 0 && from < TREE_DEPTH
    requires forall j :: 0 <= j < from ==> Shr(n, j) % 2 == 0
    ensures k < TREE_DEPTH && Shr(n, k) % 2 == 1 && forall j :: 0 <= j < k ==> Shr(n, j) % 2 == 0
    decreases TREE_DEPTH - from
  {
    k := from;
    if Shr(n, from) % 2 == 0 {
      ShrStep(n, from);
      CapacityIs();
      ShrZeroIff(n, TREE_DEPTH);
      k := LowestBit(n, from + 1);
    }
  }

  // After the first leaf, an insert is refused exactly if its leaf is no field element, or is hashed with a left
  // neighbour that is none. The first leaf is not hashed at all.
  lemma HashableIff(h: NodeHash, order: nat, leaves: seq<Fr>)
    requires FieldHash(h, order) && 0 < |leaves| <= CAPACITY
    ensures var n := |leaves| - 1;
      Hashable(h, order, leaves) <==> n == 0 || (leaves[n] < order && (n % 2 == 1 ==> leaves[n - 1] < order))
  {
    hide Level, FieldHash, HashableAt, Shr;
    var n := |leaves| - 1;
    Bottom(h, leaves);
    ShiftNothing(n);
    if n == 0 {
      forall k | 0 <= k < TREE_DEPTH ensures HashableAt(h, order, leaves, k) {
        NothingHashedAbove(h, order, leaves, 0, k);
      }
    } else {
      if Hashable(h, order, leaves) {
        var k := LowestBit(n, 0);
        LastNode(h, order, leaves, k);
        HashedAt(h, order, leaves, k);
        HashedAt(h, order, leaves, 0);
      }
      if leaves[n] < order && (n % 2 == 1 ==> leaves[n - 1] < order) {
        forall k | 0 <= k < TREE_DEPTH ensures HashableAt(h, order, leaves, k) {
          LastNode(h, order, leaves, k);
          HashedAt(h, order, leaves, k);
          if k > 0 && Shr(n, k) % 2 == 1 {
            LeftNodeIsHash(h, order, leaves, k, Shr(n, k) - 1);
          }
        }
      }
    }
  }

  lemma ShiftNothing(n: nat)
    ensures Shr(n, 0) == n
  {
  }

  lemma HashedAt(h: NodeHash, order: nat, leaves: seq<Fr>, k: nat)
    requires leaves != [] && |Level(h, leaves, k)| == Shr(|leaves| - 1, k) + 1
    ensures var s, i := Level(h, leaves, k), Shr(|leaves| - 1, k);
      HashableAt(h, order, leaves, k) <==> i % 2 == 0 || (s[i - 1] < order && s[i] < order)
  {
  }

  // In any state of any run, every field element but 0 can be inserted, up to capacity, exactly if the genesis leaf
  // is a field element. (Initialization does not check that it is.)
  lemma CanonicalInsertsSucceedIff(env: Env, txs: seq<Tx>)
    requires FieldHash(env.hashes.node, env.order) && env.order > 1
    ensures var s := Run(env, txs).0;
      (forall leaf: Fr :: 0 < leaf < env.order && |s.leaves| < CAPACITY ==> Insertable(env, s, leaf))
      <==> (s.leaves == [] || s.leaves[0] < env.order)
  {
    hide Run, FieldHash, Hashable, InsertAndEmit, Insertable, WellGrown;
    var s := Run(env, txs).0;
    RunKeepsGrown(env, txs);
    if s.leaves == [] || s.leaves[0] < env.order {
      forall leaf: Fr | 0 < leaf < env.order && |s.leaves| < CAPACITY ensures Insertable(env, s, leaf) {
        FieldElementFits(env, s.leaves, leaf);
        InsertableIff(env, s, leaf);
      }
    } else {
      StuckAtGenesis(env, s.leaves);
      InsertableIff(env, s, 1);
    }
  }

  lemma InsertableIff(env: Env, s: State, leaf: Fr)
    requires leaf != 0 && |s.leaves| < CAPACITY
    ensures Insertable(env, s, leaf) <==> Hashable(env.hashes.node, env.order, s.leaves + [leaf])
  {
    hide Hashable, Root;
    assert InsertAndEmit(env, s, leaf, 0, None, None, []).Ok? <==> Hashable(env.hashes.node, env.order, s.leaves + [leaf]);
  }

  lemma FieldElementFits(env: Env, leaves: seq<Fr>, leaf: Fr)
    requires FieldHash(env.hashes.node, env.order) && WellGrown(env, leaves) && |leaves| < CAPACITY && leaf < env.order
    requires leaves == [] || leaves[0] < env.order
    ensures Hashable(env.hashes.node, env.order, leaves + [leaf])
  {
    hide FieldHash, Hashable;
    AllCanonical(env, leaves);
    HashableIff(env.hashes.node, env.order, leaves + [leaf]);
  }

  ghost predicate Insertable(env: Env, s: State, leaf: Fr) {
    forall eph, tag, wrap, ct :: InsertAndEmit(env, s, leaf, eph, tag, wrap, ct).Ok?
  }

  lemma AllCanonical(env: Env, leaves: seq<Fr>)
    requires FieldHash(env.hashes.node, env.order) && WellGrown(env, leaves)
    ensures forall i :: 1 <= i < |leaves| ==> leaves[i] < env.order
  {
    hide FieldHash, Hashable;
    forall i | 1 <= i < |leaves| ensures leaves[i] < env.order {
      assert WasTaken(env, leaves, i);
      HashableIff(env.hashes.node, env.order, leaves[..i + 1]);
    }
  }

  lemma StuckAtGenesis(env: Env, leaves: seq<Fr>)
    requires FieldHash(env.hashes.node, env.order) && WellGrown(env, leaves) && leaves != [] && leaves[0] >= env.order
    ensures |leaves| == 1 && !Hashable(env.hashes.node, env.order, leaves + [1])
  {
    hide FieldHash, Hashable;
    if |leaves| > 1 {
      assert WasTaken(env, leaves, 1);
      HashableIff(env.hashes.node, env.order, leaves[..2]);
    }
    HashableIff(env.hashes.node, env.order, leaves + [1]);
  }
}
