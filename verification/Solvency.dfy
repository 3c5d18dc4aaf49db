/** Every asset is backed: in every reachable state each registered vault holds at least the value of the
    unspent notes of its asset, and exactly that value when nobody donates. */
module Solvency {
  import opened Hashing
  import opened LeanImt
  import opened Outcomes
  import opened PoolAccount
  import opened Circuits
  import opened PoolSpec
  import opened UnspentValue

  // ----- the trust assumptions, transaction by transaction -----

  // The operator installs honest verifiers and a genesis leaf that is no tree node and commits to `premine`,
  // if to any note at all.
  ghost predicate Trusted(env: Env, premine: Option<Note>, tx: Tx) {
    match tx
    case Initialize(_, _, _, verifiers, genesis) =>
      && Opened(env.hashes, genesis) == premine && Below(env.hashes.node, genesis, 0)
      && HonestTable(env, verifiers)
    case SetVerifier(_, circuitId, program) => forall c: CircuitId :: c.Id() == circuitId ==> Honest(env, program, c)
    case _ => true
  }

  ghost predicate HonestTable(env: Env, verifiers: VerifierTable) {
    forall c: CircuitId :: Honest(env, verifiers[c.Id()], c)
  }

  // ----- the invariant -----

  ghost predicate Inv(env: Env, s: State) {
    && TreeInv(env.hashes, s.leaves, s.nullifiers)
    && (forall a :: a in s.assets ==> env.AssetId(s.assets[a]) == a)
    && (if s.initialized then HonestTable(env, s.verifiers) else s.leaves == [] && s.nullifiers == {} && s.assets == map[])
  }

  ghost function Owed(env: Env, s: State, asset: Fr): nat {
    Unspent(env.hashes, s.leaves, s.nullifiers, asset)
  }

  // Each registered asset's vault covers its unspent notes.
  ghost predicate Backed(env: Env, s: State) {
    forall a :: a in s.assets ==> Vault(s, s.assets[a]) >= Owed(env, s, a)
  }

  // Vault and unspent notes agree to the last unit, for every mint.
  ghost predicate Exact(env: Env, s: State) {
    forall mint: Key :: Vault(s, mint) == if IsRegistered(env, s, mint) then Owed(env, s, env.AssetId(mint)) else 0
  }

  ghost predicate IsRegistered(env: Env, s: State, mint: Key) {
    env.AssetId(mint) in s.assets && s.assets[env.AssetId(mint)] == mint
  }

  // The tokens held for an asset, and the value the genesis leaf brought in without tokens.
  function Held(s: State, asset: Fr): nat {
    if asset in s.assets then Vault(s, s.assets[asset]) else 0
  }

  ghost function Premined(premine: Option<Note>, s: State, asset: Fr): nat {
    if s.initialized && premine.Some? then ValueIn(premine.value, asset) else 0
  }

  // For every asset, registered or not, the unspent value is at most what is held and what was premined ...
  ghost predicate Covered(env: Env, premine: Option<Note>, s: State) {
    forall a :: Owed(env, s, a) <= Held(s, a) + Premined(premine, s, a)
  }

  // ... or exactly that, with nothing in any other vault.
  ghost predicate AddsUp(env: Env, premine: Option<Note>, s: State) {
    && (forall mint: Key :: !IsRegistered(env, s, mint) ==> Vault(s, mint) == 0)
    && (forall a :: Owed(env, s, a) == Held(s, a) + Premined(premine, s, a))
  }

  // ----- effect of one spend and of one output on the tree -----

  ghost function ValueIn(note: Note, asset: Fr): nat {
    if note.assetId == asset then note.value else 0
  }

  lemma SpendEffect(H: Hashes, leaves: seq<Fr>, spent: set<Fr>, slot: nat, sp: Spend, nf: Fr)
    requires CollisionFree(H) && TreeInv(H, leaves, spent) && slot < ROOT_RING && nf !in spent
    requires SlotRoot(H.node, leaves, slot) != 0 && Opens(H, sp, nf, SlotRoot(H.node, leaves, slot))
    ensures TreeInv(H, leaves, spent + {nf})
    ensures forall a :: Unspent(H, leaves, spent, a) == Unspent(H, leaves, spent + {nf}, a) + ValueIn(sp.note, a)
  {
    hide SlotRoot, Opens, TreeInv, CollisionFree, Unspent;
    SpendHitsItsLeaf(H, leaves, spent, slot, sp, nf);
    RecordKeepsTree(H, leaves, spent, nf, sp.index, sp.note);
    forall a ensures Unspent(H, leaves, spent, a) == Unspent(H, leaves, spent + {nf}, a) + ValueIn(sp.note, a) {
      RecordNullifier(H, leaves, spent, nf, sp.index, sp.note, a);
    }
  }

  lemma OutputEffect(H: Hashes, leaves: seq<Fr>, spent: set<Fr>, leaf: Fr, note: Note)
    requires CollisionFree(H) && TreeInv(H, leaves, spent)
    requires leaf == H.Leaf(note) && leaf != 0 && |leaves| < CAPACITY
    ensures TreeInv(H, leaves + [leaf], spent)
    ensures forall a :: Unspent(H, leaves + [leaf], spent, a) == Unspent(H, leaves, spent, a) + ValueIn(note, a)
  {
    LeafIsBelow(H, note);
    hide TreeInv, Unspent;
    AppendKeepsTree(H, leaves, spent, leaf);
    forall a ensures Unspent(H, leaves + [leaf], spent, a) == Unspent(H, leaves, spent, a) + ValueIn(note, a) {
      AppendNote(H, leaves, spent, note, a);
    }
  }

  lemma LeafIsBelow(H: Hashes, note: Note)
    requires CollisionFree(H)
    ensures Below(H.node, H.Leaf(note), 0)
  {
  }

  // ----- what each successful handler did -----

  lemma TransferDone(env: Env, s: State, circuit: CircuitId, verifier: Key, proof: Proof, inputs: Public, rootIndex: U8)
    requires circuit.TransferC? || circuit.TransferMultisigC?
    requires HonestTable(env, s.verifiers)
    requires DoTransfer(env, s, circuit, verifier, proof, inputs, rootIndex).Ok?
    ensures var s' := DoTransfer(env, s, circuit, verifier, proof, inputs, rootIndex).value.0;
            |inputs| == 21 && OneInTwoOut(env, s, s', rootIndex, inputs[0], inputs[1], inputs[12])
  {
    hide SlotRoot, Root;
    var root := ResolveRoot(env, s, rootIndex).value;
    var full := [s.compliancePkX, s.compliancePkY, inputs[0], root] + inputs[1..];
    assert env.Accepts(s.verifiers[circuit.Id()], full, proof);
    assert Honest(env, s.verifiers[circuit.Id()], circuit);
    var sp, memo, change :| TransferHolds(env.hashes, full, sp, memo, change);
    assert SplitsInTwo(env.hashes, sp, inputs[0], root, inputs[1], inputs[12], memo, change);
  }

  lemma SplitDone(env: Env, s: State, verifier: Key, proof: Proof, inputs: Public, rootIndex: U8)
    requires HonestTable(env, s.verifiers)
    requires DoSplit(env, s, verifier, proof, inputs, rootIndex).Ok?
    ensures var s' := DoSplit(env, s, verifier, proof, inputs, rootIndex).value.0;
            |inputs| == 19 && OneInTwoOut(env, s, s', rootIndex, inputs[0], inputs[1], inputs[10])
  {
    hide SlotRoot, Root;
    var root := ResolveRoot(env, s, rootIndex).value;
    var full := [s.compliancePkX, s.compliancePkY, inputs[0], root] + inputs[1..];
    assert env.Accepts(s.verifiers[4], full, proof);
    assert Honest(env, s.verifiers[SplitC.Id()], SplitC);
    var sp, out1, out2 :| SplitHolds(env.hashes, full, sp, out1, out2);
    assert SplitsInTwo(env.hashes, sp, inputs[0], root, inputs[1], inputs[10], out1, out2);
  }

  ghost predicate OneInTwoOut(env: Env, s: State, s': State, slot: U8, nf: Fr, leaf1: Fr, leaf2: Fr) {
    && SlotRoot(env.hashes.node, s.leaves, slot) != 0 && nf !in s.nullifiers
    && leaf1 != 0 && leaf2 != 0 && |s.leaves| + 2 <= CAPACITY
    && s' == s.(leaves := s.leaves + [leaf1] + [leaf2], nullifiers := s.nullifiers + {nf})
    && exists sp, out1, out2 ::
         SplitsInTwo(env.hashes, sp, nf, SlotRoot(env.hashes.node, s.leaves, slot), leaf1, leaf2, out1, out2)
  }

  ghost predicate JoinsTwo(H: Hashes, a: Spend, b: Spend, nfA: Fr, nfB: Fr, root: Fr, leaf: Fr, out: Note) {
    && Opens(H, a, nfA, root) && Opens(H, b, nfB, root) && leaf == H.Leaf(out)
    && a.note.assetId == b.note.assetId == out.assetId && a.note.value + b.note.value == out.value
  }

  ghost predicate TwoInOneOut(env: Env, s: State, s': State, slot: U8, nfA: Fr, nfB: Fr, leaf: Fr) {
    && SlotRoot(env.hashes.node, s.leaves, slot) != 0
    && nfA !in s.nullifiers && nfB !in s.nullifiers + {nfA}
    && leaf != 0 && |s.leaves| < CAPACITY
    && s' == s.(leaves := s.leaves + [leaf], nullifiers := s.nullifiers + {nfA} + {nfB})
    && exists a, b, out :: JoinsTwo(env.hashes, a, b, nfA, nfB, SlotRoot(env.hashes.node, s.leaves, slot), leaf, out)
  }

  lemma JoinDone(env: Env, s: State, verifier: Key, proof: Proof, inputs: Public, rootIndex: U8)
    requires HonestTable(env, s.verifiers)
    requires DoJoin(env, s, verifier, proof, inputs, rootIndex).Ok?
    ensures var s' := DoJoin(env, s, verifier, proof, inputs, rootIndex).value.0;
            |inputs| == 11 && TwoInOneOut(env, s, s', rootIndex, inputs[0], inputs[1], inputs[2])
  {
    hide SlotRoot, Root;
    var root := ResolveRoot(env, s, rootIndex).value;
    var full := [s.compliancePkX, s.compliancePkY, inputs[0], inputs[1], root] + inputs[2..];
    assert env.Accepts(s.verifiers[5], full, proof);
    assert Honest(env, s.verifiers[JoinC.Id()], JoinC);
    var a, b, out :| JoinHolds(env.hashes, full, a, b, out);
    assert JoinsTwo(env.hashes, a, b, inputs[0], inputs[1], root, inputs[2], out);
  }

  ghost predicate Pays(H: Hashes, sp: Spend, nf: Fr, root: Fr, asset: Fr, amount: nat, leaf: Fr, change: Note) {
    && Opens(H, sp, nf, root) && leaf == H.Leaf(change)
    && asset == sp.note.assetId == change.assetId && sp.note.value == change.value + amount
  }

  ghost predicate PaidOut(env: Env, s: State, s1: State, slot: U8, nf: Fr, mint: Key, amount: nat, leaf: Fr) {
    && SlotRoot(env.hashes.node, s.leaves, slot) != 0 && nf !in s.nullifiers
    && leaf != 0 && |s.leaves| < CAPACITY
    && s1 == s.(leaves := s.leaves + [leaf], nullifiers := s.nullifiers + {nf})
    && exists sp, change ::
         Pays(env.hashes, sp, nf, SlotRoot(env.hashes.node, s.leaves, slot), env.AssetId(mint), amount, leaf, change)
  }

  lemma WithdrawAccepted(env: Env, s: State, circuit: CircuitId, assetMint: Key, mint: Key, destination: Key,
                         verifier: Key, proof: Proof, inputs: Public, amount: U64, rootIndex: U8)
    requires circuit.WithdrawC? || circuit.WithdrawMultisigC?
    requires HonestTable(env, s.verifiers)
    requires AcceptWithdraw(env, s, circuit, assetMint, mint, destination, verifier, proof, inputs, amount, rootIndex).Ok?
    ensures var s1 := AcceptWithdraw(env, s, circuit, assetMint, mint, destination, verifier, proof, inputs, amount, rootIndex).value.0;
            |inputs| == 14 && PaidOut(env, s, s1, rootIndex, inputs[3], mint, amount, inputs[5])
  {
    hide SlotRoot, Root;
    var root := ResolveRoot(env, s, rootIndex).value;
    var full := [inputs[0], inputs[1], inputs[2], s.compliancePkX, s.compliancePkY, inputs[3], root] + inputs[4..];
    assert env.Accepts(s.verifiers[circuit.Id()], full, proof);
    assert Honest(env, s.verifiers[circuit.Id()], circuit);
    var sp, change :| WithdrawHolds(env.hashes, full, sp, change);
    assert Pays(env.hashes, sp, inputs[3], root, env.AssetId(mint), amount, inputs[5], change);
  }

  ghost predicate PaidIn(env: Env, s: State, s': State, mint: Key, amount: nat, leaf: Fr) {
    var id := env.AssetId(mint);
    && leaf != 0 && |s.leaves| < CAPACITY && (id in s.assets ==> s.assets[id] == mint)
    && s' == s.(leaves := s.leaves + [leaf], assets := s.assets[id := mint],
                vaults := s.vaults[mint := Vault(s, mint) + amount])
    && exists note: Note :: leaf == env.hashes.Leaf(note) && note.assetId == id && note.value == amount
  }

  lemma DepositDone(env: Env, s: State, mint: Key, funds: nat, verifier: Key, proof: Proof, inputs: Public, amount: U64)
    requires HonestTable(env, s.verifiers)
    requires DoDeposit(env, s, mint, funds, verifier, proof, inputs, amount).Ok?
    ensures var s' := DoDeposit(env, s, mint, funds, verifier, proof, inputs, amount).value.0;
            |inputs| == 11 && PaidIn(env, s, s', mint, amount, inputs[0])
  {
    hide Root;
    var full := [s.compliancePkX, s.compliancePkY] + inputs;
    assert env.Accepts(s.verifiers[0], full, proof);
    assert Honest(env, s.verifiers[DepositC.Id()], DepositC);
    var note :| DepositHolds(env.hashes, full, note);
    assert inputs[0] == env.hashes.Leaf(note) && note.assetId == env.AssetId(mint) && note.value == amount;
  }

  // ----- what that does to the unspent value -----

  lemma OneInTwoOutEffect(env: Env, s: State, s': State, slot: U8, nf: Fr, leaf1: Fr, leaf2: Fr)
    requires CollisionFree(env.hashes) && TreeInv(env.hashes, s.leaves, s.nullifiers)
    requires OneInTwoOut(env, s, s', slot, nf, leaf1, leaf2)
    ensures TreeInv(env.hashes, s'.leaves, s'.nullifiers)
    ensures forall a :: Owed(env, s', a) == Owed(env, s, a)
  {
    hide SlotRoot, TreeInv, CollisionFree, Unspent, Opens;
    var H, spent := env.hashes, s.nullifiers + {nf};
    var sp, out1, out2 :| SplitsInTwo(H, sp, nf, SlotRoot(H.node, s.leaves, slot), leaf1, leaf2, out1, out2);
    SpendEffect(H, s.leaves, s.nullifiers, slot, sp, nf);
    OutputEffect(H, s.leaves, spent, leaf1, out1);
    OutputEffect(H, s.leaves + [leaf1], spent, leaf2, out2);
  }

  lemma TwoInOneOutEffect(env: Env, s: State, s': State, slot: U8, nfA: Fr, nfB: Fr, leaf: Fr)
    requires CollisionFree(env.hashes) && TreeInv(env.hashes, s.leaves, s.nullifiers)
    requires TwoInOneOut(env, s, s', slot, nfA, nfB, leaf)
    ensures TreeInv(env.hashes, s'.leaves, s'.nullifiers)
    ensures forall a :: Owed(env, s', a) == Owed(env, s, a)
  {
    hide SlotRoot, TreeInv, CollisionFree, Unspent, Opens;
    var H := env.hashes;
    var a, b, out :| JoinsTwo(H, a, b, nfA, nfB, SlotRoot(H.node, s.leaves, slot), leaf, out);
    SpendEffect(H, s.leaves, s.nullifiers, slot, a, nfA);
    SpendEffect(H, s.leaves, s.nullifiers + {nfA}, slot, b, nfB);
    OutputEffect(H, s.leaves, s.nullifiers + {nfA} + {nfB}, leaf, out);
  }

  lemma PaidOutEffect(env: Env, s: State, s1: State, slot: U8, nf: Fr, mint: Key, amount: nat, leaf: Fr)
    requires CollisionFree(env.hashes) && TreeInv(env.hashes, s.leaves, s.nullifiers)
    requires PaidOut(env, s, s1, slot, nf, mint, amount, leaf)
    ensures TreeInv(env.hashes, s1.leaves, s1.nullifiers)
    ensures forall a :: Owed(env, s, a) == Owed(env, s1, a) + if a == env.AssetId(mint) then amount else 0
  {
    hide SlotRoot, TreeInv, CollisionFree, Unspent, Opens;
    var H := env.hashes;
    var sp, change :| Pays(H, sp, nf, SlotRoot(H.node, s.leaves, slot), env.AssetId(mint), amount, leaf, change);
    SpendEffect(H, s.leaves, s.nullifiers, slot, sp, nf);
    OutputEffect(H, s.leaves, s.nullifiers + {nf}, leaf, change);
  }

  lemma PaidInEffect(env: Env, s: State, s': State, mint: Key, amount: nat, leaf: Fr)
    requires CollisionFree(env.hashes) && TreeInv(env.hashes, s.leaves, s.nullifiers)
    requires PaidIn(env, s, s', mint, amount, leaf)
    ensures TreeInv(env.hashes, s'.leaves, s'.nullifiers)
    ensures forall a :: Owed(env, s', a) == Owed(env, s, a) + if a == env.AssetId(mint) then amount else 0
  {
    hide TreeInv, CollisionFree, Unspent;
    var H := env.hashes;
    var note: Note :| leaf == H.Leaf(note) && note.assetId == env.AssetId(mint) && note.value == amount;
    OutputEffect(H, s.leaves, s.nullifiers, leaf, note);
  }
}
