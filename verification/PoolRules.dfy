/** Exactly when the pool lets notes in, lets them be spent, and lets its settings be changed. */
module PoolRules {
  import opened Hashing
  import opened LeanImt
  import opened Outcomes
  import opened PoolErrors
  import opened PoolAccount
  import opened Circuits
  import opened PoolSpec
  import opened Acceptance

  // ----- acceptance -----

  // A leaf may become the next one of these leaves.
  predicate Insertable(env: Env, leaves: seq<Fr>, leaf: Fr) {
    leaf != 0 && |leaves| < CAPACITY && Hashable(env.hashes.node, env.order, leaves + [leaf])
  }

  // The program given is the circuit's registered verifier, and accepts the proof of these inputs.
  predicate Proves(env: Env, s: State, circuit: CircuitId, given: Key, proof: Proof, full: seq<Fr>) {
    var registered := s.verifiers[circuit.Id()];
    env.Decompresses(proof) && given == registered && registered != 0 && env.Accepts(registered, full, proof)
  }

  predicate Live(env: Env, s: State, rootIndex: U8) {
    SlotRoot(env.hashes.node, s.leaves, rootIndex) != 0
  }

  lemma AllHoldConcatenates(a: seq<Check>, b: seq<Check>)
    ensures AllHold(a + b) <==> AllHold(a) && AllHold(b)
  {
    if AllHold(a + b) {
      assert forall i :: 0 <= i < |a| ==> a[i] == (a + b)[i];
      assert forall i :: 0 <= i < |b| ==> b[i] == (a + b)[|a| + i];
    }
  }

  lemma AcceptedIffAllHold(env: Env, s: State, tx: Tx)
    ensures Execute(env, s, tx).Ok? <==> AllHold(Checks(env, s, tx))
  {
    hide Execute, Checks, AllHold;
    Decided(env, s, tx);
    NoFailureIffAllHold(Checks(env, s, tx));
  }

  lemma LeafHolds(env: Env, leaves: seq<Fr>, leaf: Fr)
    ensures AllHold(LeafChecks(env, leaves, leaf)) <==> Insertable(env, leaves, leaf)
  {
    hide Hashable;
    var c := LeafChecks(env, leaves, leaf);
    if AllHold(c) {
      assert c[0].holds && c[1].holds && c[2].holds;
    }
  }

  lemma ProofHolds(env: Env, s: State, circuit: CircuitId, given: Key, proof: Proof, full: seq<Fr>)
    ensures AllHold(ProofChecks(env, s.verifiers[circuit.Id()], given, proof, full))
            <==> Proves(env, s, circuit, given, proof, full)
  {
    var c := ProofChecks(env, s.verifiers[circuit.Id()], given, proof, full);
    if AllHold(c) {
      assert c[0].holds && c[1].holds && c[2].holds && c[3].holds;
    }
  }

  lemma FreshHolds(s: State, nullifier: Fr)
    ensures AllHold(Fresh(s, nullifier)) <==> nullifier !in s.nullifiers
  {
    if AllHold(Fresh(s, nullifier)) {
      assert Fresh(s, nullifier)[0].holds;
    }
  }

  lemma SpendHolds(env: Env, s: State, inputs: Public, count: nat, rootIndex: U8)
    ensures AllHold(SpendChecks(env, s, inputs, count, rootIndex))
            <==> s.initialized && |inputs| == count && !s.paused && Live(env, s, rootIndex)
  {
    hide SlotRoot;
    var c := SpendChecks(env, s, inputs, count, rootIndex);
    if AllHold(c) {
      assert c[0].holds && c[1].holds && c[2].holds && c[3].holds;
    }
  }

  // A transfer goes through exactly when the pool runs, the root named is live, its two leaves can be inserted
  // one after the other, its nullifier is new, and the registered verifier accepts the caller's inputs with the
  // pool's own key and root among them.
  lemma TransferAcceptedIff(env: Env, s: State, tx: Tx)
    requires tx.Transfer?
    ensures Execute(env, s, tx).Ok? <==>
      var i, root := tx.inputs, SlotRoot(env.hashes.node, s.leaves, tx.rootIndex);
      && s.initialized && |i| == 21 && !s.paused && root != 0
      && Insertable(env, s.leaves, i[1]) && Insertable(env, s.leaves + [i[1]], i[12])
      && i[0] !in s.nullifiers
      && Proves(env, s, if tx.multisig then TransferMultisigC else TransferC, tx.verifier, tx.proof,
                [s.compliancePkX, s.compliancePkY, i[0], root] + i[1..])
  {
    hide Execute, LeafChecks, SpendChecks, ProofChecks, Fresh, AllHold, Insertable, Proves, SlotRoot;
    var i, root := tx.inputs, tx.rootIndex;
    var circuit := if tx.multisig then TransferMultisigC else TransferC;
    var gate, leaf1 := SpendChecks(env, s, i, 21, root), LeafChecks(env, s.leaves, Input(i, 1));
    var leaf2 := LeafChecks(env, s.leaves + [Input(i, 1)], Input(i, 12));
    var proof := ProofChecks(env, s.verifiers[circuit.Id()], tx.verifier, tx.proof, Spliced(env, s, i, root));
    assert Checks(env, s, tx) == gate + leaf1 + leaf2 + Fresh(s, Input(i, 0)) + proof;
    AcceptedIffAllHold(env, s, tx);
    AllHoldConcatenates(gate + leaf1 + leaf2 + Fresh(s, Input(i, 0)), proof);
    AllHoldConcatenates(gate + leaf1 + leaf2, Fresh(s, Input(i, 0)));
    AllHoldConcatenates(gate + leaf1, leaf2);
    AllHoldConcatenates(gate, leaf1);
    SpendHolds(env, s, i, 21, root);
    LeafHolds(env, s.leaves, Input(i, 1));
    LeafHolds(env, s.leaves + [Input(i, 1)], Input(i, 12));
    FreshHolds(s, Input(i, 0));
    ProofHolds(env, s, circuit, tx.verifier, tx.proof, Spliced(env, s, i, root));
  }

  lemma SplitAcceptedIff(env: Env, s: State, tx: Tx)
    requires tx.SplitMultisig?
    ensures Execute(env, s, tx).Ok? <==>
      var i, root := tx.inputs, SlotRoot(env.hashes.node, s.leaves, tx.rootIndex);
      && s.initialized && |i| == 19 && !s.paused && root != 0
      && Insertable(env, s.leaves, i[1]) && Insertable(env, s.leaves + [i[1]], i[10])
      && i[0] !in s.nullifiers
      && Proves(env, s, SplitC, tx.verifier, tx.proof, [s.compliancePkX, s.compliancePkY, i[0], root] + i[1..])
  {
    hide Execute, LeafChecks, SpendChecks, ProofChecks, Fresh, AllHold, Insertable, Proves, SlotRoot;
    var i, root := tx.inputs, tx.rootIndex;
    var gate, leaf1 := SpendChecks(env, s, i, 19, root), LeafChecks(env, s.leaves, Input(i, 1));
    var leaf2 := LeafChecks(env, s.leaves + [Input(i, 1)], Input(i, 10));
    var proof := ProofChecks(env, s.verifiers[SplitC.Id()], tx.verifier, tx.proof, Spliced(env, s, i, root));
    assert Checks(env, s, tx) == gate + leaf1 + leaf2 + Fresh(s, Input(i, 0)) + proof;
    AcceptedIffAllHold(env, s, tx);
    AllHoldConcatenates(gate + leaf1 + leaf2 + Fresh(s, Input(i, 0)), proof);
    AllHoldConcatenates(gate + leaf1 + leaf2, Fresh(s, Input(i, 0)));
    AllHoldConcatenates(gate + leaf1, leaf2);
    AllHoldConcatenates(gate, leaf1);
    SpendHolds(env, s, i, 19, root);
    LeafHolds(env, s.leaves, Input(i, 1));
    LeafHolds(env, s.leaves + [Input(i, 1)], Input(i, 10));
    FreshHolds(s, Input(i, 0));
    ProofHolds(env, s, SplitC, tx.verifier, tx.proof, Spliced(env, s, i, root));
  }

  // Two notes are joined only if their nullifiers are new and differ.
  lemma JoinAcceptedIff(env: Env, s: State, tx: Tx)
    requires tx.JoinMultisig?
    ensures Execute(env, s, tx).Ok? <==>
      var i, root := tx.inputs, SlotRoot(env.hashes.node, s.leaves, tx.rootIndex);
      && s.initialized && |i| == 11 && !s.paused && root != 0 && Insertable(env, s.leaves, i[2])
      && i[0] !in s.nullifiers && i[1] !in s.nullifiers && i[0] != i[1]
      && Proves(env, s, JoinC, tx.verifier, tx.proof, [s.compliancePkX, s.compliancePkY, i[0], i[1], root] + i[2..])
  {
    hide Execute, LeafChecks, SpendChecks, ProofChecks, Fresh, AllHold, Insertable, Proves, SlotRoot, Second;
    var i, root := tx.inputs, tx.rootIndex;
    var gate, leaf := SpendChecks(env, s, i, 11, root), LeafChecks(env, s.leaves, Input(i, 2));
    var proof := ProofChecks(env, s.verifiers[JoinC.Id()], tx.verifier, tx.proof, SplicedJoin(env, s, i, root));
    assert Checks(env, s, tx) == gate + leaf + Fresh(s, Input(i, 0)) + Second(s, i) + proof;
    AcceptedIffAllHold(env, s, tx);
    AllHoldConcatenates(gate + leaf + Fresh(s, Input(i, 0)) + Second(s, i), proof);
    AllHoldConcatenates(gate + leaf + Fresh(s, Input(i, 0)), Second(s, i));
    AllHoldConcatenates(gate + leaf, Fresh(s, Input(i, 0)));
    AllHoldConcatenates(gate, leaf);
    SpendHolds(env, s, i, 11, root);
    LeafHolds(env, s.leaves, Input(i, 2));
    FreshHolds(s, Input(i, 0));
    SecondHolds(s, i);
    ProofHolds(env, s, JoinC, tx.verifier, tx.proof, SplicedJoin(env, s, i, root));
  }

  lemma SecondHolds(s: State, i: Public)
    ensures AllHold(Second(s, i)) <==> Input(i, 1) !in s.nullifiers && Input(i, 1) != Input(i, 0)
  {
    if AllHold(Second(s, i)) {
      assert Second(s, i)[0].holds;
    }
  }

  lemma DepositChecksHold(env: Env, s: State, mint: Key, i: Public, amount: U64)
    ensures AllHold(DepositChecks(env, s, mint, i, amount)) <==>
      |i| == 11 && i[2] == amount && i[3] == env.AssetId(mint) && s.initialized && !s.paused
  {
    var c := DepositChecks(env, s, mint, i, amount);
    if AllHold(c) {
      assert c[0].holds && c[1].holds && c[2].holds && c[3].holds && c[4].holds;
    }
  }

  lemma RegistryHolds(env: Env, s: State, mint: Key, funds: nat, amount: U64)
    ensures AllHold(RegistryChecks(env, s, mint, funds, amount)) <==>
      (env.AssetId(mint) in s.assets ==> s.assets[env.AssetId(mint)] == mint) && amount <= funds
  {
    var c := RegistryChecks(env, s, mint, funds, amount);
    if AllHold(c) {
      assert c[0].holds && c[1].holds;
    }
  }

  // A deposit is booked as the amount and asset its proof names, and only if the depositor has the tokens.
  lemma DepositAcceptedIff(env: Env, s: State, tx: Tx)
    requires tx.Deposit?
    ensures Execute(env, s, tx).Ok? <==>
      var i, id := tx.inputs, env.AssetId(tx.mint);
      && s.initialized && |i| == 11 && !s.paused && i[2] == tx.amount && i[3] == id && Insertable(env, s.leaves, i[0])
      && Proves(env, s, DepositC, tx.verifier, tx.proof, [s.compliancePkX, s.compliancePkY] + i)
      && (id in s.assets ==> s.assets[id] == tx.mint) && tx.amount <= tx.funds
  {
    hide Execute, LeafChecks, DepositChecks, ProofChecks, RegistryChecks, AllHold, Insertable, Proves;
    var i := tx.inputs;
    var gate, leaf := DepositChecks(env, s, tx.mint, i, tx.amount), LeafChecks(env, s.leaves, Input(i, 0));
    var full := [s.compliancePkX, s.compliancePkY] + i;
    var proof := ProofChecks(env, s.verifiers[DepositC.Id()], tx.verifier, tx.proof, full);
    var registry := RegistryChecks(env, s, tx.mint, tx.funds, tx.amount);
    assert Checks(env, s, tx) == gate + leaf + proof + registry;
    AcceptedIffAllHold(env, s, tx);
    AllHoldConcatenates(gate + leaf + proof, registry);
    AllHoldConcatenates(gate + leaf, proof);
    AllHoldConcatenates(gate, leaf);
    DepositChecksHold(env, s, tx.mint, i, tx.amount);
    LeafHolds(env, s.leaves, Input(i, 0));
    ProofHolds(env, s, DepositC, tx.verifier, tx.proof, full);
    RegistryHolds(env, s, tx.mint, tx.funds, tx.amount);
  }

  lemma WithdrawChecksHold(env: Env, s: State, assetMint: Key, mint: Key, destination: Key, i: Public, amount: U64)
    ensures AllHold(WithdrawChecks(env, s, assetMint, mint, destination, i, amount)) <==>
      && |i| == 14 && s.initialized && i[2] == 0 && i[0] == amount && i[1] == env.RecipientField(destination)
      && assetMint == mint && i[4] == env.AssetId(mint) && !s.paused
  {
    var c := WithdrawChecks(env, s, assetMint, mint, destination, i, amount);
    if AllHold(c) {
      assert c[0].holds && c[1].holds && c[2].holds && c[3].holds && c[4].holds && c[5].holds && c[6].holds;
    }
  }

  lemma RootAndVaultHold(env: Env, s: State, rootIndex: U8, mint: Key, amount: U64)
    ensures AllHold(RootChecks(env, s, rootIndex)) <==> Live(env, s, rootIndex)
    ensures AllHold(VaultChecks(s, mint, amount)) <==> amount <= Vault(s, mint)
  {
    hide SlotRoot;
    if AllHold(RootChecks(env, s, rootIndex)) {
      assert RootChecks(env, s, rootIndex)[0].holds;
    }
    if AllHold(VaultChecks(s, mint, amount)) {
      assert VaultChecks(s, mint, amount)[0].holds;
    }
  }

  // A withdrawal pays out exactly what its proof names: that amount of that asset, to that recipient.
  lemma WithdrawAcceptedIff(env: Env, s: State, tx: Tx)
    requires tx.Withdraw?
    ensures Execute(env, s, tx).Ok? <==>
      var i, root := tx.inputs, SlotRoot(env.hashes.node, s.leaves, tx.rootIndex);
      && s.initialized && |i| == 14 && !s.paused && root != 0
      && i[0] == tx.amount && i[1] == env.RecipientField(tx.destination) && i[2] == 0
      && i[4] == env.AssetId(tx.mint) && tx.assetMint == tx.mint
      && Insertable(env, s.leaves, i[5]) && i[3] !in s.nullifiers
      && Proves(env, s, if tx.multisig then WithdrawMultisigC else WithdrawC, tx.verifier, tx.proof,
                [i[0], i[1], i[2], s.compliancePkX, s.compliancePkY, i[3], root] + i[4..])
      && tx.amount <= Vault(s, tx.mint)
  {
    hide Execute, LeafChecks, WithdrawChecks, RootChecks, VaultChecks, ProofChecks, Fresh, AllHold, Insertable, Proves, SlotRoot, Vault;
    var i, root := tx.inputs, tx.rootIndex;
    var circuit := if tx.multisig then WithdrawMultisigC else WithdrawC;
    var gate := WithdrawChecks(env, s, tx.assetMint, tx.mint, tx.destination, i, tx.amount);
    var live, leaf, unspent := RootChecks(env, s, root), LeafChecks(env, s.leaves, Input(i, 5)), Fresh(s, Input(i, 3));
    var proof := ProofChecks(env, s.verifiers[circuit.Id()], tx.verifier, tx.proof, SplicedWithdraw(env, s, i, root));
    var vault := VaultChecks(s, tx.mint, tx.amount);
    assert Checks(env, s, tx) == gate + live + leaf + unspent + proof + vault;
    AcceptedIffAllHold(env, s, tx);
    AllHoldConcatenates(gate + live + leaf + unspent + proof, vault);
    AllHoldConcatenates(gate + live + leaf + unspent, proof);
    AllHoldConcatenates(gate + live + leaf, unspent);
    AllHoldConcatenates(gate + live, leaf);
    AllHoldConcatenates(gate, live);
    WithdrawChecksHold(env, s, tx.assetMint, tx.mint, tx.destination, i, tx.amount);
    RootAndVaultHold(env, s, root, tx.mint, tx.amount);
    LeafHolds(env, s.leaves, Input(i, 5));
    FreshHolds(s, Input(i, 3));
    ProofHolds(env, s, circuit, tx.verifier, tx.proof, SplicedWithdraw(env, s, i, root));
  }

  // A paused pool moves no notes and no tokens.
  lemma PausedPoolRefuses(env: Env, s: State, tx: Tx)
    requires s.paused && (tx.Deposit? || tx.Transfer? || tx.SplitMultisig? || tx.JoinMultisig? || tx.Withdraw?)
    ensures Process(env, s, tx) == (s, [])
  {
    hide Execute, Insertable, Proves, SlotRoot, Vault;
    match tx {
      case Deposit(_, _, _, _, _, _) => DepositAcceptedIff(env, s, tx);
      case Transfer(_, _, _, _, _) => TransferAcceptedIff(env, s, tx);
      case SplitMultisig(_, _, _, _) => SplitAcceptedIff(env, s, tx);
      case JoinMultisig(_, _, _, _) => JoinAcceptedIff(env, s, tx);
      case Withdraw(_, _, _, _, _, _, _, _, _) => WithdrawAcceptedIff(env, s, tx);
    }
  }

  // ----- settings -----

  datatype Settings = Settings(authority: Key, paused: bool, version: nat, pkX: Fr, pkY: Fr, verifiers: VerifierTable)

  function SettingsOf(s: State): Settings {
    Settings(s.authority, s.paused, s.complianceVersion, s.compliancePkX, s.compliancePkY, s.verifiers)
  }

  predicate SignedBy(key: Key, tx: Tx) {
    (tx.SetVerifier? || tx.RotateComplianceKey? || tx.SetPaused?) && tx.signer == key
  }

  // A pool is set up once, and after that only its authority changes its settings.
  lemma SettingsAcceptedIff(env: Env, s: State, tx: Tx)
    ensures tx.Initialize? ==> (Execute(env, s, tx).Ok? <==> !s.initialized && Insertable(env, [], tx.genesisLeaf))
    ensures tx.SetVerifier? ==> (Execute(env, s, tx).Ok? <==> s.initialized && tx.signer == s.authority && tx.circuitId < 7)
    ensures tx.RotateComplianceKey? ==>
      (Execute(env, s, tx).Ok? <==> s.initialized && tx.signer == s.authority && s.complianceVersion < 0xffff_ffff)
    ensures tx.SetPaused? ==> (Execute(env, s, tx).Ok? <==> s.initialized && tx.signer == s.authority)
  {
    hide Execute, LeafChecks, AllHold, Insertable;
    AcceptedIffAllHold(env, s, tx);
    match tx {
      case Initialize(_, _, _, _, genesis) =>
        AllHoldConcatenates([Check(!s.initialized, AccountAlreadyInitialized)], LeafChecks(env, [], genesis));
        OneHolds(Check(!s.initialized, AccountAlreadyInitialized));
        LeafHolds(env, [], genesis);
      case SetVerifier(signer, circuitId, _) =>
        AllHoldConcatenates(AdminChecks(s, signer), [Check(circuitId < 7, InvalidArgument)]);
        OneHolds(Check(circuitId < 7, InvalidArgument));
        AdminHolds(s, signer);
      case RotateComplianceKey(signer, _, _) =>
        AllHoldConcatenates(AdminChecks(s, signer), [Check(s.complianceVersion < 0xffff_ffff, ArithmeticOverflow)]);
        OneHolds(Check(s.complianceVersion < 0xffff_ffff, ArithmeticOverflow));
        AdminHolds(s, signer);
      case SetPaused(signer, _) => AdminHolds(s, signer);
      case _ =>
    }
  }

  lemma OneHolds(c: Check)
    ensures AllHold([c]) <==> c.holds
  {
    if AllHold([c]) {
      assert [c][0].holds;
    }
  }

  lemma AdminHolds(s: State, signer: Key)
    ensures AllHold(AdminChecks(s, signer)) <==> s.initialized && signer == s.authority
  {
    var c := AdminChecks(s, signer);
    if AllHold(c) {
      assert c[0].holds && c[1].holds;
    }
  }

  // Settings change only by a transaction the authority signs, and the authority itself never does.
  lemma OnlyTheAuthority(env: Env, s: State, tx: Tx)
    requires s.initialized
    ensures var s' := Process(env, s, tx).0;
      && s'.initialized && s'.authority == s.authority
      && (!SignedBy(s.authority, tx) ==> SettingsOf(s') == SettingsOf(s))
  {
    hide Execute, Checks, FirstFailure, Logged, NewLeaves, NewNullifiers;
    Decided(env, s, tx);
    SettingsAcceptedIff(env, s, tx);
  }

  // Whatever anyone else submits, an initialized pool keeps its settings.
  lemma {:induction false} OthersChangeNothing(env: Env, txs: seq<Tx>, n: nat)
    requires n <= |txs| && Run(env, txs[..n]).0.initialized
    requires forall k :: n <= k < |txs| ==> !SignedBy(Run(env, txs[..n]).0.authority, txs[k])
    ensures Run(env, txs).0.initialized && SettingsOf(Run(env, txs).0) == SettingsOf(Run(env, txs[..n]).0)
  {
    hide Process, SignedBy;
    if n == |txs| {
      assert txs[..n] == txs;
    } else {
      var before := txs[..|txs| - 1];
      assert before[..n] == txs[..n];
      OthersChangeNothing(env, before, n);
      OnlyTheAuthority(env, Run(env, before).0, txs[|txs| - 1]);
    }
  }
}
