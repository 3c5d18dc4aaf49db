/** Solvency and token conservation over whole runs of the pool. */
module SolventRuns {
  import opened Hashing
  import opened LeanImt
  import opened Outcomes
  import opened PoolErrors
  import opened PoolAccount
  import opened Circuits
  import opened PoolSpec
  import opened UnspentValue
  import opened Solvency
  import SpendOnce

  // s' keeps whatever cover s had; it stays to the unit when no tokens came from outside the program.
  ghost predicate KeepsCover(env: Env, premine: Option<Note>, s: State, s': State, donated: bool) {
    && Inv(env, s')
    && (Covered(env, premine, s) ==> Covered(env, premine, s'))
    && (!donated && AddsUp(env, premine, s) ==> AddsUp(env, premine, s'))
  }

  // ----- one step of each kind -----

  lemma InternalStepKeeps(env: Env, premine: Option<Note>, s: State, s': State)
    requires Inv(env, s) && s.initialized && s' == s.(leaves := s'.leaves, nullifiers := s'.nullifiers)
    requires TreeInv(env.hashes, s'.leaves, s'.nullifiers)
    requires forall a :: Owed(env, s', a) == Owed(env, s, a)
    ensures KeepsCover(env, premine, s, s', false)
  {
    SameBooks(env, premine, s, s');
    hide TreeInv, HonestTable, Owed, Held, Premined;
  }

  // Registry, vaults and initialization alone decide what is held, premined and registered.
  lemma SameBooks(env: Env, premine: Option<Note>, s: State, s': State)
    requires s'.assets == s.assets && s'.vaults == s.vaults && s'.initialized == s.initialized
    ensures forall a :: Held(s', a) == Held(s, a) && Premined(premine, s', a) == Premined(premine, s, a)
    ensures forall mint: Key :: Vault(s', mint) == Vault(s, mint) && IsRegistered(env, s', mint) == IsRegistered(env, s, mint)
  {
  }

  lemma PaidInStepKeeps(env: Env, premine: Option<Note>, s: State, s': State, mint: Key, amount: nat, leaf: Fr)
    requires CollisionFree(env.hashes) && Inv(env, s) && s.initialized && PaidIn(env, s, s', mint, amount, leaf)
    ensures KeepsCover(env, premine, s, s', false)
  {
    PaidInEffect(env, s, s', mint, amount, leaf);
    PaidInBooks(env, premine, s, s', mint, amount, leaf);
    hide TreeInv, HonestTable, Owed, CollisionFree, Held, Premined, IsRegistered;
  }

  lemma PaidInBooks(env: Env, premine: Option<Note>, s: State, s': State, mint: Key, amount: nat, leaf: Fr)
    requires Inv(env, s) && PaidIn(env, s, s', mint, amount, leaf)
    ensures forall a :: Premined(premine, s', a) == Premined(premine, s, a)
    ensures forall a :: Held(s', a) >= Held(s, a) + if a == env.AssetId(mint) then amount else 0
    ensures (forall m: Key :: !IsRegistered(env, s, m) ==> Vault(s, m) == 0) ==>
              && (forall a :: Held(s', a) == Held(s, a) + if a == env.AssetId(mint) then amount else 0)
              && (forall m: Key :: !IsRegistered(env, s', m) ==> Vault(s', m) == 0)
  {
    hide TreeInv, HonestTable;
    forall m: Key ensures Vault(s', m) == Vault(s, m) + if m == mint then amount else 0 {}
  }

  lemma PaidOutStepKeeps(env: Env, premine: Option<Note>, s: State, s1: State, s': State, slot: U8, nf: Fr, mint: Key,
                         amount: nat, leaf: Fr)
    requires CollisionFree(env.hashes) && Inv(env, s) && s.initialized
    requires PaidOut(env, s, s1, slot, nf, mint, amount, leaf) && PayOut(s1, mint, amount) == Ok(s')
    ensures KeepsCover(env, premine, s, s', false)
  {
    PaidOutEffect(env, s, s1, slot, nf, mint, amount, leaf);
    OwedIsTree(env, s1, s');
    PaidOutBooks(env, premine, s, s1, s', mint, amount);
    hide TreeInv, HonestTable, Owed, CollisionFree, Held, Premined, IsRegistered, Pays, SlotRoot;
  }

  lemma PaidOutBooks(env: Env, premine: Option<Note>, s: State, s1: State, s': State, mint: Key, amount: nat)
    requires Inv(env, s) && s1 == s.(leaves := s1.leaves, nullifiers := s1.nullifiers)
    requires PayOut(s1, mint, amount) == Ok(s')
    ensures s'.assets == s.assets && s'.verifiers == s.verifiers && s'.initialized == s.initialized
    ensures forall a :: Premined(premine, s', a) == Premined(premine, s, a)
    ensures forall a :: Held(s', a) + (if a == env.AssetId(mint) then amount else 0) >= Held(s, a)
    ensures (forall m: Key :: !IsRegistered(env, s, m) ==> Vault(s, m) == 0) ==>
              && (forall a :: Held(s', a) + (if a == env.AssetId(mint) then amount else 0) == Held(s, a))
              && (forall m: Key :: !IsRegistered(env, s', m) ==> Vault(s', m) == 0)
  {
    hide TreeInv, HonestTable;
    assert Vault(s1, mint) == Vault(s, mint) >= amount;
    forall m: Key ensures Vault(s', m) + (if m == mint then amount else 0) == Vault(s, m) {}
    forall m: Key ensures IsRegistered(env, s', m) == IsRegistered(env, s, m) {}
    if forall m: Key :: !IsRegistered(env, s, m) ==> Vault(s, m) == 0 {
      assert !IsRegistered(env, s, mint) ==> amount == 0;
      forall m: Key | !IsRegistered(env, s', m) ensures Vault(s', m) == 0 {
        assert !IsRegistered(env, s, m);
      }
    }
  }

  lemma OwedIsTree(env: Env, s: State, s': State)
    requires s.leaves == s'.leaves && s.nullifiers == s'.nullifiers
    ensures forall a :: Owed(env, s, a) == Owed(env, s', a)
  {
  }

  lemma DonationKeeps(env: Env, premine: Option<Note>, s: State, mint: Key, amount: U64)
    requires Inv(env, s)
    ensures KeepsCover(env, premine, s, s.(vaults := s.vaults[mint := Vault(s, mint) + amount]), true)
  {
    var s' := s.(vaults := s.vaults[mint := Vault(s, mint) + amount]);
    OwedIsTree(env, s, s');
    hide TreeInv, HonestTable, Owed;
    forall m: Key ensures Vault(s', m) >= Vault(s, m) {}
    forall a ensures Held(s', a) >= Held(s, a) && Premined(premine, s', a) == Premined(premine, s, a) {}
  }

  // Administrative steps touch neither tree, registry nor vaults.
  lemma AdminStepKeeps(env: Env, premine: Option<Note>, s: State, s': State)
    requires Inv(env, s) && s.initialized && s'.initialized && HonestTable(env, s'.verifiers)
    requires s'.leaves == s.leaves && s'.nullifiers == s.nullifiers && s'.assets == s.assets && s'.vaults == s.vaults
    ensures KeepsCover(env, premine, s, s', false)
  {
    OwedIsTree(env, s, s');
    SameBooks(env, premine, s, s');
    hide TreeInv, HonestTable, Owed, Held, Premined;
  }

  // The genesis leaf alone owes what it was premined with.
  lemma InitializeKeeps(env: Env, premine: Option<Note>, s: State, tx: Tx)
    requires Inv(env, s) && tx.Initialize? && Trusted(env, premine, tx) && Execute(env, s, tx).Ok?
    ensures KeepsCover(env, premine, s, Execute(env, s, tx).value.0, false)
  {
    var s' := Execute(env, s, tx).value.0;
    AfterInitialize(env, s, tx);
    GenesisOwes(env, premine, s', tx.genesisLeaf);
    SingleLeafTree(env.hashes, tx.genesisLeaf);
    hide TreeInv, HonestTable, Owed, Execute;
    forall mint: Key ensures Vault(s', mint) == Vault(s, mint) && !IsRegistered(env, s, mint) && !IsRegistered(env, s', mint) {}
  }

  lemma AfterInitialize(env: Env, s: State, tx: Tx)
    requires Inv(env, s) && tx.Initialize? && Execute(env, s, tx).Ok?
    ensures var s' := Execute(env, s, tx).value.0;
      && !s.initialized && s'.initialized && s'.verifiers == tx.verifiers
      && tx.genesisLeaf != 0 && s'.leaves == [tx.genesisLeaf] && s'.nullifiers == s.nullifiers == {}
      && s'.assets == s.assets == map[] && s'.vaults == s.vaults
  {
    hide TreeInv, HonestTable, Root;
  }

  lemma GenesisOwes(env: Env, premine: Option<Note>, s: State, leaf: Fr)
    requires s.initialized && s.leaves == [leaf] && s.nullifiers == {} && Opened(env.hashes, leaf) == premine
    ensures forall a :: Owed(env, s, a) == Premined(premine, s, a)
  {
    hide Opened;
    forall a ensures Owed(env, s, a) == Premined(premine, s, a) {
      OneLeafOwes(env.hashes, leaf, a);
    }
  }

  lemma OneLeafOwes(H: Hashes, leaf: Fr, asset: Fr)
    ensures Unspent(H, [leaf], {}, asset) == Live(H, leaf, 0, {}, asset)
  {
    hide Live;
    var leaves := [leaf];
    assert leaves[..0] == [];
    assert Unspent(H, leaves[..0], {}, asset) == 0;
  }

  lemma SingleLeafTree(H: Hashes, leaf: Fr)
    requires leaf != 0 && Below(H.node, leaf, 0)
    ensures TreeInv(H, [leaf], {})
  {
    AppendKeepsTree(H, [], {}, leaf);
    assert [] + [leaf] == [leaf];
  }

  lemma SetVerifierKeepsHonest(env: Env, table: VerifierTable, circuitId: nat, program: Key)
    requires HonestTable(env, table) && circuitId < NUM_VERIFIERS
    requires forall c: CircuitId :: c.Id() == circuitId ==> Honest(env, program, c)
    ensures HonestTable(env, table[circuitId := program])
  {
    hide Honest;
    var table' := table[circuitId := program];
    forall c: CircuitId ensures Honest(env, table'[c.Id()], c) {
      assert Honest(env, table[c.Id()], c);
    }
  }

  // ----- any step -----

  lemma SpendStepKeeps(env: Env, premine: Option<Note>, s: State, tx: Tx)
    requires CollisionFree(env.hashes) && Inv(env, s) && s.initialized && Execute(env, s, tx).Ok?
    requires tx.Transfer? || tx.SplitMultisig? || tx.JoinMultisig?
    ensures KeepsCover(env, premine, s, Execute(env, s, tx).value.0, false)
  {
    hide TreeInv, Honest, HonestTable, Owed, CollisionFree, SlotRoot, Root, Covered, AddsUp;
    var s' := Execute(env, s, tx).value.0;
    match tx {
      case Transfer(multisig, verifier, proof, inputs, rootIndex) =>
        TransferDone(env, s, if multisig then TransferMultisigC else TransferC, verifier, proof, inputs, rootIndex);
        OneInTwoOutEffect(env, s, s', rootIndex, inputs[0], inputs[1], inputs[12]);
      case SplitMultisig(verifier, proof, inputs, rootIndex) =>
        SplitDone(env, s, verifier, proof, inputs, rootIndex);
        OneInTwoOutEffect(env, s, s', rootIndex, inputs[0], inputs[1], inputs[10]);
      case JoinMultisig(verifier, proof, inputs, rootIndex) =>
        JoinDone(env, s, verifier, proof, inputs, rootIndex);
        TwoInOneOutEffect(env, s, s', rootIndex, inputs[0], inputs[1], inputs[2]);
    }
    InternalStepKeeps(env, premine, s, s');
  }

  lemma WithdrawStepKeeps(env: Env, premine: Option<Note>, s: State, tx: Tx)
    requires CollisionFree(env.hashes) && Inv(env, s) && s.initialized && tx.Withdraw? && Execute(env, s, tx).Ok?
    ensures KeepsCover(env, premine, s, Execute(env, s, tx).value.0, false)
  {
    hide TreeInv, Honest, HonestTable, Owed, CollisionFree, SlotRoot, Root, Covered, AddsUp, AcceptWithdraw, PayOut;
    var circuit := if tx.multisig then WithdrawMultisigC else WithdrawC;
    var s1 := AcceptWithdraw(env, s, circuit, tx.assetMint, tx.mint, tx.destination, tx.verifier, tx.proof, tx.inputs,
                             tx.amount, tx.rootIndex).value.0;
    WithdrawAccepted(env, s, circuit, tx.assetMint, tx.mint, tx.destination, tx.verifier, tx.proof, tx.inputs, tx.amount,
                     tx.rootIndex);
    PaidOutStepKeeps(env, premine, s, s1, Execute(env, s, tx).value.0, tx.rootIndex, tx.inputs[3], tx.mint, tx.amount, tx.inputs[5]);
  }

  lemma DepositStepKeeps(env: Env, premine: Option<Note>, s: State, tx: Tx)
    requires CollisionFree(env.hashes) && Inv(env, s) && s.initialized && tx.Deposit? && Execute(env, s, tx).Ok?
    ensures KeepsCover(env, premine, s, Execute(env, s, tx).value.0, false)
  {
    hide TreeInv, Honest, HonestTable, Owed, CollisionFree, Root, Covered, AddsUp, DoDeposit;
    DepositDone(env, s, tx.mint, tx.funds, tx.verifier, tx.proof, tx.inputs, tx.amount);
    PaidInStepKeeps(env, premine, s, Execute(env, s, tx).value.0, tx.mint, tx.amount, tx.inputs[0]);
  }

  lemma NeedsInitialized(env: Env, s: State, tx: Tx)
    requires Execute(env, s, tx).Ok? && !tx.Initialize? && !tx.Donate?
    ensures s.initialized
  {
  }

  lemma OkStepKeeps(env: Env, premine: Option<Note>, s: State, tx: Tx)
    requires CollisionFree(env.hashes) && Trusted(env, premine, tx) && Inv(env, s) && Execute(env, s, tx).Ok?
    ensures KeepsCover(env, premine, s, Execute(env, s, tx).value.0, tx.Donate?)
  {
    hide TreeInv, Honest, HonestTable, Owed, CollisionFree, SlotRoot, Root, Covered, AddsUp, DoTransfer, DoSplit, DoJoin,
         DoDeposit, DoWithdraw;
    if !tx.Initialize? && !tx.Donate? {
      NeedsInitialized(env, s, tx);
    }
    var s' := Execute(env, s, tx).value.0;
    match tx {
      case Initialize(_, _, _, _, _) => InitializeKeeps(env, premine, s, tx);
      case SetVerifier(_, circuitId, program) =>
        SetVerifierKeepsHonest(env, s.verifiers, circuitId, program);
        AdminStepKeeps(env, premine, s, s');
      case RotateComplianceKey(_, _, _) => AdminStepKeeps(env, premine, s, s');
      case SetPaused(_, _) => AdminStepKeeps(env, premine, s, s');
      case Deposit(_, _, _, _, _, _) => DepositStepKeeps(env, premine, s, tx);
      case Transfer(_, _, _, _, _) => SpendStepKeeps(env, premine, s, tx);
      case SplitMultisig(_, _, _, _) => SpendStepKeeps(env, premine, s, tx);
      case JoinMultisig(_, _, _, _) => SpendStepKeeps(env, premine, s, tx);
      case Withdraw(_, _, _, _, _, _, _, _, _) => WithdrawStepKeeps(env, premine, s, tx);
      case Donate(mint, amount) => DonationKeeps(env, premine, s, mint, amount);
    }
  }

  // ----- whole runs -----

  // Every transaction that was accepted is trusted; the others change nothing.
  ghost predicate AllTrusted(env: Env, premine: Option<Note>, txs: seq<Tx>) {
    forall i :: 0 <= i < |txs| && SpendOnce.Accepted(env, txs, i) ==> Trusted(env, premine, txs[i])
  }

  lemma TrustedPrefix(env: Env, premine: Option<Note>, txs: seq<Tx>)
    requires txs != [] && AllTrusted(env, premine, txs)
    ensures AllTrusted(env, premine, txs[..|txs| - 1])
    ensures Execute(env, Run(env, txs[..|txs| - 1]).0, txs[|txs| - 1]).Ok? ==> Trusted(env, premine, txs[|txs| - 1])
  {
    hide Execute, Run, Trusted;
    var init := txs[..|txs| - 1];
    assert SpendOnce.Accepted(env, txs, |txs| - 1) <==> Execute(env, Run(env, init).0, txs[|txs| - 1]).Ok?;
    forall i | 0 <= i < |init| && SpendOnce.Accepted(env, init, i) ensures Trusted(env, premine, init[i]) {
      assert init[..i] == txs[..i];
      assert SpendOnce.Accepted(env, txs, i);
    }
  }

  ghost predicate NoDonations(txs: seq<Tx>) {
    forall i :: 0 <= i < |txs| ==> !txs[i].Donate?
  }

  lemma EmptyIsCovered(env: Env, premine: Option<Note>)
    ensures Inv(env, EMPTY) && Covered(env, premine, EMPTY) && AddsUp(env, premine, EMPTY)
  {
  }

  // Whatever transactions are sent, each asset's unspent value is covered by its vault and the premine, ...
  lemma {:induction false} EveryRunIsCovered(env: Env, premine: Option<Note>, txs: seq<Tx>)
    requires CollisionFree(env.hashes) && AllTrusted(env, premine, txs)
    ensures var s := Run(env, txs).0; Inv(env, s) && Covered(env, premine, s)
  {
    hide CollisionFree, Inv, Covered, AddsUp, Trusted, Execute, AllTrusted;
    if txs == [] {
      EmptyIsCovered(env, premine);
    } else {
      var n := |txs| - 1;
      TrustedPrefix(env, premine, txs);
      EveryRunIsCovered(env, premine, txs[..n]);
      if Execute(env, Run(env, txs[..n]).0, txs[n]).Ok? {
        OkStepKeeps(env, premine, Run(env, txs[..n]).0, txs[n]);
      }
    }
  }

  // ... and, without donations, adds up to them exactly.
  lemma {:induction false} EveryRunAddsUp(env: Env, premine: Option<Note>, txs: seq<Tx>)
    requires CollisionFree(env.hashes) && AllTrusted(env, premine, txs) && NoDonations(txs)
    ensures AddsUp(env, premine, Run(env, txs).0)
  {
    hide CollisionFree, Inv, Covered, AddsUp, Trusted, Execute, AllTrusted;
    if txs == [] {
      EmptyIsCovered(env, premine);
    } else {
      var n := |txs| - 1;
      TrustedPrefix(env, premine, txs);
      EveryRunAddsUp(env, premine, txs[..n]);
      EveryRunIsCovered(env, premine, txs[..n]);
      if Execute(env, Run(env, txs[..n]).0, txs[n]).Ok? {
        OkStepKeeps(env, premine, Run(env, txs[..n]).0, txs[n]);
      }
    }
  }

  // Solvency: if the genesis leaf is no note, every registered vault covers its asset's unspent notes.
  lemma EveryRunIsBacked(env: Env, txs: seq<Tx>)
    requires CollisionFree(env.hashes) && AllTrusted(env, None, txs)
    ensures Backed(env, Run(env, txs).0)
  {
    hide CollisionFree, AllTrusted, Inv, Owed, Vault, Run;
    EveryRunIsCovered(env, None, txs);
  }

  // Without donations, every vault holds exactly its asset's unspent value.
  lemma EveryRunIsExact(env: Env, txs: seq<Tx>)
    requires CollisionFree(env.hashes) && AllTrusted(env, None, txs) && NoDonations(txs)
    ensures Exact(env, Run(env, txs).0)
  {
    hide CollisionFree, AllTrusted, NoDonations, Owed, Vault, Run;
    EveryRunAddsUp(env, None, txs);
  }

  // After any run, a withdrawal whose proof and nullifier pass never finds its vault short. The one exception
  // is a mint whose asset id another mint has registered.
  lemma AcceptedWithdrawalIsPaid(env: Env, txs: seq<Tx>, tx: Tx)
    requires CollisionFree(env.hashes) && AllTrusted(env, None, txs) && tx.Withdraw?
    requires var s := Run(env, txs).0; env.AssetId(tx.mint) in s.assets ==> IsRegistered(env, s, tx.mint)
    ensures Execute(env, Run(env, txs).0, tx) != Err(TokenTransferFailed)
  {
    hide TreeInv, Honest, HonestTable, Unspent, CollisionFree, SlotRoot, Root, AddsUp, AcceptWithdraw, Trusted, Run;
    var s := Run(env, txs).0;
    EveryRunIsCovered(env, None, txs);
    var circuit := if tx.multisig then WithdrawMultisigC else WithdrawC;
    var r := AcceptWithdraw(env, s, circuit, tx.assetMint, tx.mint, tx.destination, tx.verifier, tx.proof, tx.inputs,
                            tx.amount, tx.rootIndex);
    AcceptanceErrors(env, s, circuit, tx);
    if r.Ok? {
      WithdrawAccepted(env, s, circuit, tx.assetMint, tx.mint, tx.destination, tx.verifier, tx.proof, tx.inputs,
                       tx.amount, tx.rootIndex);
      PaidOutEffect(env, s, r.value.0, tx.rootIndex, tx.inputs[3], tx.mint, tx.amount, tx.inputs[5]);
      assert Held(s, env.AssetId(tx.mint)) >= Owed(env, s, env.AssetId(tx.mint)) >= tx.amount;
    }
  }

  // Without donations that exception is exactly when an otherwise accepted withdrawal of a positive amount fails.
  lemma WithdrawalFailsIff(env: Env, txs: seq<Tx>, tx: Tx)
    requires CollisionFree(env.hashes) && AllTrusted(env, None, txs) && NoDonations(txs) && tx.Withdraw?
    ensures var s := Run(env, txs).0;
      Execute(env, s, tx) == Err(TokenTransferFailed) <==>
      PassesChecks(env, s, tx) && tx.amount > 0 && env.AssetId(tx.mint) in s.assets && !IsRegistered(env, s, tx.mint)
  {
    hide TreeInv, Honest, HonestTable, Owed, CollisionFree, SlotRoot, Root, AcceptWithdraw, Trusted, Run, NoDonations;
    var s := Run(env, txs).0;
    EveryRunIsCovered(env, None, txs);
    EveryRunAddsUp(env, None, txs);
    var circuit := if tx.multisig then WithdrawMultisigC else WithdrawC;
    var r := AcceptWithdraw(env, s, circuit, tx.assetMint, tx.mint, tx.destination, tx.verifier, tx.proof, tx.inputs,
                            tx.amount, tx.rootIndex);
    AcceptanceErrors(env, s, circuit, tx);
    if r.Ok? {
      WithdrawAccepted(env, s, circuit, tx.assetMint, tx.mint, tx.destination, tx.verifier, tx.proof, tx.inputs,
                       tx.amount, tx.rootIndex);
      PaidOutEffect(env, s, r.value.0, tx.rootIndex, tx.inputs[3], tx.mint, tx.amount, tx.inputs[5]);
      assert Owed(env, s, env.AssetId(tx.mint)) >= tx.amount;
    }
  }

  // Everything a withdrawal is asked before the tokens move is in order.
  predicate PassesChecks(env: Env, s: State, tx: Tx)
    requires tx.Withdraw?
  {
    AcceptWithdraw(env, s, if tx.multisig then WithdrawMultisigC else WithdrawC, tx.assetMint, tx.mint, tx.destination,
                   tx.verifier, tx.proof, tx.inputs, tx.amount, tx.rootIndex).Ok?
  }

  lemma AcceptanceErrors(env: Env, s: State, circuit: CircuitId, tx: Tx)
    requires tx.Withdraw?
    ensures var r := AcceptWithdraw(env, s, circuit, tx.assetMint, tx.mint, tx.destination, tx.verifier, tx.proof,
                                    tx.inputs, tx.amount, tx.rootIndex);
            && r != Err(TokenTransferFailed)
            && (r.Ok? ==> s.initialized)
  {
    hide SlotRoot, Root;
  }

  // ----- token conservation -----

  function TokensIn(env: Env, s: State, tx: Tx, mint: Key): nat {
    if Execute(env, s, tx).Ok? && (tx.Deposit? || tx.Donate?) && tx.mint == mint then tx.amount else 0
  }

  function TokensOut(env: Env, s: State, tx: Tx, mint: Key): nat {
    if Execute(env, s, tx).Ok? && tx.Withdraw? && tx.mint == mint then tx.amount else 0
  }

  function TotalIn(env: Env, txs: seq<Tx>, mint: Key): nat {
    if txs == [] then 0
    else var n := |txs| - 1; TotalIn(env, txs[..n], mint) + TokensIn(env, Run(env, txs[..n]).0, txs[n], mint)
  }

  function TotalOut(env: Env, txs: seq<Tx>, mint: Key): nat {
    if txs == [] then 0
    else var n := |txs| - 1; TotalOut(env, txs[..n], mint) + TokensOut(env, Run(env, txs[..n]).0, txs[n], mint)
  }

  lemma InsertMovesNothing(env: Env, s: State, leaf: Fr, eph: Fr, tag: Option<Fr>, wrap: Option<Fr>, ct: seq<Fr>)
    ensures var r := InsertAndEmit(env, s, leaf, eph, tag, wrap, ct); r.Ok? ==> r.value.0.vaults == s.vaults
  {
  }

  lemma SpendMovesNothing(env: Env, s: State, tx: Tx)
    requires tx.Transfer? || tx.SplitMultisig? || tx.JoinMultisig?
    ensures Process(env, s, tx).0.vaults == s.vaults
  {
    hide SlotRoot, Root;
  }

  lemma StepMovesTokens(env: Env, s: State, tx: Tx, mint: Key)
    ensures Vault(Process(env, s, tx).0, mint) + TokensOut(env, s, tx, mint) == Vault(s, mint) + TokensIn(env, s, tx, mint)
  {
    hide SlotRoot, Root, VerifyCpi, InsertAndEmit, CreateNullifier, DoTransfer, DoSplit, DoJoin;
    match tx {
      case Initialize(_, _, _, _, genesis) => InitializeMovesNothing(env, s, tx);
      case Deposit(_, _, _, _, inputs, _) =>
        if |inputs| == 11 { InsertMovesNothing(env, s, inputs[0], inputs[1], None, None, inputs[4..11]); }
      case Withdraw(_, _, _, _, _, _, inputs, _, _) => WithdrawMovesTokens(env, s, tx, mint);
      case Transfer(_, _, _, _, _) => SpendMovesNothing(env, s, tx);
      case SplitMultisig(_, _, _, _) => SpendMovesNothing(env, s, tx);
      case JoinMultisig(_, _, _, _) => SpendMovesNothing(env, s, tx);
      case _ =>
    }
  }

  lemma InitializeMovesNothing(env: Env, s: State, tx: Tx)
    requires tx.Initialize?
    ensures Process(env, s, tx).0.vaults == s.vaults
  {
    hide Root;
  }

  lemma WithdrawMovesTokens(env: Env, s: State, tx: Tx, mint: Key)
    requires tx.Withdraw?
    ensures Vault(Process(env, s, tx).0, mint) + TokensOut(env, s, tx, mint) == Vault(s, mint)
  {
    hide SlotRoot, Root;
  }

  // Over any run, what a vault holds is what was paid in minus what was paid out.
  lemma {:induction false} TokensAreConserved(env: Env, txs: seq<Tx>, mint: Key)
    ensures Vault(Run(env, txs).0, mint) + TotalOut(env, txs, mint) == TotalIn(env, txs, mint)
    ensures TotalOut(env, txs, mint) <= TotalIn(env, txs, mint)
  {
    hide Process, TokensIn, TokensOut;
    if txs != [] {
      var n := |txs| - 1;
      TokensAreConserved(env, txs[..n], mint);
      StepMovesTokens(env, Run(env, txs[..n]).0, txs[n], mint);
    }
  }
}
