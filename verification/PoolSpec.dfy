/** The pool program as a function from states and transactions to states and events.

    The state keeps what the frontier and the ring stand for: the leaves themselves. */
module PoolSpec {
  import opened Hashing
  import opened LeanImt
  import opened Outcomes
  import opened PoolErrors
  import opened PoolAccount
  import opened Circuits

  type U64 = n: nat | n < 0x1_0000_0000_0000_0000
  type U8 = n: nat | n < 256

  const U32_MAX: nat := 0xffff_ffff

  datatype Event =
    | NoteInserted(leafIndex: nat, leaf: Fr, ephPubX: Fr, tag: Option<Fr>, cekWrap: Option<Fr>,
                   ciphertext: seq<Fr>, root: Fr)
    | NullifierSpentEvent(nullifier: Fr)
    | ComplianceKeyRotated(oldVersion: nat, newVersion: nat, x: Fr, y: Fr)

  datatype State = State(
    initialized: bool, authority: Key, paused: bool,
    complianceVersion: nat, compliancePkX: Fr, compliancePkY: Fr, verifiers: VerifierTable,
    leaves: seq<Fr>, nullifiers: set<Fr>,
    assets: map<Fr, Key>,      // asset id -> the mint registered for it
    vaults: map<Key, nat>)     // mint -> token balance of the pool's vault for it

  // The vault balance of a mint; a vault that was never created is empty.
  function Vault(s: State, mint: Key): nat {
    if mint in s.vaults then s.vaults[mint] else 0
  }

  const EMPTY: State := State(false, 0, false, 0, 0, 0, [0, 0, 0, 0, 0, 0, 0], [], {}, map[], map[])

  type Public = seq<Fr>  // the wire's public inputs

  datatype Tx =
    | Initialize(authority: Key, pkX: Fr, pkY: Fr, verifiers: VerifierTable, genesisLeaf: Fr)
    | SetVerifier(signer: Key, circuitId: U8, program: Key)
    | RotateComplianceKey(signer: Key, x: Fr, y: Fr)
    | SetPaused(signer: Key, paused: bool)
    | Deposit(mint: Key, funds: nat, verifier: Key, proof: Proof, inputs: Public, amount: U64)
    | Transfer(multisig: bool, verifier: Key, proof: Proof, inputs: Public, rootIndex: U8)
    | SplitMultisig(verifier: Key, proof: Proof, inputs: Public, rootIndex: U8)
    | JoinMultisig(verifier: Key, proof: Proof, inputs: Public, rootIndex: U8)
    | Withdraw(multisig: bool, assetMint: Key, mint: Key, destination: Key, verifier: Key, proof: Proof,
               inputs: Public, amount: U64, rootIndex: U8)
    | Donate(mint: Key, amount: U64)  // a token transfer into a vault that does not go through the program

  type Outcome = Result<(State, seq<Event>), PoolError>

  // ----- shared steps -----

  function ResolveRoot(env: Env, s: State, rootIndex: U8): Result<Fr, PoolError> {
    var root := SlotRoot(env.hashes.node, s.leaves, rootIndex);
    if root == 0 then Err(StaleRoot) else Ok(root)
  }

  function InsertAndEmit(env: Env, s: State, leaf: Fr, eph: Fr, tag: Option<Fr>, wrap: Option<Fr>,
                         ct: seq<Fr>): Outcome {
    if leaf == 0 then Err(InvalidLeaf)
    else if |s.leaves| >= CAPACITY then Err(InvalidAccountData)
    else if !Hashable(env.hashes.node, env.order, s.leaves + [leaf]) then Err(InvalidLeaf)
    else
      var s' := s.(leaves := s.leaves + [leaf]);
      Ok((s', [NoteInserted(|s.leaves|, leaf, eph, tag, wrap, ct, Root(env.hashes.node, s'.leaves))]))
  }

  function CreateNullifier(s: State, nullifier: Fr): Outcome {
    if nullifier in s.nullifiers then Err(NullifierSpent)
    else Ok((s.(nullifiers := s.nullifiers + {nullifier}), [NullifierSpentEvent(nullifier)]))
  }

  // Decompress the proof, then call the registered verifier program.
  function VerifyCpi(env: Env, registered: Key, given: Key, proof: Proof, full: seq<Fr>): Result<(), PoolError> {
    if !env.Decompresses(proof) then Err(InvalidProof)
    else if given != registered then Err(IncorrectProgramId)
    else if registered == 0 then Err(VerifierUnset)
    else if !env.Accepts(registered, full, proof) then Err(VerifierRejected)
    else Ok(())
  }

  function CheckAuthority(s: State, signer: Key): Result<(), PoolError> {
    if !s.initialized then Err(InvalidSeeds)
    else if s.authority != signer then Err(InvalidAccountData)
    else Ok(())
  }

  // ----- handlers -----

  function DoInitialize(env: Env, s: State, authority: Key, pkX: Fr, pkY: Fr, verifiers: VerifierTable,
                        genesisLeaf: Fr): Outcome {
    if s.initialized then Err(AccountAlreadyInitialized)
    else
      var s0 := s.(initialized := true, authority := authority, paused := false, complianceVersion := 0,
                   compliancePkX := pkX, compliancePkY := pkY, verifiers := verifiers, leaves := []);
      InsertAndEmit(env, s0, genesisLeaf, 0, None, None, [0, 0, 0, 0, 0, 0, 0])
  }

  function DoRotate(s: State, signer: Key, x: Fr, y: Fr): Outcome {
    var _ :- CheckAuthority(s, signer);
    if s.complianceVersion >= U32_MAX then Err(ArithmeticOverflow)
    else
      var v := s.complianceVersion;
      Ok((s.(compliancePkX := x, compliancePkY := y, complianceVersion := v + 1),
          [ComplianceKeyRotated(v, v + 1, x, y)]))
  }

  function DoDeposit(env: Env, s: State, mint: Key, funds: nat, verifier: Key, proof: Proof, inputs: Public,
                     amount: U64): Outcome {
    if |inputs| != 11 then Err(InvalidPublicInputCount)
    else if inputs[2] != amount then Err(AmountMismatch)
    else if inputs[3] != env.AssetId(mint) then Err(AssetMismatch)
    else if !s.initialized then Err(InvalidAccountData)
    else if s.paused then Err(Paused)
    else
      var full := [s.compliancePkX, s.compliancePkY] + inputs;
      var (s1, e1) :- InsertAndEmit(env, s, inputs[0], inputs[1], None, None, inputs[4..11]);
      var _ :- VerifyCpi(env, s.verifiers[0], verifier, proof, full);
      var id := env.AssetId(mint);
      if id in s1.assets && s1.assets[id] != mint then Err(AssetCollision)
      else if funds < amount then Err(TokenTransferFailed)
      else Ok((s1.(assets := s1.assets[id := mint], vaults := s1.vaults[mint := Vault(s1, mint) + amount]), e1))
  }

  function DoTransfer(env: Env, s: State, circuit: CircuitId, verifier: Key, proof: Proof, inputs: Public,
                      rootIndex: U8): Outcome {
    if !s.initialized then Err(InvalidSeeds)
    else if |inputs| != 21 then Err(InvalidPublicInputCount)
    else if s.paused then Err(Paused)
    else
      var root :- ResolveRoot(env, s, rootIndex);
      var full := [s.compliancePkX, s.compliancePkY, inputs[0], root] + inputs[1..];
      var (s1, e1) :- InsertAndEmit(env, s, inputs[1], inputs[2], Some(inputs[3]), Some(inputs[4]), inputs[5..12]);
      var (s2, e2) :- InsertAndEmit(env, s1, inputs[12], inputs[13], None, None, inputs[14..21]);
      var (s3, e3) :- CreateNullifier(s2, inputs[0]);
      var _ :- VerifyCpi(env, s.verifiers[circuit.Id()], verifier, proof, full);
      Ok((s3, e1 + e2 + e3))
  }

  function DoSplit(env: Env, s: State, verifier: Key, proof: Proof, inputs: Public, rootIndex: U8): Outcome {
    if !s.initialized then Err(InvalidSeeds)
    else if |inputs| != 19 then Err(InvalidPublicInputCount)
    else if s.paused then Err(Paused)
    else
      var root :- ResolveRoot(env, s, rootIndex);
      var full := [s.compliancePkX, s.compliancePkY, inputs[0], root] + inputs[1..];
      var (s1, e1) :- InsertAndEmit(env, s, inputs[1], inputs[2], None, None, inputs[3..10]);
      var (s2, e2) :- InsertAndEmit(env, s1, inputs[10], inputs[11], None, None, inputs[12..19]);
      var (s3, e3) :- CreateNullifier(s2, inputs[0]);
      var _ :- VerifyCpi(env, s.verifiers[4], verifier, proof, full);
      Ok((s3, e1 + e2 + e3))
  }

  function DoJoin(env: Env, s: State, verifier: Key, proof: Proof, inputs: Public, rootIndex: U8): Outcome {
    if !s.initialized then Err(InvalidSeeds)
    else if |inputs| != 11 then Err(InvalidPublicInputCount)
    else if s.paused then Err(Paused)
    else
      var root :- ResolveRoot(env, s, rootIndex);
      var full := [s.compliancePkX, s.compliancePkY, inputs[0], inputs[1], root] + inputs[2..];
      var (s1, e1) :- InsertAndEmit(env, s, inputs[2], inputs[3], None, None, inputs[4..11]);
      var (s2, e2) :- CreateNullifier(s1, inputs[0]);
      var (s3, e3) :- CreateNullifier(s2, inputs[1]);
      var _ :- VerifyCpi(env, s.verifiers[5], verifier, proof, full);
      Ok((s3, e1 + e2 + e3))
  }

  // Everything a withdrawal does before the tokens move.
  function AcceptWithdraw(env: Env, s: State, circuit: CircuitId, assetMint: Key, mint: Key, destination: Key,
                          verifier: Key, proof: Proof, inputs: Public, amount: U64, rootIndex: U8): Outcome {
    if |inputs| != 14 then Err(InvalidPublicInputCount)
    else if !s.initialized then Err(InvalidSeeds)
    else if inputs[2] != 0 then Err(IntentHashNotZero)
    else if inputs[0] != amount then Err(AmountMismatch)
    else if inputs[1] != env.RecipientField(destination) then Err(RecipientMismatch)
    else if assetMint != mint || inputs[4] != env.AssetId(mint) then Err(AssetMismatch)
    else if s.paused then Err(Paused)
    else
      var root :- ResolveRoot(env, s, rootIndex);
      var full := [inputs[0], inputs[1], inputs[2], s.compliancePkX, s.compliancePkY, inputs[3], root] + inputs[4..];
      var (s1, e1) :- InsertAndEmit(env, s, inputs[5], inputs[6], None, None, inputs[7..14]);
      var (s2, e2) :- CreateNullifier(s1, inputs[3]);
      var _ :- VerifyCpi(env, s.verifiers[circuit.Id()], verifier, proof, full);
      Ok((s2, e1 + e2))
  }

  function PayOut(s: State, mint: Key, amount: nat): Result<State, PoolError> {
    if Vault(s, mint) < amount then Err(TokenTransferFailed)
    else Ok(s.(vaults := s.vaults[mint := Vault(s, mint) - amount]))
  }

  function DoWithdraw(env: Env, s: State, circuit: CircuitId, assetMint: Key, mint: Key, destination: Key,
                      verifier: Key,
                      proof: Proof, inputs: Public, amount: U64, rootIndex: U8): Outcome {
    var (s1, events) :- AcceptWithdraw(env, s, circuit, assetMint, mint, destination, verifier, proof, inputs, amount, rootIndex);
    var s2 :- PayOut(s1, mint, amount);
    Ok((s2, events))
  }

  function Execute(env: Env, s: State, tx: Tx): Outcome {
    match tx
    case Initialize(authority, pkX, pkY, verifiers, genesis) =>
      DoInitialize(env, s, authority, pkX, pkY, verifiers, genesis)
    case SetVerifier(signer, circuitId, program) =>
      var _ :- CheckAuthority(s, signer);
      if circuitId >= NUM_VERIFIERS then Err(InvalidArgument)
      else Ok((s.(verifiers := s.verifiers[circuitId := program]), []))
    case RotateComplianceKey(signer, x, y) => DoRotate(s, signer, x, y)
    case SetPaused(signer, paused) =>
      var _ :- CheckAuthority(s, signer);
      Ok((s.(paused := paused), []))
    case Deposit(mint, funds, verifier, proof, inputs, amount) =>
      DoDeposit(env, s, mint, funds, verifier, proof, inputs, amount)
    case Transfer(multisig, verifier, proof, inputs, rootIndex) =>
      DoTransfer(env, s, if multisig then TransferMultisigC else TransferC, verifier, proof, inputs, rootIndex)
    case SplitMultisig(verifier, proof, inputs, rootIndex) => DoSplit(env, s, verifier, proof, inputs, rootIndex)
    case JoinMultisig(verifier, proof, inputs, rootIndex) => DoJoin(env, s, verifier, proof, inputs, rootIndex)
    case Withdraw(multisig, assetMint, mint, destination, verifier, proof, inputs, amount, rootIndex) =>
      DoWithdraw(env, s, if multisig then WithdrawMultisigC else WithdrawC, assetMint, mint, destination, verifier, proof,
                 inputs, amount, rootIndex)
    case Donate(mint, amount) => Ok((s.(vaults := s.vaults[mint := Vault(s, mint) + amount]), []))
  }

  // A failed transaction is rolled back and logs no events.
  function Process(env: Env, s: State, tx: Tx): (State, seq<Event>) {
    match Execute(env, s, tx)
    case Ok(done) => done
    case Err(_) => (s, [])
  }

  // The state after a run of transactions, and every event it logged, in order.
  function Run(env: Env, txs: seq<Tx>): (State, seq<Event>) {
    if txs == [] then (EMPTY, [])
    else
      var (s, log) := Run(env, txs[..|txs| - 1]);
      var (s', events) := Process(env, s, txs[|txs| - 1]);
      (s', log + events)
  }
}
