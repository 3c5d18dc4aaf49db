/** The pool program's handlers, changing accounts step by step, and the runtime's all-or-nothing rule.

    Each handler is proved against the function of `PoolSpec` that says what it does to the leaves,
    nullifiers, registry and vaults; the account itself only holds a frontier and a ring. */
module Processor {
  import opened Hashing
  import opened LeanImt
  import opened Outcomes
  import opened PoolErrors
  import opened PoolAccount
  import opened Circuits
  import opened PoolSpec

  type Status = Result<(), PoolError>

  class Ledger {
    const env: Env
    const pool: Pool
    var initialized: bool
    var nullifiers: set<Fr>
    var assets: map<Fr, Key>
    var vaults: map<Key, nat>
    var log: seq<Event>  // the event lines of the transaction being executed

    ghost predicate Valid()
      reads this, pool, pool.sideNodes, pool.roots
    {
      pool.Valid() && pool.h == env.hashes.node && pool.order == env.order && (!initialized ==> pool.leaves == [])
    }

    ghost function Abs(): State
      requires Valid()
      reads this, pool, pool.sideNodes, pool.roots
    {
      State(initialized, pool.authority, pool.paused, pool.complianceVersion, pool.compliancePkX, pool.compliancePkY,
            pool.verifiers, pool.leaves, nullifiers, assets, vaults)
    }

    constructor (env: Env)
      requires NeverZero(env.hashes.node)
      ensures Valid() && Abs() == EMPTY && log == [] && this.env == env
      ensures fresh(pool) && fresh(pool.sideNodes) && fresh(pool.roots)
    {
      this.env := env;
      pool := new Pool(env.hashes.node, env.order);
      initialized, nullifiers, assets, vaults, log := false, {}, map[], map[], [];
      new;
      assert Abs() == EMPTY;
    }

    // ----- shared steps -----

    method ReadRoot(rootIndex: U8) returns (r: Result<Fr, PoolError>)
      requires Valid()
      ensures r == ResolveRoot(env, Abs(), rootIndex)
    {
      hide Root, SlotRoot, IsFrontier;
      var root := pool.RootAtSlot(rootIndex);
      assert root == pool.roots[..][rootIndex];
      r := if root == 0 then Err(StaleRoot) else Ok(root);
    }

    method InsertNote(leaf: Fr, eph: Fr, tag: Option<Fr>, wrap: Option<Fr>, ct: seq<Fr>) returns (r: Status)
      requires Valid() && initialized
      modifies this`log, pool`nextLeafIndex, pool`rootCursor, pool`leaves, pool.sideNodes, pool.roots
      ensures Valid()
      ensures match InsertAndEmit(env, old(Abs()), leaf, eph, tag, wrap, ct)
              case Ok((s, e)) => r.Ok? && Abs() == s && log == (if old(log) == [] then e else old(log) + e)
              case Err(error) => r == Err(error)
    {
      hide Root, IsFrontier, IsRing, Hashable;
      var inserted := pool.Insert(leaf);
      if inserted.Err? {
        return Err(inserted.error);
      }
      var (leafIndex, root) := inserted.value;
      log := log + [NoteInserted(leafIndex, leaf, eph, tag, wrap, ct, root)];
      r := Ok(());
    }

    method RecordNullifier(nullifier: Fr) returns (r: Status)
      requires Valid()
      modifies this`log, this`nullifiers
      ensures Valid()
      ensures match CreateNullifier(old(Abs()), nullifier)
              case Ok((s, e)) => r.Ok? && Abs() == s && log == (if old(log) == [] then e else old(log) + e)
              case Err(error) => r == Err(error)
    {
      if nullifier in nullifiers {
        return Err(NullifierSpent);
      }
      nullifiers := nullifiers + {nullifier};
      log := log + [NullifierSpentEvent(nullifier)];
      r := Ok(());
    }

    // ----- handlers -----

    method HandleInitialize(authority: Key, pkX: Fr, pkY: Fr, verifiers: VerifierTable,
                            genesisLeaf: Fr) returns (r: Status)
      requires Valid() && log == []
      modifies this, pool, pool.sideNodes, pool.roots
      ensures Valid()
      ensures match DoInitialize(env, old(Abs()), authority, pkX, pkY, verifiers, genesisLeaf)
              case Ok((s, e)) => r.Ok? && Abs() == s && log == e
              case Err(error) => r == Err(error)
    {
      hide Root, IsFrontier, IsRing, InsertAndEmit;
      if initialized {
        return Err(AccountAlreadyInitialized);
      }
      initialized := true;
      pool.authority, pool.paused, pool.complianceVersion := authority, false, 0;
      pool.compliancePkX, pool.compliancePkY, pool.verifiers := pkX, pkY, verifiers;
      r := InsertNote(genesisLeaf, 0, None, None, [0, 0, 0, 0, 0, 0, 0]);
    }

    method HandleRotate(signer: Key, x: Fr, y: Fr) returns (r: Status)
      requires Valid() && log == []
      modifies this, pool
      ensures Valid()
      ensures match DoRotate(old(Abs()), signer, x, y)
              case Ok((s, e)) => r.Ok? && Abs() == s && log == e
              case Err(error) => r == Err(error)
    {
      hide IsFrontier, IsRing;
      if !initialized {
        return Err(InvalidSeeds);
      }
      if pool.authority != signer {
        return Err(InvalidAccountData);
      }
      var oldVersion := pool.complianceVersion;
      if oldVersion >= U32_MAX {
        return Err(ArithmeticOverflow);
      }
      pool.compliancePkX, pool.compliancePkY := x, y;
      pool.complianceVersion := oldVersion + 1;
      log := log + [ComplianceKeyRotated(oldVersion, oldVersion + 1, x, y)];
      r := Ok(());
    }

    method HandleSetVerifier(signer: Key, circuitId: U8, program: Key) returns (r: Status)
      requires Valid() && log == []
      modifies this, pool
      ensures Valid()
      ensures match Execute(env, old(Abs()), SetVerifier(signer, circuitId, program))
              case Ok((s, e)) => r.Ok? && Abs() == s && log == e
              case Err(error) => r == Err(error)
    {
      hide IsFrontier, IsRing;
      if !initialized { return Err(InvalidSeeds); }
      if pool.authority != signer { return Err(InvalidAccountData); }
      if circuitId >= NUM_VERIFIERS { return Err(InvalidArgument); }
      pool.verifiers := pool.verifiers[circuitId := program];
      r := Ok(());
    }

    method HandleSetPaused(signer: Key, paused: bool) returns (r: Status)
      requires Valid() && log == []
      modifies this, pool
      ensures Valid()
      ensures match Execute(env, old(Abs()), SetPaused(signer, paused))
              case Ok((s, e)) => r.Ok? && Abs() == s && log == e
              case Err(error) => r == Err(error)
    {
      hide IsFrontier, IsRing;
      if !initialized { return Err(InvalidSeeds); }
      if pool.authority != signer { return Err(InvalidAccountData); }
      pool.paused := paused;
      r := Ok(());
    }

    method HandleDeposit(mint: Key, funds: nat, verifier: Key, proof: Proof, inputs: Public,
                         amount: U64) returns (r: Status)
      requires Valid() && log == []
      modifies this, pool, pool.sideNodes, pool.roots
      ensures Valid()
      ensures match DoDeposit(env, old(Abs()), mint, funds, verifier, proof, inputs, amount)
              case Ok((s, e)) => r.Ok? && Abs() == s && log == e
              case Err(error) => r == Err(error)
    {
      hide Pool.Valid, InsertAndEmit, VerifyCpi;
      if |inputs| != 11 { return Err(InvalidPublicInputCount); }
      if inputs[2] != amount { return Err(AmountMismatch); }
      if inputs[3] != env.AssetId(mint) { return Err(AssetMismatch); }
      if !initialized { return Err(InvalidAccountData); }
      if pool.paused { return Err(Paused); }
      var full := [pool.compliancePkX, pool.compliancePkY] + inputs;
      var registered := pool.verifiers[0];
      r := InsertNote(inputs[0], inputs[1], None, None, inputs[4..11]);
      if r.Err? { return; }
      r := VerifyCpi(env, registered, verifier, proof, full);
      if r.Err? { return; }
      var id := env.AssetId(mint);
      ghost var registry := assets;
      if id !in assets {
        assets := assets[id := mint];
      } else if assets[id] != mint {
        return Err(AssetCollision);
      }
      assert assets == registry[id := mint];
      if funds < amount { return Err(TokenTransferFailed); }
      vaults := vaults[mint := (if mint in vaults then vaults[mint] else 0) + amount];
    }

    method HandleTransfer(circuit: CircuitId, verifier: Key, proof: Proof, inputs: Public,
                          rootIndex: U8) returns (r: Status)
      requires Valid() && log == []
      modifies this, pool, pool.sideNodes, pool.roots
      ensures Valid()
      ensures match DoTransfer(env, old(Abs()), circuit, verifier, proof, inputs, rootIndex)
              case Ok((s, e)) => r.Ok? && Abs() == s && log == e
              case Err(error) => r == Err(error)
    {
      hide Valid, InsertAndEmit, VerifyCpi, ResolveRoot, CreateNullifier;
      if !initialized { return Err(InvalidSeeds); }
      if |inputs| != 21 { return Err(InvalidPublicInputCount); }
      if pool.paused { return Err(Paused); }
      var root := ReadRoot(rootIndex);
      if root.Err? { return Err(root.error); }
      var full := [pool.compliancePkX, pool.compliancePkY, inputs[0], root.value] + inputs[1..];
      var registered := pool.verifiers[circuit.Id()];
      r := InsertNote(inputs[1], inputs[2], Some(inputs[3]), Some(inputs[4]), inputs[5..12]);
      if r.Err? { return; }
      r := InsertNote(inputs[12], inputs[13], None, None, inputs[14..21]);
      if r.Err? { return; }
      r := RecordNullifier(inputs[0]);
      if r.Err? { return; }
      r := VerifyCpi(env, registered, verifier, proof, full);
    }

    method HandleSplit(verifier: Key, proof: Proof, inputs: Public, rootIndex: U8) returns (r: Status)
      requires Valid() && log == []
      modifies this, pool, pool.sideNodes, pool.roots
      ensures Valid()
      ensures match DoSplit(env, old(Abs()), verifier, proof, inputs, rootIndex)
              case Ok((s, e)) => r.Ok? && Abs() == s && log == e
              case Err(error) => r == Err(error)
    {
      hide Valid, InsertAndEmit, VerifyCpi, ResolveRoot, CreateNullifier;
      if !initialized { return Err(InvalidSeeds); }
      if |inputs| != 19 { return Err(InvalidPublicInputCount); }
      if pool.paused { return Err(Paused); }
      var root := ReadRoot(rootIndex);
      if root.Err? { return Err(root.error); }
      var full := [pool.compliancePkX, pool.compliancePkY, inputs[0], root.value] + inputs[1..];
      var registered := pool.verifiers[4];
      r := InsertNote(inputs[1], inputs[2], None, None, inputs[3..10]);
      if r.Err? { return; }
      r := InsertNote(inputs[10], inputs[11], None, None, inputs[12..19]);
      if r.Err? { return; }
      r := RecordNullifier(inputs[0]);
      if r.Err? { return; }
      r := VerifyCpi(env, registered, verifier, proof, full);
    }

    method HandleJoin(verifier: Key, proof: Proof, inputs: Public, rootIndex: U8) returns (r: Status)
      requires Valid() && log == []
      modifies this, pool, pool.sideNodes, pool.roots
      ensures Valid()
      ensures match DoJoin(env, old(Abs()), verifier, proof, inputs, rootIndex)
              case Ok((s, e)) => r.Ok? && Abs() == s && log == e
              case Err(error) => r == Err(error)
    {
      hide Valid, InsertAndEmit, VerifyCpi, ResolveRoot, CreateNullifier;
      if !initialized { return Err(InvalidSeeds); }
      if |inputs| != 11 { return Err(InvalidPublicInputCount); }
      if pool.paused { return Err(Paused); }
      var root := ReadRoot(rootIndex);
      if root.Err? { return Err(root.error); }
      var full := [pool.compliancePkX, pool.compliancePkY, inputs[0], inputs[1], root.value] + inputs[2..];
      var registered := pool.verifiers[5];
      r := InsertNote(inputs[2], inputs[3], None, None, inputs[4..11]);
      if r.Err? { return; }
      r := RecordNullifier(inputs[0]);
      if r.Err? { return; }
      r := RecordNullifier(inputs[1]);
      if r.Err? { return; }
      r := VerifyCpi(env, registered, verifier, proof, full);
    }

    // A withdrawal up to its token transfer.
    method CheckWithdraw(circuit: CircuitId, assetMint: Key, mint: Key, destination: Key, verifier: Key, proof: Proof,
                         inputs: Public, amount: U64, rootIndex: U8) returns (r: Status)
      requires Valid() && log == []
      modifies this, pool, pool.sideNodes, pool.roots
      ensures Valid()
      ensures match AcceptWithdraw(env, old(Abs()), circuit, assetMint, mint, destination, verifier, proof, inputs, amount, rootIndex)
              case Ok((s, e)) => r.Ok? && Abs() == s && log == e
              case Err(error) => r == Err(error)
    {
      hide Valid, InsertAndEmit, VerifyCpi, ResolveRoot, CreateNullifier;
      if |inputs| != 14 { return Err(InvalidPublicInputCount); }
      if !initialized { return Err(InvalidSeeds); }
      if inputs[2] != 0 { return Err(IntentHashNotZero); }
      if inputs[0] != amount { return Err(AmountMismatch); }
      if inputs[1] != env.RecipientField(destination) { return Err(RecipientMismatch); }
      if assetMint != mint { return Err(AssetMismatch); }
      if inputs[4] != env.AssetId(mint) { return Err(AssetMismatch); }
      if pool.paused { return Err(Paused); }
      var root := ReadRoot(rootIndex);
      if root.Err? { return Err(root.error); }
      var full := [inputs[0], inputs[1], inputs[2], pool.compliancePkX, pool.compliancePkY, inputs[3], root.value] + inputs[4..];
      var registered := pool.verifiers[circuit.Id()];
      r := InsertNote(inputs[5], inputs[6], None, None, inputs[7..14]);
      if r.Err? { return; }
      r := RecordNullifier(inputs[3]);
      if r.Err? { return; }
      r := VerifyCpi(env, registered, verifier, proof, full);
    }

    method HandleWithdraw(circuit: CircuitId, assetMint: Key, mint: Key, destination: Key, verifier: Key, proof: Proof,
                          inputs: Public, amount: U64, rootIndex: U8) returns (r: Status)
      requires Valid() && log == []
      modifies this, pool, pool.sideNodes, pool.roots
      ensures Valid()
      ensures match DoWithdraw(env, old(Abs()), circuit, assetMint, mint, destination, verifier, proof, inputs, amount, rootIndex)
              case Ok((s, e)) => r.Ok? && Abs() == s && log == e
              case Err(error) => r == Err(error)
    {
      hide Pool.Valid, AcceptWithdraw;
      r := CheckWithdraw(circuit, assetMint, mint, destination, verifier, proof, inputs, amount, rootIndex);
      if r.Err? { return; }
      var balance := if mint in vaults then vaults[mint] else 0;
      if balance < amount { return Err(TokenTransferFailed); }
      vaults := vaults[mint := balance - amount];
    }

    method Dispatch(tx: Tx) returns (r: Status)
      requires Valid() && log == []
      modifies this, pool, pool.sideNodes, pool.roots
      ensures Valid()
      ensures match Execute(env, old(Abs()), tx)
              case Ok((s, e)) => r.Ok? && Abs() == s && log == e
              case Err(error) => r == Err(error)
    {
      hide Pool.Valid, DoInitialize, DoRotate, DoDeposit, DoTransfer, DoSplit, DoJoin, DoWithdraw;
      match tx {
        case Initialize(authority, pkX, pkY, verifiers, genesis) =>
          r := HandleInitialize(authority, pkX, pkY, verifiers, genesis);
        case SetVerifier(signer, circuitId, program) => r := HandleSetVerifier(signer, circuitId, program);
        case RotateComplianceKey(signer, x, y) => r := HandleRotate(signer, x, y);
        case SetPaused(signer, paused) => r := HandleSetPaused(signer, paused);
        case Deposit(mint, funds, verifier, proof, inputs, amount) =>
          r := HandleDeposit(mint, funds, verifier, proof, inputs, amount);
        case Transfer(multisig, verifier, proof, inputs, rootIndex) =>
          r := HandleTransfer(if multisig then TransferMultisigC else TransferC, verifier, proof, inputs, rootIndex);
        case SplitMultisig(verifier, proof, inputs, rootIndex) => r := HandleSplit(verifier, proof, inputs, rootIndex);
        case JoinMultisig(verifier, proof, inputs, rootIndex) => r := HandleJoin(verifier, proof, inputs, rootIndex);
        case Withdraw(multisig, assetMint, mint, destination, verifier, proof, inputs, amount, rootIndex) =>
          r := HandleWithdraw(if multisig then WithdrawMultisigC else WithdrawC, assetMint, mint, destination, verifier,
                              proof, inputs, amount, rootIndex);
        case Donate(mint, amount) =>
          vaults := vaults[mint := (if mint in vaults then vaults[mint] else 0) + amount];
          r := Ok(());
      }
    }

    // ----- the runtime -----

    // A saved copy of every account stands for this state.
    ghost predicate Captures(copy: Accounts, s: State) {
      && NeverZero(env.hashes.node) && NonZero(s.leaves) && |s.leaves| <= CAPACITY
      && (!s.initialized ==> s.leaves == [])
      && copy.nextLeafIndex == |s.leaves| && copy.rootCursor == |s.leaves| % ROOT_RING
      && IsFrontier(env.hashes.node, s.leaves, copy.sideNodes) && IsRing(env.hashes.node, s.leaves, copy.roots)
      && copy.initialized == s.initialized && copy.authority == s.authority && copy.paused == s.paused
      && copy.complianceVersion == s.complianceVersion && copy.compliancePkX == s.compliancePkX
      && copy.compliancePkY == s.compliancePkY && copy.verifiers == s.verifiers
      && copy.nullifiers == s.nullifiers && copy.assets == s.assets && copy.vaults == s.vaults
    }

    method Save() returns (copy: Accounts)
      requires Valid()
      ensures Captures(copy, Abs())
    {
      hide IsFrontier, IsRing;
      copy := Accounts(initialized, pool.authority, pool.paused, pool.complianceVersion, pool.compliancePkX,
                       pool.compliancePkY, pool.verifiers, pool.nextLeafIndex, pool.rootCursor, pool.sideNodes[..],
                       pool.roots[..], nullifiers, assets, vaults);
    }

    method Restore(copy: Accounts, ghost s: State)
      requires Captures(copy, s) && pool.h == env.hashes.node && pool.order == env.order && pool.sideNodes != pool.roots
      requires pool.sideNodes.Length == TREE_DEPTH && pool.roots.Length == ROOT_RING
      modifies this, pool, pool.sideNodes, pool.roots
      ensures Valid() && Abs() == s
    {
      WriteBack(pool.sideNodes, copy.sideNodes);
      WriteBack(pool.roots, copy.roots);
      hide IsFrontier, IsRing;
      initialized, nullifiers, assets, vaults := copy.initialized, copy.nullifiers, copy.assets, copy.vaults;
      pool.authority, pool.paused, pool.complianceVersion := copy.authority, copy.paused, copy.complianceVersion;
      pool.compliancePkX, pool.compliancePkY, pool.verifiers := copy.compliancePkX, copy.compliancePkY, copy.verifiers;
      pool.nextLeafIndex, pool.rootCursor, pool.leaves := copy.nextLeafIndex, copy.rootCursor, s.leaves;
    }

    // Execute, and on failure put every account back and drop the transaction's log.
    method Submit(tx: Tx) returns (r: Status, events: seq<Event>)
      requires Valid()
      modifies this, pool, pool.sideNodes, pool.roots
      ensures Valid()
      ensures Abs() == Process(env, old(Abs()), tx).0 && events == Process(env, old(Abs()), tx).1
      ensures match Execute(env, old(Abs()), tx) case Ok(_) => r.Ok? case Err(error) => r == Err(error)
    {
      hide Execute, Captures;
      var copy := Save();
      log := [];
      r := Dispatch(tx);
      events := log;
      if r.Err? {
        events := [];
        SizesKept();
        hide IsFrontier, IsRing;
        Restore(copy, old(Abs()));
      }
    }

    lemma SizesKept()
      requires Valid()
      ensures pool.sideNodes.Length == TREE_DEPTH && pool.roots.Length == ROOT_RING
    {
    }
  }

  // Everything the runtime must be able to put back.
  datatype Accounts = Accounts(
    initialized: bool, authority: Key, paused: bool, complianceVersion: nat, compliancePkX: Fr, compliancePkY: Fr,
    verifiers: VerifierTable, nextLeafIndex: nat, rootCursor: nat, sideNodes: seq<Fr>, roots: seq<Fr>,
    nullifiers: set<Fr>, assets: map<Fr, Key>, vaults: map<Key, nat>)

  method WriteBack(a: array<Fr>, saved: seq<Fr>)
    requires a.Length == |saved|
    modifies a
    ensures a[..] == saved
  {
    forall i | 0 <= i < a.Length {
      a[i] := saved[i];
    }
  }
}
