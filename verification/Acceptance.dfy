/** When the pool accepts a transaction, what it then does, and with which error it refuses one. */
module Acceptance {
  import opened Hashing
  import opened LeanImt
  import opened Outcomes
  import opened PoolErrors
  import opened PoolAccount
  import opened Circuits
  import opened PoolSpec

  // ----- checks in order -----

  // Something that must hold, and the error if it does not.
  datatype Check = Check(holds: bool, error: PoolError)

  function FirstFailure(checks: seq<Check>): Option<PoolError> {
    if checks == [] then None else if !checks[0].holds then Some(checks[0].error) else FirstFailure(checks[1..])
  }

  ghost predicate AllHold(checks: seq<Check>) {
    forall i :: 0 <= i < |checks| ==> checks[i].holds
  }

  lemma {:induction false} NoFailureIffAllHold(checks: seq<Check>)
    ensures FirstFailure(checks).None? <==> AllHold(checks)
  {
    if checks != [] {
      NoFailureIffAllHold(checks[1..]);
      assert checks == [checks[0]] + checks[1..];
    }
  }

  function Earlier(first: Option<PoolError>, second: Option<PoolError>): Option<PoolError> {
    if first.Some? then first else second
  }

  lemma {:induction false} FailuresConcatenate(a: seq<Check>, b: seq<Check>)
    ensures FirstFailure(a + b) == Earlier(FirstFailure(a), FirstFailure(b))
  {
    if a == [] {
      assert a + b == b;
    } else {
      assert (a + b)[1..] == a[1..] + b;
      FailuresConcatenate(a[1..], b);
    }
  }

  lemma ThreeGroups(a: seq<Check>, b: seq<Check>, c: seq<Check>)
    ensures FirstFailure(a + b + c) == Earlier(Earlier(FirstFailure(a), FirstFailure(b)), FirstFailure(c))
  {
    hide FirstFailure;
    FailuresConcatenate(a, b);
    FailuresConcatenate(a + b, c);
  }

  lemma FourGroups(a: seq<Check>, b: seq<Check>, c: seq<Check>, d: seq<Check>)
    ensures FirstFailure(a + b + c + d)
            == Earlier(Earlier(Earlier(FirstFailure(a), FirstFailure(b)), FirstFailure(c)), FirstFailure(d))
  {
    hide FirstFailure;
    ThreeGroups(a, b, c);
    FailuresConcatenate(a + b + c, d);
  }

  // ----- the groups of checks the handlers share -----

  function Input(inputs: Public, i: nat): Fr {
    if i < |inputs| then inputs[i] else 0
  }

  // A leaf that is to become the next one of these leaves.
  function LeafChecks(env: Env, leaves: seq<Fr>, leaf: Fr): seq<Check> {
    [Check(leaf != 0, InvalidLeaf), Check(|leaves| < CAPACITY, InvalidAccountData),
     Check(Hashable(env.hashes.node, env.order, leaves + [leaf]), InvalidLeaf)]
  }

  // The verifier program given is the registered one, and accepts.
  function ProofChecks(env: Env, registered: Key, given: Key, proof: Proof, full: seq<Fr>): seq<Check> {
    [Check(env.Decompresses(proof), InvalidProof), Check(given == registered, IncorrectProgramId),
     Check(registered != 0, VerifierUnset), Check(env.Accepts(registered, full, proof), VerifierRejected)]
  }

  function AdminChecks(s: State, signer: Key): seq<Check> {
    [Check(s.initialized, InvalidSeeds), Check(s.authority == signer, InvalidAccountData)]
  }

  function SpendChecks(env: Env, s: State, inputs: Public, count: nat, rootIndex: U8): seq<Check> {
    [Check(s.initialized, InvalidSeeds), Check(|inputs| == count, InvalidPublicInputCount), Check(!s.paused, Paused),
     Check(SlotRoot(env.hashes.node, s.leaves, rootIndex) != 0, StaleRoot)]
  }

  function Fresh(s: State, nullifier: Fr): seq<Check> {
    [Check(nullifier !in s.nullifiers, NullifierSpent)]
  }

  // The second nullifier of a join must be new after the first is recorded.
  function Second(s: State, i: Public): seq<Check> {
    [Check(Input(i, 1) !in s.nullifiers && Input(i, 1) != Input(i, 0), NullifierSpent)]
  }

  function DepositChecks(env: Env, s: State, mint: Key, i: Public, amount: U64): seq<Check> {
    [Check(|i| == 11, InvalidPublicInputCount), Check(Input(i, 2) == amount, AmountMismatch),
     Check(Input(i, 3) == env.AssetId(mint), AssetMismatch), Check(s.initialized, InvalidAccountData),
     Check(!s.paused, Paused)]
  }

  // The asset id belongs to no other mint, and the depositor has the tokens.
  function RegistryChecks(env: Env, s: State, mint: Key, funds: nat, amount: U64): seq<Check> {
    var id := env.AssetId(mint);
    [Check(id in s.assets ==> s.assets[id] == mint, AssetCollision), Check(amount <= funds, TokenTransferFailed)]
  }

  function WithdrawChecks(env: Env, s: State, assetMint: Key, mint: Key, destination: Key, i: Public, amount: U64): seq<Check> {
    [Check(|i| == 14, InvalidPublicInputCount), Check(s.initialized, InvalidSeeds),
     Check(Input(i, 2) == 0, IntentHashNotZero), Check(Input(i, 0) == amount, AmountMismatch),
     Check(Input(i, 1) == env.RecipientField(destination), RecipientMismatch),
     Check(assetMint == mint && Input(i, 4) == env.AssetId(mint), AssetMismatch), Check(!s.paused, Paused)]
  }

  // The root check of a withdrawal, made after the pause check.
  function RootChecks(env: Env, s: State, rootIndex: U8): seq<Check> {
    [Check(SlotRoot(env.hashes.node, s.leaves, rootIndex) != 0, StaleRoot)]
  }

  function VaultChecks(s: State, mint: Key, amount: U64): seq<Check> {
    [Check(amount <= Vault(s, mint), TokenTransferFailed)]
  }

  // ----- the checks of every transaction, in the order they are made -----

  function Checks(env: Env, s: State, tx: Tx): seq<Check> {
    match tx
    case Initialize(_, _, _, _, genesis) =>
      [Check(!s.initialized, AccountAlreadyInitialized)] + LeafChecks(env, [], genesis)
    case SetVerifier(signer, circuitId, _) => AdminChecks(s, signer) + [Check(circuitId < 7, InvalidArgument)]
    case RotateComplianceKey(signer, _, _) =>
      AdminChecks(s, signer) + [Check(s.complianceVersion < 0xffff_ffff, ArithmeticOverflow)]
    case SetPaused(signer, _) => AdminChecks(s, signer)
    case Deposit(mint, funds, verifier, proof, i, amount) =>
      DepositChecks(env, s, mint, i, amount)
      + LeafChecks(env, s.leaves, Input(i, 0))
      + ProofChecks(env, s.verifiers[0], verifier, proof, [s.compliancePkX, s.compliancePkY] + i)
      + RegistryChecks(env, s, mint, funds, amount)
    case Transfer(multisig, verifier, proof, i, rootIndex) =>
      SpendChecks(env, s, i, 21, rootIndex)
      + LeafChecks(env, s.leaves, Input(i, 1)) + LeafChecks(env, s.leaves + [Input(i, 1)], Input(i, 12))
      + Fresh(s, Input(i, 0))
      + ProofChecks(env, s.verifiers[if multisig then 3 else 1], verifier, proof, Spliced(env, s, i, rootIndex))
    case SplitMultisig(verifier, proof, i, rootIndex) =>
      SpendChecks(env, s, i, 19, rootIndex)
      + LeafChecks(env, s.leaves, Input(i, 1)) + LeafChecks(env, s.leaves + [Input(i, 1)], Input(i, 10))
      + Fresh(s, Input(i, 0)) + ProofChecks(env, s.verifiers[4], verifier, proof, Spliced(env, s, i, rootIndex))
    case JoinMultisig(verifier, proof, i, rootIndex) =>
      SpendChecks(env, s, i, 11, rootIndex) + LeafChecks(env, s.leaves, Input(i, 2))
      + Fresh(s, Input(i, 0)) + Second(s, i)
      + ProofChecks(env, s.verifiers[5], verifier, proof, SplicedJoin(env, s, i, rootIndex))
    case Withdraw(multisig, assetMint, mint, destination, verifier, proof, i, amount, rootIndex) =>
      WithdrawChecks(env, s, assetMint, mint, destination, i, amount)
      + RootChecks(env, s, rootIndex)
      + LeafChecks(env, s.leaves, Input(i, 5)) + Fresh(s, Input(i, 3))
      + ProofChecks(env, s.verifiers[if multisig then 6 else 2], verifier, proof, SplicedWithdraw(env, s, i, rootIndex))
      + VaultChecks(s, mint, amount)
    case Donate(_, _) => []
  }

  // What the verifier is handed: the pool's own key and root among the caller's inputs.
  function Spliced(env: Env, s: State, i: Public, rootIndex: U8): seq<Fr> {
    if i == [] then [] else [s.compliancePkX, s.compliancePkY, i[0], SlotRoot(env.hashes.node, s.leaves, rootIndex)] + i[1..]
  }

  function SplicedJoin(env: Env, s: State, i: Public, rootIndex: U8): seq<Fr> {
    if |i| < 2 then []
    else [s.compliancePkX, s.compliancePkY, i[0], i[1], SlotRoot(env.hashes.node, s.leaves, rootIndex)] + i[2..]
  }

  function SplicedWithdraw(env: Env, s: State, i: Public, rootIndex: U8): seq<Fr> {
    if |i| < 4 then []
    else [i[0], i[1], i[2], s.compliancePkX, s.compliancePkY, i[3], SlotRoot(env.hashes.node, s.leaves, rootIndex)] + i[4..]
  }

  // ----- what an accepted transaction does -----

  // The event of the leaf that becomes the next one of these leaves.
  function Inserted(env: Env, leaves: seq<Fr>, leaf: Fr, eph: Fr, tag: Option<Fr>, wrap: Option<Fr>, ct: seq<Fr>): Event {
    NoteInserted(|leaves|, leaf, eph, tag, wrap, ct, Root(env.hashes.node, leaves + [leaf]))
  }

  function NewLeaves(s: State, tx: Tx): seq<Fr> {
    match tx
    case Initialize(_, _, _, _, genesis) => [genesis]
    case Deposit(_, _, _, _, i, _) => s.leaves + [Input(i, 0)]
    case Transfer(_, _, _, i, _) => s.leaves + [Input(i, 1), Input(i, 12)]
    case SplitMultisig(_, _, i, _) => s.leaves + [Input(i, 1), Input(i, 10)]
    case JoinMultisig(_, _, i, _) => s.leaves + [Input(i, 2)]
    case Withdraw(_, _, _, _, _, _, i, _, _) => s.leaves + [Input(i, 5)]
    case _ => s.leaves
  }

  function NewNullifiers(s: State, tx: Tx): set<Fr> {
    match tx
    case Transfer(_, _, _, i, _) => s.nullifiers + {Input(i, 0)}
    case SplitMultisig(_, _, i, _) => s.nullifiers + {Input(i, 0)}
    case JoinMultisig(_, _, i, _) => s.nullifiers + {Input(i, 0), Input(i, 1)}
    case Withdraw(_, _, _, _, _, _, i, _, _) => s.nullifiers + {Input(i, 3)}
    case _ => s.nullifiers
  }

  // Everything beside leaves and nullifiers.
  function Settled(env: Env, s: State, tx: Tx): State {
    match tx
    case Initialize(authority, pkX, pkY, verifiers, _) =>
      s.(initialized := true, authority := authority, paused := false, complianceVersion := 0, compliancePkX := pkX,
         compliancePkY := pkY, verifiers := verifiers)
    case SetVerifier(_, circuitId, program) =>
      if circuitId < 7 then s.(verifiers := s.verifiers[circuitId := program]) else s
    case RotateComplianceKey(_, x, y) =>
      s.(compliancePkX := x, compliancePkY := y, complianceVersion := s.complianceVersion + 1)
    case SetPaused(_, paused) => s.(paused := paused)
    case Deposit(mint, _, _, _, _, amount) =>
      s.(assets := s.assets[env.AssetId(mint) := mint], vaults := s.vaults[mint := Vault(s, mint) + amount])
    case Withdraw(_, _, mint, _, _, _, _, amount, _) =>
      if amount <= Vault(s, mint) then s.(vaults := s.vaults[mint := Vault(s, mint) - amount]) else s
    case Donate(mint, amount) => s.(vaults := s.vaults[mint := Vault(s, mint) + amount])
    case _ => s
  }

  function Logged(env: Env, s: State, tx: Tx): seq<Event> {
    match tx
    case Initialize(_, _, _, _, genesis) => [Inserted(env, [], genesis, 0, None, None, [0, 0, 0, 0, 0, 0, 0])]
    case RotateComplianceKey(_, x, y) => [ComplianceKeyRotated(s.complianceVersion, s.complianceVersion + 1, x, y)]
    case Deposit(_, _, _, _, i, _) =>
      if |i| == 11 then [Inserted(env, s.leaves, i[0], i[1], None, None, i[4..11])] else []
    case Transfer(_, _, _, i, _) =>
      if |i| == 21 then
        [Inserted(env, s.leaves, i[1], i[2], Some(i[3]), Some(i[4]), i[5..12]),
         Inserted(env, s.leaves + [i[1]], i[12], i[13], None, None, i[14..21]), NullifierSpentEvent(i[0])]
      else []
    case SplitMultisig(_, _, i, _) =>
      if |i| == 19 then
        [Inserted(env, s.leaves, i[1], i[2], None, None, i[3..10]),
         Inserted(env, s.leaves + [i[1]], i[10], i[11], None, None, i[12..19]), NullifierSpentEvent(i[0])]
      else []
    case JoinMultisig(_, _, i, _) =>
      if |i| == 11 then
        [Inserted(env, s.leaves, i[2], i[3], None, None, i[4..11]), NullifierSpentEvent(i[0]), NullifierSpentEvent(i[1])]
      else []
    case Withdraw(_, _, _, _, _, _, i, _, _) =>
      if |i| == 14 then [Inserted(env, s.leaves, i[5], i[6], None, None, i[7..14]), NullifierSpentEvent(i[3])] else []
    case _ => []
  }

  function After(env: Env, s: State, tx: Tx): (State, seq<Event>) {
    (Settled(env, s, tx).(leaves := NewLeaves(s, tx), nullifiers := NewNullifiers(s, tx)), Logged(env, s, tx))
  }

  // ----- every transaction is decided by its checks -----

  function Decision(env: Env, s: State, tx: Tx): Outcome {
    match FirstFailure(Checks(env, s, tx))
    case Some(error) => Err(error)
    case None => Ok(After(env, s, tx))
  }

  lemma InsertDecided(env: Env, s: State, leaf: Fr, eph: Fr, tag: Option<Fr>, wrap: Option<Fr>, ct: seq<Fr>)
    ensures InsertAndEmit(env, s, leaf, eph, tag, wrap, ct) ==
      match FirstFailure(LeafChecks(env, s.leaves, leaf))
      case Some(error) => Err(error)
      case None => Ok((s.(leaves := s.leaves + [leaf]), [Inserted(env, s.leaves, leaf, eph, tag, wrap, ct)]))
  {
    hide Hashable, Root;
    Three(Check(leaf != 0, InvalidLeaf), Check(|s.leaves| < CAPACITY, InvalidAccountData),
          Check(Hashable(env.hashes.node, env.order, s.leaves + [leaf]), InvalidLeaf));
  }

  lemma ProofDecided(env: Env, registered: Key, given: Key, proof: Proof, full: seq<Fr>)
    ensures VerifyCpi(env, registered, given, proof, full) ==
      match FirstFailure(ProofChecks(env, registered, given, proof, full)) case Some(error) => Err(error) case None => Ok(())
  {
    var c := ProofChecks(env, registered, given, proof, full);
    Three(c[1], c[2], c[3]);
    assert c[1..] == [c[1], c[2], c[3]];
  }

  lemma One(a: Check)
    ensures FirstFailure([a]) == if !a.holds then Some(a.error) else None
  {
    assert [a][1..] == [];
  }

  lemma Two(a: Check, b: Check)
    ensures FirstFailure([a, b]) == if !a.holds then Some(a.error) else if !b.holds then Some(b.error) else None
  {
    assert [a, b][1..] == [b];
    One(b);
  }

  lemma Three(a: Check, b: Check, c: Check)
    ensures FirstFailure([a, b, c])
            == if !a.holds then Some(a.error) else if !b.holds then Some(b.error) else if !c.holds then Some(c.error) else None
  {
    assert [a, b, c][1..] == [b, c];
    Two(b, c);
  }

  lemma FreshDecided(s: State, nullifier: Fr)
    ensures CreateNullifier(s, nullifier) ==
      match FirstFailure(Fresh(s, nullifier))
      case Some(error) => Err(error)
      case None => Ok((s.(nullifiers := s.nullifiers + {nullifier}), [NullifierSpentEvent(nullifier)]))
  {
    One(Check(nullifier !in s.nullifiers, NullifierSpent));
  }

  lemma SpendDecided(env: Env, s: State, inputs: Public, count: nat, rootIndex: U8)
    ensures FirstFailure(SpendChecks(env, s, inputs, count, rootIndex)) ==
      if !s.initialized then Some(InvalidSeeds)
      else if |inputs| != count then Some(InvalidPublicInputCount)
      else if s.paused then Some(Paused)
      else match ResolveRoot(env, s, rootIndex) case Err(e) => Some(e) case Ok(_) => None
    ensures var r := ResolveRoot(env, s, rootIndex); r.Ok? ==> r.value == SlotRoot(env.hashes.node, s.leaves, rootIndex)
  {
    hide SlotRoot;
    var c := SpendChecks(env, s, inputs, count, rootIndex);
    Three(c[1], c[2], c[3]);
    assert c[1..] == [c[1], c[2], c[3]];
  }

  function Report(failure: Option<PoolError>, s: State, events: seq<Event>): Outcome {
    match failure
    case Some(error) => Err(error)
    case None => Ok((s, events))
  }

  lemma TwoEvents(a: Event, b: Event)
    ensures [a] + [b] == [a, b]
  {
  }

  lemma ThreeEvents(a: Event, b: Event, c: Event)
    ensures [a] + [b] + [c] == [a, b, c]
  {
  }

  // A transfer that got as far as its leaves.
  lemma TransferGoesOn(env: Env, s: State, circuit: CircuitId, verifier: Key, proof: Proof, i: Public, root: U8)
    requires |i| == 21 && s.initialized && !s.paused
    requires ResolveRoot(env, s, root) == Ok(SlotRoot(env.hashes.node, s.leaves, root))
    ensures DoTransfer(env, s, circuit, verifier, proof, i, root) ==
      var leaf1, leaf2 := LeafChecks(env, s.leaves, i[1]), LeafChecks(env, s.leaves + [i[1]], i[12]);
      var proved := ProofChecks(env, s.verifiers[circuit.Id()], verifier, proof, Spliced(env, s, i, root));
      Report(
        Earlier(Earlier(Earlier(FirstFailure(leaf1), FirstFailure(leaf2)), FirstFailure(Fresh(s, i[0]))), FirstFailure(proved)),
        s.(leaves := s.leaves + [i[1]] + [i[12]], nullifiers := s.nullifiers + {i[0]}),
        [Inserted(env, s.leaves, i[1], i[2], Some(i[3]), Some(i[4]), i[5..12])]
        + [Inserted(env, s.leaves + [i[1]], i[12], i[13], None, None, i[14..21])] + [NullifierSpentEvent(i[0])])
  {
    hide InsertAndEmit, VerifyCpi, CreateNullifier, ResolveRoot, SlotRoot, FirstFailure, LeafChecks, ProofChecks, Fresh, Inserted;
    var s1 := s.(leaves := s.leaves + [i[1]]);
    var s2 := s1.(leaves := s1.leaves + [i[12]]);
    InsertDecided(env, s, i[1], i[2], Some(i[3]), Some(i[4]), i[5..12]);
    InsertDecided(env, s1, i[12], i[13], None, None, i[14..21]);
    SameFresh(s, s2, i[0]);
    FreshDecided(s2, i[0]);
    ProofDecided(env, s.verifiers[circuit.Id()], verifier, proof, Spliced(env, s, i, root));
  }

  lemma TransferDecided(env: Env, s: State, tx: Tx)
    requires tx.Transfer?
    ensures Execute(env, s, tx) == Decision(env, s, tx)
  {
    hide VerifyCpi, InsertAndEmit, CreateNullifier, ResolveRoot, SlotRoot, FirstFailure, LeafChecks, ProofChecks,
         SpendChecks, Fresh, Inserted;
    var i, root, circuit := tx.inputs, tx.rootIndex, if tx.multisig then TransferMultisigC else TransferC;
    var gate, leaf1 := SpendChecks(env, s, i, 21, root), LeafChecks(env, s.leaves, Input(i, 1));
    var leaf2, unspent := LeafChecks(env, s.leaves + [Input(i, 1)], Input(i, 12)), Fresh(s, Input(i, 0));
    var proof := ProofChecks(env, s.verifiers[circuit.Id()], tx.verifier, tx.proof, Spliced(env, s, i, root));
    SpendDecided(env, s, i, 21, root);
    FourGroups(leaf1, leaf2, unspent, proof);
    FailuresConcatenate(gate, leaf1 + leaf2 + unspent + proof);
    assert Checks(env, s, tx) == gate + (leaf1 + leaf2 + unspent + proof);
    if FirstFailure(gate).None? {
      TransferGoesOn(env, s, circuit, tx.verifier, tx.proof, i, root);
      ThreeEvents(Inserted(env, s.leaves, i[1], i[2], Some(i[3]), Some(i[4]), i[5..12]),
                  Inserted(env, s.leaves + [i[1]], i[12], i[13], None, None, i[14..21]), NullifierSpentEvent(i[0]));
      assert s.leaves + [i[1]] + [i[12]] == s.leaves + [i[1], i[12]];
    }
  }

  lemma SameFresh(s: State, t: State, nullifier: Fr)
    requires s.nullifiers == t.nullifiers
    ensures Fresh(s, nullifier) == Fresh(t, nullifier)
  {
  }

  lemma SplitGoesOn(env: Env, s: State, verifier: Key, proof: Proof, i: Public, root: U8)
    requires |i| == 19 && s.initialized && !s.paused
    requires ResolveRoot(env, s, root) == Ok(SlotRoot(env.hashes.node, s.leaves, root))
    ensures DoSplit(env, s, verifier, proof, i, root) ==
      var leaf1, leaf2 := LeafChecks(env, s.leaves, i[1]), LeafChecks(env, s.leaves + [i[1]], i[10]);
      var proved := ProofChecks(env, s.verifiers[4], verifier, proof, Spliced(env, s, i, root));
      Report(
        Earlier(Earlier(Earlier(FirstFailure(leaf1), FirstFailure(leaf2)), FirstFailure(Fresh(s, i[0]))), FirstFailure(proved)),
        s.(leaves := s.leaves + [i[1]] + [i[10]], nullifiers := s.nullifiers + {i[0]}),
        [Inserted(env, s.leaves, i[1], i[2], None, None, i[3..10])]
        + [Inserted(env, s.leaves + [i[1]], i[10], i[11], None, None, i[12..19])] + [NullifierSpentEvent(i[0])])
  {
    hide InsertAndEmit, VerifyCpi, CreateNullifier, ResolveRoot, SlotRoot, FirstFailure, LeafChecks, ProofChecks, Fresh, Inserted;
    var s1 := s.(leaves := s.leaves + [i[1]]);
    var s2 := s1.(leaves := s1.leaves + [i[10]]);
    InsertDecided(env, s, i[1], i[2], None, None, i[3..10]);
    InsertDecided(env, s1, i[10], i[11], None, None, i[12..19]);
    SameFresh(s, s2, i[0]);
    FreshDecided(s2, i[0]);
    ProofDecided(env, s.verifiers[4], verifier, proof, Spliced(env, s, i, root));
  }

  lemma SplitDecided(env: Env, s: State, tx: Tx)
    requires tx.SplitMultisig?
    ensures Execute(env, s, tx) == Decision(env, s, tx)
  {
    hide VerifyCpi, InsertAndEmit, CreateNullifier, ResolveRoot, SlotRoot, FirstFailure, LeafChecks, ProofChecks,
         SpendChecks, Fresh, Inserted;
    var i, root := tx.inputs, tx.rootIndex;
    var gate, leaf1 := SpendChecks(env, s, i, 19, root), LeafChecks(env, s.leaves, Input(i, 1));
    var leaf2, unspent := LeafChecks(env, s.leaves + [Input(i, 1)], Input(i, 10)), Fresh(s, Input(i, 0));
    var proof := ProofChecks(env, s.verifiers[4], tx.verifier, tx.proof, Spliced(env, s, i, root));
    SpendDecided(env, s, i, 19, root);
    FourGroups(leaf1, leaf2, unspent, proof);
    FailuresConcatenate(gate, leaf1 + leaf2 + unspent + proof);
    assert Checks(env, s, tx) == gate + (leaf1 + leaf2 + unspent + proof);
    if FirstFailure(gate).None? {
      SplitGoesOn(env, s, tx.verifier, tx.proof, i, root);
      ThreeEvents(Inserted(env, s.leaves, i[1], i[2], None, None, i[3..10]),
                  Inserted(env, s.leaves + [i[1]], i[10], i[11], None, None, i[12..19]), NullifierSpentEvent(i[0]));
      assert s.leaves + [i[1]] + [i[10]] == s.leaves + [i[1], i[10]];
    }
  }

  lemma JoinGoesOn(env: Env, s: State, verifier: Key, proof: Proof, i: Public, root: U8)
    requires |i| == 11 && s.initialized && !s.paused
    requires ResolveRoot(env, s, root) == Ok(SlotRoot(env.hashes.node, s.leaves, root))
    ensures DoJoin(env, s, verifier, proof, i, root) ==
      var leaf, proved := LeafChecks(env, s.leaves, i[2]), ProofChecks(env, s.verifiers[5], verifier, proof, SplicedJoin(env, s, i, root));
      Report(
        Earlier(Earlier(Earlier(FirstFailure(leaf), FirstFailure(Fresh(s, i[0]))), FirstFailure(Second(s, i))), FirstFailure(proved)),
        s.(leaves := s.leaves + [i[2]], nullifiers := s.nullifiers + {i[0]} + {i[1]}),
        [Inserted(env, s.leaves, i[2], i[3], None, None, i[4..11])] + [NullifierSpentEvent(i[0])] + [NullifierSpentEvent(i[1])])
  {
    hide InsertAndEmit, VerifyCpi, CreateNullifier, ResolveRoot, SlotRoot, FirstFailure, LeafChecks, ProofChecks, Fresh,
         Second, Inserted;
    var s1 := s.(leaves := s.leaves + [i[2]]);
    var s2 := s1.(nullifiers := s1.nullifiers + {i[0]});
    InsertDecided(env, s, i[2], i[3], None, None, i[4..11]);
    SameFresh(s, s1, i[0]);
    FreshDecided(s1, i[0]);
    SecondIsFresh(s, s2, i);
    FreshDecided(s2, i[1]);
    ProofDecided(env, s.verifiers[5], verifier, proof, SplicedJoin(env, s, i, root));
  }

  lemma SecondIsFresh(s: State, t: State, i: Public)
    requires |i| == 11 && t.nullifiers == s.nullifiers + {i[0]}
    ensures Fresh(t, i[1]) == Second(s, i)
  {
  }

  lemma JoinDecided(env: Env, s: State, tx: Tx)
    requires tx.JoinMultisig?
    ensures Execute(env, s, tx) == Decision(env, s, tx)
  {
    hide VerifyCpi, InsertAndEmit, CreateNullifier, ResolveRoot, SlotRoot, FirstFailure, LeafChecks, ProofChecks,
         SpendChecks, Fresh, Second, Inserted;
    var i, root := tx.inputs, tx.rootIndex;
    var gate, leaf := SpendChecks(env, s, i, 11, root), LeafChecks(env, s.leaves, Input(i, 2));
    var proof := ProofChecks(env, s.verifiers[5], tx.verifier, tx.proof, SplicedJoin(env, s, i, root));
    SpendDecided(env, s, i, 11, root);
    FourGroups(leaf, Fresh(s, Input(i, 0)), Second(s, i), proof);
    FailuresConcatenate(gate, leaf + Fresh(s, Input(i, 0)) + Second(s, i) + proof);
    assert Checks(env, s, tx) == gate + (leaf + Fresh(s, Input(i, 0)) + Second(s, i) + proof);
    if FirstFailure(gate).None? {
      JoinGoesOn(env, s, tx.verifier, tx.proof, i, root);
      ThreeEvents(Inserted(env, s.leaves, i[2], i[3], None, None, i[4..11]), NullifierSpentEvent(i[0]), NullifierSpentEvent(i[1]));
      assert s.nullifiers + {i[0]} + {i[1]} == s.nullifiers + {i[0], i[1]};
    }
  }

  lemma DepositChecked(env: Env, s: State, mint: Key, i: Public, amount: U64)
    ensures FirstFailure(DepositChecks(env, s, mint, i, amount)) ==
      if |i| != 11 then Some(InvalidPublicInputCount)
      else if i[2] != amount then Some(AmountMismatch)
      else if i[3] != env.AssetId(mint) then Some(AssetMismatch)
      else if !s.initialized then Some(InvalidAccountData) else if s.paused then Some(Paused) else None
  {
    var c := DepositChecks(env, s, mint, i, amount);
    Three(c[2], c[3], c[4]);
    assert c[1..][1..] == [c[2], c[3], c[4]];
  }

  lemma RegistryChecked(env: Env, s: State, mint: Key, funds: nat, amount: U64)
    ensures FirstFailure(RegistryChecks(env, s, mint, funds, amount)) ==
      if env.AssetId(mint) in s.assets && s.assets[env.AssetId(mint)] != mint then Some(AssetCollision)
      else if funds < amount then Some(TokenTransferFailed) else None
  {
    var c := RegistryChecks(env, s, mint, funds, amount);
    Two(c[0], c[1]);
  }

  lemma DepositGoesOn(env: Env, s: State, mint: Key, funds: nat, verifier: Key, proof: Proof, i: Public, amount: U64)
    requires FirstFailure(DepositChecks(env, s, mint, i, amount)).None? && |i| == 11
    ensures DoDeposit(env, s, mint, funds, verifier, proof, i, amount) ==
      var leaf := LeafChecks(env, s.leaves, i[0]);
      var proved := ProofChecks(env, s.verifiers[0], verifier, proof, [s.compliancePkX, s.compliancePkY] + i);
      var registry := RegistryChecks(env, s, mint, funds, amount);
      Report(Earlier(Earlier(FirstFailure(leaf), FirstFailure(proved)), FirstFailure(registry)),
             s.(leaves := s.leaves + [i[0]], assets := s.assets[env.AssetId(mint) := mint],
                vaults := s.vaults[mint := Vault(s, mint) + amount]),
             [Inserted(env, s.leaves, i[0], i[1], None, None, i[4..11])])
  {
    hide InsertAndEmit, VerifyCpi, FirstFailure, LeafChecks, ProofChecks, DepositChecks, RegistryChecks, Inserted;
    DepositChecked(env, s, mint, i, amount);
    InsertDecided(env, s, i[0], i[1], None, None, i[4..11]);
    ProofDecided(env, s.verifiers[0], verifier, proof, [s.compliancePkX, s.compliancePkY] + i);
    RegistryChecked(env, s, mint, funds, amount);
  }

  lemma DepositDecided(env: Env, s: State, tx: Tx)
    requires tx.Deposit?
    ensures Execute(env, s, tx) == Decision(env, s, tx)
  {
    hide VerifyCpi, InsertAndEmit, FirstFailure, LeafChecks, ProofChecks, DepositChecks, RegistryChecks, Inserted;
    var i := tx.inputs;
    var gate, leaf := DepositChecks(env, s, tx.mint, i, tx.amount), LeafChecks(env, s.leaves, Input(i, 0));
    var proof := ProofChecks(env, s.verifiers[0], tx.verifier, tx.proof, [s.compliancePkX, s.compliancePkY] + i);
    var registry := RegistryChecks(env, s, tx.mint, tx.funds, tx.amount);
    DepositChecked(env, s, tx.mint, i, tx.amount);
    ThreeGroups(leaf, proof, registry);
    FailuresConcatenate(gate, leaf + proof + registry);
    assert Checks(env, s, tx) == gate + (leaf + proof + registry);
    if FirstFailure(gate).None? {
      DepositGoesOn(env, s, tx.mint, tx.funds, tx.verifier, tx.proof, i, tx.amount);
    }
  }

  lemma WithdrawChecked(env: Env, s: State, assetMint: Key, mint: Key, destination: Key, i: Public, amount: U64)
    ensures FirstFailure(WithdrawChecks(env, s, assetMint, mint, destination, i, amount)) ==
      if |i| != 14 then Some(InvalidPublicInputCount)
      else if !s.initialized then Some(InvalidSeeds)
      else if i[2] != 0 then Some(IntentHashNotZero)
      else if i[0] != amount then Some(AmountMismatch)
      else if i[1] != env.RecipientField(destination) then Some(RecipientMismatch)
      else if assetMint != mint || i[4] != env.AssetId(mint) then Some(AssetMismatch)
      else if s.paused then Some(Paused) else None
  {
    var c := WithdrawChecks(env, s, assetMint, mint, destination, i, amount);
    Three(c[4], c[5], c[6]);
    assert c[1..][1..] == [c[2], c[3]] + [c[4], c[5], c[6]];
    FailuresConcatenate([c[2], c[3]], [c[4], c[5], c[6]]);
    Two(c[2], c[3]);
  }

  lemma WithdrawRefused(env: Env, s: State, circuit: CircuitId, assetMint: Key, mint: Key, destination: Key, verifier: Key,
                        proof: Proof, i: Public, amount: U64, root: U8)
    requires FirstFailure(WithdrawChecks(env, s, assetMint, mint, destination, i, amount)).Some?
    ensures AcceptWithdraw(env, s, circuit, assetMint, mint, destination, verifier, proof, i, amount, root)
         == Err(FirstFailure(WithdrawChecks(env, s, assetMint, mint, destination, i, amount)).value)
  {
    hide FirstFailure, WithdrawChecks;
    WithdrawChecked(env, s, assetMint, mint, destination, i, amount);
  }

  lemma RootChecked(env: Env, s: State, rootIndex: U8)
    ensures ResolveRoot(env, s, rootIndex)
         == match FirstFailure(RootChecks(env, s, rootIndex))
            case Some(error) => Err(error)
            case None => Ok(SlotRoot(env.hashes.node, s.leaves, rootIndex))
  {
    One(RootChecks(env, s, rootIndex)[0]);
  }

  lemma WithdrawGoesOn(env: Env, s: State, circuit: CircuitId, assetMint: Key, mint: Key, destination: Key, verifier: Key,
                       proof: Proof, i: Public, amount: U64, root: U8)
    requires FirstFailure(WithdrawChecks(env, s, assetMint, mint, destination, i, amount)).None? && |i| == 14
    ensures AcceptWithdraw(env, s, circuit, assetMint, mint, destination, verifier, proof, i, amount, root) ==
      var leaf := LeafChecks(env, s.leaves, i[5]);
      var proved := ProofChecks(env, s.verifiers[circuit.Id()], verifier, proof, SplicedWithdraw(env, s, i, root));
      Report(Earlier(Earlier(Earlier(FirstFailure(RootChecks(env, s, root)), FirstFailure(leaf)),
                             FirstFailure(Fresh(s, i[3]))), FirstFailure(proved)),
             s.(leaves := s.leaves + [i[5]], nullifiers := s.nullifiers + {i[3]}),
             [Inserted(env, s.leaves, i[5], i[6], None, None, i[7..14])] + [NullifierSpentEvent(i[3])])
  {
    hide InsertAndEmit, VerifyCpi, CreateNullifier, ResolveRoot, SlotRoot, FirstFailure, LeafChecks, ProofChecks,
         WithdrawChecks, RootChecks, Fresh, Inserted;
    var s1 := s.(leaves := s.leaves + [i[5]]);
    WithdrawChecked(env, s, assetMint, mint, destination, i, amount);
    RootChecked(env, s, root);
    InsertDecided(env, s, i[5], i[6], None, None, i[7..14]);
    SameFresh(s, s1, i[3]);
    FreshDecided(s1, i[3]);
    ProofDecided(env, s.verifiers[circuit.Id()], verifier, proof, SplicedWithdraw(env, s, i, root));
  }

  lemma PaymentDecided(s: State, t: State, mint: Key, amount: U64)
    requires s.vaults == t.vaults
    ensures FirstFailure(VaultChecks(s, mint, amount)).None? <==> amount <= Vault(s, mint)
    ensures PayOut(t, mint, amount)
         == match FirstFailure(VaultChecks(s, mint, amount))
            case Some(error) => Err(error)
            case None => Ok(t.(vaults := t.vaults[mint := Vault(t, mint) - amount]))
  {
    One(VaultChecks(s, mint, amount)[0]);
  }

  lemma WithdrawDecided(env: Env, s: State, tx: Tx)
    requires tx.Withdraw?
    ensures Execute(env, s, tx) == Decision(env, s, tx)
  {
    hide VerifyCpi, InsertAndEmit, CreateNullifier, ResolveRoot, SlotRoot, FirstFailure, LeafChecks, ProofChecks, WithdrawChecks,
         RootChecks, VaultChecks, Fresh, Inserted, AcceptWithdraw, PayOut;
    var i, root, circuit := tx.inputs, tx.rootIndex, if tx.multisig then WithdrawMultisigC else WithdrawC;
    var gate := WithdrawChecks(env, s, tx.assetMint, tx.mint, tx.destination, i, tx.amount);
    var live, leaf, unspent := RootChecks(env, s, root), LeafChecks(env, s.leaves, Input(i, 5)), Fresh(s, Input(i, 3));
    var proof := ProofChecks(env, s.verifiers[circuit.Id()], tx.verifier, tx.proof, SplicedWithdraw(env, s, i, root));
    var vault := VaultChecks(s, tx.mint, tx.amount);
    WithdrawChecked(env, s, tx.assetMint, tx.mint, tx.destination, i, tx.amount);
    FourGroups(live, leaf, unspent, proof);
    ThreeGroups(gate, live + leaf + unspent + proof, vault);
    assert Checks(env, s, tx) == gate + (live + leaf + unspent + proof) + vault;
    if FirstFailure(gate).None? {
      WithdrawGoesOn(env, s, circuit, tx.assetMint, tx.mint, tx.destination, tx.verifier, tx.proof, i, tx.amount, root);
      PaymentDecided(s, s.(leaves := s.leaves + [i[5]], nullifiers := s.nullifiers + {i[3]}), tx.mint, tx.amount);
      TwoEvents(Inserted(env, s.leaves, i[5], i[6], None, None, i[7..14]), NullifierSpentEvent(i[3]));
    } else {
      WithdrawRefused(env, s, circuit, tx.assetMint, tx.mint, tx.destination, tx.verifier, tx.proof, i, tx.amount, root);
    }
  }

  lemma InitializeDecided(env: Env, s: State, tx: Tx)
    requires tx.Initialize?
    ensures Execute(env, s, tx) == Decision(env, s, tx)
  {
    hide InsertAndEmit, FirstFailure, LeafChecks, Inserted;
    var s0 := s.(initialized := true, authority := tx.authority, paused := false, complianceVersion := 0,
                 compliancePkX := tx.pkX, compliancePkY := tx.pkY, verifiers := tx.verifiers, leaves := []);
    One(Check(!s.initialized, AccountAlreadyInitialized));
    FailuresConcatenate([Check(!s.initialized, AccountAlreadyInitialized)], LeafChecks(env, [], tx.genesisLeaf));
    InsertDecided(env, s0, tx.genesisLeaf, 0, None, None, [0, 0, 0, 0, 0, 0, 0]);
    assert [] + [tx.genesisLeaf] == [tx.genesisLeaf];
  }

  lemma AdminDecided(env: Env, s: State, tx: Tx)
    requires tx.SetVerifier? || tx.RotateComplianceKey? || tx.SetPaused? || tx.Donate?
    ensures Execute(env, s, tx) == Decision(env, s, tx)
  {
    hide FirstFailure;
    if !tx.Donate? {
      var signer := AdminChecks(s, tx.signer);
      Two(signer[0], signer[1]);
      if tx.SetVerifier? {
        One(Check(tx.circuitId < 7, InvalidArgument));
        FailuresConcatenate(signer, [Check(tx.circuitId < 7, InvalidArgument)]);
      } else if tx.RotateComplianceKey? {
        One(Check(s.complianceVersion < 0xffff_ffff, ArithmeticOverflow));
        FailuresConcatenate(signer, [Check(s.complianceVersion < 0xffff_ffff, ArithmeticOverflow)]);
      }
    } else {
      NoFailureIffAllHold([]);
    }
  }

  // Every transaction is refused with the error of the first of its checks that fails, and if none does it is
  // accepted and does exactly what it should.
  lemma Decided(env: Env, s: State, tx: Tx)
    ensures Execute(env, s, tx) == Decision(env, s, tx)
  {
    hide Execute, Decision;
    match tx {
      case Initialize(_, _, _, _, _) => InitializeDecided(env, s, tx);
      case Deposit(_, _, _, _, _, _) => DepositDecided(env, s, tx);
      case Transfer(_, _, _, _, _) => TransferDecided(env, s, tx);
      case SplitMultisig(_, _, _, _) => SplitDecided(env, s, tx);
      case JoinMultisig(_, _, _, _) => JoinDecided(env, s, tx);
      case Withdraw(_, _, _, _, _, _, _, _, _) => WithdrawDecided(env, s, tx);
      case _ => AdminDecided(env, s, tx);
    }
  }
}
