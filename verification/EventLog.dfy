/** What the pool's event log says about its state: it lists every leaf with its index and root, and every
    spent nullifier exactly once. */
module EventLog {
  import opened Hashing
  import opened LeanImt
  import opened Outcomes
  import opened PoolAccount
  import opened Circuits
  import opened PoolSpec

  function NotesOf(log: seq<Event>): (notes: seq<Event>)
    ensures forall e :: e in notes ==> e.NoteInserted?
  {
    if log == [] then [] else (if log[0].NoteInserted? then [log[0]] else []) + NotesOf(log[1..])
  }

  function SpentOf(log: seq<Event>): seq<Fr> {
    if log == [] then [] else (if log[0].NullifierSpentEvent? then [log[0].nullifier] else []) + SpentOf(log[1..])
  }

  lemma {:induction false} FiltersConcatenate(a: seq<Event>, b: seq<Event>)
    ensures NotesOf(a + b) == NotesOf(a) + NotesOf(b)
    ensures SpentOf(a + b) == SpentOf(a) + SpentOf(b)
  {
    if a == [] {
      assert a + b == b;
    } else {
      assert (a + b)[1..] == a[1..] + b;
      FiltersConcatenate(a[1..], b);
    }
  }

  ghost predicate Distinct(xs: seq<Fr>) {
    forall i, j :: 0 <= i < j < |xs| ==> xs[i] != xs[j]
  }

  // The event of the leaf at this index of a tree: its own index, and the root just after its insert.
  ghost predicate Announces(h: NodeHash, leaves: seq<Fr>, i: nat, e: Event) {
    i < |leaves| && e.NoteInserted? && e.leafIndex == i && e.leaf == leaves[i] && e.root == Root(h, leaves[..i + 1])
  }

  // The events account for every leaf and nullifier added between two trees.
  ghost predicate LogsTree(h: NodeHash, leaves: seq<Fr>, spent: set<Fr>, leaves': seq<Fr>, spent': set<Fr>,
                           events: seq<Event>) {
    && leaves <= leaves'
    && |NotesOf(events)| == |leaves'| - |leaves|
    && (forall j :: 0 <= j < |NotesOf(events)| ==> Announces(h, leaves', |leaves| + j, NotesOf(events)[j]))
    && LogsSpent(spent, spent', SpentOf(events))
  }

  ghost predicate LogsSpent(spent: set<Fr>, spent': set<Fr>, named: seq<Fr>) {
    && Distinct(named)
    && (forall nf :: nf in named ==> nf !in spent)
    && (forall nf :: nf in spent' <==> nf in spent || nf in named)
  }

  ghost predicate Logs(h: NodeHash, s: State, s': State, events: seq<Event>) {
    LogsTree(h, s.leaves, s.nullifiers, s'.leaves, s'.nullifiers, events)
  }

  lemma SpentCompose(spent: set<Fr>, spent1: set<Fr>, spent2: set<Fr>, a: seq<Fr>, b: seq<Fr>)
    requires LogsSpent(spent, spent1, a) && LogsSpent(spent1, spent2, b)
    ensures LogsSpent(spent, spent2, a + b)
  {
    var ab := a + b;
    forall i, j | 0 <= i < j < |ab| ensures ab[i] != ab[j] {
      if i < |a| <= j {
        assert a[i] in spent1 && b[j - |a|] in b;
      }
    }
  }

  lemma LogsCompose(h: NodeHash, s: State, s1: State, s2: State, e1: seq<Event>, e2: seq<Event>)
    requires Logs(h, s, s1, e1) && Logs(h, s1, s2, e2)
    ensures Logs(h, s, s2, e1 + e2)
  {
    hide Root, NotesOf, SpentOf, LogsSpent;
    FiltersConcatenate(e1, e2);
    SpentCompose(s.nullifiers, s1.nullifiers, s2.nullifiers, SpentOf(e1), SpentOf(e2));
    forall j | 0 <= j < |NotesOf(e1 + e2)|
      ensures Announces(h, s2.leaves, |s.leaves| + j, NotesOf(e1 + e2)[j])
    {
      if j < |NotesOf(e1)| {
        assert Announces(h, s1.leaves, |s.leaves| + j, NotesOf(e1)[j]);
        assert s2.leaves[..|s.leaves| + j + 1] == s1.leaves[..|s.leaves| + j + 1];
      } else {
        assert Announces(h, s2.leaves, |s1.leaves| + (j - |NotesOf(e1)|), NotesOf(e2)[j - |NotesOf(e1)|]);
      }
    }
  }

  lemma SingleEvent(e: Event)
    ensures NotesOf([e]) == if e.NoteInserted? then [e] else []
    ensures SpentOf([e]) == if e.NullifierSpentEvent? then [e.nullifier] else []
  {
  }

  lemma InsertLogs(env: Env, s: State, leaf: Fr, eph: Fr, tag: Option<Fr>, wrap: Option<Fr>, ct: seq<Fr>)
    requires InsertAndEmit(env, s, leaf, eph, tag, wrap, ct).Ok?
    ensures var (s', e) := InsertAndEmit(env, s, leaf, eph, tag, wrap, ct).value; Logs(env.hashes.node, s, s', e)
  {
    hide Root, NotesOf, SpentOf;
    var (s', e) := InsertAndEmit(env, s, leaf, eph, tag, wrap, ct).value;
    assert e == [e[0]];
    SingleEvent(e[0]);
    assert s'.leaves[..|s.leaves| + 1] == s'.leaves;
  }

  lemma NullifierLogs(h: NodeHash, s: State, nullifier: Fr)
    requires CreateNullifier(s, nullifier).Ok?
    ensures var (s', e) := CreateNullifier(s, nullifier).value; Logs(h, s, s', e)
  {
    hide NotesOf, SpentOf;
    var e := CreateNullifier(s, nullifier).value.1;
    assert e == [e[0]];
    SingleEvent(e[0]);
  }

  // Fields outside the tree and the nullifier set do not matter to the log.
  lemma LogsIgnoreTheRest(h: NodeHash, s: State, s': State, t: State, t': State, events: seq<Event>)
    requires Logs(h, s, s', events)
    requires s.leaves == t.leaves && s.nullifiers == t.nullifiers && s'.leaves == t'.leaves
    requires s'.nullifiers == t'.nullifiers
    ensures Logs(h, t, t', events)
  {
    hide LogsTree;
  }

  lemma QuietStepLogs(h: NodeHash, s: State, s': State, events: seq<Event>)
    requires s.leaves == s'.leaves && s.nullifiers == s'.nullifiers
    requires events == [] || (|events| == 1 && events[0].ComplianceKeyRotated?)
    ensures Logs(h, s, s', events)
  {
    if events != [] {
      assert events == [events[0]];
      SingleEvent(events[0]);
    }
  }

  // ----- every handler -----

  lemma TransferLogs(env: Env, s: State, circuit: CircuitId, verifier: Key, proof: Proof, inputs: Public, rootIndex: U8)
    requires DoTransfer(env, s, circuit, verifier, proof, inputs, rootIndex).Ok?
    ensures var (s', e) := DoTransfer(env, s, circuit, verifier, proof, inputs, rootIndex).value;
            Logs(env.hashes.node, s, s', e)
  {
    hide Logs, InsertAndEmit, CreateNullifier, VerifyCpi, ResolveRoot;
    var h := env.hashes.node;
    var (s1, e1) := InsertAndEmit(env, s, inputs[1], inputs[2], Some(inputs[3]), Some(inputs[4]), inputs[5..12]).value;
    var (s2, e2) := InsertAndEmit(env, s1, inputs[12], inputs[13], None, None, inputs[14..21]).value;
    var (s3, e3) := CreateNullifier(s2, inputs[0]).value;
    InsertLogs(env, s, inputs[1], inputs[2], Some(inputs[3]), Some(inputs[4]), inputs[5..12]);
    InsertLogs(env, s1, inputs[12], inputs[13], None, None, inputs[14..21]);
    NullifierLogs(h, s2, inputs[0]);
    LogsCompose(h, s, s1, s2, e1, e2);
    LogsCompose(h, s, s2, s3, e1 + e2, e3);
  }

  lemma SplitLogs(env: Env, s: State, verifier: Key, proof: Proof, inputs: Public, rootIndex: U8)
    requires DoSplit(env, s, verifier, proof, inputs, rootIndex).Ok?
    ensures var (s', e) := DoSplit(env, s, verifier, proof, inputs, rootIndex).value; Logs(env.hashes.node, s, s', e)
  {
    hide Logs, InsertAndEmit, CreateNullifier, VerifyCpi, ResolveRoot;
    var h := env.hashes.node;
    var (s1, e1) := InsertAndEmit(env, s, inputs[1], inputs[2], None, None, inputs[3..10]).value;
    var (s2, e2) := InsertAndEmit(env, s1, inputs[10], inputs[11], None, None, inputs[12..19]).value;
    var (s3, e3) := CreateNullifier(s2, inputs[0]).value;
    InsertLogs(env, s, inputs[1], inputs[2], None, None, inputs[3..10]);
    InsertLogs(env, s1, inputs[10], inputs[11], None, None, inputs[12..19]);
    NullifierLogs(h, s2, inputs[0]);
    LogsCompose(h, s, s1, s2, e1, e2);
    LogsCompose(h, s, s2, s3, e1 + e2, e3);
  }

  lemma JoinLogs(env: Env, s: State, verifier: Key, proof: Proof, inputs: Public, rootIndex: U8)
    requires DoJoin(env, s, verifier, proof, inputs, rootIndex).Ok?
    ensures var (s', e) := DoJoin(env, s, verifier, proof, inputs, rootIndex).value; Logs(env.hashes.node, s, s', e)
  {
    hide Logs, InsertAndEmit, CreateNullifier, VerifyCpi, ResolveRoot;
    var h := env.hashes.node;
    var (s1, e1) := InsertAndEmit(env, s, inputs[2], inputs[3], None, None, inputs[4..11]).value;
    var (s2, e2) := CreateNullifier(s1, inputs[0]).value;
    var (s3, e3) := CreateNullifier(s2, inputs[1]).value;
    InsertLogs(env, s, inputs[2], inputs[3], None, None, inputs[4..11]);
    NullifierLogs(h, s1, inputs[0]);
    NullifierLogs(h, s2, inputs[1]);
    LogsCompose(h, s, s1, s2, e1, e2);
    LogsCompose(h, s, s2, s3, e1 + e2, e3);
  }

  lemma DepositLogs(env: Env, s: State, mint: Key, funds: nat, verifier: Key, proof: Proof, inputs: Public, amount: U64)
    requires DoDeposit(env, s, mint, funds, verifier, proof, inputs, amount).Ok?
    ensures var (s', e) := DoDeposit(env, s, mint, funds, verifier, proof, inputs, amount).value;
            Logs(env.hashes.node, s, s', e)
  {
    hide Logs, InsertAndEmit, VerifyCpi;
    var (s1, e1) := InsertAndEmit(env, s, inputs[0], inputs[1], None, None, inputs[4..11]).value;
    InsertLogs(env, s, inputs[0], inputs[1], None, None, inputs[4..11]);
    LogsIgnoreTheRest(env.hashes.node, s, s1, s,
                      DoDeposit(env, s, mint, funds, verifier, proof, inputs, amount).value.0, e1);
  }

  lemma WithdrawLogs(env: Env, s: State, circuit: CircuitId, assetMint: Key, mint: Key, destination: Key, verifier: Key,
                     proof: Proof, inputs: Public, amount: U64, rootIndex: U8)
    requires AcceptWithdraw(env, s, circuit, assetMint, mint, destination, verifier, proof, inputs, amount, rootIndex).Ok?
    ensures var (s', e) := AcceptWithdraw(env, s, circuit, assetMint, mint, destination, verifier, proof, inputs, amount, rootIndex).value;
            Logs(env.hashes.node, s, s', e)
  {
    hide Logs, InsertAndEmit, CreateNullifier, VerifyCpi, ResolveRoot;
    var h := env.hashes.node;
    var (s1, e1) := InsertAndEmit(env, s, inputs[5], inputs[6], None, None, inputs[7..14]).value;
    var (s2, e2) := CreateNullifier(s1, inputs[3]).value;
    InsertLogs(env, s, inputs[5], inputs[6], None, None, inputs[7..14]);
    NullifierLogs(h, s1, inputs[3]);
    LogsCompose(h, s, s1, s2, e1, e2);
  }

  lemma InitializeLogs(env: Env, s: State, tx: Tx)
    requires tx.Initialize? && (!s.initialized ==> s.leaves == []) && Execute(env, s, tx).Ok?
    ensures var (s', e) := Execute(env, s, tx).value; Logs(env.hashes.node, s, s', e)
  {
    hide Logs, InsertAndEmit;
    var s0 := s.(initialized := true, authority := tx.authority, paused := false, complianceVersion := 0,
                 compliancePkX := tx.pkX, compliancePkY := tx.pkY, verifiers := tx.verifiers, leaves := []);
    InsertLogs(env, s0, tx.genesisLeaf, 0, None, None, [0, 0, 0, 0, 0, 0, 0]);
    var (s', e) := Execute(env, s, tx).value;
    LogsIgnoreTheRest(env.hashes.node, s0, s', s, s', e);
  }

  lemma OkStepLogs(env: Env, s: State, tx: Tx)
    requires (!s.initialized ==> s.leaves == []) && Execute(env, s, tx).Ok?
    ensures var (s', e) := Execute(env, s, tx).value; Logs(env.hashes.node, s, s', e)
  {
    hide Logs, DoTransfer, DoSplit, DoJoin, DoDeposit, AcceptWithdraw, DoInitialize;
    var h := env.hashes.node;
    var (s', e) := Execute(env, s, tx).value;
    match tx {
      case Initialize(_, _, _, _, _) => InitializeLogs(env, s, tx);
      case Deposit(mint, funds, verifier, proof, inputs, amount) =>
        DepositLogs(env, s, mint, funds, verifier, proof, inputs, amount);
      case Transfer(multisig, verifier, proof, inputs, rootIndex) =>
        TransferLogs(env, s, if multisig then TransferMultisigC else TransferC, verifier, proof, inputs, rootIndex);
      case SplitMultisig(verifier, proof, inputs, rootIndex) => SplitLogs(env, s, verifier, proof, inputs, rootIndex);
      case JoinMultisig(verifier, proof, inputs, rootIndex) => JoinLogs(env, s, verifier, proof, inputs, rootIndex);
      case Withdraw(multisig, assetMint, mint, destination, verifier, proof, inputs, amount, rootIndex) =>
        var circuit := if multisig then WithdrawMultisigC else WithdrawC;
        var s1 := AcceptWithdraw(env, s, circuit, assetMint, mint, destination, verifier, proof, inputs, amount, rootIndex).value.0;
        WithdrawLogs(env, s, circuit, assetMint, mint, destination, verifier, proof, inputs, amount, rootIndex);
        LogsIgnoreTheRest(h, s, s1, s, s', e);
      case _ => QuietStepLogs(h, s, s', e);
    }
  }

  lemma StaysInitialized(env: Env, s: State, tx: Tx)
    requires !s.initialized ==> s.leaves == []
    ensures var s' := Process(env, s, tx).0; !s'.initialized ==> s'.leaves == []
  {
    hide Root, SlotRoot;
  }

  // The log of a whole run announces the leaves 0, 1, 2, ... in order, each with the root of its prefix, and
  // names every recorded nullifier exactly once: no two steps, of whatever kind, spend the same one.
  lemma {:induction false} TheLogTellsTheState(env: Env, txs: seq<Tx>)
    ensures var (s, log) := Run(env, txs); Logs(env.hashes.node, EMPTY, s, log)
    ensures var s := Run(env, txs).0; !s.initialized ==> s.leaves == []
  {
    hide Logs, Execute;
    var h := env.hashes.node;
    if txs == [] {
      QuietStepLogs(h, EMPTY, EMPTY, []);
    } else {
      var n := |txs| - 1;
      var (s, log) := Run(env, txs[..n]);
      var (s', e) := Process(env, s, txs[n]);
      TheLogTellsTheState(env, txs[..n]);
      StaysInitialized(env, s, txs[n]);
      if Execute(env, s, txs[n]).Ok? {
        OkStepLogs(env, s, txs[n]);
      } else {
        QuietStepLogs(h, s, s', e);
      }
      LogsCompose(h, EMPTY, s, s', log, e);
    }
  }
}
