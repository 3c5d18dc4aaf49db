/** A nullifier is accepted by at most one step of a run, whatever the handler. */
module SpendOnce {
  import opened Hashing
  import opened LeanImt
  import opened Outcomes
  import opened PoolAccount
  import opened Circuits
  import opened PoolSpec
  import EventLog

  // The nullifiers a transaction asks to record, by position in its public inputs.
  function Claimed(tx: Tx): seq<Fr> {
    match tx
    case Transfer(_, _, _, inputs, _) => if |inputs| == 21 then [inputs[0]] else []
    case SplitMultisig(_, _, inputs, _) => if |inputs| == 19 then [inputs[0]] else []
    case JoinMultisig(_, _, inputs, _) => if |inputs| == 11 then [inputs[0], inputs[1]] else []
    case Withdraw(_, _, _, _, _, _, inputs, _, _) => if |inputs| == 14 then [inputs[3]] else []
    case _ => []
  }

  lemma InsertKeepsNullifiers(env: Env, s: State, leaf: Fr, eph: Fr, tag: Option<Fr>, wrap: Option<Fr>, ct: seq<Fr>)
    ensures var r := InsertAndEmit(env, s, leaf, eph, tag, wrap, ct); r.Ok? ==> r.value.0.nullifiers == s.nullifiers
  {
  }

  // An accepted step records exactly the nullifiers it claims, all of them new and no two equal.
  lemma AcceptedStepRecords(env: Env, s: State, tx: Tx)
    requires Execute(env, s, tx).Ok?
    ensures var s' := Execute(env, s, tx).value.0;
      && EventLog.Distinct(Claimed(tx)) && (forall nf :: nf in Claimed(tx) ==> nf !in s.nullifiers)
      && (forall nf :: nf in s'.nullifiers <==> nf in s.nullifiers || nf in Claimed(tx))
  {
    hide Root, SlotRoot, VerifyCpi, InsertAndEmit;
    match tx {
      case Initialize(authority, pkX, pkY, verifiers, genesis) =>
        var s0 := s.(initialized := true, authority := authority, paused := false, complianceVersion := 0,
                     compliancePkX := pkX, compliancePkY := pkY, verifiers := verifiers, leaves := []);
        InsertKeepsNullifiers(env, s0, genesis, 0, None, None, [0, 0, 0, 0, 0, 0, 0]);
      case Deposit(_, _, _, _, inputs, _) =>
        InsertKeepsNullifiers(env, s, inputs[0], inputs[1], None, None, inputs[4..11]);
      case Transfer(_, _, _, inputs, _) =>
        InsertKeepsNullifiers(env, s, inputs[1], inputs[2], Some(inputs[3]), Some(inputs[4]), inputs[5..12]);
        var s1 := InsertAndEmit(env, s, inputs[1], inputs[2], Some(inputs[3]), Some(inputs[4]), inputs[5..12]).value.0;
        InsertKeepsNullifiers(env, s1, inputs[12], inputs[13], None, None, inputs[14..21]);
      case SplitMultisig(_, _, inputs, _) =>
        InsertKeepsNullifiers(env, s, inputs[1], inputs[2], None, None, inputs[3..10]);
        var s1 := InsertAndEmit(env, s, inputs[1], inputs[2], None, None, inputs[3..10]).value.0;
        InsertKeepsNullifiers(env, s1, inputs[10], inputs[11], None, None, inputs[12..19]);
      case JoinMultisig(_, _, inputs, _) =>
        InsertKeepsNullifiers(env, s, inputs[2], inputs[3], None, None, inputs[4..11]);
      case Withdraw(_, _, _, _, _, _, inputs, _, _) =>
        InsertKeepsNullifiers(env, s, inputs[5], inputs[6], None, None, inputs[7..14]);
      case _ =>
    }
  }

  // A join of a note with itself never goes through.
  lemma EqualNullifiersAreRejected(env: Env, s: State, tx: Tx)
    requires tx.JoinMultisig? && |tx.inputs| == 11 && tx.inputs[0] == tx.inputs[1]
    ensures Process(env, s, tx) == (s, [])
  {
    hide Execute;
    var claimed := Claimed(tx);
    assert claimed[0] == claimed[1];
    if Execute(env, s, tx).Ok? {
      AcceptedStepRecords(env, s, tx);
    }
  }

  ghost predicate Accepted(env: Env, txs: seq<Tx>, i: nat)
    requires i < |txs|
  {
    Execute(env, Run(env, txs[..i]).0, txs[i]).Ok?
  }

  lemma OneMore(env: Env, txs: seq<Tx>, k: nat)
    requires k < |txs|
    ensures Run(env, txs[..k + 1]).0 == Process(env, Run(env, txs[..k]).0, txs[k]).0
  {
    hide Process;
    assert txs[..k + 1][..k] == txs[..k];
  }

  // Once recorded, a nullifier stays.
  lemma {:induction false} RecordedForever(env: Env, txs: seq<Tx>, i: nat, k: nat)
    requires i < k <= |txs| && Accepted(env, txs, i)
    ensures forall nf :: nf in Claimed(txs[i]) ==> nf in Run(env, txs[..k]).0.nullifiers
  {
    hide Execute, Run, Claimed;
    OneMore(env, txs, k - 1);
    var s := Run(env, txs[..k - 1]).0;
    if Execute(env, s, txs[k - 1]).Ok? {
      AcceptedStepRecords(env, s, txs[k - 1]);
    }
    if i < k - 1 {
      RecordedForever(env, txs, i, k - 1);
    }
  }

  // No nullifier is accepted twice in any run, across all spending handlers.
  lemma NoNullifierTwice(env: Env, txs: seq<Tx>, i: nat, j: nat)
    requires i < j < |txs| && Accepted(env, txs, i) && Accepted(env, txs, j)
    ensures forall nf :: nf in Claimed(txs[i]) ==> nf !in Claimed(txs[j])
  {
    hide Execute, Run, Claimed;
    RecordedForever(env, txs, i, j);
    AcceptedStepRecords(env, Run(env, txs[..j]).0, txs[j]);
  }
}
