/** Every log has a history the chain could return, and pools that enter their second lap of roots. */
module SecondLap {
  import opened Hashing
  import opened LeanImt
  import opened Outcomes
  import opened PoolAccount
  import opened Circuits
  import opened PoolSpec
  import opened EventDecoder
  import opened Ingest
  import opened Mirroring
  import opened Scenarios
  import LogScope
  import IndexerRing
  import JsBits

  // ----- a history for any log -----

  // One transaction with one call of the program that emits one event; signatures differ in length.
  function RecordOf(program: string, e: Mirroring.Event, i: nat): Record {
    var activity := LogScope.Call(program, "1", LogScope.Emit(TextOf(e), LogScope.Done), " success", LogScope.Done);
    Record(SignatureInfo(Name(i), 0, false), RawTransaction(false, LogScope.Flatten(activity)), activity, [e])
  }

  function Name(i: nat): (s: string)
    ensures |s| == i
  {
    seq(i, _ => 's')
  }

  function History(program: string, log: seq<Mirroring.Event>, from: nat): seq<Record>
    decreases |log|
  {
    if log == [] then [] else [RecordOf(program, log[0], from)] + History(program, log[1..], from + 1)
  }

  function ChainOf(program: string, log: seq<Mirroring.Event>, from: nat): (chain: Chain)
    ensures forall name :: name in chain ==> |name| >= from
    decreases |log|
  {
    if log == [] then map[] else ChainOf(program, log[1..], from + 1)[Name(from) := RecordOf(program, log[0], from).tx]
  }

  lemma RecordIsFaithful(program: string, e: Mirroring.Event, i: nat)
    requires LogScope.IsId(program)
    ensures Faithful(RecordOf(program, e, i), program)
  {
    hide TextOf, LogScope.Flatten, LogScope.IsId, LogScope.Printed, LogScope.EmittedBy;
    LineReadsBack(e);
    OneCall(program, TextOf(e));
    assert EventLines([e]) == [LogScope.DATA + TextOf(e)];
  }

  lemma OneCall(program: string, text: string)
    requires LogScope.IsId(program) && '[' !in text
    ensures var a := LogScope.Call(program, "1", LogScope.Emit(text, LogScope.Done), " success", LogScope.Done);
      LogScope.Printed(a) && LogScope.EmittedBy(a, false, program) == [LogScope.DATA + text]
  {
    hide LogScope.IsId;
    var line, inner := LogScope.DATA + text, LogScope.Emit(text, LogScope.Done);
    assert LogScope.IsOutcome(" success") && LogScope.IsDigit("1"[0]);
    assert LogScope.Printed(inner);
    assert LogScope.EmittedBy(LogScope.Done, true, program) == [] && LogScope.EmittedBy(LogScope.Done, false, program) == [];
    assert LogScope.EmittedBy(inner, true, program) == [line] + [] == [line];
    assert [line] + [] == [line];
  }

  lemma RecordShape(program: string, e: Mirroring.Event, i: nat)
    ensures var r := RecordOf(program, e, i); r.info.signature == Name(i) && r.events == [e]
  {
  }

  lemma {:induction false} HistoryIsFetched(program: string, log: seq<Mirroring.Event>, from: nat)
    requires LogScope.IsId(program) && AllCarried(log)
    ensures Fetched(History(program, log, from), program, ChainOf(program, log, from))
    ensures EventsOf(History(program, log, from)) == log
    ensures forall r :: r in History(program, log, from) ==> |r.info.signature| >= from
    decreases |log|
  {
    hide Faithful, Carried, RecordOf, LogScope.IsId;
    if log != [] {
      var r, rest, later := RecordOf(program, log[0], from), History(program, log[1..], from + 1), ChainOf(program, log[1..], from + 1);
      RecordIsFaithful(program, log[0], from);
      RecordShape(program, log[0], from);
      HistoryIsFetched(program, log[1..], from + 1);
      assert log[0] in log;
      var history, chain := History(program, log, from), ChainOf(program, log, from);
      assert history == [r] + rest && chain == later[Name(from) := r.tx];
      OneMoreFetched(program, r, rest, later, from);
      assert history[1..] == rest && history[0] == r;
      assert EventsOf(history) == [log[0]] + log[1..];
    }
  }

  lemma OneMoreFetched(program: string, r: Record, rest: seq<Record>, later: Chain, from: nat)
    requires Fetched(rest, program, later) && Faithful(r, program) && AllCarried(r.events)
    requires r.info.signature == Name(from) && forall q :: q in rest ==> |q.info.signature| >= from + 1
    ensures Fetched([r] + rest, program, later[Name(from) := r.tx])
    ensures forall q :: q in [r] + rest ==> |q.info.signature| >= from
  {
    hide Faithful, AllCarried;
    forall q | q in [r] + rest
      ensures Faithful(q, program) && Lookup(later[Name(from) := r.tx], q.info.signature) == Some(q.tx)
      ensures AllCarried(q.events)
    {
      assert q == r || q in rest;
    }
  }

  // ----- a hash whose roots count the leaves -----

  function SumNode(l: Fr, r: Fr, k: nat): Fr { l + r + 1 }

  function Ones(n: nat): (s: seq<Fr>)
    ensures |s| == n && forall i :: 0 <= i < n ==> s[i] == 1
  {
    seq(n, _ => 1)
  }

  // The nodes of a level, each increased by one, have the same sum at every level.
  function Weight(s: seq<Fr>): nat {
    if s == [] then 0 else Weight(s[..|s| - 1]) + s[|s| - 1] + 1
  }

  lemma WeightSnoc(s: seq<Fr>, x: Fr)
    ensures Weight(s + [x]) == Weight(s) + x + 1
  {
    assert (s + [x])[..|s|] == s;
  }

  lemma {:induction false} PairKeepsWeight(s: seq<Fr>, k: nat)
    ensures Weight(Pair(SumNode, s, k)) == Weight(s)
    decreases |s|
  {
    hide Weight;
    var up, n := Pair(SumNode, s, k), |s|;
    if n == 0 {
      assert up == [] == s;
    } else if n % 2 == 1 {
      PairKeepsWeight(s[..n - 1], k);
      assert up == Pair(SumNode, s[..n - 1], k) + [s[n - 1]];
      WeightSnoc(s[..n - 1], s[n - 1]);
      WeightSnoc(Pair(SumNode, s[..n - 1], k), s[n - 1]);
      assert s == s[..n - 1] + [s[n - 1]];
    } else {
      PairKeepsWeight(s[..n - 2], k);
      var x := SumNode(s[n - 2], s[n - 1], k);
      assert up == Pair(SumNode, s[..n - 2], k) + [x];
      WeightSnoc(Pair(SumNode, s[..n - 2], k), x);
      WeightSnoc(s[..n - 2], s[n - 2]);
      WeightSnoc(s[..n - 2] + [s[n - 2]], s[n - 1]);
      assert s == s[..n - 2] + [s[n - 2]] + [s[n - 1]];
    }
  }

  lemma {:induction false} LevelKeepsWeight(leaves: seq<Fr>, k: nat)
    ensures Weight(Level(SumNode, leaves, k)) == Weight(leaves)
  {
    hide Weight, Pair;
    if k > 0 {
      LevelKeepsWeight(leaves, k - 1);
      PairKeepsWeight(Level(SumNode, leaves, k - 1), k - 1);
    }
  }

  lemma {:induction false} WeightOfOnes(n: nat)
    ensures Weight(Ones(n)) == 2 * n
  {
    if n > 0 {
      WeightOfOnes(n - 1);
      assert Ones(n) == Ones(n - 1) + [1];
      WeightSnoc(Ones(n - 1), 1);
    }
  }

  lemma RootOfOnes(n: nat)
    requires 0 < n <= CAPACITY
    ensures Root(SumNode, Ones(n)) == 2 * n - 1
  {
    hide Level, RootAt;
    CapacityIs();
    TopIsSingle(SumNode, Ones(n), TREE_DEPTH);
    LevelKeepsWeight(Ones(n), TREE_DEPTH);
    WeightOfOnes(n);
    var x := Root(SumNode, Ones(n));
    assert [x][..0] == [] && Weight([x]) == x + 1;
  }

  lemma {:induction false} NoNodeOutweighs(s: seq<Fr>, i: nat)
    requires i < |s|
    ensures s[i] < Weight(s)
  {
    if i < |s| - 1 {
      NoNodeOutweighs(s[..|s| - 1], i);
    }
  }

  lemma OnesAreHashable(n: nat)
    requires 0 < n <= CAPACITY
    ensures Hashable(SumNode, FIELD_MODULUS, Ones(n))
  {
    hide Level, Weight;
    WeightOfOnes(n);
    forall k | 0 <= k < TREE_DEPTH ensures HashableAt(SumNode, FIELD_MODULUS, Ones(n), k) {
      var s := Level(SumNode, Ones(n), k);
      LevelKeepsWeight(Ones(n), k);
      forall i | 0 <= i < |s| ensures s[i] < FIELD_MODULUS { NoNodeOutweighs(s, i); }
    }
  }

  // ----- a pool with any number of leaves -----

  // A pool over the real field, with that hash, whose verifiers accept everything.
  function OpenEnv(): Env {
    Env(Hashes(SumNode, (note: Note) => 1, (psi: Fr, i: nat) => 0), FIELD_MODULUS, (key: Key) => 0, (key: Key) => key,
        (proof: Proof) => true, (key: Key, pub: seq<Fr>, proof: Proof) => true)
  }

  const NOTHING: Tx := Deposit(1, 0, 1, 0, [1, 0, 0, 0] + ZEROS, 0)

  function Deposits(n: nat): seq<Tx>
    requires n > 0
  {
    if n == 1 then [Start(1)] else Deposits(n - 1) + [NOTHING]
  }

  ghost predicate HasOnes(s: State, log: seq<Mirroring.Event>, n: nat) {
    && s.leaves == Ones(n) && s.initialized && !s.paused && s.verifiers == TABLE
    && (0 in s.assets ==> s.assets[0] == 1) && AllCarried(log)
  }

  lemma {:induction false} DepositsSucceed(n: nat)
    requires 0 < n <= CAPACITY
    ensures var (s, log) := Run(OpenEnv(), Deposits(n)); HasOnes(s, log, n)
  {
    hide Process, HasOnes;
    var txs := Deposits(n);
    if n == 1 {
      assert txs[..0] == [];
      FirstOne();
    } else {
      assert txs[..|txs| - 1] == Deposits(n - 1);
      DepositsSucceed(n - 1);
      var (s, log) := Run(OpenEnv(), Deposits(n - 1));
      OneMore(s, log, n - 1);
    }
  }

  lemma FirstOne()
    ensures var (s, log) := Process(OpenEnv(), EMPTY, Start(1)); HasOnes(s, [] + log, 1)
  {
    hide Hashable, Root;
    OnesAreHashable(1);
    assert [] + [1] == Ones(1);
    RootOfOnes(1);
    EventIsCarried(1);
  }

  lemma OneMore(s: State, log: seq<Mirroring.Event>, n: nat)
    requires HasOnes(s, log, n) && n < CAPACITY
    ensures var (s', events) := Process(OpenEnv(), s, NOTHING); HasOnes(s', log + events, n + 1)
  {
    hide Hashable, Root, Carried;
    NothingSucceeds(s, n);
    EventIsCarried(n + 1);
  }

  lemma NothingSucceeds(s: State, n: nat)
    requires HasOnes(s, [], n) && n < CAPACITY
    ensures var (s', events) := Process(OpenEnv(), s, NOTHING);
      && events == [PoolSpec.Event.NoteInserted(n, 1, 0, None, None, ZEROS, 2 * n + 1)]
      && s'.leaves == Ones(n + 1) && s'.initialized && !s'.paused && s'.verifiers == TABLE && s'.assets == s.assets[0 := 1]
  {
    hide Hashable, Root, Carried;
    assert s.leaves + [1] == Ones(n + 1);
    OnesAreHashable(n + 1);
    RootOfOnes(n + 1);
    assert NOTHING.inputs[4..11] == ZEROS;
  }

  lemma EventIsCarried(n: nat)
    requires 0 < n <= CAPACITY
    ensures Carried(PoolSpec.Event.NoteInserted(n - 1, 1, 0, None, None, ZEROS, 2 * n - 1))
  {
    hide Pow2;
    JsBits.Pow2Values();
    JsBits.PowSplits(32, 224);
    JsBits.PowSplits(32, 192);
    JsBits.PowSplits(192, 32);
    assert Pow2(224) >= 1 && Pow2(192) >= 1;
    JsBits.AtLeastFactor(Pow2(64), Pow2(192));
    JsBits.PowSplits(32, 32);
    JsBits.PowSplits(64, 192);
  }

  // After the first lap the mirrored table of roots is wrong: for any number of leaves beyond 257 there is such a run,
  // it has a history, and whatever its history, the table differs from the pool's ring.
  lemma SecondLapFails(program: string, n: nat)
    requires LogScope.IsId(program) && ROOT_RING + 1 < n <= CAPACITY
    ensures var env, txs := OpenEnv(), Deposits(n); var (s, log) := Run(env, txs);
      && |s.leaves| == n
      && Fetched(History(program, log, 0), program, ChainOf(program, log, 0)) && EventsOf(History(program, log, 0)) == log
      && forall records, newestFirst, chain ::
           Fetched(records, program, chain) && EventsOf(records) == log && newestFirst == Reversed(InfosOf(records)) ==>
           var m := Signatures(env.hashes.node, program, FRESH, Reversed(newestFirst), chain).0;
           !SameRing(env.hashes.node, m.tables.roots, s.leaves)
  {
    hide Run, Fetched, EventsOf, Signatures, SameRing, Reversed, InfosOf, SameHeldRoots, AllCarried, Deposits, History, ChainOf;
    var env, txs := OpenEnv(), Deposits(n);
    var (s, log) := Run(env, txs);
    DepositsSucceed(n);
    HistoryIsFetched(program, log, 0);
    HeldRootsDiffer(n);
    forall records, newestFirst, chain | Fetched(records, program, chain) && EventsOf(records) == log
                                         && newestFirst == Reversed(InfosOf(records))
      ensures var m := Signatures(env.hashes.node, program, FRESH, Reversed(newestFirst), chain).0;
              !SameRing(env.hashes.node, m.tables.roots, s.leaves)
    {
      TheRingAgreesIff(env, txs, program, records, newestFirst, chain);
    }
  }

  lemma HeldRootsDiffer(n: nat)
    requires ROOT_RING + 1 < n <= CAPACITY
    ensures !SameHeldRoots(SumNode, Ones(n))
  {
    hide Root;
    var latest := LatestPush(n, 1).value;
    assert IndexerRing.HeldPush(n, 1) == Some(1) && latest > 1;
    assert Ones(n)[..2] == Ones(2) && Ones(n)[..latest + 1] == Ones(latest + 1);
    RootOfOnes(2);
    RootOfOnes(latest + 1);
    assert !SameAtSlot(SumNode, Ones(n), 1);
  }
}
