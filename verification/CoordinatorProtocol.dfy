/** One session of the coordinator under any interleaving of racing appenders, long-polling readers,
    timeouts and sweeps. Positions in `log` are the sequence numbers the store hands out. */
module CoordinatorProtocol {

  type Id = nat

  const MAX_ATTEMPTS: nat := 20

  datatype Entry = Entry(writer: Id, body: string)

  // The next free number as somebody learned it, and how many sweeps had happened by then.
  datatype Snapshot = Snapshot(next: nat, sweeps: nat)

  // One `appendNext` call.
  datatype Phase =
    | Posting(attempt: nat, known: Snapshot)  // about to try `known.next`; after attempt 0, from a re-read
    | Rereading(attempt: nat)                 // got 409, about to poll from -1
    | Waiting(attempt: nat)                   // that poll found nothing and is held open
    | Acked(slot: nat, sweeps: nat)
    | GaveUp(sweeps: nat)

  datatype Writer = Writer(client: Id, body: string, startLen: nat, startSweeps: nat, phase: Phase)

  // One `collectUntil` call.
  datatype Fetch = Ready | HeldOpen | Delivering(batch: seq<(nat, Entry)>) | Returned(all: seq<Entry>) | OutOfRounds

  datatype Reader = Reader(since: int, seen: map<nat, Entry>, startSweeps: nat, fetch: Fetch)

  // `guesses` is each client's `nextSeqGuess` for this session, kept from one call to the next.
  datatype System = System(log: seq<Entry>, sweeps: nat, writers: map<Id, Writer>, readers: map<Id, Reader>,
                           guesses: map<Id, Snapshot>)

  datatype Verdict = Stop | Continue | Exhausted

  datatype Step =
    | StartAppend(w: Id, client: Id, body: string)
    | Post(w: Id)
    | Reread(w: Id)
    | WriterTimeout(w: Id)
    | Learn(w: Id)  // the client takes note of what a re-read told it
    | StartCollect(r: Id)
    | Poll(r: Id)
    | ReaderTimeout(r: Id)
    | Deliver(r: Id, verdict: Verdict)
    | Sweep

  const START: System := System([], 0, map[], map[], map[])

  // ----- the server publishes an appended entry to everyone whose request it holds open -----

  function WakeWriter(w: Writer, slot: nat, sweeps: nat): Writer {
    match w.phase
    case Waiting(attempt) => w.(phase := Posting(attempt + 1, Snapshot(slot + 1, sweeps)))
    case _ => w
  }

  function WakeReader(r: Reader, slot: nat, entry: Entry): Reader {
    if r.fetch.HeldOpen? && slot > r.since then r.(fetch := Delivering([(slot, entry)])) else r
  }

  function DoPost(s: System, w: Id): System
    requires w in s.writers && s.writers[w].phase.Posting?
  {
    var me := s.writers[w];
    var Posting(attempt, known) := me.phase;
    if known.next == |s.log| then
      var slot, entry := |s.log|, Entry(w, me.body);
      System(s.log + [entry], s.sweeps,
             map v | v in s.writers ::
               if v == w then me.(phase := Acked(slot, s.sweeps)) else WakeWriter(s.writers[v], slot, s.sweeps),
             map r | r in s.readers :: WakeReader(s.readers[r], slot, entry),
             s.guesses[me.client := Snapshot(slot + 1, s.sweeps)])
    else
      var phase := if attempt + 1 >= MAX_ATTEMPTS then GaveUp(s.sweeps) else Rereading(attempt);
      s.(writers := s.writers[w := me.(phase := phase)])
  }

  // ----- the reader's bookkeeping -----

  function Absorb(since: int, seen: map<nat, Entry>, batch: seq<(nat, Entry)>): (int, map<nat, Entry>)
    decreases |batch|
  {
    if batch == [] then (since, seen)
    else
      var (k, e) := batch[0];
      Absorb(if k > since then k else since, seen[k := e], batch[1..])
  }

  // The values seen, sorted by sequence number.
  function InOrder(seen: map<nat, Entry>, n: nat): seq<Entry> {
    if n == 0 then [] else InOrder(seen, n - 1) + (if n - 1 in seen then [seen[n - 1]] else [])
  }

  function Numbered(log: seq<Entry>, from: nat): seq<(nat, Entry)>
    requires from <= |log|
  {
    seq(|log| - from, i requires 0 <= i < |log| - from => (from + i, log[from + i]))
  }

  function DoPoll(s: System, r: Id): System
    requires r in s.readers && s.readers[r].since >= -1
  {
    var me := s.readers[r];
    var fetch := if me.since + 1 < |s.log| then Delivering(Numbered(s.log, me.since + 1)) else HeldOpen;
    s.(readers := s.readers[r := me.(fetch := fetch)])
  }

  function DoDeliver(s: System, r: Id, verdict: Verdict): System
    requires r in s.readers && s.readers[r].fetch.Delivering?
  {
    var me := s.readers[r];
    var (since, seen) := Absorb(me.since, me.seen, me.fetch.batch);
    var fetch := match verdict
      case Stop => Returned(InOrder(seen, if since >= 0 then since + 1 else 0))
      case Continue => Ready
      case Exhausted => OutOfRounds;
    s.(readers := s.readers[r := me.(since := since, seen := seen, fetch := fetch)])
  }

  // A step that is not enabled changes nothing.
  function Next(s: System, step: Step): System {
    match step
    case StartAppend(w, client, body) =>
      if w in s.writers then s
      else
        var known := if client in s.guesses then s.guesses[client] else Snapshot(0, s.sweeps);
        s.(writers := s.writers[w := Writer(client, body, |s.log|, s.sweeps, Posting(0, known))])
    case Post(w) => if w in s.writers && s.writers[w].phase.Posting? then DoPost(s, w) else s
    case Reread(w) =>
      if w in s.writers && s.writers[w].phase.Rereading? then
        var me := s.writers[w];
        var attempt := me.phase.attempt;
        var phase := if s.log == [] then Waiting(attempt) else Posting(attempt + 1, Snapshot(|s.log|, s.sweeps));
        s.(writers := s.writers[w := me.(phase := phase)])
      else s
    case WriterTimeout(w) =>
      if w in s.writers && s.writers[w].phase.Waiting? then
        var me := s.writers[w];
        s.(writers := s.writers[w := me.(phase := Posting(me.phase.attempt + 1, Snapshot(0, s.sweeps)))])
      else s
    case Learn(w) =>
      if w in s.writers && s.writers[w].phase.Posting? && s.writers[w].phase.attempt > 0 then
        s.(guesses := s.guesses[s.writers[w].client := s.writers[w].phase.known])
      else s
    case StartCollect(r) =>
      if r in s.readers then s else s.(readers := s.readers[r := Reader(-1, map[], s.sweeps, Ready)])
    case Poll(r) => if r in s.readers && s.readers[r].fetch.Ready? && s.readers[r].since >= -1 then DoPoll(s, r) else s
    case ReaderTimeout(r) =>
      if r in s.readers && s.readers[r].fetch.HeldOpen? then
        s.(readers := s.readers[r := s.readers[r].(fetch := Delivering([]))])
      else s
    case Deliver(r, verdict) => if r in s.readers && s.readers[r].fetch.Delivering? then DoDeliver(s, r, verdict) else s
    case Sweep => s.(log := [], sweeps := s.sweeps + 1)
  }

  function Run(steps: seq<Step>): System {
    if steps == [] then START else Next(Run(steps[..|steps| - 1]), steps[|steps| - 1])
  }

  // ----- invariants -----

  // Entries and acknowledgements since the last sweep match one to one, and between any two sweeps no slot was
  // given twice.
  ghost predicate SlotsOwned(s: System) {
    && (forall k :: 0 <= k < |s.log| ==>
          && s.log[k].writer in s.writers
          && s.writers[s.log[k].writer].body == s.log[k].body
          && s.writers[s.log[k].writer].phase == Acked(k, s.sweeps))
    && (forall w :: w in s.writers && s.writers[w].phase.Acked? && s.writers[w].phase.sweeps == s.sweeps ==>
          s.writers[w].phase.slot < |s.log| && s.log[s.writers[w].phase.slot] == Entry(w, s.writers[w].body))
    && (forall v, w :: v in s.writers && w in s.writers && v != w && SameEpoch(s.writers[v].phase, s.writers[w].phase) ==>
          s.writers[v].phase.slot != s.writers[w].phase.slot)
  }

  // Acknowledged with no sweep in between.
  predicate SameEpoch(v: Phase, w: Phase) {
    v.Acked? && w.Acked? && v.sweeps == w.sweeps
  }

  ghost predicate WriterOk(log: seq<Entry>, sweeps: nat, w: Writer) {
    && w.startSweeps <= sweeps && (w.phase.Acked? ==> w.phase.sweeps <= sweeps)
    && (w.phase.Waiting? ==> log == [])
    && (w.phase.Posting? ==> KnownOk(log, sweeps, w.phase.known))
    && (w.startSweeps == sweeps ==> w.startLen <= |log| && Progress(log, sweeps, w))
  }

  // What was learned since the last sweep is at most the log's length now.
  ghost predicate KnownOk(log: seq<Entry>, sweeps: nat, known: Snapshot) {
    known.sweeps <= sweeps && (known.sweeps == sweeps ==> known.next <= |log|)
  }

  // Without a sweep, every failed attempt but the first is paid for by somebody else's append.
  ghost predicate Progress(log: seq<Entry>, sweeps: nat, w: Writer) {
    match w.phase
    case Posting(attempt, known) => attempt > 0 ==> known.sweeps == sweeps && known.next >= w.startLen + attempt - 1
    case Rereading(attempt) => |log| >= w.startLen + attempt
    case Waiting(attempt) => |log| >= w.startLen + attempt
    case Acked(_, _) => true
    case GaveUp(at) => at == sweeps && |log| >= w.startLen + MAX_ATTEMPTS - 1
  }

  // The positions seen are exactly those after `from` up to `since`.
  ghost predicate Seen(log: seq<Entry>, seen: map<nat, Entry>, from: int, since: int) {
    && (forall k: nat :: k in seen <==> from < k <= since)
    && (forall k: nat :: k in seen ==> k < |log| && seen[k] == log[k])
  }

  // A reader that started since the last sweep has exactly the prefix up to its cursor.
  ghost predicate ReaderOk(log: seq<Entry>, sweeps: nat, r: Reader) {
    && r.since >= -1 && r.startSweeps <= sweeps
    && (r.startSweeps == sweeps ==>
          && r.since < |log| && Seen(log, r.seen, -1, r.since)
          && FetchOk(log, r))
  }

  ghost predicate FetchOk(log: seq<Entry>, r: Reader)
    requires -1 <= r.since < |log|
  {
    match r.fetch
    case HeldOpen => r.since == |log| - 1
    case Delivering(batch) =>
      r.since + 1 + |batch| <= |log| &&
      forall i :: 0 <= i < |batch| ==> batch[i] == (r.since + 1 + i, log[r.since + 1 + i])
    case Returned(all) => all == log[..r.since + 1]
    case _ => true
  }

  ghost predicate Inv(s: System) {
    && SlotsOwned(s)
    && (forall w :: w in s.writers ==> WriterOk(s.log, s.sweeps, s.writers[w]))
    && (forall r :: r in s.readers ==> ReaderOk(s.log, s.sweeps, s.readers[r]))
    && (forall c :: c in s.guesses ==> KnownOk(s.log, s.sweeps, s.guesses[c]))
  }

  // ----- every step keeps the invariant -----

  // A step by one writer that leaves the log alone and is not an acknowledgement.
  lemma WriterMoves(s: System, w: Id, me: Writer)
    requires Inv(s) && WriterOk(s.log, s.sweeps, me) && !me.phase.Acked?
    requires w in s.writers ==> !s.writers[w].phase.Acked?
    ensures Inv(s.(writers := s.writers[w := me]))
  {
    hide WriterOk, ReaderOk;
  }

  lemma ReaderMoves(s: System, r: Id, me: Reader)
    requires Inv(s) && ReaderOk(s.log, s.sweeps, me)
    ensures Inv(s.(readers := s.readers[r := me]))
  {
    hide WriterOk, ReaderOk;
  }

  lemma LogGrows(log: seq<Entry>, sweeps: nat, w: Writer, entry: Entry)
    requires WriterOk(log, sweeps, w)
    ensures WriterOk(log + [entry], sweeps, WakeWriter(w, |log|, sweeps))
  {
  }

  lemma ReaderSeesGrowth(log: seq<Entry>, sweeps: nat, r: Reader, entry: Entry)
    requires ReaderOk(log, sweeps, r)
    ensures ReaderOk(log + [entry], sweeps, WakeReader(r, |log|, entry))
  {
    var now := log + [entry];
    if r.startSweeps == sweeps {
      forall k: nat | k in r.seen ensures r.seen[k] == now[k] {}
      if r.fetch.Returned? {
        assert now[..r.since + 1] == log[..r.since + 1];
      }
    }
  }

  lemma PostSucceeds(s: System, w: Id)
    requires Inv(s) && w in s.writers && s.writers[w].phase.Posting? && s.writers[w].phase.known.next == |s.log|
    ensures Inv(DoPost(s, w))
  {
    hide WriterOk, ReaderOk;
    var s' := DoPost(s, w);
    var entry := Entry(w, s.writers[w].body);
    forall v | v in s'.writers ensures WriterOk(s'.log, s'.sweeps, s'.writers[v]) {
      LogGrows(s.log, s.sweeps, s.writers[v], entry);
      if v == w {
        AckIsOk(s.log, s.sweeps, s.writers[w], entry);
      }
    }
    forall r | r in s'.readers ensures ReaderOk(s'.log, s'.sweeps, s'.readers[r]) {
      ReaderSeesGrowth(s.log, s.sweeps, s.readers[r], entry);
    }
    PostKeepsSlots(s, w);
  }

  lemma AckIsOk(log: seq<Entry>, sweeps: nat, w: Writer, entry: Entry)
    requires WriterOk(log, sweeps, w)
    ensures WriterOk(log + [entry], sweeps, w.(phase := Acked(|log|, sweeps)))
  {
  }

  lemma PostKeepsSlots(s: System, w: Id)
    requires SlotsOwned(s) && w in s.writers && s.writers[w].phase.Posting? && s.writers[w].phase.known.next == |s.log|
    ensures SlotsOwned(DoPost(s, w))
  {
    var s' := DoPost(s, w);
    AckedPhases(s, w);
    hide DoPost;
    forall k | 0 <= k < |s'.log|
      ensures s'.log[k].writer in s'.writers && s'.writers[s'.log[k].writer].body == s'.log[k].body
      ensures s'.writers[s'.log[k].writer].phase == Acked(k, s'.sweeps)
    {
      if k < |s.log| {
        assert s'.log[k] == s.log[k];
      }
    }
  }

  // A successful post acknowledges its own call; no other phase becomes or ceases to be an acknowledgement.
  lemma AckedPhases(s: System, w: Id)
    requires w in s.writers && s.writers[w].phase.Posting? && s.writers[w].phase.known.next == |s.log|
    ensures var s' := DoPost(s, w);
      && s'.log == s.log + [Entry(w, s.writers[w].body)] && s'.sweeps == s.sweeps && s'.writers.Keys == s.writers.Keys
      && s'.writers[w].phase == Acked(|s.log|, s.sweeps) && s'.writers[w].body == s.writers[w].body
      && (forall v :: v in s.writers && v != w ==>
            && s'.writers[v].body == s.writers[v].body
            && (s'.writers[v].phase.Acked? <==> s.writers[v].phase.Acked?)
            && (s.writers[v].phase.Acked? ==> s'.writers[v].phase == s.writers[v].phase))
  {
  }

  lemma PostConflicts(s: System, w: Id)
    requires Inv(s) && w in s.writers && s.writers[w].phase.Posting? && s.writers[w].phase.known.next != |s.log|
    ensures Inv(DoPost(s, w))
  {
    var me := s.writers[w];
    var attempt := me.phase.attempt;
    var phase := if attempt + 1 >= MAX_ATTEMPTS then GaveUp(s.sweeps) else Rereading(attempt);
    ConflictIsOk(s.log, s.sweeps, me, phase);
    WriterMoves(s, w, me.(phase := phase));
  }

  lemma ConflictIsOk(log: seq<Entry>, sweeps: nat, w: Writer, phase: Phase)
    requires WriterOk(log, sweeps, w) && w.phase.Posting? && w.phase.known.next != |log|
    requires phase == Rereading(w.phase.attempt) || (phase == GaveUp(sweeps) && w.phase.attempt + 1 >= MAX_ATTEMPTS)
    ensures WriterOk(log, sweeps, w.(phase := phase))
  {
  }

  lemma {:induction false} AbsorbSlice(log: seq<Entry>, from: int, since: int, seen: map<nat, Entry>,
                                       batch: seq<(nat, Entry)>)
    requires -1 <= from <= since && since + 1 + |batch| <= |log| && Seen(log, seen, from, since)
    requires forall i :: 0 <= i < |batch| ==> batch[i] == (since + 1 + i, log[since + 1 + i])
    ensures var (since', seen') := Absorb(since, seen, batch);
            since' == since + |batch| && Seen(log, seen', from, since')
    decreases |batch|
  {
    if batch != [] {
      AbsorbSlice(log, from, since + 1, seen[since + 1 := log[since + 1]], batch[1..]);
    }
  }

  lemma {:induction false} InOrderIsSlice(log: seq<Entry>, seen: map<nat, Entry>, from: int, n: nat)
    requires -1 <= from && (n <= |log| || n <= from + 1)
    requires forall k: nat :: k < n ==> (k in seen <==> from < k)
    requires forall k: nat :: k < n && k in seen ==> k < |log| && seen[k] == log[k]
    ensures InOrder(seen, n) == if from + 1 <= n <= |log| then log[from + 1..n] else []
  {
    if n > 0 { InOrderIsSlice(log, seen, from, n - 1); }
  }

  lemma DeliverIsOk(s: System, r: Id, verdict: Verdict)
    requires Inv(s) && r in s.readers && s.readers[r].fetch.Delivering?
    ensures Inv(DoDeliver(s, r, verdict))
  {
    hide SlotsOwned, WriterOk, InOrder, Absorb;
    var me := s.readers[r];
    var (since, seen) := Absorb(me.since, me.seen, me.fetch.batch);
    AbsorbRaises(me.since, me.seen, me.fetch.batch);
    if me.startSweeps == s.sweeps {
      AbsorbSlice(s.log, -1, me.since, me.seen, me.fetch.batch);
      InOrderIsSlice(s.log, seen, -1, since + 1);
    }
    var s' := DoDeliver(s, r, verdict);
    ReaderMoves(s, r, s'.readers[r]);
  }

  lemma {:induction false} AbsorbRaises(since: int, seen: map<nat, Entry>, batch: seq<(nat, Entry)>)
    ensures Absorb(since, seen, batch).0 >= since
    decreases |batch|
  {
    if batch != [] {
      var (k, e) := batch[0];
      AbsorbRaises(if k > since then k else since, seen[k := e], batch[1..]);
    }
  }

  lemma PollIsOk(s: System, r: Id)
    requires Inv(s) && r in s.readers && s.readers[r].fetch.Ready?
    ensures s.readers[r].since >= -1 && Inv(DoPoll(s, r))
  {
    hide SlotsOwned, WriterOk;
    ReaderMoves(s, r, DoPoll(s, r).readers[r]);
  }

  lemma SweepIsOk(s: System)
    requires Inv(s)
    ensures Inv(Next(s, Sweep))
  {
  }

  lemma RereadIsOk(log: seq<Entry>, sweeps: nat, w: Writer)
    requires WriterOk(log, sweeps, w) && w.phase.Rereading?
    ensures log == [] ==> WriterOk(log, sweeps, w.(phase := Waiting(w.phase.attempt)))
    ensures WriterOk(log, sweeps, w.(phase := Posting(w.phase.attempt + 1, Snapshot(|log|, sweeps))))
  {
  }

  lemma TimeoutIsOk(log: seq<Entry>, sweeps: nat, w: Writer)
    requires WriterOk(log, sweeps, w) && w.phase.Waiting?
    ensures WriterOk(log, sweeps, w.(phase := Posting(w.phase.attempt + 1, Snapshot(0, sweeps))))
  {
  }

  lemma StepKeepsInv(s: System, step: Step)
    requires Inv(s)
    ensures Inv(Next(s, step))
  {
    hide SlotsOwned, WriterOk, ReaderOk, DoPost, DoPoll, DoDeliver;
    match step {
      case StartAppend(w, client, body) =>
        if w !in s.writers {
          var me := Next(s, step).writers[w];
          FreshWriterIsOk(s, me);
          WriterMoves(s, w, me);
        }
      case Post(w) =>
        if w in s.writers && s.writers[w].phase.Posting? {
          if s.writers[w].phase.known.next == |s.log| { PostSucceeds(s, w); } else { PostConflicts(s, w); }
        }
      case Reread(w) =>
        if w in s.writers && s.writers[w].phase.Rereading? {
          RereadIsOk(s.log, s.sweeps, s.writers[w]);
          WriterMoves(s, w, Next(s, step).writers[w]);
        }
      case WriterTimeout(w) =>
        if w in s.writers && s.writers[w].phase.Waiting? {
          TimeoutIsOk(s.log, s.sweeps, s.writers[w]);
          WriterMoves(s, w, Next(s, step).writers[w]);
        }
      case Learn(w) => LearnIsOk(s, w);
      case StartCollect(r) =>
        if r !in s.readers {
          FreshReaderIsOk(s);
          ReaderMoves(s, r, Reader(-1, map[], s.sweeps, Ready));
        }
      case Poll(r) => if r in s.readers && s.readers[r].fetch.Ready? { PollIsOk(s, r); }
      case ReaderTimeout(r) =>
        if r in s.readers && s.readers[r].fetch.HeldOpen? {
          EmptyDeliveryIsOk(s.log, s.sweeps, s.readers[r]);
          ReaderMoves(s, r, s.readers[r].(fetch := Delivering([])));
        }
      case Deliver(r, verdict) =>
        if r in s.readers && s.readers[r].fetch.Delivering? { DeliverIsOk(s, r, verdict); }
      case Sweep => SweepIsOk(s);
    }
  }

  lemma FreshWriterIsOk(s: System, me: Writer)
    requires me.phase.Posting? && me.phase.attempt == 0 && KnownOk(s.log, s.sweeps, me.phase.known)
    requires me.startLen == |s.log| && me.startSweeps == s.sweeps
    ensures WriterOk(s.log, s.sweeps, me)
  {
  }

  lemma LearnIsOk(s: System, w: Id)
    requires Inv(s)
    ensures Inv(Next(s, Learn(w)))
  {
    hide ReaderOk, Progress;
    if w in s.writers {
      assert WriterOk(s.log, s.sweeps, s.writers[w]);
    }
  }

  lemma FreshReaderIsOk(s: System)
    ensures ReaderOk(s.log, s.sweeps, Reader(-1, map[], s.sweeps, Ready))
  {
  }

  lemma EmptyDeliveryIsOk(log: seq<Entry>, sweeps: nat, r: Reader)
    requires ReaderOk(log, sweeps, r)
    ensures ReaderOk(log, sweeps, r.(fetch := Delivering([])))
  {
  }

  lemma {:induction false} AlwaysInv(steps: seq<Step>)
    ensures Inv(Run(steps))
  {
    hide Inv, Next;
    if steps == [] {
      StartIsOk();
    } else {
      AlwaysInv(steps[..|steps| - 1]);
      StepKeepsInv(Run(steps[..|steps| - 1]), steps[|steps| - 1]);
    }
  }

  lemma StartIsOk()
    ensures Inv(START)
  {
  }

  // ----- what users of the protocol rely on -----

  // No two appends acknowledged between the same sweeps were given the same slot, and since the last sweep
  // every slot holds its owner's message.
  lemma EveryAckOwnsItsSlot(steps: seq<Step>, v: Id, w: Id)
    requires var s := Run(steps);
             v in s.writers && w in s.writers && SameEpoch(s.writers[v].phase, s.writers[w].phase)
    ensures var s := Run(steps);
            var slot := s.writers[w].phase.slot;
            && (v != w ==> slot != s.writers[v].phase.slot)
            && (s.writers[w].phase.sweeps == s.sweeps ==> slot < |s.log| && s.log[slot] == Entry(w, s.writers[w].body))
  {
    AlwaysInv(steps);
    hide WriterOk, ReaderOk;
  }

  // Absent a sweep, a conflict means others appended since the number was learned: the log is longer than it
  // was then, and none of the new entries is the conflicting call's own.
  lemma ConflictMeansSomebodyElseAppended(steps: seq<Step>, w: Id)
    requires var s := Run(steps);
             && w in s.writers && s.writers[w].phase.Posting? && s.writers[w].phase.known.sweeps == s.sweeps
             && s.writers[w].phase.known.next != |s.log|
    ensures var s := Run(steps);
            var next := s.writers[w].phase.known.next;
            next < |s.log| && forall k :: next <= k < |s.log| ==> s.log[k].writer != w
  {
    AlwaysInv(steps);
    hide ReaderOk, Progress;
  }

  // ----- conflicts with an empty session -----

  // Some run lets an append with this number meet an empty log and be refused, the number learned before the
  // last sweep or since.
  ghost predicate ConflictsWithEmpty(next: nat, stale: bool) {
    exists steps, w: Id :: IsEmptyConflict(Run(steps), w, next, stale)
  }

  ghost predicate IsEmptyConflict(s: System, w: Id, next: nat, stale: bool) {
    && w in s.writers && s.writers[w].phase.Posting? && s.log == [] && next != 0
    && s.writers[w].phase.known.next == next && (stale <==> s.writers[w].phase.known.sweeps < s.sweeps)
  }

  // The first k appends of one client, each accepted at its first attempt.
  function Appends(k: nat): seq<Step> {
    if k == 0 then [] else Appends(k - 1) + [StartAppend(k, 0, ""), Post(k)]
  }

  // k appends of client 0, and nothing else.
  ghost predicate OnlyAppends(s: System, k: nat) {
    && |s.log| == k && s.sweeps == 0 && (forall w :: w in s.writers ==> w <= k)
    && s.readers == map[] && 1 !in s.guesses && (forall i :: 0 <= i < k ==> s.log[i].writer <= k)
    && (if k == 0 then s.guesses == map[] else 0 in s.guesses && s.guesses[0] == Snapshot(k, 0))
  }

  lemma {:induction false} AppendsSucceed(k: nat)
    ensures OnlyAppends(Run(Appends(k)), k)
  {
    hide OnlyAppends, Next;
    if k == 0 {
      NoAppendsYet();
    } else {
      AppendsSucceed(k - 1);
      TwoMore(Appends(k - 1), StartAppend(k, 0, ""), Post(k));
      OneMoreAppend(Run(Appends(k - 1)), k - 1);
    }
  }

  lemma NoAppendsYet()
    ensures OnlyAppends(START, 0)
  {
  }

  lemma OneMoreAppend(s: System, k: nat)
    requires OnlyAppends(s, k)
    ensures OnlyAppends(Next(Next(s, StartAppend(k + 1, 0, "")), Post(k + 1)), k + 1)
  {
    hide DoPost;
    var s1 := Next(s, StartAppend(k + 1, 0, ""));
    assert s1.writers[k + 1].phase == Posting(0, Snapshot(k, 0)) && s1.writers[k + 1].client == 0;
    AckedPhases(s1, k + 1);
    PostLearns(s1, k + 1);
  }

  lemma PostLearns(s: System, w: Id)
    requires w in s.writers && s.writers[w].phase.Posting? && s.writers[w].phase.known.next == |s.log|
    ensures var s' := DoPost(s, w);
      && s'.readers.Keys == s.readers.Keys
      && s'.guesses == s.guesses[s.writers[w].client := Snapshot(|s.log| + 1, s.sweeps)]
  {
  }

  lemma TwoMore(steps: seq<Step>, a: Step, b: Step)
    ensures Run(steps + [a, b]) == Next(Next(Run(steps), a), b)
  {
    hide Next;
    assert (steps + [a, b])[..|steps| + 1] == steps + [a] && (steps + [a])[..|steps|] == steps;
  }

  // An append can be refused by an empty session exactly if its number is not 0 and dates from before the last
  // sweep. Then the call's re-read is held open.
  lemma EmptyConflictIffStale(next: nat, stale: bool)
    ensures ConflictsWithEmpty(next, stale) <==> next > 0 && stale
  {
    hide Next, Inv;
    if ConflictsWithEmpty(next, stale) {
      var steps, w: Id :| IsEmptyConflict(Run(steps), w, next, stale);
      AlwaysInv(steps);
      FreshNumbersFit(Run(steps), w);
    }
    if next > 0 && stale {
      var steps := Appends(next) + [Sweep, StartAppend(next + 1, 0, "")];
      TwoMore(Appends(next), Sweep, StartAppend(next + 1, 0, ""));
      AppendsSucceed(next);
      StaleGuess(Run(Appends(next)), next);
      assert IsEmptyConflict(Run(steps), next + 1, next, true);
    }
  }

  lemma FreshNumbersFit(s: System, w: Id)
    requires Inv(s) && w in s.writers && s.writers[w].phase.Posting?
    ensures KnownOk(s.log, s.sweeps, s.writers[w].phase.known)
  {
  }

  lemma StaleGuess(s: System, k: nat)
    requires s.sweeps == 0 && 0 in s.guesses && s.guesses[0] == Snapshot(k, 0) && k > 0 && k + 1 !in s.writers
    ensures IsEmptyConflict(Next(Next(s, Sweep), StartAppend(k + 1, 0, "")), k + 1, k, true)
  {
  }

  lemma EmptyConflictWaits(s: System, w: Id, next: nat, stale: bool)
    requires IsEmptyConflict(s, w, next, stale) && s.writers[w].phase.attempt + 1 < MAX_ATTEMPTS
    ensures var t := Next(Next(s, Post(w)), Reread(w)); t.writers[w].phase == Waiting(s.writers[w].phase.attempt)
  {
  }

  // Absent a sweep, a call gives up only if at least 19 appends by others committed while it was trying.
  lemma GivingUpTakesNineteenRivals(steps: seq<Step>, w: Id)
    requires var s := Run(steps);
             w in s.writers && s.writers[w].phase.GaveUp? && s.writers[w].startSweeps == s.sweeps
    ensures var s := Run(steps);
            && |s.log| - s.writers[w].startLen >= MAX_ATTEMPTS - 1
            && forall k :: s.writers[w].startLen <= k < |s.log| ==> s.log[k].writer != w
  {
    AlwaysInv(steps);
    hide ReaderOk;
  }

  // Absent a sweep, what a reader returns is a prefix of the log in order, and what it holds at any time is
  // exactly the positions up to its cursor.
  lemma ReadersLoseNothing(steps: seq<Step>, r: Id)
    requires var s := Run(steps); r in s.readers && s.readers[r].startSweeps == s.sweeps
    ensures var s := Run(steps);
            var me := s.readers[r];
            && (forall k: nat :: k in me.seen <==> k <= me.since)
            && (forall k: nat :: k in me.seen ==> k < |s.log| && me.seen[k] == s.log[k])
            && (me.fetch.Returned? ==> me.fetch.all <= s.log && |me.fetch.all| == me.since + 1)
  {
    AlwaysInv(steps);
    hide WriterOk;
  }

  // ----- what a sweep makes a reader miss -----

  // The reader's request is held open although the log has an entry at or below its cursor that it never saw.
  ghost predicate Misses(s: System, r: Id) {
    && r in s.readers && s.readers[r].fetch.HeldOpen?
    && exists k: nat :: IsMissed(s.log, s.readers[r], k)
  }

  ghost predicate IsMissed(log: seq<Entry>, r: Reader, k: nat) {
    k < |log| && k <= r.since && !(k in r.seen && r.seen[k] == log[k])
  }

  // Some run makes a reader with this cursor miss an entry, the session swept since the reader started or not.
  ghost predicate CanMiss(cursor: int, swept: bool) {
    exists steps, r: Id :: IsMiss(Run(steps), r, cursor, swept)
  }

  ghost predicate IsMiss(s: System, r: Id, cursor: int, swept: bool) {
    Misses(s, r) && s.readers[r].since == cursor && (swept <==> s.readers[r].startSweeps < s.sweeps)
  }

  // A reader can miss an entry exactly if it has received something and the session was swept since it started.
  lemma MissesIffSwept(cursor: int, swept: bool)
    ensures CanMiss(cursor, swept) <==> cursor >= 0 && swept
  {
    hide Next, Inv, Run;
    if CanMiss(cursor, swept) {
      var steps, r: Id :| IsMiss(Run(steps), r, cursor, swept);
      AlwaysInv(steps);
      UnsweptMissesNothing(Run(steps), r);
    }
    if cursor >= 0 && swept {
      MissingRun(cursor);
    }
  }

  lemma UnsweptMissesNothing(s: System, r: Id)
    requires Inv(s) && Misses(s, r)
    ensures s.readers[r].since >= 0 && s.readers[r].startSweeps < s.sweeps
  {
    hide SlotsOwned, WriterOk, KnownOk;
    assert ReaderOk(s.log, s.sweeps, s.readers[r]);
    var k: nat :| IsMissed(s.log, s.readers[r], k);
  }

  // Receive the numbers up to c, see the session swept and started again, and poll.
  lemma MissingRun(c: nat)
    ensures CanMiss(c, true)
  {
    hide Next, Run, Inv;
    var s0 := Run(Appends(c + 1));
    AppendsSucceed(c + 1);
    var read := Appends(c + 1) + [StartCollect(0), Poll(0), Deliver(0, Continue)];
    var restart := [StartAppend(c + 2, 1, ""), Post(c + 2), Poll(0)];
    RunOn(Appends(c + 1), [StartCollect(0), Poll(0), Deliver(0, Continue)]);
    OneMoreStep(read, Sweep);
    RunOn(read + [Sweep], restart);
    var steps, s1 := read + [Sweep] + restart, Run(read + [Sweep]);
    ReadThenSwept(s0, c);
    Restarted(s1, c);
    assert IsMiss(Run(steps), 0, c, true);
  }

  lemma OneMoreStep(steps: seq<Step>, step: Step)
    ensures Run(steps + [step]) == Next(Run(steps), step)
  {
    hide Next;
    assert (steps + [step])[..|steps|] == steps;
  }

  function Steps(s: System, steps: seq<Step>): System
    decreases |steps|
  {
    if steps == [] then s else Steps(Next(s, steps[0]), steps[1..])
  }

  lemma {:induction false} RunOn(before: seq<Step>, steps: seq<Step>)
    ensures Run(before + steps) == Steps(Run(before), steps)
    decreases |steps|
  {
    hide Next;
    if steps == [] {
      assert before + steps == before;
    } else {
      var now := before + [steps[0]];
      assert before + steps == now + steps[1..];
      assert now[..|before|] == before;
      RunOn(now, steps[1..]);
    }
  }

  lemma ThreeSteps(s: System, a: Step, b: Step, c: Step)
    ensures Steps(s, [a, b, c]) == Next(Next(Next(s, a), b), c)
  {
    hide Next;
    assert [a, b, c][1..] == [b, c] && [b, c][1..] == [c] && [c][1..] == [];
    assert Steps(Next(s, a), [b, c]) == Steps(Next(Next(s, a), b), [c]);
  }

  lemma ReadThenSwept(s: System, c: nat)
    requires |s.log| == c + 1 && s.sweeps == 0 && s.readers == map[] && 1 !in s.guesses && c + 2 !in s.writers
    ensures var t := Next(Steps(s, [StartCollect(0), Poll(0), Deliver(0, Continue)]), Sweep);
      && t.log == [] && t.sweeps == 1 && c + 2 !in t.writers && 1 !in t.guesses
      && 0 in t.readers && t.readers[0].since == c && t.readers[0].fetch == Ready && t.readers[0].startSweeps == 0
      && 0 in t.readers[0].seen && t.readers[0].seen[0] == s.log[0]
  {
    hide Steps, Absorb;
    ThreeSteps(s, StartCollect(0), Poll(0), Deliver(0, Continue));
    var s1 := Next(s, StartCollect(0));
    var s2 := Next(s1, Poll(0));
    assert s2.readers[0].fetch == Delivering(Numbered(s.log, 0));
    AbsorbSlice(s.log, -1, -1, map[], Numbered(s.log, 0));
    var s3 := Next(s2, Deliver(0, Continue));
    assert s3.readers[0].since == c;
  }

  lemma Restarted(s: System, c: nat)
    requires s.log == [] && s.sweeps == 1 && c + 2 !in s.writers && 1 !in s.guesses
    requires 0 in s.readers && s.readers[0].since == c && s.readers[0].fetch == Ready && s.readers[0].startSweeps == 0
    requires 0 in s.readers[0].seen && s.readers[0].seen[0].writer != c + 2
    ensures IsMiss(Steps(s, [StartAppend(c + 2, 1, ""), Post(c + 2), Poll(0)]), 0, c, true)
  {
    hide Steps, DoPost;
    ThreeSteps(s, StartAppend(c + 2, 1, ""), Post(c + 2), Poll(0));
    var s1 := Next(s, StartAppend(c + 2, 1, ""));
    assert s1.writers[c + 2].phase == Posting(0, Snapshot(0, 1));
    PostToEmpty(s1, c + 2, 0);
    var t := Next(Next(s1, Post(c + 2)), Poll(0));
    assert IsMissed(t.log, t.readers[0], 0);
  }

  lemma PostToEmpty(s: System, w: Id, r: Id)
    requires s.log == [] && w in s.writers && s.writers[w].phase.Posting? && s.writers[w].phase.known.next == 0
    requires r in s.readers && s.readers[r].fetch == Ready
    ensures var t := DoPost(s, w);
      t.log == [Entry(w, s.writers[w].body)] && t.sweeps == s.sweeps && r in t.readers && t.readers[r] == s.readers[r]
  {
  }
}
