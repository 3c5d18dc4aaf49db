/** The indexer's mirror is the pool: feeding it the logs of a whole run, in chain order, rebuilds the pool's
    tree, note by note, and its nullifier set; and the tree can be rebuilt again from the store. */
module Mirroring {
  import opened Hashing
  import opened LeanImt
  import opened Outcomes
  import opened JsBits
  import opened EventDecoder
  import opened IndexerRing
  import opened Ingest
  import opened EventLog
  import opened PoolAccount
  import PoolSpec
  import opened Circuits
  import LogScope
  import InclusionProof
  import Solvency
  import TreeGrowth
  import SolventRuns

  type Event = PoolSpec.Event

  // ----- what the mirror reflects -----

  // The row stored for the i-th note event. Its root is the one the indexer computed itself.
  ghost predicate RowFor(row: NoteRow, e: Event, i: nat) {
    e.NoteInserted? &&
    var d := DomainOf(e);
    row == NoteRow(i, d.leaf, d.ephPubX, d.tag, d.cekWrap, d.ciphertext, d.root, row.slot)
  }

  ghost predicate ReflectsNotes(notes: map<nat, NoteRow>, events: seq<Event>) {
    && (forall i: nat :: i in notes <==> i < |events|)
    && (forall i: nat :: i < |events| ==> RowFor(notes[i], events[i], i))
  }

  ghost predicate ReflectsSpent(nullifiers: map<seq<byte>, nat>, spent: seq<Fr>) {
    forall b :: b in nullifiers <==> exists j :: 0 <= j < |spent| && b == Word32(spent[j])
  }

  // One pushed root per note event, whatever the slots.
  ghost predicate PushedFor(row: RootRow, e: Event, i: nat) {
    e.NoteInserted? && row.root == Word32(e.root) && row.nextLeafIndex == i + 1
  }

  ghost predicate ReflectsRoots(roots: RootTable, events: seq<Event>, rows: seq<RootRow>) {
    && roots == PushAll(rows) && |rows| == |events|
    && forall i: nat :: i < |rows| ==> PushedFor(rows[i], events[i], i)
  }

  // The mirror after the first |events| leaves and the given nullifiers.
  ghost predicate Reflects(leaves: seq<Fr>, m: Mirror, events: seq<Event>, spent: seq<Fr>) {
    && |events| <= |leaves| && m.leaves == leaves[..|events|]
    && ReflectsNotes(m.tables.notes, events)
    && ReflectsSpent(m.tables.nullifiers, spent)
    && (exists rows :: ReflectsRoots(m.tables.roots, events, rows))
    && !m.halted
  }

  // Every note event of the pool's log, each carried faithfully by its bytes.
  ghost predicate PoolNotes(h: NodeHash, leaves: seq<Fr>, events: seq<Event>) {
    && NonZero(leaves) && |leaves| <= CAPACITY && |events| == |leaves|
    && forall i :: 0 <= i < |events| ==> Announces(h, leaves, i, events[i])
  }

  // ----- one event -----

  lemma LeafReadsBack(n: nat)
    requires n < Pow2(256) && n < FIELD_MODULUS
    ensures FieldFromHex(Word32(n)) == Ok(n)
  {
    BigEndianRoundTrip(n, 32);
  }

  lemma NoteStep(h: NodeHash, leaves: seq<Fr>, m: Mirror, e: Event, slot: nat, done: seq<Event>, spent: seq<Fr>)
    requires Reflects(leaves, m, done, spent) && NonZero(leaves) && |leaves| <= CAPACITY
    requires e.NoteInserted? && Carried(e) && Announces(h, leaves, |done|, e)
    ensures var (m', error) := ApplyNote(h, m, DomainOf(e), slot); error.None? && Reflects(leaves, m', done + [e], spent)
  {
    hide Root, Pow2, Word32, PushAll, IndexerRing.PushRoot, FromBigEndian, ReflectsSpent;
    var k := |done|;
    LeafReadsBack(e.leaf);
    Pow2Values();
    assert leaves[..k] + [e.leaf] == leaves[..k + 1];
    var (m', error) := ApplyNote(h, m, DomainOf(e), slot);
    assert error.None?;
    assert m'.leaves == leaves[..k + 1];
    var now := done + [e];
    forall i: nat | i < |now| ensures RowFor(m'.tables.notes[i], now[i], i) {
      if i < k { assert now[i] == done[i]; }
    }
    var rows :| ReflectsRoots(m.tables.roots, done, rows);
    var row := RootRow(Word32(e.root), k + 1, slot);
    PushAllStep(rows, row);
    assert ReflectsRoots(m'.tables.roots, now, rows + [row]);
  }

  lemma PushAllStep(rows: seq<RootRow>, row: RootRow)
    ensures PushAll(rows + [row]) == IndexerRing.PushRoot(PushAll(rows), row)
  {
    assert (rows + [row])[..|rows|] == rows;
  }

  lemma NullifierStep(h: NodeHash, leaves: seq<Fr>, m: Mirror, nullifier: Fr, slot: nat, done: seq<Event>,
                      spent: seq<Fr>)
    requires Reflects(leaves, m, done, spent)
    ensures var (m', error) := Apply(h, m, NullifierSpent(Word32(nullifier)), slot);
      error.None? && Reflects(leaves, m', done, spent + [nullifier])
  {
    hide Word32, ReflectsNotes, ReflectsRoots;
    var m' := Apply(h, m, NullifierSpent(Word32(nullifier)), slot).0;
    var now := spent + [nullifier];
    forall b ensures b in m'.tables.nullifiers <==> exists j :: 0 <= j < |now| && b == Word32(now[j]) {
      if b == Word32(nullifier) {
        assert now[|spent|] == nullifier;
      } else if b in m.tables.nullifiers {
        var j :| 0 <= j < |spent| && b == Word32(spent[j]);
        assert now[j] == spent[j];
      }
    }
  }

  lemma EventStep(h: NodeHash, leaves: seq<Fr>, m: Mirror, e: Event, slot: nat, done: seq<Event>, spent: seq<Fr>)
    requires Reflects(leaves, m, done, spent) && NonZero(leaves) && |leaves| <= CAPACITY && Carried(e)
    requires e.NoteInserted? ==> Announces(h, leaves, |done|, e)
    ensures var (m', error) := ApplyLine(h, m, LineOf(e), slot);
      error.None? && Reflects(leaves, m', done + NotesOf([e]), spent + SpentOf([e]))
  {
    hide Reflects, Carried, Tokens, TokensIn, TextOf, DecodeLine, ToDomainEvent, ApplyNote, NotesOf, SpentOf;
    LineRoundTrip(e);
    LineReadsBack(e);
    SingleEvent(e);
    assert done + [] == done && spent + [] == spent;
    match e {
      case NoteInserted(_, _, _, _, _, _, _) => NoteStep(h, leaves, m, e, slot, done, spent);
      case NullifierSpentEvent(nullifier) => NullifierStep(h, leaves, m, nullifier, slot, done, spent);
      case ComplianceKeyRotated(_, _, _, _) => QuietStep(leaves, m, Apply(h, m, DomainOf(e), slot).0, done, spent);
    }
  }

  lemma QuietStep(leaves: seq<Fr>, m: Mirror, m': Mirror, done: seq<Event>, spent: seq<Fr>)
    requires Reflects(leaves, m, done, spent)
    requires m'.leaves == m.leaves && m'.halted == m.halted && m'.tables.notes == m.tables.notes
    requires m'.tables.nullifiers == m.tables.nullifiers && m'.tables.roots == m.tables.roots
    ensures Reflects(leaves, m', done, spent)
  {
  }

  // ----- one transaction -----

  function EventLines(events: seq<Event>): (lines: seq<string>)
    ensures |lines| == |events|
  {
    seq(|events|, i requires 0 <= i < |events| => LineOf(events[i]))
  }

  ghost predicate AllCarried(events: seq<Event>) {
    forall e :: e in events ==> Carried(e)
  }

  // The events come next in the pool's log after the notes already reflected.
  ghost predicate Next(events: seq<Event>, done: seq<Event>, all: seq<Event>) {
    done + NotesOf(events) <= all
  }

  lemma NextSplits(a: seq<Event>, b: seq<Event>, done: seq<Event>, all: seq<Event>)
    requires Next(a + b, done, all)
    ensures Next(a, done, all) && Next(b, done + NotesOf(a), all)
  {
    hide NotesOf;
    FiltersConcatenate(a, b);
    ShorterPrefix(done, NotesOf(a), NotesOf(b), all);
  }

  lemma ShorterPrefix<T>(x: seq<T>, y: seq<T>, z: seq<T>, all: seq<T>)
    requires x + (y + z) <= all
    ensures x + y <= all && (x + y) + z <= all
  {
    assert (x + y) + z == x + (y + z);
  }

  lemma {:induction false} LinesStep(h: NodeHash, leaves: seq<Fr>, all: seq<Event>, m: Mirror, events: seq<Event>,
                                     slot: nat, done: seq<Event>, spent: seq<Fr>)
    requires PoolNotes(h, leaves, all) && Reflects(leaves, m, done, spent) && AllCarried(events)
    requires Next(events, done, all)
    ensures var (m', error) := ApplyLines(h, m, EventLines(events), slot);
      error.None? && Reflects(leaves, m', done + NotesOf(events), spent + SpentOf(events))
    decreases |events|
  {
    hide Reflects, Carried, LineOf, ApplyLine, ApplyLines, Announces, PoolNotes, Next, NotesOf, SpentOf;
    LinesUnfold(h, m, events, slot);
    if events == [] {
      NoEvents();
      assert done + [] == done && spent + [] == spent;
    } else {
      var e, rest := events[0], events[1..];
      assert events == [e] + rest;
      NextSplits([e], rest, done, all);
      FiltersConcatenate([e], rest);
      SingleEvent(e);
      HeadIsNext(h, leaves, all, e, done);
      EventStep(h, leaves, m, e, slot, done, spent);
      var m1 := ApplyLine(h, m, LineOf(e), slot).0;
      LinesStep(h, leaves, all, m1, rest, slot, done + NotesOf([e]), spent + SpentOf([e]));
      assert done + NotesOf([e]) + NotesOf(rest) == done + (NotesOf([e]) + NotesOf(rest));
      assert spent + SpentOf([e]) + SpentOf(rest) == spent + (SpentOf([e]) + SpentOf(rest));
    }
  }

  lemma LinesUnfold(h: NodeHash, m: Mirror, events: seq<Event>, slot: nat)
    ensures ApplyLines(h, m, EventLines(events), slot)
            == if events == [] then (m, None)
               else var (m', error) := ApplyLine(h, m, LineOf(events[0]), slot);
                 if error.Some? then (m', error) else ApplyLines(h, m', EventLines(events[1..]), slot)
  {
    hide ApplyLine, LineOf;
    if events != [] {
      assert EventLines(events)[1..] == EventLines(events[1..]);
    }
  }

  lemma HeadIsNext(h: NodeHash, leaves: seq<Fr>, all: seq<Event>, e: Event, done: seq<Event>)
    requires PoolNotes(h, leaves, all) && Next([e], done, all)
    ensures e.NoteInserted? ==> Announces(h, leaves, |done|, e)
    ensures NonZero(leaves) && |leaves| <= CAPACITY
  {
    SingleEvent(e);
    if e.NoteInserted? {
      assert (done + [e])[|done|] == all[|done|];
    }
  }

  // ----- a chain history -----

  // A transaction as the chain keeps it, with what its programs did and the pool events among that.
  datatype Record = Record(info: SignatureInfo, tx: RawTransaction, activity: LogScope.Activity, events: seq<Event>)

  ghost predicate Faithful(r: Record, program: string) {
    if r.info.err || r.tx.err then r.events == []
    else
      && LogScope.Printed(r.activity) && r.tx.logMessages == LogScope.Flatten(r.activity)
      && LogScope.EmittedBy(r.activity, false, program) == EventLines(r.events)
  }

  function EventsOf(records: seq<Record>): seq<Event> {
    if records == [] then [] else records[0].events + EventsOf(records[1..])
  }

  function InfosOf(records: seq<Record>): (infos: seq<SignatureInfo>)
    ensures |infos| == |records|
  {
    seq(|records|, i requires 0 <= i < |records| => records[i].info)
  }

  // The history as fetched: every record faithful, and found under its own signature.
  ghost predicate Fetched(records: seq<Record>, program: string, chain: Chain) {
    forall r :: r in records ==> Faithful(r, program) && Lookup(chain, r.info.signature) == Some(r.tx) && AllCarried(r.events)
  }

  lemma {:induction false} NothingTruncated(a: LogScope.Activity)
    requires LogScope.Printed(a)
    ensures forall line :: line in LogScope.Flatten(a) ==> !(LogScope.TRUNCATED <= line)
    decreases a
  {
    hide LogScope.IsId, LogScope.IsDigit, LogScope.InvokedBy, LogScope.EndedBy;
    match a {
      case Done =>
      case Call(q, depth, body, outcome, next) =>
        StartsWithProgram(q + (LogScope.INVOKE + depth + "]"));
        StartsWithProgram(q + outcome);
        assert LogScope.InvokeLine(q, depth) == LogScope.PROGRAM + (q + (LogScope.INVOKE + depth + "]"));
        assert LogScope.EndLine(q, outcome) == LogScope.PROGRAM + (q + outcome);
        NothingTruncated(body);
        NothingTruncated(next);
      case Emit(text, next) =>
        StartsWithProgram("data: " + text);
        assert LogScope.DATA + text == LogScope.PROGRAM + ("data: " + text);
        NothingTruncated(next);
      case Print(_, next) => NothingTruncated(next);
    }
  }

  lemma StartsWithProgram(rest: string)
    ensures !(LogScope.TRUNCATED <= LogScope.PROGRAM + rest)
  {
    assert (LogScope.PROGRAM + rest)[0] == 'P';
  }

  lemma NothingMasked(events: seq<Event>)
    ensures forall line :: line in EventLines(events) ==> !LogScope.Masked(line)
  {
    hide LineOf, LogScope.Masked;
    forall e: Event ensures !LogScope.Masked(LineOf(e)) {
      LineReadsBack(e);
    }
  }

  lemma CursorIsQuiet(leaves: seq<Fr>, m: Mirror, info: SignatureInfo, done: seq<Event>, spent: seq<Fr>)
    requires Reflects(leaves, m, done, spent)
    ensures Reflects(leaves, WithCursor(m, info), done, spent)
  {
    QuietStep(leaves, m, WithCursor(m, info), done, spent);
  }

  // A recorded transaction is processed as its own events' lines.
  lemma RecordSignature(h: NodeHash, program: string, m: Mirror, r: Record)
    requires Faithful(r, program) && !r.info.err
    ensures Signature(h, program, m, r.info, Some(r.tx)) ==
      if r.tx.err then (WithCursor(m, r.info), None)
      else
        var (m', error) := ApplyLines(h, m, EventLines(r.events), r.info.slot);
        if error.Some? then (m', error) else (WithCursor(m', r.info), None)
  {
    hide ApplyLines, LogScope.Scan, LogScope.Flatten, LogScope.EmittedBy, LogScope.Masked, EventLines;
    if !r.tx.err {
      NothingTruncated(r.activity);
      var lines := r.tx.logMessages;
      forall i | 0 <= i < |lines| ensures !(LogScope.TRUNCATED <= lines[i]) {
        assert lines[i] in lines;
      }
      NothingMasked(r.events);
      LogScope.AttributionIsExact(r.activity, program);
      assert LogScope.Scan(r.tx.logMessages, [], program) == EventLines(r.events);
    }
  }

  lemma SignatureStep(h: NodeHash, program: string, leaves: seq<Fr>, all: seq<Event>, m: Mirror, r: Record,
                      done: seq<Event>, spent: seq<Fr>)
    requires PoolNotes(h, leaves, all) && Reflects(leaves, m, done, spent) && Next(r.events, done, all)
    requires Faithful(r, program) && AllCarried(r.events) && !r.info.err
    ensures var (m', error) := Signature(h, program, m, r.info, Some(r.tx));
      error.None? && Reflects(leaves, m', done + NotesOf(r.events), spent + SpentOf(r.events))
  {
    hide Reflects, ApplyLines, Signature, EventLines, PoolNotes, Next, AllCarried;
    RecordSignature(h, program, m, r);
    if r.tx.err {
      CursorIsQuiet(leaves, m, r.info, done, spent);
      assert done + [] == done && spent + [] == spent;
    } else {
      LinesStep(h, leaves, all, m, r.events, r.info.slot, done, spent);
      var m' := ApplyLines(h, m, EventLines(r.events), r.info.slot).0;
      CursorIsQuiet(leaves, m', r.info, done + NotesOf(r.events), spent + SpentOf(r.events));
    }
  }

  lemma {:induction false} BackfillReflects(h: NodeHash, program: string, leaves: seq<Fr>, all: seq<Event>, m: Mirror,
                                            records: seq<Record>, chain: Chain, done: seq<Event>, spent: seq<Fr>)
    requires PoolNotes(h, leaves, all) && Reflects(leaves, m, done, spent)
    requires Fetched(records, program, chain) && Next(EventsOf(records), done, all)
    ensures var (m', error) := Signatures(h, program, m, InfosOf(records), chain);
      error.None? && Reflects(leaves, m', done + NotesOf(EventsOf(records)), spent + SpentOf(EventsOf(records)))
    decreases |records|
  {
    hide Reflects, Signature, PoolNotes, Faithful, AllCarried, Next, NotesOf, SpentOf;
    if records == [] {
      NoEvents();
      assert done + [] == done && spent + [] == spent;
    } else {
      var r, rest := records[0], records[1..];
      assert InfosOf(records)[1..] == InfosOf(rest) && InfosOf(records)[0] == r.info;
      FiltersConcatenate(r.events, EventsOf(rest));
      NextSplits(r.events, EventsOf(rest), done, all);
      var m1 := if r.info.err then m else Signature(h, program, m, r.info, Some(r.tx)).0;
      if r.info.err {
        SkippedIsEmpty(r, program);
        NoEvents();
        assert done + [] == done && spent + [] == spent;
      } else {
        SignatureStep(h, program, leaves, all, m, r, done, spent);
      }
      BackfillReflects(h, program, leaves, all, m1, rest, chain, done + NotesOf(r.events), spent + SpentOf(r.events));
      assert done + NotesOf(r.events) + NotesOf(EventsOf(rest)) == done + (NotesOf(r.events) + NotesOf(EventsOf(rest)));
      assert spent + SpentOf(r.events) + SpentOf(EventsOf(rest)) == spent + (SpentOf(r.events) + SpentOf(EventsOf(rest)));
    }
  }

  lemma NoEvents()
    ensures NotesOf([]) == [] && SpentOf([]) == []
  {
  }

  lemma SkippedIsEmpty(r: Record, program: string)
    requires Faithful(r, program) && r.info.err
    ensures r.events == []
  {
  }

  // ----- the whole run -----

  // A tree of nonzero leaves within its capacity.
  ghost predicate WellGrown(leaves: seq<Fr>) {
    NonZero(leaves) && |leaves| <= CAPACITY
  }

  // What the mirror must say of the pool.
  ghost predicate Mirrors(h: NodeHash, m: Mirror, s: PoolSpec.State) {
    && m.leaves == s.leaves
    && (forall i: nat :: i in m.tables.notes <==> i < |s.leaves|)
    && (forall i: nat :: i < |s.leaves| ==> StoredNote(h, m.tables.notes[i], s.leaves, i))
    && (forall nullifier: Fr :: Fits32(nullifier) ==> (Word32(nullifier) in m.tables.nullifiers <==> nullifier in s.nullifiers))
    && !m.halted
  }

  // A note's row: its index, its leaf, and the root of the tree right after it.
  ghost predicate StoredNote(h: NodeHash, row: NoteRow, leaves: seq<Fr>, i: nat)
    requires i < |leaves|
  {
    row.leafIndex == i && row.leaf == Word32(leaves[i]) && row.root == Word32(Root(h, leaves[..i + 1]))
  }

  const FRESH: Mirror := Mirror([], NO_ROWS, false)

  lemma FreshReflectsNothing(leaves: seq<Fr>)
    ensures Reflects(leaves, FRESH, [], [])
  {
    var rows: seq<RootRow> := [];
    assert ReflectsRoots(map[], [], rows);
  }

  lemma SpentMirrored(m: Mirror, leaves: seq<Fr>, events: seq<Event>, spent: seq<Fr>, recorded: set<Fr>)
    requires Reflects(leaves, m, events, spent) && LogsSpent({}, recorded, spent) && forall n :: n in spent ==> Fits32(n)
    ensures forall n: Fr :: Fits32(n) ==> (Word32(n) in m.tables.nullifiers <==> n in recorded)
  {
    hide Word32, ReflectsNotes, ReflectsRoots, Fits32;
    forall n: Fr | Fits32(n) ensures Word32(n) in m.tables.nullifiers <==> n in recorded {
      if Word32(n) in m.tables.nullifiers {
        var j :| 0 <= j < |spent| && Word32(n) == Word32(spent[j]);
        WordsAreInjective(n, spent[j]);
      }
      if n in recorded {
        var j :| 0 <= j < |spent| && spent[j] == n;
      }
    }
  }

  lemma WordsAreInjective(a: nat, b: nat)
    requires Fits32(a) && Fits32(b) && Word32(a) == Word32(b)
    ensures a == b
  {
    BigEndianRoundTrip(a, 32);
    BigEndianRoundTrip(b, 32);
  }

  lemma {:induction false} SpentFits(events: seq<Event>)
    requires AllCarried(events)
    ensures forall n :: n in SpentOf(events) ==> Fits32(n)
  {
    hide Fits32;
    if events != [] {
      assert Carried(events[0]);
      assert AllCarried(events[1..]) by { forall e | e in events[1..] ensures Carried(e) { assert e in events; } }
      SpentFits(events[1..]);
      assert events == [events[0]] + events[1..];
      FiltersConcatenate([events[0]], events[1..]);
      SingleEvent(events[0]);
    }
  }

  // ----- back from the store to the tree -----

  lemma NotesInOrder(notes: map<nat, NoteRow>, n: nat, from: nat)
    requires (forall i: nat :: i in notes <==> i < n) && from <= n
    ensures var rows := NotesFrom(notes, from); from == n ==> rows == []
    ensures var rows := NotesFrom(notes, from); from < n ==> rows == [notes[from]] + NotesFrom(notes, from + 1)
  {
    var keys := set k | k in notes && k >= from;
    if from < n {
      assert from in keys;
    }
  }

  ghost predicate Canonical(leaf: Fr) { leaf < FIELD_MODULUS && Fits32(leaf) }

  lemma {:induction false} HydrateFrom(notes: map<nat, NoteRow>, leaves: seq<Fr>, from: nat)
    requires (forall i: nat :: i in notes <==> i < |leaves|) && WellGrown(leaves) && from <= |leaves|
    requires forall i: nat :: i < |leaves| ==> notes[i].leaf == Word32(leaves[i]) && Canonical(leaves[i])
    ensures Hydrate(leaves[..from], NotesFrom(notes, from)) == (leaves, None)
    decreases |leaves| - from
  {
    hide NotesFrom, Word32, FieldFromHex, Pow2;
    NotesInOrder(notes, |leaves|, from);
    if from == |leaves| {
      assert leaves[..from] == leaves;
    } else {
      Pow2Values();
      LeafReadsBack(leaves[from]);
      assert leaves[..from] + [leaves[from]] == leaves[..from + 1];
      assert NotesFrom(notes, from)[1..] == NotesFrom(notes, from + 1);
      HydrateFrom(notes, leaves, from + 1);
    }
  }

  // A restart: the tree rebuilt from a mirror's store is the pool's tree again.
  lemma HydrationRestoresTheTree(h: NodeHash, m: Mirror, s: PoolSpec.State)
    requires Mirrors(h, m, s) && WellGrown(s.leaves) && forall i: nat :: i < |s.leaves| ==> Canonical(s.leaves[i])
    ensures Hydrate([], NotesFrom(m.tables.notes, 0)) == (s.leaves, None)
  {
    hide NotesFrom, Word32, Canonical, WellGrown, Hydrate;
    forall i: nat | i < |s.leaves| ensures m.tables.notes[i].leaf == Word32(s.leaves[i]) {
      assert StoredNote(h, m.tables.notes[i], s.leaves, i);
    }
    HydrateFrom(m.tables.notes, s.leaves, 0);
    assert s.leaves[..0] == [];
  }

  // ----- the ring of roots, through its first lap -----

  lemma RootsMirrorTheRing(h: NodeHash, leaves: seq<Fr>, m: Mirror, events: seq<Event>, spent: seq<Fr>, slot: nat)
    requires Reflects(leaves, m, events, spent) && PoolNotes(h, leaves, events)
    requires |leaves| <= ROOT_RING + 1 && slot < ROOT_RING
    ensures slot in m.tables.roots <==> LatestPush(|leaves|, slot).Some?
    ensures slot in m.tables.roots ==> m.tables.roots[slot].root == Word32(SlotRoot(h, leaves, slot))
  {
    hide Root, Word32, ReflectsSpent, ReflectsNotes, LatestPush, PushAll;
    var rows :| ReflectsRoots(m.tables.roots, events, rows);
    MatchesInTheFirstLap(rows);
    var p := LatestPush(|leaves|, slot);
    if p.Some? {
      assert PushedFor(rows[p.value], events[p.value], p.value);
      assert Announces(h, leaves, p.value, events[p.value]);
    }
  }

  ghost predicate SameRing(h: NodeHash, roots: RootTable, leaves: seq<Fr>) {
    forall slot: nat :: slot < ROOT_RING ==>
      if slot in roots then LatestPush(|leaves|, slot).Some? && roots[slot].root == Word32(SlotRoot(h, leaves, slot))
      else LatestPush(|leaves|, slot).None?
  }

  lemma RingIsSame(h: NodeHash, leaves: seq<Fr>, m: Mirror, events: seq<Event>, spent: seq<Fr>)
    requires Reflects(leaves, m, events, spent) && PoolNotes(h, leaves, events) && |leaves| <= ROOT_RING + 1
    ensures SameRing(h, m.tables.roots, leaves)
  {
    hide Reflects, PoolNotes, LatestPush, Word32, SlotRoot;
    forall slot: nat | slot < ROOT_RING
      ensures if slot in m.tables.roots
              then LatestPush(|leaves|, slot).Some? && m.tables.roots[slot].root == Word32(SlotRoot(h, leaves, slot))
              else LatestPush(|leaves|, slot).None?
    {
      RootsMirrorTheRing(h, leaves, m, events, spent, slot);
    }
  }

  // What the table says of the on-chain ring is what its rows say.
  lemma RingIsChain(h: NodeHash, roots: RootTable, leaves: seq<Fr>, events: seq<Event>, rows: seq<RootRow>)
    requires PoolNotes(h, leaves, events) && ReflectsRoots(roots, events, rows)
    ensures SameRing(h, roots, leaves) <==> MatchesChain(roots, rows)
  {
    hide Root, Word32, PushAll, LatestPush;
    forall slot: nat | slot < ROOT_RING && LatestPush(|leaves|, slot).Some?
      ensures var p := LatestPush(|leaves|, slot).value; rows[p].root == Word32(SlotRoot(h, leaves, slot))
    {
      var p := LatestPush(|leaves|, slot).value;
      assert PushedFor(rows[p], events[p], p);
      assert Announces(h, leaves, p, events[p]);
    }
  }

  lemma RowsDiffer(h: NodeHash, leaves: seq<Fr>, events: seq<Event>, roots: RootTable, rows: seq<RootRow>)
    requires PoolNotes(h, leaves, events) && ReflectsRoots(roots, events, rows) && AllCarried(events)
    requires NeverZero(h) && NodeInjective(h) && forall j :: 0 <= j < |leaves| ==> Below(h, leaves[j], 0)
    ensures DistinctRoots(rows)
  {
    hide Root, Word32, PushAll, Below, NeverZero, NodeInjective, Fits32;
    forall i, j | 0 <= i < j < |rows| ensures rows[i].root != rows[j].root {
      assert PushedFor(rows[i], events[i], i) && PushedFor(rows[j], events[j], j);
      assert Announces(h, leaves, i, events[i]) && Announces(h, leaves, j, events[j]);
      assert Carried(events[i]) && Carried(events[j]);
      InclusionProof.RootsNeverRepeat(h, leaves, i + 1, j + 1);
      if rows[i].root == rows[j].root {
        WordsAreInjective(events[i].root, events[j].root);
      }
    }
  }

  lemma RingAgreesIff(h: NodeHash, leaves: seq<Fr>, m: Mirror, events: seq<Event>, spent: seq<Fr>)
    requires Reflects(leaves, m, events, spent) && PoolNotes(h, leaves, events) && AllCarried(events)
    requires NeverZero(h) && NodeInjective(h) && forall j :: 0 <= j < |leaves| ==> Below(h, leaves[j], 0)
    ensures SameRing(h, m.tables.roots, leaves) <==> |leaves| <= ROOT_RING + 1
  {
    hide ReflectsRoots, PoolNotes, AllCarried, SameRing, MatchesChain, Below, NeverZero, NodeInjective;
    var rows :| ReflectsRoots(m.tables.roots, events, rows);
    RowsAreThese(m.tables.roots, events, rows);
    PoolNotesSize(h, leaves, events);
    RowsDiffer(h, leaves, events, m.tables.roots, rows);
    MatchesExactlyOneLap(rows);
    RingIsChain(h, m.tables.roots, leaves, events, rows);
  }

  lemma RowsAreThese(roots: RootTable, events: seq<Event>, rows: seq<RootRow>)
    requires ReflectsRoots(roots, events, rows)
    ensures roots == PushAll(rows) && |rows| == |events|
  {
  }

  lemma PoolNotesSize(h: NodeHash, leaves: seq<Fr>, events: seq<Event>)
    requires PoolNotes(h, leaves, events)
    ensures |events| == |leaves|
  {
  }

  // ----- the main results -----

  lemma RunIsWellGrown(env: Env, txs: seq<PoolSpec.Tx>)
    ensures WellGrown(PoolSpec.Run(env, txs).0.leaves)
  {
    hide PoolSpec.Run;
    TreeGrowth.RunKeepsGrown(env, txs);
  }

  lemma {:induction false} CarriedTogether(records: seq<Record>, program: string, chain: Chain)
    requires Fetched(records, program, chain)
    ensures AllCarried(EventsOf(records))
  {
    hide Faithful, Carried;
    if records != [] {
      assert records[0] in records;
      assert forall r :: r in records[1..] ==> r in records;
      CarriedTogether(records[1..], program, chain);
    }
  }

  // Backfilling a fresh indexer with the complete history of a run: never an error, and every note and spent
  // nullifier of the log reflected.
  lemma HistoryReflects(env: Env, txs: seq<PoolSpec.Tx>, program: string, records: seq<Record>,
                        newestFirst: seq<SignatureInfo>, chain: Chain)
    requires Fetched(records, program, chain) && EventsOf(records) == PoolSpec.Run(env, txs).1
    requires newestFirst == Reversed(InfosOf(records))
    ensures var h, (s, log) := env.hashes.node, PoolSpec.Run(env, txs);
      var (m, error) := Signatures(h, program, FRESH, Reversed(newestFirst), chain);
      && error.None? && Reflects(s.leaves, m, NotesOf(log), SpentOf(log)) && AllCarried(log)
      && PoolNotes(h, s.leaves, NotesOf(log)) && LogsSpent({}, s.nullifiers, SpentOf(log)) && WellGrown(s.leaves)
  {
    hide Fetched, AllCarried, PoolSpec.Run, Signatures, Reflects, Logs, PoolNotes, NotesOf, SpentOf, LogsSpent, WellGrown;
    var h := env.hashes.node;
    var (s, log) := PoolSpec.Run(env, txs);
    TheLogTellsTheState(env, txs);
    RunIsWellGrown(env, txs);
    var events := NotesOf(log);
    LogGivesNotes(h, s, log);
    FreshReflectsNothing(s.leaves);
    assert [] + events == events && [] + SpentOf(log) == SpentOf(log);
    CarriedTogether(records, program, chain);
    BackfillReflects(h, program, s.leaves, events, FRESH, records, chain, [], []);
    assert Reversed(newestFirst) == InfosOf(records);
  }

  // It ends in a mirror of the pool: same leaves, hence same root and next index; a row for every note; the same
  // nullifiers. A tree hydrated from its store is the pool's again, and through the first lap its roots are the
  // pool's ring.
  lemma TheMirrorIsThePool(env: Env, txs: seq<PoolSpec.Tx>, program: string, records: seq<Record>,
                           newestFirst: seq<SignatureInfo>, chain: Chain)
    requires Fetched(records, program, chain) && EventsOf(records) == PoolSpec.Run(env, txs).1
    requires newestFirst == Reversed(InfosOf(records))
    ensures var h, s := env.hashes.node, PoolSpec.Run(env, txs).0;
      var (m, error) := Signatures(h, program, FRESH, Reversed(newestFirst), chain);
      && error.None? && Mirrors(h, m, s)
      && Hydrate([], NotesFrom(m.tables.notes, 0)) == (s.leaves, None)
      && (|s.leaves| <= ROOT_RING + 1 ==> SameRing(h, m.tables.roots, s.leaves))
  {
    hide Fetched, AllCarried, PoolSpec.Run, Signatures, Reflects, Word32, Fits32, PoolNotes, NotesOf, SpentOf, LogsSpent;
    hide StoredNote, WellGrown, Hydrate, NotesFrom, SameRing, Canonical, InfosOf, Reversed, EventsOf;
    var h := env.hashes.node;
    var (s, log) := PoolSpec.Run(env, txs);
    HistoryReflects(env, txs, program, records, newestFirst, chain);
    var m := Signatures(h, program, FRESH, Reversed(newestFirst), chain).0;
    SpentFits(log);
    SpentMirrored(m, s.leaves, NotesOf(log), SpentOf(log), s.nullifiers);
    ReflectionMirrors(h, m, s.leaves, NotesOf(log), SpentOf(log));
    LeavesAreCanonical(h, s.leaves, log);
    HydrationRestoresTheTree(h, m, s);
    if |s.leaves| <= ROOT_RING + 1 {
      RingIsSame(h, s.leaves, m, NotesOf(log), SpentOf(log));
    }
  }

  // Whatever the hash: the table of roots is the pool's ring exactly if each slot's root, held since the first lap
  // or pushed last, equals the root the ring has there.
  lemma TheRingAgreesIff(env: Env, txs: seq<PoolSpec.Tx>, program: string, records: seq<Record>,
                         newestFirst: seq<SignatureInfo>, chain: Chain)
    requires Fetched(records, program, chain) && EventsOf(records) == PoolSpec.Run(env, txs).1
    requires newestFirst == Reversed(InfosOf(records))
    ensures var h, s := env.hashes.node, PoolSpec.Run(env, txs).0;
      var m := Signatures(h, program, FRESH, Reversed(newestFirst), chain).0;
      SameRing(h, m.tables.roots, s.leaves) <==> SameHeldRoots(h, s.leaves)
  {
    hide Fetched, AllCarried, PoolSpec.Run, Signatures, PoolNotes, NotesOf, SpentOf, LogsSpent, WellGrown, SameRing,
         InfosOf, Reversed, EventsOf, ReflectsRoots, ReflectsNotes, ReflectsSpent, SameHeldRoots;
    var h := env.hashes.node;
    var (s, log) := PoolSpec.Run(env, txs);
    HistoryReflects(env, txs, program, records, newestFirst, chain);
    var m := Signatures(h, program, FRESH, Reversed(newestFirst), chain).0;
    var rows :| ReflectsRoots(m.tables.roots, NotesOf(log), rows);
    NotesAreCarried(log);
    RingIsChain(h, m.tables.roots, s.leaves, NotesOf(log), rows);
    ChainIsHeld(h, s.leaves, NotesOf(log), m.tables.roots, rows);
  }

  ghost predicate SameHeldRoots(h: NodeHash, leaves: seq<Fr>) {
    forall slot: nat :: slot < ROOT_RING && slot < |leaves| ==> SameAtSlot(h, leaves, slot)
  }

  ghost predicate SameAtSlot(h: NodeHash, leaves: seq<Fr>, slot: nat)
    requires slot < ROOT_RING && slot < |leaves|
  {
    Root(h, leaves[..HeldPush(|leaves|, slot).value + 1]) == Root(h, leaves[..LatestPush(|leaves|, slot).value + 1])
  }

  // A row holds the word of its prefix's root; words are equal exactly if the roots are.
  lemma RowsCompare(h: NodeHash, leaves: seq<Fr>, events: seq<Event>, roots: RootTable, rows: seq<RootRow>, i: nat,
                    j: nat)
    requires PoolNotes(h, leaves, events) && ReflectsRoots(roots, events, rows) && AllCarried(events)
    requires i < |rows| && j < |rows|
    ensures |rows| == |leaves|
    ensures rows[i].root == rows[j].root <==> Root(h, leaves[..i + 1]) == Root(h, leaves[..j + 1])
  {
    hide Root, Word32, PushAll, Fits32;
    assert PushedFor(rows[i], events[i], i) && PushedFor(rows[j], events[j], j);
    assert Announces(h, leaves, i, events[i]) && Announces(h, leaves, j, events[j]);
    assert Carried(events[i]) && Carried(events[j]);
    if rows[i].root == rows[j].root {
      WordsAreInjective(events[i].root, events[j].root);
    }
  }

  lemma ChainIsHeld(h: NodeHash, leaves: seq<Fr>, events: seq<Event>, roots: RootTable, rows: seq<RootRow>)
    requires PoolNotes(h, leaves, events) && ReflectsRoots(roots, events, rows) && AllCarried(events)
    ensures MatchesChain(roots, rows) <==> SameHeldRoots(h, leaves)
  {
    hide Root, PushAll, PoolNotes, AllCarried, HeldPush, LatestPush;
    PoolNotesSize(h, leaves, events);
    TableAfter(rows);
    forall slot: nat | slot < ROOT_RING
      ensures (match LatestPush(|rows|, slot)
               case None => slot !in roots
               case Some(p) => slot in roots && roots[slot].root == rows[p].root)
              <==> (slot < |leaves| ==> SameAtSlot(h, leaves, slot))
    {
      UsedSlots(|rows|, slot);
      if slot < |leaves| {
        var held, latest := HeldPush(|rows|, slot).value, LatestPush(|rows|, slot).value;
        assert slot in roots && held < |rows| && roots[slot] == rows[held];
        RowsCompare(h, leaves, events, roots, rows, held, latest);
      }
    }
  }

  // Under ideal hashing and on trusted runs, whose roots are all different, the table of roots is the pool's
  // ring through 257 leaves and never after.
  lemma TheRingLastsOneLap(env: Env, premine: Option<Note>, txs: seq<PoolSpec.Tx>, program: string,
                           records: seq<Record>, newestFirst: seq<SignatureInfo>, chain: Chain)
    requires Fetched(records, program, chain) && EventsOf(records) == PoolSpec.Run(env, txs).1
    requires newestFirst == Reversed(InfosOf(records))
    requires CollisionFree(env.hashes) && SolventRuns.AllTrusted(env, premine, txs)
    ensures var h, s := env.hashes.node, PoolSpec.Run(env, txs).0;
      var m := Signatures(h, program, FRESH, Reversed(newestFirst), chain).0;
      SameRing(h, m.tables.roots, s.leaves) <==> |s.leaves| <= ROOT_RING + 1
  {
    hide Fetched, AllCarried, PoolSpec.Run, Signatures, Reflects, PoolNotes, NotesOf, SpentOf, LogsSpent, WellGrown, SameRing,
         InfosOf, Reversed, EventsOf, Below, NodeInjective, NeverZero, SolventRuns.AllTrusted, Solvency.Covered;
    var h := env.hashes.node;
    var (s, log) := PoolSpec.Run(env, txs);
    HistoryReflects(env, txs, program, records, newestFirst, chain);
    var m := Signatures(h, program, FRESH, Reversed(newestFirst), chain).0;
    SolventRuns.EveryRunIsCovered(env, premine, txs);
    NotesAreCarried(log);
    RingAgreesIff(h, s.leaves, m, NotesOf(log), SpentOf(log));
  }

  lemma NotesAreCarried(log: seq<Event>)
    requires AllCarried(log)
    ensures AllCarried(NotesOf(log))
  {
    hide Carried, NotesOf;
    NotesAreLogged(log);
  }

  lemma LeavesAreCanonical(h: NodeHash, leaves: seq<Fr>, log: seq<Event>)
    requires PoolNotes(h, leaves, NotesOf(log)) && AllCarried(log)
    ensures forall i: nat :: i < |leaves| ==> Canonical(leaves[i])
  {
    hide NotesOf, Fits32, Root;
    NotesAreLogged(log);
    forall i: nat | i < |leaves| ensures Canonical(leaves[i]) {
      var e := NotesOf(log)[i];
      assert Announces(h, leaves, i, e) && e in NotesOf(log);
    }
  }

  lemma {:induction false} NotesAreLogged(log: seq<Event>)
    ensures forall e :: e in NotesOf(log) ==> e in log
  {
    if log != [] {
      NotesAreLogged(log[1..]);
    }
  }

  lemma LogGivesNotes(h: NodeHash, s: PoolSpec.State, log: seq<Event>)
    requires Logs(h, PoolSpec.EMPTY, s, log) && WellGrown(s.leaves)
    ensures PoolNotes(h, s.leaves, NotesOf(log)) && LogsSpent({}, s.nullifiers, SpentOf(log))
  {
    hide NotesOf, SpentOf, LogsSpent, Root;
  }

  lemma ReflectionMirrors(h: NodeHash, m: Mirror, leaves: seq<Fr>, events: seq<Event>, spent: seq<Fr>)
    requires Reflects(leaves, m, events, spent) && PoolNotes(h, leaves, events)
    ensures m.leaves == leaves && !m.halted
    ensures forall i: nat :: i in m.tables.notes <==> i < |leaves|
    ensures forall i: nat :: i < |leaves| ==> StoredNote(h, m.tables.notes[i], leaves, i)
  {
    hide Root, Word32, ReflectsSpent, ReflectsRoots;
    assert leaves[..|leaves|] == leaves;
    forall i: nat | i < |leaves| ensures StoredNote(h, m.tables.notes[i], leaves, i) {
      assert Announces(h, leaves, i, events[i]);
      assert RowFor(m.tables.notes[i], events[i], i);
    }
  }
}
