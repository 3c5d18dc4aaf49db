/** The compliance keys: the pool's log numbers every rotation, and the indexer ends with each version's key. */
module KeyHistory {
  import opened Hashing
  import opened LeanImt
  import opened Outcomes
  import opened Circuits
  import opened PoolSpec
  import opened Acceptance
  import PoolRules
  import opened EventDecoder
  import opened Ingest
  import opened Mirroring
  import opened EventLog
  import Truncation

  // ----- in the pool's log -----

  function RotationsOf(log: seq<PoolSpec.Event>): (rotations: seq<PoolSpec.Event>)
    ensures forall e :: e in rotations ==> e.ComplianceKeyRotated?
  {
    if log == [] then [] else (if log[0].ComplianceKeyRotated? then [log[0]] else []) + RotationsOf(log[1..])
  }

  lemma {:induction false} RotationsConcatenate(a: seq<PoolSpec.Event>, b: seq<PoolSpec.Event>)
    ensures RotationsOf(a + b) == RotationsOf(a) + RotationsOf(b)
  {
    if a == [] {
      assert a + b == b;
    } else {
      assert (a + b)[1..] == a[1..] + b;
      RotationsConcatenate(a[1..], b);
    }
  }

  lemma {:induction false} NoRotations(log: seq<PoolSpec.Event>)
    requires forall i :: 0 <= i < |log| ==> !log[i].ComplianceKeyRotated?
    ensures RotationsOf(log) == []
  {
    if log != [] {
      NoRotations(log[1..]);
    }
  }

  // The i-th rotation leads from version i to version i + 1.
  ghost predicate Numbered(rotations: seq<PoolSpec.Event>) {
    forall i :: 0 <= i < |rotations| ==> RotatesFrom(rotations[i], i)
  }

  ghost predicate RotatesFrom(e: PoolSpec.Event, version: nat) {
    e.ComplianceKeyRotated? && e.oldVersion == version && e.newVersion == version + 1
  }

  // One rotation for every version, the last one to the key in force.
  ghost predicate LogsKeys(s: State, rotations: seq<PoolSpec.Event>) {
    && Numbered(rotations) && |rotations| == s.complianceVersion && (!s.initialized ==> rotations == [])
    && (rotations != [] ==>
          rotations[|rotations| - 1].x == s.compliancePkX && rotations[|rotations| - 1].y == s.compliancePkY)
  }

  lemma StepLogsKeys(env: Env, s: State, tx: Tx, rotations: seq<PoolSpec.Event>)
    requires LogsKeys(s, rotations)
    ensures var (s', events) := Process(env, s, tx); LogsKeys(s', rotations + RotationsOf(events))
  {
    hide Execute, Checks, FirstFailure, NewLeaves, NewNullifiers, Root, RotationsOf;
    Decided(env, s, tx);
    PoolRules.SettingsAcceptedIff(env, s, tx);
    var events := Process(env, s, tx).1;
    if tx.RotateComplianceKey? && events != [] {
      OneRotation(events[0]);
    } else {
      NoRotations(events);
      assert rotations + [] == rotations;
    }
  }

  lemma OneRotation(e: PoolSpec.Event)
    requires e.ComplianceKeyRotated?
    ensures RotationsOf([e]) == [e]
  {
    assert [e][1..] == [];
  }

  // Over any run, the log has one rotation for every version after the first, in order.
  lemma {:induction false} TheLogTellsTheKeys(env: Env, txs: seq<Tx>)
    ensures var (s, log) := Run(env, txs); LogsKeys(s, RotationsOf(log))
  {
    hide Process, LogsKeys, RotationsOf;
    if txs == [] {
      NothingRotated();
    } else {
      var before := txs[..|txs| - 1];
      var (s, log) := Run(env, before);
      TheLogTellsTheKeys(env, before);
      StepLogsKeys(env, s, txs[|txs| - 1], RotationsOf(log));
      RotationsConcatenate(log, Process(env, s, txs[|txs| - 1]).1);
    }
  }

  lemma NothingRotated()
    ensures LogsKeys(EMPTY, RotationsOf([]))
  {
  }

  // ----- in the mirror -----

  ghost predicate ReflectsKeys(keys: map<nat, KeyRow>, rotations: seq<PoolSpec.Event>) {
    && (forall version: nat :: version in keys <==> 1 <= version <= |rotations|)
    && (forall version: nat :: version in keys ==> KeyOf(keys[version], rotations[version - 1]))
  }

  ghost predicate KeyOf(row: KeyRow, e: PoolSpec.Event) {
    e.ComplianceKeyRotated? && row.x == Word32(e.x) && row.y == Word32(e.y)
  }

  lemma NoteKeepsKeys(h: NodeHash, m: Mirror, e: PoolEvent, slot: nat)
    requires !e.KeyRotated?
    ensures Apply(h, m, e, slot).0.tables.complianceKeys == m.tables.complianceKeys
  {
    hide Root, Pow2, Word32, FromBigEndian;
  }

  lemma EventKeepsKeys(h: NodeHash, m: Mirror, e: PoolSpec.Event, slot: nat, rotations: seq<PoolSpec.Event>)
    requires Carried(e) && ReflectsKeys(m.tables.complianceKeys, rotations) && Numbered(rotations + RotationsOf([e]))
    ensures ReflectsKeys(ApplyLine(h, m, LineOf(e), slot).0.tables.complianceKeys, rotations + RotationsOf([e]))
  {
    hide Carried, Tokens, TokensIn, TextOf, DecodeLine, ToDomainEvent, ApplyNote, Word32, RotationsOf, Apply;
    LineRoundTrip(e);
    LineReadsBack(e);
    if e.ComplianceKeyRotated? {
      OneRotation(e);
      assert (rotations + [e])[|rotations|] == e;
      assert RotatesFrom(e, |rotations|);
      KeyIsStored(h, m, DomainOf(e), slot);
    } else {
      NoRotations([e]);
      assert rotations + [] == rotations;
      NoteKeepsKeys(h, m, DomainOf(e), slot);
    }
  }

  lemma KeyIsStored(h: NodeHash, m: Mirror, e: PoolEvent, slot: nat)
    requires e.KeyRotated?
    ensures Apply(h, m, e, slot).0.tables.complianceKeys == m.tables.complianceKeys[e.newVersion := KeyRow(e.x, e.y, slot)]
  {
  }

  lemma NumberedPrefix(a: seq<PoolSpec.Event>, b: seq<PoolSpec.Event>)
    requires Numbered(a + b)
    ensures Numbered(a)
  {
    assert forall i :: 0 <= i < |a| ==> a[i] == (a + b)[i];
  }

  lemma {:induction false} LinesKeepKeys(h: NodeHash, m: Mirror, events: seq<PoolSpec.Event>, slot: nat,
                                         rotations: seq<PoolSpec.Event>)
    requires AllCarried(events) && ReflectsKeys(m.tables.complianceKeys, rotations)
    requires Numbered(rotations + RotationsOf(events)) && ApplyLines(h, m, EventLines(events), slot).1.None?
    ensures ReflectsKeys(ApplyLines(h, m, EventLines(events), slot).0.tables.complianceKeys, rotations + RotationsOf(events))
    decreases |events|
  {
    hide ApplyLine, ApplyLines, LineOf, ReflectsKeys, RotationsOf, Carried, Numbered, EventLines;
    LinesUnfold(h, m, events, slot);
    if events == [] {
      NoRotations(events);
      assert rotations + [] == rotations;
    } else {
      var e, rest := events[0], events[1..];
      assert events == [e] + rest;
      RotationsConcatenate([e], rest);
      assert rotations + RotationsOf([e]) + RotationsOf(rest) == rotations + RotationsOf(events);
      NumberedPrefix(rotations + RotationsOf([e]), RotationsOf(rest));
      EventKeepsKeys(h, m, e, slot, rotations);
      LinesKeepKeys(h, ApplyLine(h, m, LineOf(e), slot).0, rest, slot, rotations + RotationsOf([e]));
    }
  }

  lemma RecordKeepsKeys(h: NodeHash, program: string, m: Mirror, r: Record, rotations: seq<PoolSpec.Event>)
    requires Faithful(r, program) && AllCarried(r.events) && !r.info.err
    requires ReflectsKeys(m.tables.complianceKeys, rotations) && Numbered(rotations + RotationsOf(r.events))
    requires Signature(h, program, m, r.info, Some(r.tx)).1.None?
    ensures ReflectsKeys(Signature(h, program, m, r.info, Some(r.tx)).0.tables.complianceKeys, rotations + RotationsOf(r.events))
  {
    hide Signature, ApplyLines, EventLines, ReflectsKeys, RotationsOf, AllCarried, Numbered;
    RecordSignature(h, program, m, r);
    if r.tx.err {
      NoRotations(r.events);
      assert rotations + [] == rotations;
    } else {
      LinesKeepKeys(h, m, r.events, r.info.slot, rotations);
    }
  }

  lemma {:induction false} BackfillKeepsKeys(h: NodeHash, program: string, m: Mirror, records: seq<Record>, chain: Chain,
                                             rotations: seq<PoolSpec.Event>)
    requires Fetched(records, program, chain) && ReflectsKeys(m.tables.complianceKeys, rotations)
    requires Numbered(rotations + RotationsOf(EventsOf(records)))
    requires Signatures(h, program, m, InfosOf(records), chain).1.None?
    ensures ReflectsKeys(Signatures(h, program, m, InfosOf(records), chain).0.tables.complianceKeys,
                         rotations + RotationsOf(EventsOf(records)))
    decreases |records|
  {
    hide Signature, ReflectsKeys, RotationsOf, Faithful, AllCarried, Numbered;
    if records == [] {
      NoRotations([]);
      assert rotations + [] == rotations;
    } else {
      var r, rest := records[0], records[1..];
      assert InfosOf(records)[1..] == InfosOf(rest) && InfosOf(records)[0] == r.info;
      RotationsConcatenate(r.events, EventsOf(rest));
      assert rotations + RotationsOf(r.events) + RotationsOf(EventsOf(rest)) == rotations + RotationsOf(EventsOf(records));
      NumberedPrefix(rotations + RotationsOf(r.events), RotationsOf(EventsOf(rest)));
      if r.info.err {
        SkippedIsEmpty(r, program);
        NoRotations([]);
        assert rotations + [] == rotations;
        BackfillKeepsKeys(h, program, m, rest, chain, rotations + RotationsOf(r.events));
      } else {
        RecordKeepsKeys(h, program, m, r, rotations);
        var m' := Signature(h, program, m, r.info, Some(r.tx)).0;
        BackfillKeepsKeys(h, program, m', rest, chain, rotations + RotationsOf(r.events));
      }
    }
  }

  // What a backfill of a run's complete history leaves: the key of every version after the first, the latest being
  // the pool's own, and the cursor at the newest transaction that was processed.
  lemma KeysAndCursorFollow(env: Env, txs: seq<Tx>, program: string, records: seq<Record>,
                            newestFirst: seq<SignatureInfo>, chain: Chain)
    requires Fetched(records, program, chain) && EventsOf(records) == Run(env, txs).1
    requires newestFirst == Reversed(InfosOf(records))
    ensures var h, (s, log) := env.hashes.node, Run(env, txs);
      var t := Signatures(h, program, FRESH, Reversed(newestFirst), chain).0.tables;
      && ReflectsKeys(t.complianceKeys, RotationsOf(log))
      && (forall version: nat :: version in t.complianceKeys <==> 1 <= version <= s.complianceVersion)
      && (s.complianceVersion > 0 ==>
            var latest := t.complianceKeys[s.complianceVersion];
            latest.x == Word32(s.compliancePkX) && latest.y == Word32(s.compliancePkY))
      && t.cursor == Truncation.NewestIn(InfosOf(records), CursorState(None, 0))
  {
    hide Fetched, AllCarried, Run, Signatures, Reflects, Word32, RotationsOf, EventsOf, InfosOf, ReflectsKeys, LogsKeys, PoolNotes,
         NotesOf, SpentOf, LogsSpent, WellGrown, Truncation.NewestIn, Reversed;
    var h, infos := env.hashes.node, InfosOf(records);
    var (s, log) := Run(env, txs);
    HistoryReflects(env, txs, program, records, newestFirst, chain);
    ReversedTwice(infos);
    var t := Signatures(h, program, FRESH, infos, chain).0.tables;
    TheLogTellsTheKeys(env, txs);
    LogIsNumbered(s, RotationsOf(log));
    NoKeysYet(RotationsOf(log));
    BackfillKeepsKeys(h, program, FRESH, records, chain, []);
    LatestKey(t.complianceKeys, s, RotationsOf(log));
    Truncation.CursorFollows(h, program, FRESH, infos, chain);
  }

  lemma ReversedTwice(infos: seq<SignatureInfo>)
    ensures Reversed(Reversed(infos)) == infos
  {
  }

  lemma LogIsNumbered(s: State, rotations: seq<PoolSpec.Event>)
    requires LogsKeys(s, rotations)
    ensures Numbered(rotations)
  {
  }

  lemma NoKeysYet(rotations: seq<PoolSpec.Event>)
    ensures ReflectsKeys(FRESH.tables.complianceKeys, []) && [] + rotations == rotations
  {
  }

  lemma LatestKey(keys: map<nat, KeyRow>, s: State, rotations: seq<PoolSpec.Event>)
    requires ReflectsKeys(keys, rotations) && LogsKeys(s, rotations)
    ensures forall version: nat :: version in keys <==> 1 <= version <= s.complianceVersion
    ensures s.complianceVersion > 0 ==> keys[s.complianceVersion].x == Word32(s.compliancePkX)
                                        && keys[s.complianceVersion].y == Word32(s.compliancePkY)
  {
    hide Word32;
  }
}
