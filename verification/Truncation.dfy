/** A truncated log stops the indexer before it touches anything: the mirror stays what the records before it made
    of it, with the halt latched. */
module Truncation {
  import opened Hashing
  import opened LeanImt
  import opened Outcomes
  import opened PoolAccount
  import opened Circuits
  import PoolSpec
  import LogScope
  import opened EventDecoder
  import opened Ingest
  import opened Mirroring

  // Some line, wherever it stands, is the runtime's notice that it cut the log.
  ghost predicate CutShort(tx: RawTransaction) {
    !tx.err && exists i :: 0 <= i < |tx.logMessages| && "Log truncated" <= tx.logMessages[i]
  }

  lemma EventKeeps(h: NodeHash, m: Mirror, e: PoolEvent, slot: nat)
    ensures var (m', error) := Apply(h, m, e, slot);
      m'.halted == m.halted && m'.tables.cursor == m.tables.cursor && error != Some(LogTruncated)
  {
    hide Root, Pow2, Word32, FromBigEndian;
  }

  lemma LineKeeps(h: NodeHash, m: Mirror, line: string, slot: nat)
    ensures var (m', error) := ApplyLine(h, m, line, slot);
      m'.halted == m.halted && m'.tables.cursor == m.tables.cursor && error != Some(LogTruncated)
  {
    hide Apply, DecodeDataLine, ToDomainEvent;
    var decoded := DecodeDataLine(POOL_IDL, line);
    if decoded.Some? && decoded.value.Ok? {
      var event := ToDomainEvent(decoded.value.value.0, decoded.value.value.1);
      if event.Ok? {
        EventKeeps(h, m, event.value, slot);
      }
    }
  }

  lemma {:induction false} LinesKeep(h: NodeHash, m: Mirror, lines: seq<string>, slot: nat)
    ensures var (m', error) := ApplyLines(h, m, lines, slot);
      m'.halted == m.halted && m'.tables.cursor == m.tables.cursor && error != Some(LogTruncated)
    decreases |lines|
  {
    hide ApplyLine;
    if lines != [] {
      LineKeeps(h, m, lines[0], slot);
      LinesKeep(h, ApplyLine(h, m, lines[0], slot).0, lines[1..], slot);
    }
  }

  // A transaction halts the indexer exactly when its log was cut, and then changes nothing else. Any other one
  // that goes through moves the cursor to it.
  lemma HaltsIffCutShort(h: NodeHash, program: string, m: Mirror, info: SignatureInfo, tx: Option<RawTransaction>)
    ensures var r := Signature(h, program, m, info, tx);
      if tx.Some? && CutShort(tx.value) then r == (m.(halted := true), Some(LogTruncated))
      else r.1 != Some(LogTruncated) && r.0.halted == m.halted
           && r.0.tables.cursor == if r.1.None? then CursorState(Some(info.signature), info.slot) else m.tables.cursor
  {
    hide ApplyLines, LogScope.Scan;
    if tx.Some? && !tx.value.err {
      LinesKeep(h, m, LogScope.Scan(tx.value.logMessages, [], program), info.slot);
    }
  }

  // ----- over a backfill -----

  lemma {:induction false} BackfillsCompose(h: NodeHash, program: string, m: Mirror, a: seq<SignatureInfo>,
                                            b: seq<SignatureInfo>, chain: Chain)
    ensures var (m', error) := Signatures(h, program, m, a, chain);
      Signatures(h, program, m, a + b, chain) == if error.Some? then (m', error) else Signatures(h, program, m', b, chain)
    decreases |a|
  {
    hide Signature;
    if a == [] {
      assert a + b == b;
    } else {
      assert (a + b)[1..] == a[1..] + b && (a + b)[0] == a[0];
      var m' := if a[0].err then m else Signature(h, program, m, a[0], Lookup(chain, a[0].signature)).0;
      BackfillsCompose(h, program, m', a[1..], b, chain);
    }
  }

  lemma OneSignature(h: NodeHash, program: string, m: Mirror, info: SignatureInfo, rest: seq<SignatureInfo>, chain: Chain)
    requires !info.err && Signature(h, program, m, info, Lookup(chain, info.signature)).1.Some?
    ensures Signatures(h, program, m, [info] + rest, chain) == Signature(h, program, m, info, Lookup(chain, info.signature))
  {
    hide Signature;
  }

  // The newest signature that was processed, if any was.
  function NewestIn(infos: seq<SignatureInfo>, start: CursorState): CursorState {
    if infos == [] then start
    else
      var last := infos[|infos| - 1];
      if last.err then NewestIn(infos[..|infos| - 1], start) else CursorState(Some(last.signature), last.slot)
  }

  lemma {:induction false} CursorFollows(h: NodeHash, program: string, m: Mirror, infos: seq<SignatureInfo>, chain: Chain)
    requires Signatures(h, program, m, infos, chain).1.None?
    ensures Signatures(h, program, m, infos, chain).0.tables.cursor == NewestIn(infos, m.tables.cursor)
  {
    hide Signature;
    if infos != [] {
      var n := |infos| - 1;
      var last := infos[n];
      BackfillsCompose(h, program, m, infos[..n], [last], chain);
      assert infos == infos[..n] + [last];
      CursorFollows(h, program, m, infos[..n], chain);
      if !last.err {
        var m' := Signatures(h, program, m, infos[..n], chain).0;
        HaltsIffCutShort(h, program, m', last, Lookup(chain, last.signature));
        assert Signatures(h, program, m', [last], chain).0 == Signature(h, program, m', last, Lookup(chain, last.signature)).0;
      }
    }
  }

  // Backfilling a history with a truncated log in it: the indexer ends halted, its mirror is the pool's as it was
  // before that transaction, and its cursor is still where the transactions before it left it, whatever came later.
  lemma TruncationStopsTheMirror(env: Env, txs: seq<PoolSpec.Tx>, program: string, before: seq<Record>, cut: SignatureInfo,
                                 later: seq<SignatureInfo>, newestFirst: seq<SignatureInfo>, chain: Chain)
    requires Fetched(before, program, chain) && EventsOf(before) == PoolSpec.Run(env, txs).1
    requires !cut.err && cut.signature in chain && CutShort(chain[cut.signature])
    requires newestFirst == Reversed(InfosOf(before) + [cut] + later)
    ensures var h := env.hashes.node;
      var (m, error) := Signatures(h, program, FRESH, Reversed(newestFirst), chain);
      && error == Some(LogTruncated) && m.halted && Mirrors(h, m.(halted := false), PoolSpec.Run(env, txs).0)
      && m.tables.cursor == NewestIn(InfosOf(before), CursorState(None, 0))
  {
    hide Fetched, EventsOf, PoolSpec.Run, Signatures, Signature, Mirrors, InfosOf, NewestIn, CutShort, Hydrate, NotesFrom, SameRing;
    var h, infos := env.hashes.node, InfosOf(before);
    TheMirrorIsThePool(env, txs, program, before, Reversed(infos), chain);
    assert Reversed(Reversed(infos)) == infos;
    var m := Signatures(h, program, FRESH, infos, chain).0;
    assert infos + [cut] + later == infos + ([cut] + later);
    BackfillsCompose(h, program, FRESH, infos, [cut] + later, chain);
    HaltsIffCutShort(h, program, m, cut, Lookup(chain, cut.signature));
    OneSignature(h, program, m, cut, later, chain);
    CursorFollows(h, program, FRESH, infos, chain);
    assert Reversed(newestFirst) == infos + [cut] + later;
    MirrorsUnhalted(h, m, PoolSpec.Run(env, txs).0);
    assert m.(halted := true).(halted := false) == m;
  }

  lemma MirrorsUnhalted(h: NodeHash, m: Mirror, s: PoolSpec.State)
    requires Mirrors(h, m, s)
    ensures !m.halted
  {
  }
}
