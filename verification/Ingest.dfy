/** The indexer: from transactions' logs to a mirror of the pool's tree, notes and nullifiers, and from its
    store back to the tree. */
module Ingest {
  import opened Hashing
  import opened LeanImt
  import opened Outcomes
  import opened FullTrees
  import opened JsBits
  import Borsh
  import opened EventDecoder
  import opened IndexerRing
  import LogScope
  import opened KeyOrder

  // ----- the store -----

  datatype NoteRow = NoteRow(leafIndex: nat, leaf: seq<byte>, ephPubX: seq<byte>, tag: Option<seq<byte>>,
                             cekWrap: Option<seq<byte>>, ciphertext: seq<seq<byte>>, root: seq<byte>, slot: nat)
  datatype KeyRow = KeyRow(x: seq<byte>, y: seq<byte>, fromSlot: nat)
  datatype CursorState = CursorState(lastSignature: Option<string>, lastSlot: nat)

  datatype Tables = Tables(notes: map<nat, NoteRow>, nullifiers: map<seq<byte>, nat>, roots: RootTable,
                           complianceKeys: map<nat, KeyRow>, cursor: CursorState)

  const NO_ROWS: Tables := Tables(map[], map[], map[], map[], CursorState(None, 0))

  // `WHERE leaf_index >= from ORDER BY leaf_index ASC`
  function NotesFrom(notes: map<nat, NoteRow>, from: nat): seq<NoteRow>
    decreases |set k | k in notes && k >= from|
  {
    var keys := set k | k in notes && k >= from;
    if keys == {} then []
    else
      var k := Least(keys);
      assert (set j | j in notes && j >= k + 1) == keys - {k};
      [notes[k]] + NotesFrom(notes, k + 1)
  }

  class IndexerStore {
    var tables: Tables

    constructor ()
      ensures tables == NO_ROWS
    {
      tables := NO_ROWS;
    }

    method InsertNote(row: NoteRow)
      modifies this
      ensures tables == old(tables).(notes := old(tables).notes[row.leafIndex := row])
    {
      tables := tables.(notes := tables.notes[row.leafIndex := row]);
    }

    method InsertNullifier(nullifier: seq<byte>, slot: nat)
      modifies this
      ensures tables == old(tables).(nullifiers := old(tables).nullifiers[nullifier := slot])
    {
      tables := tables.(nullifiers := tables.nullifiers[nullifier := slot]);
    }

    method PushRoot(root: seq<byte>, nextLeafIndex: nat, slot: nat)
      modifies this
      ensures tables == old(tables).(roots := IndexerRing.PushRoot(old(tables).roots, RootRow(root, nextLeafIndex, slot)))
    {
      var nextCursor := if |tables.roots| == 0 then 0 else (Greatest(tables.roots.Keys) + 1) % 256;
      tables := tables.(roots := tables.roots[nextCursor := RootRow(root, nextLeafIndex, slot)]);
    }

    method InsertComplianceKey(version: nat, row: KeyRow)
      modifies this
      ensures tables == old(tables).(complianceKeys := old(tables).complianceKeys[version := row])
    {
      tables := tables.(complianceKeys := tables.complianceKeys[version := row]);
    }

    method SetCursor(state: CursorState)
      modifies this
      ensures tables == old(tables).(cursor := state)
    {
      tables := tables.(cursor := state);
    }
  }

  // ----- what ingestion computes -----

  datatype IngestError = LogTruncated | NotCanonical | TreeRefused(tree: TreeError) | Malformed(decode: Borsh.DecodeError)

  // The in-memory tree's leaves, the tables, and the halt latch.
  datatype Mirror = Mirror(leaves: seq<Fr>, tables: Tables, halted: bool)

  type Ingested = (Mirror, Option<IngestError>)

  function FieldFromHex(b: seq<byte>): Result<Fr, IngestError> {
    if FromBigEndian(b) >= FIELD_MODULUS then Err(NotCanonical) else Ok(FromBigEndian(b))
  }

  function ApplyNote(h: NodeHash, m: Mirror, e: PoolEvent, slot: nat): Ingested
    requires e.NoteInserted?
  {
    match FieldFromHex(e.leaf)
    case Err(error) => (m, Some(error))
    case Ok(leaf) =>
      if leaf == 0 then (m, Some(TreeRefused(ZeroLeaf)))
      else if |m.leaves| >= Pow2(TREE_DEPTH) then (m, Some(TreeRefused(TreeFull)))
      else
        var grown := m.(leaves := m.leaves + [leaf]);
        var root := Root(h, grown.leaves);
        if root >= FIELD_MODULUS then (grown, Some(NotCanonical))
        else
          var row := NoteRow(e.leafIndex, e.leaf, e.ephPubX, e.tag, e.cekWrap, e.ciphertext, Word32(root), slot);
          var ring := IndexerRing.PushRoot(m.tables.roots, RootRow(Word32(root), |grown.leaves|, slot));
          (grown.(tables := m.tables.(notes := m.tables.notes[row.leafIndex := row], roots := ring)), None)
  }

  function Apply(h: NodeHash, m: Mirror, e: PoolEvent, slot: nat): Ingested {
    match e
    case NoteInserted(_, _, _, _, _, _, _) => ApplyNote(h, m, e, slot)
    case NullifierSpent(nullifier) =>
      (m.(tables := m.tables.(nullifiers := m.tables.nullifiers[nullifier := slot])), None)
    case KeyRotated(_, newVersion, x, y) =>
      (m.(tables := m.tables.(complianceKeys := m.tables.complianceKeys[newVersion := KeyRow(x, y, slot)])), None)
  }

  // One data line: undecodable ones are skipped, an unmappable event stops the transaction.
  function ApplyLine(h: NodeHash, m: Mirror, line: string, slot: nat): Ingested {
    match DecodeDataLine(POOL_IDL, line)
    case None => (m, None)
    case Some(Err(_)) => (m, None)
    case Some(Ok((name, fields))) =>
      match ToDomainEvent(name, fields)
      case Err(e) => (m, Some(Malformed(e)))
      case Ok(event) => Apply(h, m, event, slot)
  }

  function ApplyLines(h: NodeHash, m: Mirror, lines: seq<string>, slot: nat): Ingested
    decreases |lines|
  {
    if lines == [] then (m, None)
    else
      var (m', error) := ApplyLine(h, m, lines[0], slot);
      if error.Some? then (m', error) else ApplyLines(h, m', lines[1..], slot)
  }

  datatype RawTransaction = RawTransaction(err: bool, logMessages: seq<string>)
  datatype SignatureInfo = SignatureInfo(signature: string, slot: nat, err: bool)

  type Chain = map<string, RawTransaction>

  function WithCursor(m: Mirror, info: SignatureInfo): Mirror {
    m.(tables := m.tables.(cursor := CursorState(Some(info.signature), info.slot)))
  }

  function WereTruncated(lines: seq<string>): bool {
    exists i :: 0 <= i < |lines| && LogScope.TRUNCATED <= lines[i]
  }

  function Signature(h: NodeHash, program: string, m: Mirror, info: SignatureInfo,
                     tx: Option<RawTransaction>): Ingested {
    if tx.None? || tx.value.err then (WithCursor(m, info), None)
    else if WereTruncated(tx.value.logMessages) then (m.(halted := true), Some(LogTruncated))
    else
      var (m', error) := ApplyLines(h, m, LogScope.Scan(tx.value.logMessages, [], program), slot := info.slot);
      if error.Some? then (m', error) else (WithCursor(m', info), None)
  }

  function Lookup(chain: Chain, signature: string): Option<RawTransaction> {
    if signature in chain then Some(chain[signature]) else None
  }

  // Signatures in chronological order; the first error stops the backfill.
  function Signatures(h: NodeHash, program: string, m: Mirror, infos: seq<SignatureInfo>, chain: Chain): Ingested
    decreases |infos|
  {
    if infos == [] then (m, None)
    else if infos[0].err then Signatures(h, program, m, infos[1..], chain)
    else
      var (m', error) := Signature(h, program, m, infos[0], Lookup(chain, infos[0].signature));
      if error.Some? then (m', error) else Signatures(h, program, m', infos[1..], chain)
  }

  function Reversed<T>(s: seq<T>): (r: seq<T>)
    ensures |r| == |s| && forall i :: 0 <= i < |s| ==> r[i] == s[|s| - 1 - i]
  {
    seq(|s|, i requires 0 <= i < |s| => s[|s| - 1 - i])
  }

  // Inserting every stored note's leaf into a tree, lowest index first.
  function Hydrate(leaves: seq<Fr>, rows: seq<NoteRow>): (seq<Fr>, Option<IngestError>)
    decreases |rows|
  {
    if rows == [] then (leaves, None)
    else
      match FieldFromHex(rows[0].leaf)
      case Err(e) => (leaves, Some(e))
      case Ok(leaf) =>
        if leaf == 0 then (leaves, Some(TreeRefused(ZeroLeaf)))
        else if |leaves| >= Pow2(TREE_DEPTH) then (leaves, Some(TreeRefused(TreeFull)))
        else Hydrate(leaves + [leaf], rows[1..])
  }

  // ----- the ingestor -----

  class Ingestor {
    const h: NodeHash
    const programId: string
    const tree: IndexerTree
    const store: IndexerStore
    var halted: bool

    ghost predicate Valid()
      reads this, tree
    {
      tree.Valid() && tree.h == h && tree.depth == TREE_DEPTH
    }

    ghost function View(): Mirror
      requires Valid()
      reads this, tree, store
    {
      Mirror(tree.Leaves(), store.tables, halted)
    }

    constructor (h: NodeHash, programId: string, tree: IndexerTree, store: IndexerStore)
      requires tree.Valid() && tree.h == h && tree.depth == TREE_DEPTH
      ensures Valid() && View() == Mirror(tree.Leaves(), store.tables, false)
      ensures this.h == h && this.programId == programId && this.tree == tree && this.store == store
    {
      this.h, this.programId, this.tree, this.store, halted := h, programId, tree, store, false;
    }

    method InsertLeaf(b: seq<byte>) returns (r: Result<Fr, IngestError>)
      requires Valid()
      modifies tree
      ensures Valid()
      ensures var leaf := FieldFromHex(b); var was := old(tree.Leaves());
        if leaf.Ok? && leaf.value != 0 && |was| < Pow2(TREE_DEPTH)
        then tree.Leaves() == was + [leaf.value] && r == Ok(Root(h, tree.Leaves()))
        else tree.Leaves() == was
             && r == Err(if leaf.Err? then leaf.error else if leaf.value == 0 then TreeRefused(ZeroLeaf) else TreeRefused(TreeFull))
    {
      hide FieldFromHex, Level, RootAt, Pow2;
      var leaf := FieldFromHex(b);
      if leaf.Err? { return Err(leaf.error); }
      var root := tree.Insert(leaf.value);
      r := if root.Err? then Err(TreeRefused(root.error)) else Ok(root.value);
    }

    // Build the in-memory tree from the stored notes.
    method HydrateTree() returns (error: Option<IngestError>)
      requires Valid()
      modifies tree
      ensures Valid()
      ensures (tree.Leaves(), error) == Hydrate(old(tree.Leaves()), NotesFrom(store.tables.notes, 0))
    {
      hide FieldFromHex, Pow2, NotesFrom;
      var notes := NotesFrom(store.tables.notes, 0);
      for i := 0 to |notes|
        invariant Valid()
        invariant Hydrate(old(tree.Leaves()), notes) == Hydrate(tree.Leaves(), notes[i..])
      {
        assert notes[i..][0] == notes[i] && notes[i..][1..] == notes[i + 1..];
        var r := InsertLeaf(notes[i].leaf);
        if r.Err? { return Some(r.error); }
      }
      error := None;
    }

    method ApplyEvent(event: PoolEvent, slot: nat) returns (error: Option<IngestError>)
      requires Valid()
      modifies this, tree, store
      ensures Valid()
      ensures (View(), error) == Apply(h, old(View()), event, slot)
    {
      hide FieldFromHex, Root, Pow2, Word32;
      match event {
        case NoteInserted(leafIndex, leaf, eph, tag, wrap, ct, _) =>
          var root := InsertLeaf(leaf);
          if root.Err? { return Some(root.error); }
          if root.value >= FIELD_MODULUS { return Some(NotCanonical); }
          store.InsertNote(NoteRow(leafIndex, leaf, eph, tag, wrap, ct, Word32(root.value), slot));
          store.PushRoot(Word32(root.value), tree.nextIndex, slot);
        case NullifierSpent(nullifier) =>
          store.InsertNullifier(nullifier, slot);
        case KeyRotated(_, newVersion, x, y) =>
          store.InsertComplianceKey(newVersion, KeyRow(x, y, slot));
      }
      error := None;
    }

    method ProcessSignature(info: SignatureInfo, tx: Option<RawTransaction>) returns (error: Option<IngestError>)
      requires Valid()
      modifies this, tree, store
      ensures Valid()
      ensures (View(), error) == Signature(h, programId, old(View()), info, tx)
    {
      hide Apply, DecodeDataLine, ToDomainEvent, LogScope.Scan, IndexerTree.Valid;
      if tx.None? || tx.value.err {
        store.SetCursor(CursorState(Some(info.signature), info.slot));
        return None;
      }
      if WereTruncated(tx.value.logMessages) {
        halted := true;
        return Some(LogTruncated);
      }
      var lines := LogScope.ProgramDataLinesFor(tx.value.logMessages, programId);
      for i := 0 to |lines|
        invariant Valid()
        invariant ApplyLines(h, old(View()), lines, info.slot) == ApplyLines(h, View(), lines[i..], info.slot)
      {
        assert lines[i..][0] == lines[i] && lines[i..][1..] == lines[i + 1..];
        var decoded := DecodeDataLine(POOL_IDL, lines[i]);
        if decoded.Some? && decoded.value.Ok? {
          var (name, fields) := decoded.value.value;
          var event := ToDomainEvent(name, fields);
          if event.Err? { return Some(Malformed(event.error)); }
          error := ApplyEvent(event.value, info.slot);
          if error.Some? { return; }
        }
      }
      store.SetCursor(CursorState(Some(info.signature), info.slot));
      error := None;
    }

    // `signatures` is what the chain returns: newest first.
    method Backfill(signatures: seq<SignatureInfo>, chain: Chain) returns (error: Option<IngestError>)
      requires Valid()
      modifies this, tree, store
      ensures Valid()
      ensures (View(), error) == Signatures(h, programId, old(View()), Reversed(signatures), chain)
    {
      hide Signature, IndexerTree.Valid;
      var chronological := Reversed(signatures);
      for i := 0 to |chronological|
        invariant Valid()
        invariant Signatures(h, programId, old(View()), chronological, chain)
                  == Signatures(h, programId, View(), chronological[i..], chain)
      {
        var sig := chronological[i];
        assert chronological[i..][0] == sig && chronological[i..][1..] == chronological[i + 1..];
        if !sig.err {
          error := ProcessSignature(sig, Lookup(chain, sig.signature));
          if error.Some? { return; }
        }
      }
      error := None;
    }
  }
}
