/** The slots the indexer writes, and when a restart can rebuild its tree. */
module IngestRows {
  import opened Hashing
  import opened LeanImt
  import opened Outcomes
  import LogScope
  import opened EventDecoder
  import opened IndexerRing
  import opened KeyOrder
  import opened Ingest

  // ----- slots -----

  // Every row that is not as it was carries this slot.
  ghost predicate WrittenAt(t: Tables, t': Tables, slot: nat) {
    && (forall i :: i in t'.notes ==> (i in t.notes && t'.notes[i] == t.notes[i]) || t'.notes[i].slot == slot)
    && (forall b :: b in t'.nullifiers ==> (b in t.nullifiers && t'.nullifiers[b] == t.nullifiers[b]) || t'.nullifiers[b] == slot)
    && (forall c :: c in t'.roots ==> (c in t.roots && t'.roots[c] == t.roots[c]) || t'.roots[c].slot == slot)
    && (forall v :: v in t'.complianceKeys ==>
          (v in t.complianceKeys && t'.complianceKeys[v] == t.complianceKeys[v]) || t'.complianceKeys[v].fromSlot == slot)
  }

  lemma RowWrittenAt(t: Tables, i: nat, row: NoteRow, root: RootRow)
    requires root.slot == row.slot
    ensures WrittenAt(t, t.(notes := t.notes[i := row], roots := PushRoot(t.roots, root)), row.slot)
  {
    hide Greatest;
  }

  lemma NothingWritten(t: Tables, slot: nat)
    ensures WrittenAt(t, t, slot)
  {
  }

  lemma EventWritesAt(h: NodeHash, m: Mirror, e: PoolEvent, slot: nat)
    ensures WrittenAt(m.tables, Apply(h, m, e, slot).0.tables, slot)
  {
    hide Root, Pow2, Word32, FromBigEndian;
    if e.NoteInserted? {
      hide WrittenAt, PushRoot;
      NothingWritten(m.tables, slot);
      var r := FieldFromHex(e.leaf);
      if r.Ok? {
        var root := Root(h, m.leaves + [r.value]);
        RowWrittenAt(m.tables, e.leafIndex,
          NoteRow(e.leafIndex, e.leaf, e.ephPubX, e.tag, e.cekWrap, e.ciphertext, Word32(root), slot),
          RootRow(Word32(root), |m.leaves| + 1, slot));
      }
    }
  }

  lemma LineWritesAt(h: NodeHash, m: Mirror, line: string, slot: nat)
    ensures WrittenAt(m.tables, ApplyLine(h, m, line, slot).0.tables, slot)
  {
    hide Apply, DecodeDataLine, ToDomainEvent;
    var decoded := DecodeDataLine(POOL_IDL, line);
    if decoded.Some? && decoded.value.Ok? {
      var event := ToDomainEvent(decoded.value.value.0, decoded.value.value.1);
      if event.Ok? {
        EventWritesAt(h, m, event.value, slot);
      }
    }
  }

  lemma WritesCompose(t0: Tables, t1: Tables, t2: Tables, slot: nat)
    requires WrittenAt(t0, t1, slot) && WrittenAt(t1, t2, slot)
    ensures WrittenAt(t0, t2, slot)
  {
  }

  lemma {:induction false} LinesWriteAt(h: NodeHash, m: Mirror, lines: seq<string>, slot: nat)
    ensures WrittenAt(m.tables, ApplyLines(h, m, lines, slot).0.tables, slot)
    decreases |lines|
  {
    hide ApplyLine;
    if lines != [] {
      var (m', error) := ApplyLine(h, m, lines[0], slot);
      LineWritesAt(h, m, lines[0], slot);
      if error.None? {
        hide WrittenAt;
        LinesWriteAt(h, m', lines[1..], slot);
        WritesCompose(m.tables, m'.tables, ApplyLines(h, m', lines[1..], slot).0.tables, slot);
      }
    }
  }

  // Whatever a transaction logs, the rows it adds or replaces carry the slot it was included in.
  lemma RowsCarryTheSlot(h: NodeHash, program: string, m: Mirror, info: SignatureInfo, tx: Option<RawTransaction>)
    ensures WrittenAt(m.tables, Signature(h, program, m, info, tx).0.tables, info.slot)
  {
    hide ApplyLines, LogScope.Scan;
    if tx.Some? {
      LinesWriteAt(h, m, LogScope.Scan(tx.value.logMessages, [], program), info.slot);
    }
  }

  // ----- rebuilding the tree -----

  // The row's leaf is a field element other than zero.
  ghost predicate HasLeaf(row: NoteRow) {
    0 < FromBigEndian(row.leaf) < FIELD_MODULUS
  }

  // The rows' leaves, after those that are there.
  ghost predicate Extends(leaves': seq<Fr>, leaves: seq<Fr>, rows: seq<NoteRow>) {
    && |leaves'| == |leaves| + |rows| && leaves <= leaves'
    && forall i :: 0 <= i < |rows| ==> leaves'[|leaves| + i] == FromBigEndian(rows[i].leaf)
  }

  // Hydration succeeds exactly when every row has a leaf and all of them fit.
  lemma {:induction false} HydratesIff(leaves: seq<Fr>, rows: seq<NoteRow>)
    requires |leaves| <= Pow2(TREE_DEPTH)
    ensures var (leaves', error) := Hydrate(leaves, rows);
      && (error.None? <==> (forall i :: 0 <= i < |rows| ==> HasLeaf(rows[i])) && |leaves| + |rows| <= Pow2(TREE_DEPTH))
      && (error.None? ==> Extends(leaves', leaves, rows))
    decreases |rows|
  {
    hide Pow2, FromBigEndian;
    if rows != [] && HasLeaf(rows[0]) && |leaves| < Pow2(TREE_DEPTH) {
      var leaf := FromBigEndian(rows[0].leaf);
      HydratesIff(leaves + [leaf], rows[1..]);
      assert forall i :: 1 <= i < |rows| ==> rows[i] == rows[1..][i - 1];
      var leaves' := Hydrate(leaves, rows).0;
      if Hydrate(leaves, rows).1.None? {
        assert leaves <= leaves + [leaf] <= leaves';
        assert leaves'[|leaves|] == (leaves + [leaf])[|leaves|];
      }
    }
  }
}
