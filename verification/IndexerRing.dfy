/** The indexer's table of recent roots, and exactly how long it agrees with the on-chain ring. */
module IndexerRing {
  import opened Outcomes
  import opened PoolAccount
  import opened KeyOrder

  type Hex = seq<nat>

  datatype RootRow = RootRow(root: Hex, nextLeafIndex: nat, slot: nat)

  type RootTable = map<nat, RootRow>  // by cursor

  // The slot after the highest one in use, and slot 0 for an empty table.
  function NextCursor(table: RootTable): nat {
    if |table| == 0 then 0 else (Greatest(table.Keys) + 1) % ROOT_RING
  }

  function PushRoot(table: RootTable, row: RootRow): RootTable {
    table[NextCursor(table) := row]
  }

  function PushAll(rows: seq<RootRow>): RootTable {
    if rows == [] then map[] else PushRoot(PushAll(rows[..|rows| - 1]), rows[|rows| - 1])
  }

  // The push whose row a slot holds after n pushes. From push 257 on only slot 0 moves: the highest cursor
  // in use stays 255.
  function HeldPush(n: nat, slot: nat): Option<nat> {
    if n <= slot || slot >= ROOT_RING then None
    else if slot == 0 && n > ROOT_RING then Some(n - 1)
    else Some(slot)
  }

  ghost predicate Holds(table: RootTable, rows: seq<RootRow>) {
    forall slot: nat :: match HeldPush(|rows|, slot)
      case None => slot !in table
      case Some(p) => slot in table && p < |rows| && table[slot] == rows[p]
  }

  lemma NextSlot(table: RootTable, rows: seq<RootRow>)
    requires Holds(table, rows)
    ensures NextCursor(table) == if |rows| < ROOT_RING then |rows| else 0
  {
    hide HeldPush;
    var n := |rows|;
    if n == 0 {
      forall slot: nat ensures slot !in table { UsedSlots(0, slot); }
      assert table == map[];
    } else {
      var top: nat := if n < ROOT_RING then n - 1 else ROOT_RING - 1;
      UsedSlots(n, top);
      assert top in table;
      var m := Greatest(table.Keys);
      UsedSlots(n, m);
    }
  }

  lemma UsedSlots(n: nat, slot: nat)
    ensures HeldPush(n, slot).Some? <==> slot < n && slot < ROOT_RING
  {
  }

  lemma {:induction false} TableAfter(rows: seq<RootRow>)
    ensures Holds(PushAll(rows), rows)
  {
    if rows != [] {
      var n := |rows| - 1;
      var table := PushAll(rows[..n]);
      TableAfter(rows[..n]);
      NextSlot(table, rows[..n]);
      forall slot: nat
        ensures match HeldPush(|rows|, slot)
          case None => slot !in PushAll(rows)
          case Some(p) => slot in PushAll(rows) && p < |rows| && PushAll(rows)[slot] == rows[p]
      {
        var held := HeldPush(n, slot);
      }
    }
  }

  // The table says of every slot what the on-chain ring says.
  ghost predicate MatchesChain(table: RootTable, rows: seq<RootRow>) {
    forall slot: nat :: slot < ROOT_RING ==>
      match LatestPush(|rows|, slot)
      case None => slot !in table
      case Some(p) => slot in table && table[slot].root == rows[p].root
  }

  ghost predicate DistinctRoots(rows: seq<RootRow>) {
    forall i, j :: 0 <= i < j < |rows| ==> rows[i].root != rows[j].root
  }

  lemma HeldIsLatest(n: nat, slot: nat)
    requires n <= ROOT_RING + 1 && slot < ROOT_RING
    ensures HeldPush(n, slot) == LatestPush(n, slot)
  {
    if n > slot {
      LatestPushUnique(n, slot, HeldPush(n, slot).value);
    }
  }

  lemma MatchesInTheFirstLap(rows: seq<RootRow>)
    requires |rows| <= ROOT_RING + 1
    ensures MatchesChain(PushAll(rows), rows)
  {
    hide PushAll, HeldPush, LatestPush;
    TableAfter(rows);
    var table := PushAll(rows);
    forall slot: nat | slot < ROOT_RING
      ensures match LatestPush(|rows|, slot)
              case None => slot !in table
              case Some(p) => slot in table && table[slot].root == rows[p].root
    {
      HeldIsLatest(|rows|, slot);
    }
  }

  // With pairwise different roots, the table matches the on-chain ring through the 257th push and never after.
  lemma MatchesExactlyOneLap(rows: seq<RootRow>)
    requires DistinctRoots(rows)
    ensures MatchesChain(PushAll(rows), rows) <==> |rows| <= ROOT_RING + 1
  {
    hide PushAll;
    if |rows| <= ROOT_RING + 1 {
      MatchesInTheFirstLap(rows);
    } else {
      TableAfter(rows);
      var n := |rows|;
      assert HeldPush(n, 1) == Some(1);
      var latest := LatestPush(n, 1);
      assert latest.Some? && latest.value > 1;
      assert rows[1].root != rows[latest.value].root;
    }
  }
}
