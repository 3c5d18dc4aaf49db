/** The coordinator's message table: append at the next sequence number, read from a cursor, sweep whole
    expired sessions. Every session always reads as an uninterrupted log 0, 1, 2, ... */
module MessageStore {
  import opened Outcomes

  type SessionId = string

  const TTL_MS: int := 24 * 60 * 60 * 1000

  datatype Envelope = Envelope(sessionId: SessionId, seqNo: nat, kind: string, ciphertext: string)
  datatype Row = Row(envelope: Envelope, createdAt: int)
  datatype StoreError = SequenceConflict

  // ----- the SQL queries, over the rows in insertion order -----

  // WHERE session_id = s AND seq > since
  function Select(rows: seq<Row>, s: SessionId, since: int): seq<Row> {
    if rows == [] then []
    else Select(rows[..|rows| - 1], s, since)
         + (var r := rows[|rows| - 1]; if r.envelope.sessionId == s && r.envelope.seqNo > since then [r] else [])
  }

  // ORDER BY seq ASC
  function OrderBySeq(rows: seq<Row>): seq<Row> {
    if rows == [] then [] else InsertBySeq(rows[|rows| - 1], OrderBySeq(rows[..|rows| - 1]))
  }

  function InsertBySeq(r: Row, rows: seq<Row>): seq<Row> {
    if rows == [] || rows[|rows| - 1].envelope.seqNo <= r.envelope.seqNo then rows + [r]
    else InsertBySeq(r, rows[..|rows| - 1]) + [rows[|rows| - 1]]
  }

  // SELECT MAX(seq)
  function MaxSeq(rows: seq<Row>): (m: Option<nat>)
    ensures m.None? <==> rows == []
  {
    if rows == [] then None
    else
      var rest, last := MaxSeq(rows[..|rows| - 1]), rows[|rows| - 1].envelope.seqNo;
      if rest.Some? && rest.value > last then rest else Some(last)
  }

  // HAVING MAX(created_at) < cutoff, for the rows of one session
  function AllOlderThan(rows: seq<Row>, cutoff: int): bool {
    if rows == [] then true
    else rows[|rows| - 1].createdAt < cutoff && AllOlderThan(rows[..|rows| - 1], cutoff)
  }

  lemma {:induction false} AllOlderMeansEach(rows: seq<Row>, cutoff: int)
    ensures AllOlderThan(rows, cutoff) <==> forall i :: 0 <= i < |rows| ==> rows[i].createdAt < cutoff
  {
    if rows != [] {
      AllOlderMeansEach(rows[..|rows| - 1], cutoff);
    }
  }

  // Rows of the sessions of `all` that are not expired.
  function Keep(rows: seq<Row>, all: seq<Row>, cutoff: int): (kept: seq<Row>)
    ensures |kept| <= |rows|
  {
    if rows == [] then []
    else Keep(rows[..|rows| - 1], all, cutoff)
         + (var r := rows[|rows| - 1]; if AllOlderThan(Select(all, r.envelope.sessionId, -1), cutoff) then [] else [r])
  }

  function Envelopes(rows: seq<Row>): (r: seq<Envelope>)
    ensures |r| == |rows|
  {
    seq(|rows|, i requires 0 <= i < |rows| => rows[i].envelope)
  }

  // ----- what the table means -----

  // The rows of a session, in insertion order.
  function Session(rows: seq<Row>, s: SessionId): seq<Row> {
    Select(rows, s, -1)
  }

  // Sequence numbers are exactly the positions.
  ghost predicate Numbered(rows: seq<Row>) {
    forall i :: 0 <= i < |rows| ==> rows[i].envelope.seqNo == i
  }

  ghost predicate AllNumbered(rows: seq<Row>) {
    forall s: SessionId :: Numbered(Session(rows, s))
  }

  // Every one of these rows was stored more than 24 hours of 3,600,000 milliseconds ago.
  ghost predicate Expired(rows: seq<Row>, now: int) {
    forall i :: 0 <= i < |rows| ==> rows[i].createdAt + 24 * 3_600_000 < now
  }

  lemma {:induction false} NextOfNumbered(rows: seq<Row>)
    requires Numbered(rows)
    ensures MaxSeq(rows) == if rows == [] then None else Some(|rows| - 1)
  {
    if rows != [] { NextOfNumbered(rows[..|rows| - 1]); }
  }

  lemma {:induction false} NumberedIsOrdered(rows: seq<Row>, from: nat)
    requires from <= |rows| && Numbered(rows)
    ensures OrderBySeq(rows[from..]) == rows[from..]
    decreases |rows|
  {
    if from < |rows| {
      var n := |rows| - 1;
      NumberedIsOrdered(rows[..n], from);
      assert rows[from..][..n - from] == rows[..n][from..];
      assert rows[from..] == rows[..n][from..] + [rows[n]];
    }
  }

  // Reading from a cursor is dropping a prefix of the session's log.
  lemma {:induction false} SelectDrops(rows: seq<Row>, s: SessionId, since: int)
    requires Numbered(Session(rows, s))
    ensures var log := Session(rows, s);
            Select(rows, s, since) == if since < -1 then log else if since + 1 >= |log| then [] else log[since + 1..]
  {
    if rows != [] {
      var n := |rows| - 1;
      var init, r := rows[..n], rows[n];
      var before := Session(init, s);
      SessionOfPrefix(rows, s);
      SelectDrops(init, s, since);
      if r.envelope.sessionId == s {
        hide Select;
        assert Session(rows, s)[|before|] == r;
        DropOfSnoc(before, r, since + 1);
      }
    }
  }

  lemma DropOfSnoc(log: seq<Row>, r: Row, k: int)
    ensures (if k < 0 then log else if k >= |log| then [] else log[k..]) + (if k <= |log| then [r] else [])
            == if k < 0 then log + [r] else if k >= |log + [r]| then [] else (log + [r])[k..]
  {
  }

  lemma SessionOfPrefix(rows: seq<Row>, s: SessionId)
    requires rows != [] && Numbered(Session(rows, s))
    ensures var r := rows[|rows| - 1];
            Session(rows, s) == Session(rows[..|rows| - 1], s) + if r.envelope.sessionId == s then [r] else []
    ensures Numbered(Session(rows[..|rows| - 1], s))
  {
    var before, log := Session(rows[..|rows| - 1], s), Session(rows, s);
    assert before == log[..|before|];
  }

  lemma AppendRow(rows: seq<Row>, r: Row, s: SessionId)
    ensures Session(rows + [r], s) == if r.envelope.sessionId == s then Session(rows, s) + [r] else Session(rows, s)
  {
    assert (rows + [r])[..|rows|] == rows;
  }

  lemma {:induction false} KeepSession(rows: seq<Row>, all: seq<Row>, cutoff: int, s: SessionId)
    ensures Session(Keep(rows, all, cutoff), s) == if AllOlderThan(Session(all, s), cutoff) then [] else Session(rows, s)
  {
    if rows != [] {
      var n := |rows| - 1;
      KeepSession(rows[..n], all, cutoff, s);
      var kept, r := Keep(rows[..n], all, cutoff), rows[n];
      if !AllOlderThan(Session(all, r.envelope.sessionId), cutoff) {
        AppendRow(kept, r, s);
      } else {
        assert kept + [] == kept;
      }
    }
  }

  class Store {
    var rows: seq<Row>

    ghost predicate Valid()
      reads this
    {
      AllNumbered(rows)
    }

    // The log of a session.
    ghost function Log(s: SessionId): seq<Envelope>
      reads this
    {
      Envelopes(Session(rows, s))
    }

    constructor ()
      ensures Valid() && forall s :: Log(s) == []
    {
      rows := [];
    }

    method NextSeq(s: SessionId) returns (next: nat)
      requires Valid()
      ensures next == |Log(s)|
    {
      NextOfNumbered(Session(rows, s));
      var m := MaxSeq(Select(rows, s, -1));
      next := if m.None? then 0 else m.value + 1;
    }

    // Accepts exactly the next number of its session; a rejected append changes nothing.
    method Append(envelope: Envelope, now: int) returns (r: Result<(), StoreError>)
      requires Valid()
      modifies this
      ensures Valid()
      ensures r.Ok? <==> envelope.seqNo == |old(Log(envelope.sessionId))|
      ensures r.Ok? ==> Log(envelope.sessionId) == old(Log(envelope.sessionId)) + [envelope]
      ensures r.Ok? ==> forall s :: s != envelope.sessionId ==> Log(s) == old(Log(s))
      ensures rows == if r.Ok? then old(rows) + [Row(envelope, now)] else old(rows)
    {
      hide Select, Session;
      var expected := NextSeq(envelope.sessionId);
      if envelope.seqNo != expected {
        return Err(SequenceConflict);
      }
      var row := Row(envelope, now);
      forall s ensures Session(rows + [row], s) == if envelope.sessionId == s then Session(rows, s) + [row] else Session(rows, s) {
        AppendRow(rows, row, s);
      }
      rows := rows + [row];
      r := Ok(());
    }

    // Everything past the cursor, in order, nothing skipped or repeated.
    method Since(s: SessionId, since: int) returns (r: seq<Envelope>)
      requires Valid()
      ensures r == if since < -1 then Log(s) else if since + 1 >= |Log(s)| then [] else Log(s)[since + 1..]
    {
      hide Select;
      var log := Session(rows, s);
      SelectDrops(rows, s, since);
      NumberedIsOrdered(log, if since < -1 then 0 else if since + 1 >= |log| then |log| else since + 1);
      r := Envelopes(OrderBySeq(Select(rows, s, since)));
    }

    // Removes exactly the sessions whose every message is more than a day old, each as a whole.
    method SweepExpired(now: int) returns (removed: nat)
      requires Valid()
      modifies this
      ensures Valid()
      ensures forall s :: Session(rows, s) == if Expired(Session(old(rows), s), now) then [] else Session(old(rows), s)
      ensures removed == |old(rows)| - |rows|
    {
      hide Select, Session, Keep, AllOlderThan;
      var cutoff := now - TTL_MS;
      var kept := Keep(rows, rows, cutoff);
      forall s ensures Session(kept, s) == if Expired(Session(rows, s), now) then [] else Session(rows, s) {
        KeepSession(rows, rows, cutoff, s);
        AllOlderMeansEach(Session(rows, s), cutoff);
      }
      removed := |rows| - |kept|;
      rows := kept;
    }
  }
}
