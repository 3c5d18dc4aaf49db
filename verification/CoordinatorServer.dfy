/** The server's handlers over the message table, each shown to be a step of the protocol. */
module CoordinatorServer {
  import opened CoordinatorProtocol
  import opened MessageStore

  // The table's envelopes of one session are the protocol's log.
  ghost predicate Shows(envelopes: seq<Envelope>, log: seq<Entry>) {
    |envelopes| == |log| && forall k :: 0 <= k < |log| ==> ShowsAt(envelopes[k], k, log[k])
  }

  ghost predicate ShowsAt(envelope: Envelope, k: nat, entry: Entry) {
    envelope.seqNo == k && envelope.ciphertext == entry.body
  }

  // POST /sessions/:id/messages, from the append call w. A body for another session is refused with 400, a
  // number that is not the next with 409.
  method PostMessage(table: Store, id: SessionId, envelope: Envelope, now: int, ghost s: System, ghost w: Id)
      returns (status: nat, ghost s': System)
    requires table.Valid() && Shows(table.Log(id), s.log)
    requires w in s.writers && s.writers[w].phase.Posting?
    requires envelope.seqNo == s.writers[w].phase.known.next && envelope.ciphertext == s.writers[w].body
    modifies table
    ensures table.Valid() && Shows(table.Log(id), s'.log)
    ensures forall other :: other != id ==> table.Log(other) == old(table.Log(other))
    ensures envelope.sessionId != id ==> status == 400 && s' == s
    ensures envelope.sessionId == id ==> s' == Next(s, Post(w)) && status == if s'.writers[w].phase.Acked? then 201 else 409
  {
    hide Next, Store.Valid, Session, Envelopes, Shows;
    s' := s;
    if envelope.sessionId != id {
      return 400, s;
    }
    PostIsAppend(s, w, table.Log(id), envelope);
    s' := Next(s, Post(w));
    var r := table.Append(envelope, now);
    if r.Err? {
      return 409, s';
    }
    status := 201;
  }

  // The protocol's post and the table's append accept the same numbers and add the same message.
  lemma PostIsAppend(s: System, w: Id, envelopes: seq<Envelope>, envelope: Envelope)
    requires Shows(envelopes, s.log) && w in s.writers && s.writers[w].phase.Posting?
    requires envelope.seqNo == s.writers[w].phase.known.next && envelope.ciphertext == s.writers[w].body
    ensures var s' := Next(s, Post(w));
      && w in s'.writers && (s'.writers[w].phase.Acked? <==> envelope.seqNo == |envelopes|)
      && Shows(if envelope.seqNo == |envelopes| then envelopes + [envelope] else envelopes, s'.log)
  {
  }

  // GET /sessions/:id/messages: what is there at once, or the request is held open.
  method ReadMessages(table: Store, id: SessionId, since: int, ghost s: System, ghost r: Id)
      returns (existing: seq<Envelope>)
    requires table.Valid() && Shows(table.Log(id), s.log)
    requires r in s.readers && s.readers[r].fetch.Ready? && s.readers[r].since == since >= -1
    ensures match Next(s, Poll(r)).readers[r].fetch
      case Delivering(batch) =>
        |existing| == |batch| > 0 && forall i :: 0 <= i < |batch| ==> ShowsAt(existing[i], batch[i].0, batch[i].1)
      case HeldOpen => existing == []
      case _ => false
  {
    existing := table.Since(id, since);
  }

  // The sweep is the protocol's for a session whose every message has expired, and nothing for any other.
  method Sweep(table: Store, id: SessionId, now: int, ghost s: System) returns (removed: nat, ghost s': System)
    requires table.Valid() && Shows(table.Log(id), s.log)
    modifies table
    ensures table.Valid() && Shows(table.Log(id), s'.log)
    ensures s' == if Expired(Session(old(table.rows), id), now) then Next(s, Step.Sweep) else s
  {
    hide Expired;
    ghost var expired := Expired(Session(table.rows, id), now);
    s' := if expired then Next(s, Step.Sweep) else s;
    removed := table.SweepExpired(now);
  }
}
