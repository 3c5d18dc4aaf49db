/** The client's retry and long-poll loops, run against a server that others keep writing to. */
module CoordinatorClient {
  import opened Outcomes
  import opened CoordinatorProtocol

  datatype ClientError = SequenceConflict | NeverSatisfied

  // The largest sequence number of a batch.
  function Highest(batch: seq<(nat, Entry)>): nat
    requires batch != []
  {
    var (k, _) := batch[|batch| - 1];
    if |batch| == 1 then k
    else var rest := Highest(batch[..|batch| - 1]); if rest > k then rest else k
  }

  lemma {:induction false} HighestIsLast(batch: seq<(nat, Entry)>)
    requires forall i :: 0 <= i < |batch| ==> batch[i].0 == i
    ensures batch != [] ==> Highest(batch) == |batch| - 1
  {
    if |batch| > 1 { HighestIsLast(batch[..|batch| - 1]); }
  }

  // What a read from this cursor can still deliver.
  function After(log: seq<Entry>, since: int): seq<Entry> {
    if since < -1 then log else if since + 1 <= |log| then log[since + 1..] else []
  }

  // The server's side of one session. Before every request it serves, others may have appended anything and the
  // session may have been swept; `sweeps` counts how often it was. It remembers what this client asked for.
  class Remote {
    var log: seq<Entry>
    var sweeps: nat
    ghost var posts: seq<nat>  // the sequence numbers posted
    ghost var polls: nat       // how many reads were made

    // Unless it was swept, the log has only grown.
    twostate predicate Evolved()
      reads this
    {
      old(sweeps) <= sweeps && (old(sweeps) == sweeps ==> old(log) <= log)
    }

    method OthersAct()
      modifies this`log, this`sweeps
      ensures Evolved()
    {
      var swept: nat := *;
      if swept > 0 {
        log, sweeps := [], sweeps + swept;
      }
      var more: seq<Entry> := *;
      log := log + more;
    }

    // What may happen without waking a request that waits for numbers above `since`.
    method OthersActBelow(since: nat)
      modifies this`log, this`sweeps
      requires |log| <= since
      ensures Evolved() && |log| <= since
    {
      var swept: nat := *;
      if swept > 0 {
        log, sweeps := [], sweeps + swept;
      }
      var more: seq<Entry> := *;
      if |log| + |more| <= since {
        log := log + more;
      }
    }

    method Append(seqNo: nat, entry: Entry) returns (accepted: bool)
      modifies this`log, this`sweeps, this`posts
      ensures Evolved() && posts == old(posts) + [seqNo]
      ensures accepted ==> |log| == seqNo + 1 && log[seqNo] == entry
      ensures accepted && sweeps == old(sweeps) ==> |old(log)| <= seqNo
      ensures !accepted ==> seqNo != |log|
    {
      OthersAct();
      posts := posts + [seqNo];
      accepted := seqNo == |log|;
      if accepted {
        log := log + [entry];
      }
    }

    // Answers at once with everything past the cursor; with nothing there it holds the request open until
    // the next number is appended or the timeout passes. Nothing that was there at the call is withheld.
    method Poll(since: int) returns (batch: seq<(nat, Entry)>)
      modifies this`log, this`sweeps, this`polls
      ensures Evolved() && polls == old(polls) + 1
      ensures var from := if since < -1 then 0 else since + 1;
        && (batch != [] ==> from + |batch| <= |log|)
        && (forall i :: 0 <= i < |batch| ==> batch[i] == (from + i, log[from + i]))
        && (sweeps == old(sweeps) ==> |old(log)| <= from + |batch|)
      ensures since == -1 ==> |batch| == |log|
    {
      polls := polls + 1;
      OthersAct();
      var from: nat := if since < -1 then 0 else since + 1;
      if from < |log| {
        batch := Numbered(log, from);
      } else {
        OthersActBelow(from);
        var timedOut: bool := *;
        if timedOut || |log| < from {
          batch := [];
        } else {
          var next: Entry := *;
          log := log + [next];
          batch := [(from, next)];
        }
      }
    }
  }

  // One read after every post but the last.
  function Reads(tried: seq<nat>): nat {
    if tried == [] then 0 else |tried| - 1
  }

  class Client {
    var nextSeqGuess: map<string, nat>

    constructor ()
      ensures nextSeqGuess == map[]
    {
      nextSeqGuess := map[];
    }

    // Guess, and on every conflict re-read and retry. A returned slot holds exactly this message; giving up
    // after n attempts with no sweep means at least n - 1 other messages were appended meanwhile. The numbers
    // posted start from the guess and end with the slot returned, with one read between any two of them.
    method AppendNext(remote: Remote, sessionId: string, entry: Entry, maxAttempts: nat)
        returns (r: Result<nat, ClientError>, ghost tried: seq<nat>)
      modifies this, remote
      ensures remote.Evolved()
      ensures r.Ok? ==> |remote.log| == r.value + 1 && remote.log[r.value] == entry
      ensures r.Ok? && remote.sweeps == old(remote.sweeps) ==> |old(remote.log)| <= r.value
      ensures r.Ok? ==> nextSeqGuess == old(nextSeqGuess)[sessionId := r.value + 1]
      ensures r.Err? && maxAttempts > 0 && remote.sweeps == old(remote.sweeps) ==>
                |remote.log| >= |old(remote.log)| + maxAttempts - 1
      ensures remote.posts == old(remote.posts) + tried && remote.polls == old(remote.polls) + Reads(tried)
      ensures tried != [] ==> tried[0] == if sessionId in old(nextSeqGuess) then old(nextSeqGuess)[sessionId] else 0
      ensures r.Ok? ==> 0 < |tried| <= maxAttempts && tried[|tried| - 1] == r.value
      ensures r.Err? ==> |tried| == maxAttempts
      ensures r.Err? ==> nextSeqGuess == if |tried| > 1 then old(nextSeqGuess)[sessionId := tried[|tried| - 1]] else old(nextSeqGuess)
    {
      var nextSeq: nat := if sessionId in nextSeqGuess then nextSeqGuess[sessionId] else 0;
      ghost var guess := nextSeq;
      tried := [];
      for attempt := 0 to maxAttempts
        invariant remote.Evolved()
        invariant attempt > 0 ==> nextSeq == |remote.log|
        invariant attempt > 0 && remote.sweeps == old(remote.sweeps) ==> |remote.log| >= |old(remote.log)| + attempt - 1
        invariant attempt < maxAttempts || attempt == 0
        invariant |tried| == attempt && (if attempt == 0 then nextSeq == guess else tried[0] == guess)
        invariant remote.posts == old(remote.posts) + tried && remote.polls == old(remote.polls) + attempt
        invariant nextSeqGuess == if attempt == 0 then old(nextSeqGuess) else old(nextSeqGuess)[sessionId := nextSeq]
      {
        var accepted := remote.Append(nextSeq, entry);
        tried := tried + [nextSeq];
        if accepted {
          nextSeqGuess := nextSeqGuess[sessionId := nextSeq + 1];
          return Ok(nextSeq), tried;
        }
        if attempt == maxAttempts - 1 {
          return Err(SequenceConflict), tried;
        }
        var existing := remote.Poll(-1);
        HighestIsLast(existing);
        nextSeq := if existing == [] then 0 else Highest(existing) + 1;
        nextSeqGuess := nextSeqGuess[sessionId := nextSeq];
      }
      return Err(SequenceConflict), tried;
    }

    // Poll from a moving cursor until the predicate holds of everything seen: `views` are the collections it was
    // asked about, one after each poll. It returns the first that is enough, and gives up only after refusing one
    // in every round. Unless the session was swept, each view is a prefix of the log after the starting cursor,
    // holds all that was there at the call, and extends the view before.
    method CollectUntil(remote: Remote, enough: seq<Entry> -> bool, maxRounds: nat, startSeq: int)
        returns (r: Result<seq<Entry>, ClientError>, ghost views: seq<seq<Entry>>)
      modifies remote
      ensures remote.Evolved()
      ensures remote.polls == old(remote.polls) + |views| && remote.posts == old(remote.posts)
      ensures remote.sweeps == old(remote.sweeps) ==> Rising(views, After(old(remote.log), startSeq), After(remote.log, startSeq))
      ensures r.Ok? ==> 0 < |views| <= maxRounds && r.value == views[|views| - 1]
      ensures r.Err? ==> |views| == maxRounds
      ensures forall i :: 0 <= i < |views| ==> (enough(views[i]) <==> r.Ok? && i == |views| - 1)
    {
      var since, seen: map<nat, Entry> := startSeq, map[];
      hide CursorOk, Rising, View, After, InOrder, Absorb;
      ghost var from := if startSeq < -1 then -1 else startSeq;
      views := [];
      NothingSeen(remote.log, from, startSeq);
      for round := 0 to maxRounds
        invariant remote.Evolved()
        invariant since >= startSeq
        invariant remote.polls == old(remote.polls) + |views| && remote.posts == old(remote.posts) && |views| == round
        invariant forall i :: 0 <= i < |views| ==> !enough(views[i])
        invariant remote.sweeps == old(remote.sweeps) ==>
          && CursorOk(remote.log, from, startSeq, since, seen)
          && Rising(views, After(old(remote.log), startSeq), After(remote.log, startSeq))
          && (views != [] ==> views[|views| - 1] == View(remote.log, from, since))
      {
        ghost var log0, since0, seen0 := remote.log, since, seen;
        var batch := remote.Poll(since);
        since, seen := TakeIn(since, seen, batch);
        AbsorbRaises(since0, seen0, batch);
        var all := InOrder(seen, if since < 0 then 0 else since + 1);
        if remote.sweeps == old(remote.sweeps) {
          NextView(old(remote.log), log0, remote.log, from, startSeq, since0, seen0, batch, views);
        }
        views := views + [all];
        if enough(all) {
          return Ok(all), views;
        }
      }
      return Err(NeverSatisfied), views;
    }

    // The loop over one batch.
    method TakeIn(since0: int, seen0: map<nat, Entry>, batch: seq<(nat, Entry)>)
        returns (since: int, seen: map<nat, Entry>)
      ensures (since, seen) == Absorb(since0, seen0, batch)
    {
      since, seen := since0, seen0;
      for i := 0 to |batch|
        invariant Absorb(since0, seen0, batch) == Absorb(since, seen, batch[i..])
      {
        var (k, e) := batch[i];
        seen := seen[k := e];
        if k > since {
          since := k;
        }
        assert batch[i..][1..] == batch[i + 1..];
      }
    }
  }

  // The cursor's two states: nothing received yet, or everything after `from` up to it.
  ghost predicate CursorOk(log: seq<Entry>, from: int, startSeq: int, since: int, seen: map<nat, Entry>) {
    (since == startSeq && seen == map[]) || (from <= since < |log| && Seen(log, seen, from, since))
  }

  // What has been seen with the cursor here.
  ghost function View(log: seq<Entry>, from: int, since: int): seq<Entry>
    requires from >= -1
  {
    if from + 1 <= since + 1 <= |log| then log[from + 1..since + 1] else []
  }

  // Collections between two others, each extending the one before.
  ghost predicate Rising(views: seq<seq<Entry>>, least: seq<Entry>, most: seq<Entry>) {
    && (forall i :: 0 <= i < |views| ==> least <= views[i] <= most)
    && (forall i, j :: 0 <= i <= j < |views| ==> views[i] <= views[j])
  }

  lemma CursorGrows(log0: seq<Entry>, log: seq<Entry>, from: int, startSeq: int, since: int, seen: map<nat, Entry>)
    requires log0 <= log && CursorOk(log0, from, startSeq, since, seen)
    ensures CursorOk(log, from, startSeq, since, seen)
  {
  }

  lemma TakenIn(log: seq<Entry>, from: int, startSeq: int, since: int, seen: map<nat, Entry>, batch: seq<(nat, Entry)>)
    requires from == (if startSeq < -1 then -1 else startSeq) && CursorOk(log, from, startSeq, since, seen)
    requires var k := if since < -1 then 0 else since + 1;
      && (batch != [] ==> k + |batch| <= |log|) && forall i :: 0 <= i < |batch| ==> batch[i] == (k + i, log[k + i])
    ensures var (since', seen') := Absorb(since, seen, batch); CursorOk(log, from, startSeq, since', seen')
    decreases |batch|
  {
    if batch != [] {
      var (k, e) := batch[0];
      TakenIn(log, from, startSeq, k, seen[k := e], batch[1..]);
    }
  }

  // The cursor moves past everything in the batch.
  lemma {:induction false} AbsorbReaches(since: int, seen: map<nat, Entry>, batch: seq<(nat, Entry)>, k: nat)
    requires forall i :: 0 <= i < |batch| ==> batch[i].0 == k + i
    ensures batch != [] ==> Absorb(since, seen, batch).0 >= k + |batch| - 1
    decreases |batch|
  {
    if batch != [] {
      var (j, e) := batch[0];
      var since' := if j > since then j else since;
      AbsorbReaches(since', seen[j := e], batch[1..], k + 1);
      AbsorbRaises(since', seen[j := e], batch[1..]);
    }
  }

  // One more view: it extends the last, and holds what was there when it was asked for.
  lemma OneMoreView(first: seq<Entry>, log0: seq<Entry>, log: seq<Entry>, from: int, startSeq: int, since0: int,
                    seen0: map<nat, Entry>, since: int, seen: map<nat, Entry>)
    requires first <= log0 <= log && from == (if startSeq < -1 then -1 else startSeq) && since0 <= since
    requires CursorOk(log0, from, startSeq, since0, seen0) && CursorOk(log, from, startSeq, since, seen)
    requires |log0| <= if since < -1 then 0 else since + 1
    ensures View(log0, from, since0) <= View(log, from, since) && After(first, startSeq) <= View(log, from, since)
  {
    hide Seen;
    if from + 1 <= since + 1 <= |log| {
      assert forall i, n :: 0 <= i <= n <= |first| ==> first[i..n] == log[i..n];
      if from + 1 <= since0 + 1 <= |log0| {
        assert log0[from + 1..since0 + 1] == log[from + 1..since0 + 1];
        SlicesNest(log, from + 1, since0 + 1, since + 1);
      }
      if from + 1 <= |first| {
        assert first[from + 1..] == log[from + 1..|first|];
        SlicesNest(log, from + 1, |first|, since + 1);
      }
    }
  }

  lemma SlicesNest(log: seq<Entry>, i: nat, n: nat, m: nat)
    requires i <= n <= m <= |log|
    ensures log[i..n] <= log[i..m]
  {
  }

  lemma RisingStep(views: seq<seq<Entry>>, least: seq<Entry>, most: seq<Entry>, view: seq<Entry>, most': seq<Entry>)
    requires Rising(views, least, most) && most <= most' && least <= view <= most'
    requires views != [] ==> views[|views| - 1] <= view
    ensures Rising(views + [view], least, most')
  {
  }

  lemma NothingSeen(log: seq<Entry>, from: int, startSeq: int)
    ensures CursorOk(log, from, startSeq, startSeq, map[])
    ensures Rising([], After(log, startSeq), After(log, startSeq))
  {
  }

  lemma AfterGrows(log: seq<Entry>, log': seq<Entry>, since: int)
    requires log <= log'
    ensures After(log, since) <= After(log', since)
  {
  }

  // One round of polling.
  lemma NextView(first: seq<Entry>, log0: seq<Entry>, log: seq<Entry>, from: int, startSeq: int, since0: int,
                 seen0: map<nat, Entry>, batch: seq<(nat, Entry)>, views: seq<seq<Entry>>)
    requires first <= log0 <= log && from == (if startSeq < -1 then -1 else startSeq)
    requires CursorOk(log0, from, startSeq, since0, seen0)
    requires Rising(views, After(first, startSeq), After(log0, startSeq))
    requires views != [] ==> views[|views| - 1] == View(log0, from, since0)
    requires var k := if since0 < -1 then 0 else since0 + 1;
      && (batch != [] ==> k + |batch| <= |log|) && (forall i :: 0 <= i < |batch| ==> batch[i] == (k + i, log[k + i]))
      && |log0| <= k + |batch|
    ensures var (since, seen) := Absorb(since0, seen0, batch); var view := View(log, from, since);
      && CursorOk(log, from, startSeq, since, seen) && InOrder(seen, if since < 0 then 0 else since + 1) == view
      && Rising(views + [view], After(first, startSeq), After(log, startSeq))
  {
    hide CursorOk, Rising, View, After, Absorb, InOrder;
    var (since, seen) := Absorb(since0, seen0, batch);
    AbsorbRaises(since0, seen0, batch);
    AbsorbReaches(since0, seen0, batch, if since0 < -1 then 0 else since0 + 1);
    CursorGrows(log0, log, from, startSeq, since0, seen0);
    TakenIn(log, from, startSeq, since0, seen0, batch);
    Collected(log, from, startSeq, since, seen);
    OneMoreView(first, log0, log, from, startSeq, since0, seen0, since, seen);
    AfterGrows(log0, log, startSeq);
    RisingStep(views, After(first, startSeq), After(log0, startSeq), View(log, from, since), After(log, startSeq));
  }

  lemma Collected(log: seq<Entry>, from: int, startSeq: int, since: int, seen: map<nat, Entry>)
    requires from == (if startSeq < -1 then -1 else startSeq) && CursorOk(log, from, startSeq, since, seen)
    ensures InOrder(seen, if since < 0 then 0 else since + 1) == View(log, from, since) <= After(log, startSeq)
  {
    hide InOrder;
    var n: nat := if since < 0 then 0 else since + 1;
    InOrderIsSlice(log, seen, from, n);
    if from + 1 <= n <= |log| {
      SlicePrefix(log, from + 1, n);
      assert from == -1 ==> log[0..] == log;
    }
  }

  lemma SlicePrefix(log: seq<Entry>, i: nat, n: nat)
    requires i <= n <= |log|
    ensures log[i..n] <= log[i..]
  {
  }
}
