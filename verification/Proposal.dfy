/** Proposals: how posted commitments and shares reach the aggregation, and when its signature is valid. */
module Proposal {
  import opened Outcomes
  import opened Modular
  import opened Lagrange
  import opened Ciphersuites
  import opened Frost
  import opened ThresholdSigning

  // What an opened envelope says; the id is the signer's number as text.
  datatype Opened<+T> = Opened(proposalId: string, id: string, body: T)

  // A posted envelope; nothing is opened when the session key does not fit.
  datatype Posted<+T> = Posted(kind: string, content: Option<Opened<T>>)

  predicate Matches<T>(e: Posted<T>, kind: string, proposalId: string) {
    e.kind == kind && e.content.Some? && e.content.value.proposalId == proposalId
  }

  function Matching<T>(envs: seq<Posted<T>>, kind: string, proposalId: string): seq<Opened<T>> {
    if envs == [] then []
    else
      var last := envs[|envs| - 1];
      Matching(envs[..|envs| - 1], kind, proposalId) + (if Matches(last, kind, proposalId) then [last.content.value] else [])
  }

  // ----- one entry a signer -----

  // `Map.set`: replace the value of a known key in its place, or add the key at the end.
  function SetEntry<T>(entries: seq<Opened<T>>, p: Opened<T>): seq<Opened<T>> {
    if entries == [] then [p]
    else if entries[0].id == p.id then [p] + entries[1..]
    else [entries[0]] + SetEntry(entries[1..], p)
  }

  function ById<T>(messages: seq<Opened<T>>): seq<Opened<T>> {
    if messages == [] then [] else SetEntry(ById(messages[..|messages| - 1]), messages[|messages| - 1])
  }

  method DecodeUnique<T>(envs: seq<Posted<T>>, kind: string, proposalId: string) returns (out: seq<Opened<T>>)
    ensures out == ById(Matching(envs, kind, proposalId))
  {
    out := [];
    for i := 0 to |envs|
      invariant out == ById(Matching(envs[..i], kind, proposalId))
    {
      var e := envs[i];
      assert envs[..i + 1][..i] == envs[..i];
      ghost var before := Matching(envs[..i], kind, proposalId);
      if Matches(e, kind, proposalId) {
        assert (before + [e.content.value])[..|before|] == before;
        out := SetEntry(out, e.content.value);
      } else {
        assert before + [] == before;
      }
    }
    assert envs[..|envs|] == envs;
  }

  ghost predicate DistinctTexts<T(!new)>(entries: seq<Opened<T>>) {
    forall i, j :: 0 <= i < j < |entries| ==> entries[i].id != entries[j].id
  }

  // The latest message under its id.
  ghost predicate IsLatest<T(!new)>(m: Opened<T>, messages: seq<Opened<T>>) {
    exists k :: 0 <= k < |messages| && messages[k] == m && forall j :: k < j < |messages| ==> messages[j].id != m.id
  }

  ghost predicate HasEntry<T(!new)>(id: string, entries: seq<Opened<T>>) {
    exists i :: 0 <= i < |entries| && entries[i].id == id
  }

  lemma {:induction false} SetEntryGives<T(!new)>(entries: seq<Opened<T>>, p: Opened<T>)
    requires DistinctTexts(entries)
    ensures var r := SetEntry(entries, p);
      && DistinctTexts(r)
      && (forall x :: x in r <==> x == p || (x in entries && x.id != p.id))
  {
    if entries != [] {
      assert entries == [entries[0]] + entries[1..];
      SetEntryGives(entries[1..], p);
    }
  }

  // Exactly one entry for every signer heard from, and it is the signer's latest message.
  lemma {:induction false} LatestOfEachSigner<T(!new)>(messages: seq<Opened<T>>)
    ensures var r := ById(messages);
      && DistinctTexts(r)
      && (forall x :: x in r <==> IsLatest(x, messages))
  {
    if messages != [] {
      var n := |messages| - 1;
      var before, p := messages[..n], messages[n];
      LatestOfEachSigner(before);
      SetEntryGives(ById(before), p);
      forall x ensures x in ById(messages) <==> IsLatest(x, messages) {
        LatestGrows(x, before, p);
        assert before + [p] == messages;
      }
    }
  }

  // An envelope of this kind that opens to a message of this proposal.
  ghost predicate Carries<T(!new)>(e: Posted<T>, kind: string, proposalId: string, m: Opened<T>) {
    e.kind == kind && e.content == Some(m) && m.proposalId == proposalId
  }

  // The last envelope of this kind that carries a message of this proposal under the id, and the message.
  ghost predicate LatestPosted<T(!new)>(envs: seq<Posted<T>>, kind: string, proposalId: string, m: Opened<T>) {
    exists k :: 0 <= k < |envs| && Carries(envs[k], kind, proposalId, m)
                && forall j :: k < j < |envs| ==> !CarriesId(envs[j], kind, proposalId, m.id)
  }

  ghost predicate CarriesId<T(!new)>(e: Posted<T>, kind: string, proposalId: string, id: string) {
    exists m :: Carries(e, kind, proposalId, m) && m.id == id
  }

  lemma PostedGrows<T(!new)>(before: seq<Posted<T>>, e: Posted<T>, kind: string, proposalId: string, m: Opened<T>)
    ensures LatestPosted(before + [e], kind, proposalId, m) <==>
            Carries(e, kind, proposalId, m) || (LatestPosted(before, kind, proposalId, m) && !CarriesId(e, kind, proposalId, m.id))
  {
    hide Carries, CarriesId;
    var now := before + [e];
    assert now[|before|] == e;
    if Carries(e, kind, proposalId, m) {
    } else if LatestPosted(before, kind, proposalId, m) && !CarriesId(e, kind, proposalId, m.id) {
      var k :| 0 <= k < |before| && Carries(before[k], kind, proposalId, m)
               && forall j :: k < j < |before| ==> !CarriesId(before[j], kind, proposalId, m.id);
      assert now[k] == before[k];
    } else if LatestPosted(now, kind, proposalId, m) {
      var k :| 0 <= k < |now| && Carries(now[k], kind, proposalId, m)
               && forall j :: k < j < |now| ==> !CarriesId(now[j], kind, proposalId, m.id);
      assert k < |before| && now[k] == before[k];
      forall j | k < j < |before| ensures !CarriesId(before[j], kind, proposalId, m.id) {
        assert now[j] == before[j];
      }
    }
  }

  // What is collected for a proposal: from every signer the message its last envelope of that kind carries, and
  // nothing of other kinds or proposals.
  lemma {:induction false} CollectsLatest<T(!new)>(envs: seq<Posted<T>>, kind: string, proposalId: string)
    ensures forall m :: m in ById(Matching(envs, kind, proposalId)) <==> LatestPosted(envs, kind, proposalId, m)
  {
    hide LatestPosted, SetEntry;
    if envs == [] {
      assert forall m :: !LatestPosted(envs, kind, proposalId, m) by { NothingPosted(envs, kind, proposalId); }
    } else {
      var n := |envs| - 1;
      var before, e := envs[..n], envs[n];
      var messages := Matching(before, kind, proposalId);
      CollectsLatest(before, kind, proposalId);
      LatestOfEachSigner(messages);
      assert before + [e] == envs;
      forall m ensures m in ById(Matching(envs, kind, proposalId)) <==> LatestPosted(envs, kind, proposalId, m) {
        PostedGrows(before, e, kind, proposalId, m);
        if Matches(e, kind, proposalId) {
          var p := e.content.value;
          assert (messages + [p])[..|messages|] == messages;
          SetEntryGives(ById(messages), p);
          assert Carries(e, kind, proposalId, p);
        } else {
          assert messages + [] == messages;
        }
      }
    }
  }

  lemma NothingPosted<T(!new)>(envs: seq<Posted<T>>, kind: string, proposalId: string)
    requires envs == []
    ensures forall m :: !LatestPosted(envs, kind, proposalId, m)
  {
  }

  lemma LatestGrows<T(!new)>(x: Opened<T>, before: seq<Opened<T>>, p: Opened<T>)
    ensures IsLatest(x, before + [p]) <==> x == p || (IsLatest(x, before) && x.id != p.id)
  {
    var now := before + [p];
    if x == p {
      assert now[|before|] == p;
    } else if IsLatest(x, before) && x.id != p.id {
      var k :| 0 <= k < |before| && before[k] == x && forall j :: k < j < |before| ==> before[j].id != x.id;
      assert now[k] == x;
      forall j | k < j < |now| ensures now[j].id != x.id {
        assert j < |before| ==> now[j] == before[j];
      }
    } else if IsLatest(x, now) {
      var k :| 0 <= k < |now| && now[k] == x && forall j :: k < j < |now| ==> now[j].id != x.id;
      assert now[|before|] == p;
      assert before[k] == x;
      forall j | k < j < |before| ensures before[j].id != x.id {
        assert now[j] == before[j];
      }
    }
  }

  // ----- aggregation -----

  // A point's coordinates, or a share's value, or neither when the text is no number.
  datatype Nonce<+G> = Nonce(D: Option<G>, E: Option<G>)
  type Response = Option<int>

  datatype ProposalError = NotANumber | NoPublicShare(id: string) | Refused(error: FrostError)

  // `BigInt(id)`, which throws for some texts and maps several texts to one number ("1" and "01").
  type IdOf = string -> Option<int>

  predicate ReadableNonce<G>(n: Opened<Nonce<G>>, idOf: IdOf) {
    idOf(n.id).Some? && n.body.D.Some? && n.body.E.Some?
  }

  predicate Readable<G>(nonces: seq<Opened<Nonce<G>>>, idOf: IdOf) {
    forall i :: 0 <= i < |nonces| ==> ReadableNonce(nonces[i], idOf)
  }

  function CommitmentsOf<G>(nonces: seq<Opened<Nonce<G>>>, idOf: IdOf): (r: seq<Commitment<G>>)
    requires Readable(nonces, idOf)
    ensures |r| == |nonces|
  {
    seq(|nonces|, i requires 0 <= i < |nonces| =>
      Commitment(idOf(nonces[i].id).value, nonces[i].body.D.value, nonces[i].body.E.value))
  }

  predicate UsableShare<G>(s: Opened<Response>, idOf: IdOf, publicShares: map<string, G>) {
    s.id in publicShares && idOf(s.id).Some? && s.body.Some?
  }

  predicate Usable<G>(shares: seq<Opened<Response>>, idOf: IdOf, publicShares: map<string, G>) {
    forall i :: 0 <= i < |shares| ==> UsableShare(shares[i], idOf, publicShares)
  }

  function PartialsOf<G>(shares: seq<Opened<Response>>, idOf: IdOf, publicShares: map<string, G>): (r: seq<Partial<G>>)
    requires Usable(shares, idOf, publicShares)
    ensures |r| == |shares|
  {
    seq(|shares|, i requires 0 <= i < |shares| =>
      Partial(idOf(shares[i].id).value, shares[i].body.value, publicShares[shares[i].id]))
  }

  // The first entry that stops the aggregation decides the error.
  function FirstFault<G>(shares: seq<Opened<Response>>, idOf: IdOf,
                         publicShares: map<string, G>): Option<ProposalError> {
    if shares == [] then None
    else if shares[0].id !in publicShares then Some(NoPublicShare(shares[0].id))
    else if !UsableShare(shares[0], idOf, publicShares) then Some(NotANumber)
    else FirstFault(shares[1..], idOf, publicShares)
  }

  // The fault is that of the first unusable entry.
  lemma {:induction false} FirstFaultIs<G(!new)>(shares: seq<Opened<Response>>, idOf: IdOf, publicShares: map<string, G>,
                                                 i: nat)
    requires i < |shares| && !UsableShare(shares[i], idOf, publicShares)
    requires forall j :: 0 <= j < i ==> UsableShare(shares[j], idOf, publicShares)
    ensures FirstFault(shares, idOf, publicShares)
            == Some(if shares[i].id !in publicShares then NoPublicShare(shares[i].id) else NotANumber)
  {
    if i > 0 {
      FirstFaultIs(shares[1..], idOf, publicShares, i - 1);
    }
  }

  lemma {:induction false} FaultlessIsUsable<G>(shares: seq<Opened<Response>>, idOf: IdOf, publicShares: map<string, G>)
    ensures FirstFault(shares, idOf, publicShares).None? <==> Usable(shares, idOf, publicShares)
  {
    if shares != [] {
      assert shares == [shares[0]] + shares[1..];
      FaultlessIsUsable(shares[1..], idOf, publicShares);
    }
  }

  method AggregateProposal<G(==,!new)>(cs: Ciphersuite<G>, nonceEnvelopes: seq<Posted<Nonce<G>>>,
                                       shareEnvelopes: seq<Posted<Response>>, proposalId: string, idOf: IdOf, gpk: G,
                                       msg: Msg, threshold: nat, publicShares: map<string, G>)
      returns (r: Result<Signature<G>, ProposalError>)
    requires cs.order > 0
    ensures var nonces := ById(Matching(nonceEnvelopes, "nonce", proposalId));
            var shares := ById(Matching(shareEnvelopes, "share", proposalId));
            if !Readable(nonces, idOf) then r == Err(NotANumber)
            else if !Usable(shares, idOf, publicShares) then r.Err? && FirstFault(shares, idOf, publicShares) == Some(r.error)
            else
              var commitments, partials := CommitmentsOf(nonces, idOf), PartialsOf(shares, idOf, publicShares);
              && (r.Ok? <==> Accepted(cs, gpk, msg, commitments, partials, threshold))
              && (r.Ok? ==> r.value == Combined(cs, gpk, msg, commitments, partials))
              && (r.Err? ==> r.error.Refused? && Refusal(cs, gpk, msg, commitments, partials, threshold, r.error.error))
  {
    hide Checks, SessionR, Rhos, GroupR, ById, Matching, Blamed;
    var nonces := DecodeUnique(nonceEnvelopes, "nonce", proposalId);
    for i := 0 to |nonces|
      invariant forall j :: 0 <= j < i ==> ReadableNonce(nonces[j], idOf)
    {
      if !ReadableNonce(nonces[i], idOf) { return Err(NotANumber); }
    }
    var commitments := CommitmentsOf(nonces, idOf);
    var shares := DecodeUnique(shareEnvelopes, "share", proposalId);
    FaultlessIsUsable(shares, idOf, publicShares);
    for i := 0 to |shares|
      invariant forall j :: 0 <= j < i ==> UsableShare(shares[j], idOf, publicShares)
      invariant FirstFault(shares, idOf, publicShares) == FirstFault(shares[i..], idOf, publicShares)
    {
      var s := shares[i];
      assert shares[i..][0] == s && shares[i..][1..] == shares[i + 1..];
      if s.id !in publicShares { return Err(NoPublicShare(s.id)); }
      if idOf(s.id).None? || s.body.None? { return Err(NotANumber); }
    }
    var partials := PartialsOf(shares, idOf, publicShares);
    var rhos := BindingFactors(cs, gpk, msg, commitments);
    var R := GroupCommitment(cs, commitments, rhos);
    GroupRIsSessionR(cs, gpk, msg, commitments);
    var signature := CoordinatorAggregate(cs, R.value, gpk, msg, commitments, partials, threshold);
    r := if signature.Ok? then Ok(signature.value) else Err(Refused(signature.error));
  }

  ghost predicate Accepted<G(!new)>(cs: Ciphersuite<G>, gpk: G, msg: Msg, commitments: seq<Commitment<G>>,
                                    partials: seq<Partial<G>>, threshold: nat)
    requires cs.order > 0
  {
    DistinctIds(partials) && |partials| >= threshold && forall i :: 0 <= i < |partials| ==> Checks(cs, partials[i], gpk, msg, commitments)
  }

  ghost function Combined<G(!new)>(cs: Ciphersuite<G>, gpk: G, msg: Msg, commitments: seq<Commitment<G>>,
                                   partials: seq<Partial<G>>): Signature<G>
    requires cs.order > 0
  {
    Signature(SessionR(cs, gpk, msg, commitments), SumMod(Zs(partials), cs.order))
  }

  // The group the public shares belong to: they lie on f in the exponent, and f(0) is the group key.
  ghost predicate SharesOfGroup<G(!new)>(cs: Ciphersuite<G>, f: seq<int>, gpk: G, idOf: IdOf,
                                         publicShares: map<string, G>) {
    && gpk == cs.Base(Eval(f, 0))
    && forall id :: id in publicShares && idOf(id).Some? ==> publicShares[id] == cs.Base(Eval(f, idOf(id).value))
  }

  lemma NoMorePartials<G(!new)>(cs: Ciphersuite<G>, f: seq<int>, gpk: G, msg: Msg, commitments: seq<Commitment<G>>,
                                partials: seq<Partial<G>>)
    requires Lawful(cs) && DistinctMod(Ids(commitments), cs.order) && DistinctIds(partials)
    requires AllCheck(cs, f, gpk, msg, commitments, partials)
    ensures |partials| <= |commitments|
  {
    hide IsAbelian, IsLinear, IsPrime, SessionR, Rhos, Eval, Checks, Contribution, DistinctMod, SumOver, AllCheck, Find;
    PrimeIsPositive(cs.order);
    AggregateSums(cs, f, gpk, msg, commitments, partials);
    DistinctIdsMeans(commitments, cs.order);
    AnsweredAndUnanswered(commitments, partials);
    assert |multiset(commitments)| == |commitments|;
    var all := Answered(commitments, partials) + Unanswered(commitments, partials);
    assert |multiset(all)| == |all|;
  }

  // An aggregate over checked shares verifies exactly when the commitments without a share cancel out; with
  // a share for every commitment it always does. Neither the share values nor who posted them matter.
  lemma ProposalVerifiesIff<G(!new)>(cs: Ciphersuite<G>, f: seq<int>, gpk: G, msg: Msg, nonces: seq<Opened<Nonce<G>>>,
                                     shares: seq<Opened<Response>>, idOf: IdOf, publicShares: map<string, G>, threshold: nat)
    requires Lawful(cs) && SharesOfGroup(cs, f, gpk, idOf, publicShares) && Readable(nonces, idOf)
    requires Usable(shares, idOf, publicShares)
    requires var commitments := CommitmentsOf(nonces, idOf);
      && |f| <= threshold && threshold > 0 && DistinctMod(Ids(commitments), cs.order)
      && Accepted(cs, gpk, msg, commitments, PartialsOf(shares, idOf, publicShares), threshold)
    ensures var commitments, partials := CommitmentsOf(nonces, idOf), PartialsOf(shares, idOf, publicShares);
      var c := cs.Challenge(SessionR(cs, gpk, msg, commitments), gpk, msg);
      && (Verify(cs, gpk, msg, Combined(cs, gpk, msg, commitments, partials)) <==>
          SumOver(cs, Contribution(cs, Rhos(cs, gpk, msg, commitments), c, Ids(commitments), f), Unanswered(commitments, partials))
          == cs.identity)
      && ((forall i :: 0 <= i < |nonces| ==> HasEntry(nonces[i].id, shares)) ==>
          Verify(cs, gpk, msg, Combined(cs, gpk, msg, commitments, partials)))
  {
    hide IsAbelian, IsLinear, IsPrime, SessionR, Rhos, Eval, Checks, Contribution, DistinctMod, Verify, SumOver;
    PrimeIsPositive(cs.order);
    var commitments, partials := CommitmentsOf(nonces, idOf), PartialsOf(shares, idOf, publicShares);
    assert AllCheck(cs, f, gpk, msg, commitments, partials);
    NoMorePartials(cs, f, gpk, msg, commitments, partials);
    AggregateVerifiesIff(cs, f, gpk, msg, commitments, partials);
    if forall i :: 0 <= i < |nonces| ==> HasEntry(nonces[i].id, shares) {
      forall c | c in commitments ensures IsAnswered(c, partials) {
        var i :| 0 <= i < |commitments| && commitments[i] == c;
        var j :| 0 <= j < |shares| && shares[j].id == nonces[i].id;
        assert partials[j].id == c.id;
      }
      FullAggregateVerifies(cs, f, gpk, msg, commitments, partials);
    }
  }

  // ----- completeness -----

  // The nonce a signer posts, and the share it posts for these commitments.
  ghost predicate PostsNonce<G(!new)>(cs: Ciphersuite<G>, s: Signer, m: Opened<Nonce<G>>, idOf: IdOf) {
    idOf(m.id) == Some(s.id) && m.body == Nonce(Some(cs.Base(s.nonces.d)), Some(cs.Base(s.nonces.e)))
  }

  ghost predicate PostsShare<G(!new)>(cs: Ciphersuite<G>, s: Signer, m: Opened<Response>, gpk: G, msg: Msg,
                                      commitments: seq<Commitment<G>>)
    requires cs.order > 0
  {
    m.body.Some? && SignShare(cs, s.id, s.nonces, s.secret, gpk, msg, commitments) == Ok(m.body.value)
  }

  ghost predicate AllPostNonces<G(!new)>(cs: Ciphersuite<G>, signers: seq<Signer>, nonces: seq<Opened<Nonce<G>>>, idOf: IdOf) {
    |nonces| == |signers| && forall i :: 0 <= i < |signers| ==> PostsNonce(cs, signers[i], nonces[i], idOf)
  }

  lemma NoncesAreCommitments<G(!new)>(cs: Ciphersuite<G>, signers: seq<Signer>, nonces: seq<Opened<Nonce<G>>>, idOf: IdOf)
    requires AllPostNonces(cs, signers, nonces, idOf)
    ensures Readable(nonces, idOf) && CommitmentsOf(nonces, idOf) == SessionCommitments(cs, signers)
  {
    forall i | 0 <= i < |signers| ensures ReadableNonce(nonces[i], idOf) {
      assert PostsNonce(cs, signers[i], nonces[i], idOf);
    }
    assert Readable(nonces, idOf);
    forall i | 0 <= i < |signers| ensures CommitmentsOf(nonces, idOf)[i] == SessionCommitments(cs, signers)[i] {
      assert PostsNonce(cs, signers[i], nonces[i], idOf);
    }
  }

  // Under whatever id its text spells, an honest signer's share is usable and checks.
  lemma HonestEntryChecks<G(!new)>(cs: Ciphersuite<G>, f: seq<int>, gpk: G, msg: Msg, signers: seq<Signer>, i: nat,
                                   m: Opened<Response>, idOf: IdOf, publicShares: map<string, G>)
    requires Lawful(cs) && i < |signers| && SharesOn(f, signers, cs.order)
    requires DistinctMod(Ids(SessionCommitments(cs, signers)), cs.order)
    requires idOf(m.id) == Some(signers[i].id) && m.id in publicShares && publicShares[m.id] == cs.Base(Eval(f, signers[i].id))
    requires PostsShare(cs, signers[i], m, gpk, msg, SessionCommitments(cs, signers))
    ensures UsableShare(m, idOf, publicShares)
    ensures Checks(cs, Partial(signers[i].id, m.body.value, publicShares[m.id]), gpk, msg, SessionCommitments(cs, signers))
  {
    hide Cong, IsAbelian, IsLinear, IsPrime, SignShare, ShareCheck, Eval, DistinctMod;
    PrimeIsPositive(cs.order);
    var s := signers[i];
    HonestShareChecks(cs, i, s.nonces, s.secret, gpk, msg, SessionCommitments(cs, signers));
    BaseRespectsCong(cs, s.secret, Eval(f, s.id));
  }

  // Which signer an entry comes from.
  ghost predicate HonestEntry<G(!new)>(cs: Ciphersuite<G>, gpk: G, msg: Msg, signers: seq<Signer>, i: nat,
                                       nonces: seq<Opened<Nonce<G>>>, m: Opened<Response>)
    requires cs.order > 0 && |nonces| == |signers|
  {
    i < |signers| && m.id == nonces[i].id && PostsShare(cs, signers[i], m, gpk, msg, SessionCommitments(cs, signers))
  }

  // Honest signers' messages, in whatever order they arrive: the proposal is aggregated once the threshold is met,
  // and the signature is valid when all who committed have answered.
  lemma HonestProposalVerifies<G(!new)>(cs: Ciphersuite<G>, f: seq<int>, gpk: G, msg: Msg, signers: seq<Signer>,
                                        nonces: seq<Opened<Nonce<G>>>, shares: seq<Opened<Response>>, idOf: IdOf,
                                        publicShares: map<string, G>, threshold: nat)
    requires Lawful(cs) && SharesOfGroup(cs, f, gpk, idOf, publicShares) && AllPostNonces(cs, signers, nonces, idOf)
    requires DistinctMod(Ids(SessionCommitments(cs, signers)), cs.order) && SharesOn(f, signers, cs.order)
    requires |f| <= threshold && 0 < threshold <= |shares| && DistinctTexts(shares)
    requires forall i :: 0 <= i < |nonces| ==> nonces[i].id in publicShares
    requires forall j :: 0 <= j < |shares| ==> exists i: nat :: HonestEntry(cs, gpk, msg, signers, i, nonces, shares[j])
    ensures Readable(nonces, idOf) && Usable(shares, idOf, publicShares)
    ensures var commitments, partials := CommitmentsOf(nonces, idOf), PartialsOf(shares, idOf, publicShares);
      && Accepted(cs, gpk, msg, commitments, partials, threshold)
      && ((forall i :: 0 <= i < |nonces| ==> HasEntry(nonces[i].id, shares)) ==>
          Verify(cs, gpk, msg, Combined(cs, gpk, msg, commitments, partials)))
  {
    hide Cong, IsAbelian, IsLinear, IsPrime, SignShare, Checks, Eval, DistinctMod, SharesOn, Verify, SessionR, PostsShare, Combined;
    PrimeIsPositive(cs.order);
    var commitments := SessionCommitments(cs, signers);
    NoncesAreCommitments(cs, signers, nonces, idOf);
    DistinctIdsMeans(commitments, cs.order);
    forall j | 0 <= j < |shares|
      ensures UsableShare(shares[j], idOf, publicShares)
      ensures Checks(cs, Partial(idOf(shares[j].id).value, shares[j].body.value, publicShares[shares[j].id]), gpk, msg, commitments)
    {
      var i: nat :| HonestEntry(cs, gpk, msg, signers, i, nonces, shares[j]);
      assert PostsNonce(cs, signers[i], nonces[i], idOf);
      HonestEntryChecks(cs, f, gpk, msg, signers, i, shares[j], idOf, publicShares);
    }
    var partials := PartialsOf(shares, idOf, publicShares);
    forall j, k | 0 <= j < k < |partials| ensures partials[j].id != partials[k].id {
      var a: nat :| HonestEntry(cs, gpk, msg, signers, a, nonces, shares[j]);
      var b: nat :| HonestEntry(cs, gpk, msg, signers, b, nonces, shares[k]);
      assert PostsNonce(cs, signers[a], nonces[a], idOf) && PostsNonce(cs, signers[b], nonces[b], idOf);
      assert a != b;
      assert commitments[a].id != commitments[b].id;
    }
    ProposalVerifiesIff(cs, f, gpk, msg, nonces, shares, idOf, publicShares, threshold);
  }
}
