/** The order in which commitments arrive does not matter: everyone who holds the same set signs and checks
    the same thing. */
module SigningOrder {
  import opened Modular
  import opened Lagrange
  import opened Ciphersuites
  import opened Frost
  import opened GroupSums

  // ----- sorting by id -----

  ghost predicate Ascending<G(!new)>(s: seq<Commitment<G>>) {
    forall i, j :: 0 <= i < j < |s| ==> s[i].id <= s[j].id
  }

  lemma {:induction false} InsertAscends<G(!new)>(c: Commitment<G>, s: seq<Commitment<G>>)
    requires Ascending(s)
    ensures Ascending(InsertById(c, s))
  {
    if s != [] && c.id > s[0].id {
      InsertAscends(c, s[1..]);
      var rest := InsertById(c, s[1..]);
      forall j | 0 <= j < |rest| ensures s[0].id <= rest[j].id {
        assert s == [s[0]] + s[1..];
        assert rest[j] in multiset(rest);
        assert rest[j] == c || rest[j] in s[1..];
      }
    }
  }

  lemma {:induction false} SortAscends<G(!new)>(s: seq<Commitment<G>>)
    ensures Ascending(SortById(s))
  {
    if s != [] {
      SortAscends(s[1..]);
      InsertAscends(s[0], SortById(s[1..]));
    }
  }

  lemma DuplicatesPermute<G(!new)>(a: seq<Commitment<G>>, b: seq<Commitment<G>>)
    requires multiset(a) == multiset(b) && NoDuplicates(a)
    ensures NoDuplicates(b)
  {
    forall i, j | 0 <= i < j < |b| ensures b[i].id != b[j].id {
      assert b[i] in multiset(b) && b[j] in multiset(b);
      var k :| 0 <= k < |a| && a[k] == b[i];
      var l :| 0 <= l < |a| && a[l] == b[j];
      if k == l {
        AtMostOnce(a, b[i]);
        TwiceCounted(b, i, j);
      }
    }
  }

  lemma TwiceCounted<G(!new)>(b: seq<Commitment<G>>, i: nat, j: nat)
    requires i < j < |b| && b[i] == b[j]
    ensures multiset(b)[b[i]] >= 2
  {
    assert b == b[..i] + [b[i]] + b[i + 1..j] + [b[j]] + b[j + 1..];
  }

  lemma HeadsAgree<G(!new)>(a: seq<Commitment<G>>, b: seq<Commitment<G>>)
    requires multiset(a) == multiset(b) && Ascending(a) && Ascending(b) && NoDuplicates(b) && a != [] && b != []
    ensures a[0] == b[0]
  {
    assert a[0] in multiset(b) && b[0] in multiset(a);
    var k :| 0 <= k < |b| && b[k] == a[0];
    var l :| 0 <= l < |a| && a[l] == b[0];
    assert a[0].id <= a[l].id && b[0].id <= b[k].id;
  }

  lemma Tail<G(!new)>(a: seq<Commitment<G>>)
    requires a != [] && Ascending(a) && NoDuplicates(a)
    ensures Ascending(a[1..]) && NoDuplicates(a[1..]) && multiset(a[1..]) == multiset(a) - multiset{a[0]}
    ensures a == [a[0]] + a[1..]
  {
    assert a == [a[0]] + a[1..];
  }

  // Two ascending lists of the same commitments with different ids are the same list.
  lemma {:induction false} AscendingIsUnique<G(!new)>(a: seq<Commitment<G>>, b: seq<Commitment<G>>)
    requires multiset(a) == multiset(b) && Ascending(a) && Ascending(b) && NoDuplicates(a) && NoDuplicates(b)
    ensures a == b
  {
    hide Ascending, NoDuplicates;
    assert |multiset(a)| == |a| && |multiset(b)| == |b|;
    if a != [] {
      HeadsAgree(a, b);
      Tail(a);
      Tail(b);
      AscendingIsUnique(a[1..], b[1..]);
    }
  }

  lemma SortedAlike<G(!new)>(a: seq<Commitment<G>>, b: seq<Commitment<G>>)
    requires multiset(a) == multiset(b) && NoDuplicates(a)
    ensures SortById(a) == SortById(b)
  {
    SortAscends(a);
    SortAscends(b);
    DuplicatesPermute(a, SortById(a));
    DuplicatesPermute(a, SortById(b));
    AscendingIsUnique(SortById(a), SortById(b));
  }

  // ----- binding factors -----

  lemma {:induction false} FactorsAt<G(!new)>(cs: Ciphersuite<G>, gpk: G, msg: Msg, sorted: seq<Commitment<G>>,
                                             part: seq<Commitment<G>>, id: int)
    ensures id in FactorsOf(cs, gpk, msg, sorted, part) <==> id in Ids(part)
    ensures id in Ids(part) ==> FactorsOf(cs, gpk, msg, sorted, part)[id] == cs.BindingFactor(gpk, msg, sorted, id)
  {
    if part != [] {
      var n := |part| - 1;
      FactorsAt(cs, gpk, msg, sorted, part[..n], id);
      assert Ids(part) == Ids(part[..n]) + [part[n].id];
    }
  }

  lemma SameIds<G(!new)>(a: seq<Commitment<G>>, b: seq<Commitment<G>>, id: int)
    requires multiset(a) == multiset(b) && id in Ids(a)
    ensures id in Ids(b)
  {
    var i :| 0 <= i < |a| && Ids(a)[i] == id;
    assert a[i] in multiset(b);
    var j :| 0 <= j < |b| && b[j] == a[i];
    assert Ids(b)[j] == id;
  }

  // Every signer's factor is taken over the whole list of commitments in ascending order of their ids, whatever
  // order they arrived in; and the signers are exactly those who committed.
  lemma FactorsBindTheList<G(!new)>(cs: Ciphersuite<G>, gpk: G, msg: Msg, commitments: seq<Commitment<G>>,
                                    s: seq<Commitment<G>>)
    requires NoDuplicates(commitments) && Ascending(s) && multiset(s) == multiset(commitments)
    ensures forall id :: id in Rhos(cs, gpk, msg, commitments) <==> id in Ids(commitments)
    ensures forall id :: id in Ids(commitments) ==> Rhos(cs, gpk, msg, commitments)[id] == cs.BindingFactor(gpk, msg, s, id)
  {
    hide SortById, FactorsOf, Ids, Ascending, NoDuplicates;
    SortAscends(commitments);
    DuplicatesPermute(commitments, s);
    DuplicatesPermute(commitments, SortById(commitments));
    AscendingIsUnique(SortById(commitments), s);
    forall id ensures id in Rhos(cs, gpk, msg, commitments) <==> id in Ids(commitments)
      ensures id in Ids(commitments) ==> Rhos(cs, gpk, msg, commitments)[id] == cs.BindingFactor(gpk, msg, s, id)
    {
      FactorsAt(cs, gpk, msg, s, s, id);
      if id in Ids(commitments) {
        SameIds(commitments, s, id);
      } else if id in Ids(s) {
        SameIds(s, commitments, id);
      }
    }
  }

  // A share is made exactly for those who committed, provided the coefficient can be inverted.
  lemma SignsIff<G(!new)>(cs: Ciphersuite<G>, id: int, n: Nonces, secret: int, gpk: G, msg: Msg,
                          commitments: seq<Commitment<G>>)
    requires cs.order > 0
    ensures var r, inverts := SignShare(cs, id, n, secret, gpk, msg, commitments), Coefficient(id, Ids(commitments), cs.order).Some?;
      && (r.Ok? <==> inverts && id in Ids(commitments))
      && (r.Err? ==> r.error == if inverts then NotASigner else NoInverse)
  {
    hide SortById, FactorsOf, Ids, Coefficient, SessionR, Response;
    var sorted := SortById(commitments);
    FactorsAt(cs, gpk, msg, sorted, sorted, id);
    if id in Ids(commitments) {
      SameIds(commitments, sorted, id);
    } else if id in Ids(sorted) {
      SameIds(sorted, commitments, id);
    }
  }

  // ----- coefficients -----

  lemma {:induction false} ProductsSkip(id: int, p: seq<int>, x: int, q: seq<int>)
    ensures Num(id, p + [x] + q) == (if x == id then 1 else x) * Num(id, p + q)
    ensures Den(id, p + [x] + q) == (if x == id then 1 else x - id) * Den(id, p + q)
  {
    if p == [] {
      assert p + [x] + q == [x] + q && ([x] + q)[1..] == q && p + q == q;
    } else {
      ProductsSkip(id, p[1..], x, q);
      assert (p + [x] + q)[1..] == p[1..] + [x] + q && (p + q)[1..] == p[1..] + q;
      MulSwap(if p[0] == id then 1 else p[0], if x == id then 1 else x, Num(id, p[1..] + q));
      MulSwap(if p[0] == id then 1 else p[0] - id, if x == id then 1 else x - id, Den(id, p[1..] + q));
    }
  }

  lemma IdsAround<G(!new)>(p: seq<Commitment<G>>, x: Commitment<G>, q: seq<Commitment<G>>)
    ensures Ids(p + [x] + q) == Ids(p) + [x.id] + Ids(q) && Ids(p + q) == Ids(p) + Ids(q)
  {
  }

  // Taking one commitment out divides its factor out.
  lemma ProductsTakeOut<G(!new)>(id: int, s: seq<Commitment<G>>, k: nat)
    requires k < |s|
    ensures var x, others := s[k].id, Ids(s[..k] + s[k + 1..]);
      && Num(id, Ids(s)) == (if x == id then 1 else x) * Num(id, others)
      && Den(id, Ids(s)) == (if x == id then 1 else x - id) * Den(id, others)
  {
    hide Num, Den, Ids;
    assert s == s[..k] + [s[k]] + s[k + 1..];
    IdsAround(s[..k], s[k], s[k + 1..]);
    ProductsSkip(id, Ids(s[..k]), s[k].id, Ids(s[k + 1..]));
  }

  lemma {:induction false} ProductsPermute<G(!new)>(id: int, a: seq<Commitment<G>>, b: seq<Commitment<G>>)
    requires multiset(a) == multiset(b)
    ensures Num(id, Ids(a)) == Num(id, Ids(b)) && Den(id, Ids(a)) == Den(id, Ids(b))
    decreases |a|
  {
    hide Num, Den, Ids;
    assert |multiset(a)| == |a| && |multiset(b)| == |b|;
    if a != [] {
      assert a[0] in multiset(b);
      var k :| 0 <= k < |b| && b[k] == a[0];
      TakeOut(a, 0);
      TakeOut(b, k);
      ProductsTakeOut(id, a, 0);
      ProductsTakeOut(id, b, k);
      ProductsPermute(id, a[..0] + a[1..], b[..k] + b[k + 1..]);
    }
  }

  // ----- the result -----

  lemma FoundAlike<G(!new)>(a: seq<Commitment<G>>, b: seq<Commitment<G>>, id: int)
    requires multiset(a) == multiset(b) && NoDuplicates(a)
    ensures Find(a, id) == Find(b, id)
  {
    SameMembers(a, b);
    var x, y := Find(a, id), Find(b, id);
    if x.Some? && y.Some? {
      var i :| 0 <= i < |a| && a[i] == x.value;
      var j :| 0 <= j < |a| && a[j] == y.value;
    }
  }

  lemma SameMembers<G(!new)>(a: seq<Commitment<G>>, b: seq<Commitment<G>>)
    requires multiset(a) == multiset(b)
    ensures forall c :: c in a <==> c in b
  {
    forall c ensures c in a <==> c in b {
      assert c in a <==> c in multiset(a);
      assert c in b <==> c in multiset(b);
    }
  }

  // Holders of the same commitments, in any order, derive the same binding factors and group commitment,
  // sign alike and judge every share alike.
  lemma OrderDoesNotMatter<G(!new)>(cs: Ciphersuite<G>, a: seq<Commitment<G>>, b: seq<Commitment<G>>, gpk: G, msg: Msg)
    requires cs.order > 0 && multiset(a) == multiset(b) && NoDuplicates(a)
    ensures Rhos(cs, gpk, msg, a) == Rhos(cs, gpk, msg, b) && SessionR(cs, gpk, msg, a) == SessionR(cs, gpk, msg, b)
    ensures forall id, n, secret :: SignShare(cs, id, n, secret, gpk, msg, a) == SignShare(cs, id, n, secret, gpk, msg, b)
    ensures forall id, z, Y :: ShareCheck(cs, id, z, Y, gpk, msg, a) == ShareCheck(cs, id, z, Y, gpk, msg, b)
  {
    hide SortById, FactorsOf, SumOver, Find, Inverse, Ids, ShareEquation, Num, Den;
    SortedAlike(a, b);
    forall id ensures Coefficient(id, Ids(a), cs.order) == Coefficient(id, Ids(b), cs.order) && Find(a, id) == Find(b, id) {
      ProductsPermute(id, a, b);
      FoundAlike(a, b, id);
    }
  }
}
