/** Sums of group elements over commitment lists: concatenation, order independence, termwise addition. */
module GroupSums {
  import opened Ciphersuites
  import opened Frost

  lemma {:induction false} SumConcat<G(!new)>(cs: Ciphersuite<G>, f: Commitment<G> -> G, a: seq<Commitment<G>>,
                                              b: seq<Commitment<G>>)
    requires IsAbelian(cs)
    ensures SumOver(cs, f, a + b) == cs.Add(SumOver(cs, f, a), SumOver(cs, f, b))
  {
    hide IsAbelian;
    if b == [] {
      assert a + b == a;
      AddIdentity(cs, SumOver(cs, f, a));
    } else {
      var n := |b| - 1;
      SumConcat(cs, f, a, b[..n]);
      assert (a + b)[..|a + b| - 1] == a + b[..n];
      AddAssociates(cs, SumOver(cs, f, a), SumOver(cs, f, b[..n]), f(b[n]));
    }
  }

  lemma SumCons<G(!new)>(cs: Ciphersuite<G>, f: Commitment<G> -> G, x: Commitment<G>, s: seq<Commitment<G>>)
    requires IsAbelian(cs)
    ensures SumOver(cs, f, [x] + s) == cs.Add(f(x), SumOver(cs, f, s))
  {
    SumSingle(cs, f, x);
    hide IsAbelian, SumOver;
    SumConcat(cs, f, [x], s);
  }

  lemma SumSingle<G(!new)>(cs: Ciphersuite<G>, f: Commitment<G> -> G, x: Commitment<G>)
    requires IsAbelian(cs)
    ensures SumOver(cs, f, [x]) == f(x)
  {
    hide IsAbelian;
    AddIdentity(cs, f(x));
    assert [x][..0] == [];
  }

  lemma TakeOut<G(!new)>(s: seq<Commitment<G>>, k: nat)
    requires k < |s|
    ensures multiset(s[..k] + s[k + 1..]) == multiset(s) - multiset{s[k]}
  {
    assert s == s[..k] + [s[k]] + s[k + 1..];
  }

  // Two lists with the same commitments, in any order, have the same sum.
  lemma {:induction false} SumPermutes<G(!new)>(cs: Ciphersuite<G>, f: Commitment<G> -> G, a: seq<Commitment<G>>,
                                                b: seq<Commitment<G>>)
    requires IsAbelian(cs) && multiset(a) == multiset(b)
    ensures SumOver(cs, f, a) == SumOver(cs, f, b)
    decreases |a|
  {
    hide IsAbelian, SumOver;
    if a == [] {
      assert |multiset(b)| == 0;
      assert b == [];
    } else {
      var x, rest := a[0], a[1..];
      assert a == [x] + rest;
      assert x in multiset(b);
      var k :| 0 <= k < |b| && b[k] == x;
      assert b == b[..k] + ([x] + b[k + 1..]);
      TakeOut(a, 0);
      TakeOut(b, k);
      assert a[..0] + a[1..] == rest;
      SumPermutes(cs, f, rest, b[..k] + b[k + 1..]);
      SumCons(cs, f, x, rest);
      SumConcat(cs, f, b[..k], [x] + b[k + 1..]);
      SumCons(cs, f, x, b[k + 1..]);
      SumConcat(cs, f, b[..k], b[k + 1..]);
      MoveToFront(cs, f(x), SumOver(cs, f, b[..k]), SumOver(cs, f, b[k + 1..]));
    }
  }

  lemma MoveToFront<G(!new)>(cs: Ciphersuite<G>, x: G, p: G, q: G)
    requires IsAbelian(cs)
    ensures cs.Add(x, cs.Add(p, q)) == cs.Add(p, cs.Add(x, q))
  {
    hide IsAbelian;
    AddAssociates(cs, x, p, q);
    AddAssociates(cs, p, x, q);
    AddCommutes(cs, x, p);
  }

  ghost predicate NoDuplicates<G(!new)>(s: seq<Commitment<G>>) {
    forall i, j :: 0 <= i < j < |s| ==> s[i].id != s[j].id
  }

  lemma {:induction false} AtMostOnce<G(!new)>(s: seq<Commitment<G>>, x: Commitment<G>)
    requires NoDuplicates(s)
    ensures multiset(s)[x] == if x in s then 1 else 0
  {
    if s != [] {
      AtMostOnce(s[1..], x);
      assert s == [s[0]] + s[1..];
    }
  }

  lemma SameElementsSameMultiset<G(!new)>(a: seq<Commitment<G>>, b: seq<Commitment<G>>)
    requires NoDuplicates(a) && NoDuplicates(b) && forall x :: x in a <==> x in b
    ensures multiset(a) == multiset(b)
  {
    hide NoDuplicates;
    forall x ensures multiset(a)[x] == multiset(b)[x] {
      AtMostOnce(a, x);
      AtMostOnce(b, x);
    }
  }
}
