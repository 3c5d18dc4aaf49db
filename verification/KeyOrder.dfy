/** The least and greatest key of a table. */
module KeyOrder {

  function Least(keys: set<nat>): (k: nat)
    requires keys != {}
    ensures k in keys && forall j :: j in keys ==> k <= j
  {
    KeysHaveMin(keys);
    var k :| k in keys && forall j :: j in keys ==> k <= j;
    k
  }

  lemma KeysHaveMin(keys: set<nat>)
    requires keys != {}
    ensures exists k :: k in keys && forall j :: j in keys ==> k <= j
  {
    var k := FindLeast(keys);
  }

  lemma {:induction false} FindLeast(keys: set<nat>) returns (least: nat)
    requires keys != {}
    ensures least in keys && forall j :: j in keys ==> least <= j
  {
    var x :| x in keys;
    var others := keys - {x};
    least := x;
    if others != {} {
      var k := FindLeast(others);
      least := if k < x then k else x;
    }
    forall j | j in keys ensures least <= j {
      assert j == x || j in others;
    }
  }

  function Greatest(keys: set<nat>): (k: nat)
    requires keys != {}
    ensures k in keys && forall j :: j in keys ==> j <= k
  {
    KeysHaveMax(keys);
    var k :| k in keys && forall j :: j in keys ==> j <= k;
    k
  }

  lemma KeysHaveMax(keys: set<nat>)
    requires keys != {}
    ensures exists k :: k in keys && forall j :: j in keys ==> j <= k
  {
    var k := FindGreatest(keys);
  }

  lemma {:induction false} FindGreatest(keys: set<nat>) returns (greatest: nat)
    requires keys != {}
    ensures greatest in keys && forall j :: j in keys ==> j <= greatest
  {
    var x :| x in keys;
    var others := keys - {x};
    greatest := x;
    if others != {} {
      var k := FindGreatest(others);
      greatest := if k < x then x else k;
    }
    forall j | j in keys ensures j <= greatest {
      assert j == x || j in others;
    }
  }
}
