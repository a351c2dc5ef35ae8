/** The order in which a std::map or std::set with integer keys is walked. */
module Listing {

  lemma {:induction false} HasLeast(s: set<nat>, a: nat)
    requires a in s
    ensures exists m :: m in s && forall x :: x in s ==> m <= x
    decreases a
  {
    if x :| x in s && x < a {
      HasLeast(s, x);
    } else {
      assert forall x :: x in s ==> a <= x;
    }
  }

  function Least(s: set<nat>): (m: nat)
    requires s != {}
    ensures m in s && forall x :: x in s ==> m <= x
  {
    assert exists m :: m in s && forall x :: x in s ==> m <= x by {
      var a :| a in s;
      HasLeast(s, a);
    }
    var m :| m in s && forall x :: x in s ==> m <= x;
    m
  }

  predicate StrictlyAscending(r: seq<nat>) {
    forall i, j :: 0 <= i < j < |r| ==> r[i] < r[j]
  }

  /** The elements of `s`, each once, in ascending order. */
  function Ascending(s: set<nat>): (r: seq<nat>)
    ensures forall x :: x in r <==> x in s
    ensures StrictlyAscending(r)
  {
    if s == {} then []
    else
      var m := Least(s);
      var rest := Ascending(s - {m});
      assert forall x :: x in s <==> x == m || x in rest;
      assert forall x :: x in rest ==> m < x;
      [m] + rest
  }
}
