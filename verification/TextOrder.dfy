/** The order in which a std::set or std::map with string keys is walked: octet by octet, unsigned. */
module TextOrder {
  import opened Octets

  predicate Less(a: Text, b: Text)
    decreases |a|
  {
    b != [] && (a == [] || a[0] < b[0] || (a[0] == b[0] && Less(a[1..], b[1..])))
  }

  lemma {:induction false} Irreflexive(a: Text)
    ensures !Less(a, a)
    decreases |a|
  {
    if a != [] {
      Irreflexive(a[1..]);
    }
  }

  lemma {:induction false} Transitive(a: Text, b: Text, c: Text)
    requires Less(a, b) && Less(b, c)
    ensures Less(a, c)
    decreases |a|
  {
    if a != [] && a[0] == b[0] == c[0] {
      Transitive(a[1..], b[1..], c[1..]);
    }
  }

  lemma {:induction false} Connected(a: Text, b: Text)
    ensures a == b || Less(a, b) || Less(b, a)
    decreases |a|
  {
    if a != [] && b != [] && a[0] == b[0] {
      Connected(a[1..], b[1..]);
      assert a == a[..1] + a[1..] && b == b[..1] + b[1..];
    }
  }

  predicate LeastIn(m: Text, s: set<Text>) {
    m in s && forall x :: x in s && x != m ==> Less(m, x)
  }

  lemma {:induction false} HasLeast(s: set<Text>)
    requires s != {}
    ensures exists m :: LeastIn(m, s)
    decreases |s|
  {
    hide Less;
    var a :| a in s;
    var rest := s - {a};
    assert forall x :: x in s && x != a ==> x in rest;
    if rest == {} {
      assert LeastIn(a, s);
    } else {
      HasLeast(rest);
      var b :| LeastIn(b, rest);
      Connected(a, b);
      if Less(a, b) {
        forall x | x in s && x != a
          ensures Less(a, x)
        {
          if x != b {
            Transitive(a, b, x);
          }
        }
        assert LeastIn(a, s);
      } else {
        assert LeastIn(b, s);
      }
    }
  }

  lemma LeastIsOne(m: Text, n: Text, s: set<Text>)
    requires LeastIn(m, s) && LeastIn(n, s)
    ensures m == n
  {
    hide Less;
    if m != n {
      Transitive(m, n, m);
      Irreflexive(m);
    }
  }

  predicate Ascending(r: seq<Text>) {
    forall i, j :: 0 <= i < j < |r| ==> Less(r[i], r[j])
  }

  /** The elements of `s`, each once, in this order. */
  ghost function Sorted(s: set<Text>): (r: seq<Text>)
    ensures |r| == |s| && Ascending(r)
    ensures forall x :: x in r <==> x in s
  {
    if s == {} then []
    else
      HasLeast(s);
      var m :| LeastIn(m, s);
      var rest := Sorted(s - {m});
      assert forall x :: x in s <==> x == m || x in rest;
      assert forall x :: x in rest ==> Less(m, x);
      [m] + rest
  }

  lemma SortedStep(s: set<Text>, m: Text)
    requires LeastIn(m, s)
    ensures Sorted(s) == [m] + Sorted(s - {m})
  {
    hide Less;
    var n :| LeastIn(n, s) && Sorted(s) == [n] + Sorted(s - {n});
    LeastIsOne(m, n, s);
  }

  lemma SortedDistinct(s: set<Text>, i: nat, j: nat)
    requires i < j < |Sorted(s)|
    ensures Sorted(s)[i] != Sorted(s)[j]
  {
    Irreflexive(Sorted(s)[i]);
  }
}
