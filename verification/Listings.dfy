/** Duplicate-free listings of a set: what iterating a table or a map yields, in whatever order. */
module Listings {

  ghost predicate Distinct<T(!new)>(s: seq<T>) {
    forall i, j | 0 <= i < j < |s| :: s[i] != s[j]
  }

  ghost predicate Lists<T(!new)>(s: seq<T>, all: set<T>) {
    Distinct(s) && forall x :: x in s <==> x in all
  }

  lemma ListsAppend<T(!new)>(s: seq<T>, all: set<T>, x: T)
    requires Lists(s, all) && x !in all
    ensures Lists(s + [x], all + {x})
  {
    assert forall y :: y in s + [x] <==> y in s || y == x;
  }

  lemma ListsConcat<T(!new)>(a: seq<T>, b: seq<T>, all: set<T>, more: set<T>)
    requires Lists(a, all) && Lists(b, more) && all !! more
    ensures Lists(a + b, all + more)
  {
    forall i, j | 0 <= i < j < |a + b| ensures (a + b)[i] != (a + b)[j] {
      if i < |a| <= j {
        assert a[i] in all && b[j - |a|] in more;
      }
    }
    assert forall x :: x in a + b <==> x in a || x in b;
  }

  /** Walks a set in an arbitrary order. */
  method Enumerate<T(!new)(==)>(all: set<T>) returns (s: seq<T>)
    ensures Lists(s, all)
  {
    s := [];
    var rest := all;
    while rest != {}
      invariant rest <= all && Lists(s, all - rest)
      decreases rest
    {
      var x :| x in rest;
      ListsAppend(s, all - rest, x);
      assert all - (rest - {x}) == all - rest + {x};
      s, rest := s + [x], rest - {x};
    }
    assert all - rest == all;
  }

  lemma {:induction false} ListsSize<T(!new)>(s: seq<T>, all: set<T>)
    requires Lists(s, all)
    ensures |s| == |all|
  {
    if s == [] {
      assert all == {};
    } else {
      var n := |s| - 1;
      assert s == s[..n] + [s[n]];
      assert forall y :: y in s <==> y in s[..n] || y == s[n];
      ListsSize(s[..n], all - {s[n]});
    }
  }
}
