/** Sums over sequences of naturals, for wait groups, semaphores and termination measures. */
module Counting {

  function Sum(s: seq<nat>): nat {
    if s == [] then 0 else Sum(s[..|s| - 1]) + s[|s| - 1]
  }

  lemma {:induction false} SumUpdate(s: seq<nat>, i: nat, v: nat)
    requires i < |s|
    ensures Sum(s[i := v]) == Sum(s) - s[i] + v
  {
    var n := |s| - 1;
    if i < n {
      assert s[i := v][..n] == s[..n][i := v];
      SumUpdate(s[..n], i, v);
    } else {
      assert s[i := v][..n] == s[..n];
    }
  }

  lemma {:induction false} SumBounds(s: seq<nat>, i: nat)
    requires i < |s|
    ensures s[i] <= Sum(s)
  {
    var n := |s| - 1;
    if i < n { SumBounds(s[..n], i); }
  }

  lemma SumZero(s: seq<nat>)
    ensures Sum(s) == 0 ==> forall i | 0 <= i < |s| :: s[i] == 0
  {
    forall i | 0 <= i < |s| && Sum(s) == 0 ensures s[i] == 0 { SumBounds(s, i); }
  }

  lemma {:induction false} SumNonzero(s: seq<nat>)
    requires Sum(s) > 0
    ensures exists i :: 0 <= i < |s| && s[i] > 0
  {
    var n := |s| - 1;
    if s[n] == 0 {
      SumNonzero(s[..n]);
      var i :| 0 <= i < n && s[..n][i] > 0;
      assert s[i] > 0;
    }
  }
}
