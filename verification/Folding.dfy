/** Multiset sums over a sequence, and why the order of the sequence does not matter to them. */
module Folding {

  ghost function Gather<A, B>(s: seq<A>, f: A -> multiset<B>): multiset<B> {
    if s == [] then multiset{} else Gather(s[..|s| - 1], f) + f(s[|s| - 1])
  }

  lemma {:induction false} GatherConcat<A, B>(s: seq<A>, t: seq<A>, f: A -> multiset<B>)
    ensures Gather(s + t, f) == Gather(s, f) + Gather(t, f)
  {
    if t == [] {
      assert s + t == s;
    } else {
      assert (s + t)[..|s + t| - 1] == s + t[..|t| - 1];
      GatherConcat(s, t[..|t| - 1], f);
    }
  }

  lemma GatherOne<A, B>(x: A, f: A -> multiset<B>)
    ensures Gather([x], f) == f(x)
  {
    assert [x][..0] == [];
  }

  /** Taking one element out, wherever it stands. */
  lemma GatherWithout<A, B>(t: seq<A>, i: nat, f: A -> multiset<B>)
    requires i < |t|
    ensures Gather(t, f) == Gather(t[..i] + t[i + 1..], f) + f(t[i])
    ensures multiset(t) == multiset(t[..i] + t[i + 1..]) + multiset{t[i]}
  {
    assert t == t[..i] + [t[i]] + t[i + 1..];
    GatherConcat(t[..i], t[i + 1..], f);
    GatherConcat(t[..i], [t[i]], f);
    GatherConcat(t[..i] + [t[i]], t[i + 1..], f);
    GatherOne(t[i], f);
  }

  lemma {:induction false} GatherPermuted<A, B>(s: seq<A>, t: seq<A>, f: A -> multiset<B>)
    requires multiset(s) == multiset(t)
    ensures Gather(s, f) == Gather(t, f)
  {
    if s == [] {
      assert |multiset(t)| == 0;
    } else {
      var init, x := s[..|s| - 1], s[|s| - 1];
      assert s == init + [x] && x in s && x in multiset(t);
      var i :| 0 <= i < |t| && t[i] == x;
      var rest := t[..i] + t[i + 1..];
      GatherWithout(t, i, f);
      hide Gather;
      assert multiset(s) == multiset(init) + multiset{x};
      Cancel(multiset(init), multiset(rest), multiset{x});
      GatherPermuted(init, rest, f);
      LastGathered(s, f);
    }
  }

  lemma Cancel<A>(a: multiset<A>, b: multiset<A>, c: multiset<A>)
    requires a + c == b + c
    ensures a == b
  {
    assert a == a + c - c && b == b + c - c;
  }

  lemma LastGathered<A, B>(s: seq<A>, f: A -> multiset<B>)
    requires s != []
    ensures Gather(s, f) == Gather(s[..|s| - 1], f) + f(s[|s| - 1])
  {
  }

  /** Two ways to collect the same contributions. */
  lemma {:induction false} GatherSame<A, B>(s: seq<A>, f: A -> multiset<B>, g: A -> multiset<B>)
    requires forall x | x in s :: f(x) == g(x)
    ensures Gather(s, f) == Gather(s, g)
  {
    if s != [] {
      assert s[|s| - 1] in s;
      assert forall x | x in s[..|s| - 1] :: x in s;
      GatherSame(s[..|s| - 1], f, g);
    }
  }
}
