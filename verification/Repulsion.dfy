/** Node repulsion in the host graph: a spatial hash that looks only at neighbouring cells, against the
    loop over all pairs. Reals stand for floating point; the jitter drawn for coinciding nodes and the
    square root are parameters. Grid cells are named by their pair of coordinates. */
module Repulsion {
  import opened Listings

  datatype Vec = Vec(x: real, y: real)

  /** What a tick reads of a node; `wide` is a subnet or a bucket. */
  datatype Body = Body(key: string, x: real, y: real, r: real, wide: bool, pinned: bool)

  datatype Env = Env(root: real -> real, jitter: (string, string) -> Vec)

  const CELL := 110.0

  ghost predicate IsRoot(root: real -> real) {
    forall x | x > 0.0 :: root(x) > 0.0 && root(x) * root(x) == x
  }

  // ---- the order of keys ----

  predicate Less(a: string, b: string) {
    b != "" && (a == "" || a[0] < b[0] || (a[0] == b[0] && Less(a[1..], b[1..])))
  }

  lemma {:induction false} LessTotal(a: string, b: string)
    ensures !(Less(a, b) && Less(b, a)) && (Less(a, b) || Less(b, a) <==> a != b)
  {
    if a != "" && b != "" && a[0] == b[0] {
      LessTotal(a[1..], b[1..]);
      assert a == [a[0]] + a[1..] && b == [b[0]] + b[1..];
    }
  }

  // ---- one pair ----

  lemma SameHead(a: string, b: string, n: nat)
    requires n <= |a| && n <= |b| && a[..n] == b[..n]
    ensures n > 0 ==> a[0] == b[0]
  {
    if n > 0 { assert a[..n][0] == b[..n][0]; }
  }

  /** The order of texts: by the first character that differs, a prefix first. */
  lemma {:induction false} LessIsLexicographic(a: string, b: string)
    ensures Less(a, b) <==>
            exists i: nat :: i <= |a| && i < |b| && a[..i] == b[..i] && (i == |a| || a[i] < b[i])
  {
    if a != "" && b != "" && a[0] == b[0] {
      LessIsLexicographic(a[1..], b[1..]);
      if i: nat :| i <= |a[1..]| && i < |b[1..]| && a[1..][..i] == b[1..][..i] &&
                   (i == |a[1..]| || a[1..][i] < b[1..][i]) {
        assert a[..i + 1] == [a[0]] + a[1..][..i] && b[..i + 1] == [b[0]] + b[1..][..i];
        assert i + 1 == |a| || a[i + 1] < b[i + 1];
      }
      if j: nat :| j <= |a| && j < |b| && a[..j] == b[..j] && (j == |a| || a[j] < b[j]) {
        assert j > 0;
        var i := j - 1;
        assert a[1..][..i] == a[..j][1..] && b[1..][..i] == b[..j][1..];
        assert i == |a[1..]| || a[1..][i] < b[1..][i];
      }
    } else if Less(a, b) {
      assert a[..0] == b[..0];
    } else if j: nat :| j <= |a| && j < |b| && a[..j] == b[..j] && (j == |a| || a[j] < b[j]) {
      SameHead(a, b, j);
    }
  }

  function MinDist(a: Body, b: Body): real {
    a.r + b.r + if a.wide || b.wide then 70.0 else 24.0
  }

  function Square(a: Body, b: Body): real {
    (a.x - b.x) * (a.x - b.x) + (a.y - b.y) * (a.y - b.y)
  }

  /** The squared distance the force is computed from, never below 0.01. */
  function Distance2(a: Body, b: Body): real {
    if Square(a, b) < 0.01 then 0.01 else Square(a, b)
  }

  predicate Interacts(a: Body, b: Body) {
    Distance2(a, b) < MinDist(a, b) * MinDist(a, b)
  }

  function Offset(a: Body, b: Body, env: Env): Vec {
    if Square(a, b) < 0.01 then env.jitter(a.key, b.key) else Vec(a.x - b.x, a.y - b.y)
  }

  function Push(a: Body, b: Body, env: Env): Vec
    requires env.root(Distance2(a, b)) > 0.0
  {
    var d := env.root(Distance2(a, b));
    var force := (MinDist(a, b) - d) / d * 0.06;
    Vec(Offset(a, b, env).x * force, Offset(a, b, env).y * force)
  }

  lemma RootPositive(a: Body, b: Body, env: Env)
    requires IsRoot(env.root)
    ensures env.root(Distance2(a, b)) > 0.0
  {
  }

  /** The sizes the graph gives its nodes: at most 16, so no pair interacts beyond 102. */
  ghost predicate Sized(bodies: seq<Body>) {
    forall i | 0 <= i < |bodies| :: 0.0 <= bodies[i].r <= 16.0
  }

  ghost predicate UniqueKeys(bodies: seq<Body>) {
    forall i, j | 0 <= i < |bodies| && 0 <= j < |bodies| && bodies[i].key == bodies[j].key :: i == j
  }

  predicate Pair(bodies: seq<Body>, i: nat, j: nat) {
    i < |bodies| && j < |bodies| && Less(bodies[i].key, bodies[j].key) && Interacts(bodies[i], bodies[j])
  }

  /** Every interacting pair, smaller key first. */
  ghost function Interacting(bodies: seq<Body>): set<(nat, nat)> {
    set i: nat, j: nat | i < |bodies| && j < |bodies| && Pair(bodies, i, j) :: (i, j)
  }

  /** Interacting is symmetric, so each unordered pair is counted under exactly one order. */
  lemma OncePerUnorderedPair(bodies: seq<Body>, i: nat, j: nat)
    requires UniqueKeys(bodies) && i < |bodies| && j < |bodies| && i != j
    ensures Interacts(bodies[i], bodies[j]) <==> Interacts(bodies[j], bodies[i])
    ensures Interacts(bodies[i], bodies[j]) <==> ((i, j) in Interacting(bodies)) != ((j, i) in Interacting(bodies))
  {
    LessTotal(bodies[i].key, bodies[j].key);
    SquareSymmetric(bodies[i], bodies[j]);
  }

  lemma SquareSymmetric(a: Body, b: Body)
    ensures Square(a, b) == Square(b, a)
  {
  }

  // ---- the grid ----

  function CellOf(b: Body): (int, int) {
    ((b.x / CELL).Floor, (b.y / CELL).Floor)
  }

  predicate Near(c: (int, int), d: (int, int)) {
    c.0 - 1 <= d.0 <= c.0 + 1 && c.1 - 1 <= d.1 <= c.1 + 1
  }

  lemma SquareBounds(x: real, y: real, m: real)
    requires x * x + y * y < m * m && m > 0.0
    ensures -m < x < m
  {
    NonNegative(y);
    assert (-x) * (-x) == x * x;
    if x >= m { Monotone(m, x); }
    if x <= -m { Monotone(m, -x); }
  }

  lemma NonNegative(y: real)
    ensures y * y >= 0.0
  {
  }

  lemma Monotone(a: real, b: real)
    requires 0.0 <= a <= b
    ensures a * a <= b * b
  {
    assert a * a <= a * b;
    assert a * b <= b * b;
  }

  /** Main: an interacting pair is in the same or in neighbouring cells. */
  lemma InteractingIsNear(a: Body, b: Body)
    requires 0.0 <= a.r <= 16.0 && 0.0 <= b.r <= 16.0 && Interacts(a, b)
    ensures Near(CellOf(a), CellOf(b))
  {
    var m := MinDist(a, b);
    assert 24.0 <= m <= 102.0;
    assert Square(a, b) < m * m;
    SquareBounds(a.x - b.x, a.y - b.y, m);
    SquareBounds(a.y - b.y, a.x - b.x, m);
    FloorsNear(a.x, b.x);
    FloorsNear(a.y, b.y);
  }

  lemma FloorsNear(x: real, y: real)
    requires -CELL < x - y < CELL
    ensures (x / CELL).Floor - 1 <= (y / CELL).Floor <= (x / CELL).Floor + 1
  {
    assert x / CELL - y / CELL == (x - y) / CELL;
    assert -1.0 < (x - y) / CELL < 1.0;
  }

  // ---- velocities ----

  function Plus(a: Vec, b: Vec): Vec {
    Vec(a.x + b.x, a.y + b.y)
  }

  function Minus(a: Vec, b: Vec): Vec {
    Vec(a.x - b.x, a.y - b.y)
  }

  function Force(bodies: seq<Body>, p: (nat, nat), env: Env): Vec
    requires p.0 < |bodies| && p.1 < |bodies|
  {
    if env.root(Distance2(bodies[p.0], bodies[p.1])) > 0.0 then Push(bodies[p.0], bodies[p.1], env) else Vec(0.0, 0.0)
  }

  predicate Valid(bodies: seq<Body>, pairs: seq<(nat, nat)>) {
    forall i | 0 <= i < |pairs| :: pairs[i].0 < |bodies| && pairs[i].1 < |bodies| && pairs[i].0 != pairs[i].1
  }

  /** Pushing the two nodes of a pair apart; a pinned node does not move. */
  function Apply(bodies: seq<Body>, vel: seq<Vec>, p: (nat, nat), env: Env): (r: seq<Vec>)
    requires |vel| == |bodies| && p.0 < |bodies| && p.1 < |bodies|
    ensures |r| == |vel|
  {
    var f := Force(bodies, p, env);
    var v := if bodies[p.0].pinned then vel else vel[p.0 := Plus(vel[p.0], f)];
    if bodies[p.1].pinned then v else v[p.1 := Minus(v[p.1], f)]
  }

  function ApplyAll(bodies: seq<Body>, vel: seq<Vec>, pairs: seq<(nat, nat)>, env: Env): (r: seq<Vec>)
    requires |vel| == |bodies| && Valid(bodies, pairs)
    ensures |r| == |vel|
  {
    if pairs == [] then vel
    else Apply(bodies, ApplyAll(bodies, vel, pairs[..|pairs| - 1], env), pairs[|pairs| - 1], env)
  }

  lemma {:induction false} ApplyConcat(bodies: seq<Body>, vel: seq<Vec>, s: seq<(nat, nat)>, t: seq<(nat, nat)>,
                                       env: Env)
    requires |vel| == |bodies| && Valid(bodies, s) && Valid(bodies, t)
    ensures Valid(bodies, s + t)
    ensures ApplyAll(bodies, vel, s + t, env) == ApplyAll(bodies, ApplyAll(bodies, vel, s, env), t, env)
  {
    hide Apply;
    if t == [] {
      assert s + t == s;
    } else {
      assert (s + t)[..|s + t| - 1] == s + t[..|t| - 1];
      ApplyConcat(bodies, vel, s, t[..|t| - 1], env);
    }
  }

  /** What one pair adds to the velocity of node `k`. */
  function Part(bodies: seq<Body>, p: (nat, nat), k: nat, env: Env): Vec
    requires p.0 < |bodies| && p.1 < |bodies| && k < |bodies|
  {
    if bodies[k].pinned then Vec(0.0, 0.0)
    else if p.0 == k then Force(bodies, p, env)
    else if p.1 == k then Minus(Vec(0.0, 0.0), Force(bodies, p, env))
    else Vec(0.0, 0.0)
  }

  function Parts(bodies: seq<Body>, pairs: seq<(nat, nat)>, k: nat, env: Env): Vec
    requires Valid(bodies, pairs) && k < |bodies|
  {
    if pairs == [] then Vec(0.0, 0.0)
    else Plus(Parts(bodies, pairs[..|pairs| - 1], k, env), Part(bodies, pairs[|pairs| - 1], k, env))
  }

  lemma {:induction false} VelocityIsSum(bodies: seq<Body>, vel: seq<Vec>, pairs: seq<(nat, nat)>, k: nat, env: Env)
    requires |vel| == |bodies| && Valid(bodies, pairs) && k < |bodies|
    ensures ApplyAll(bodies, vel, pairs, env)[k] == Plus(vel[k], Parts(bodies, pairs, k, env))
  {
    if pairs != [] {
      var init, p := pairs[..|pairs| - 1], pairs[|pairs| - 1];
      VelocityIsSum(bodies, vel, init, k, env);
      ApplyAt(bodies, ApplyAll(bodies, vel, init, env), p, k, env);
      hide Apply, Part, Force, Plus;
      PlusAssociates(vel[k], Parts(bodies, init, k, env), Part(bodies, p, k, env));
    } else {
      assert Plus(vel[k], Vec(0.0, 0.0)) == vel[k];
    }
  }

  lemma PlusAssociates(a: Vec, b: Vec, c: Vec)
    ensures Plus(Plus(a, b), c) == Plus(a, Plus(b, c))
  {
  }

  lemma ApplyAt(bodies: seq<Body>, vel: seq<Vec>, p: (nat, nat), k: nat, env: Env)
    requires |vel| == |bodies| && p.0 < |bodies| && p.1 < |bodies| && p.0 != p.1 && k < |bodies|
    ensures Apply(bodies, vel, p, env)[k] == Plus(vel[k], Part(bodies, p, k, env))
  {
    hide Force;
    var f := Force(bodies, p, env);
    assert Plus(vel[k], Vec(0.0, 0.0)) == vel[k];
    assert Plus(vel[k], Minus(Vec(0.0, 0.0), f)) == Minus(vel[k], f);
  }

  lemma {:induction false} PartsConcat(bodies: seq<Body>, s: seq<(nat, nat)>, t: seq<(nat, nat)>, k: nat, env: Env)
    requires Valid(bodies, s) && Valid(bodies, t) && k < |bodies|
    ensures Valid(bodies, s + t)
    ensures Parts(bodies, s + t, k, env) == Plus(Parts(bodies, s, k, env), Parts(bodies, t, k, env))
  {
    hide Part;
    if t == [] {
      assert s + t == s;
    } else {
      assert (s + t)[..|s + t| - 1] == s + t[..|t| - 1];
      PartsConcat(bodies, s, t[..|t| - 1], k, env);
    }
  }

  lemma PartsOne(bodies: seq<Body>, p: (nat, nat), k: nat, env: Env)
    requires Valid(bodies, [p]) && k < |bodies|
    ensures Parts(bodies, [p], k, env) == Part(bodies, p, k, env)
  {
  }

  /** Two listings of the same pairs add up to the same. */
  lemma {:induction false} PartsListed(bodies: seq<Body>, s: seq<(nat, nat)>, t: seq<(nat, nat)>,
                                       all: set<(nat, nat)>, k: nat, env: Env)
    requires Lists(s, all) && Lists(t, all) && Valid(bodies, s) && Valid(bodies, t) && k < |bodies|
    ensures Parts(bodies, s, k, env) == Parts(bodies, t, k, env)
  {
    hide Part;
    if s == [] {
      ListsSize(s, all);
      ListsSize(t, all);
    } else {
      var n := |s| - 1;
      var x := s[n];
      assert x in s && x in t;
      var i :| 0 <= i < |t| && t[i] == x;
      ListsWithout(s, all, n);
      ListsWithout(t, all, i);
      hide Lists;
      assert s[..n] + s[n + 1..] == s[..n];
      PartsListed(bodies, s[..n], t[..i] + t[i + 1..], all - {x}, k, env);
      PartsWithout(bodies, t, i, k, env);
    }
  }

  lemma PartsWithout(bodies: seq<Body>, t: seq<(nat, nat)>, i: nat, k: nat, env: Env)
    requires Valid(bodies, t) && i < |t| && k < |bodies|
    ensures Valid(bodies, t[..i] + t[i + 1..])
    ensures Parts(bodies, t, k, env) == Plus(Parts(bodies, t[..i] + t[i + 1..], k, env), Part(bodies, t[i], k, env))
  {
    var a, x, b := t[..i], t[i], t[i + 1..];
    assert t == a + [x] + b;
    ValidSlices(bodies, t, i);
    hide *;
    PartsOne(bodies, x, k, env);
    PartsConcat(bodies, a, b, k, env);
    PartsConcat(bodies, a, [x], k, env);
    PartsConcat(bodies, a + [x], b, k, env);
    PlusSwaps(Parts(bodies, a, k, env), Part(bodies, x, k, env), Parts(bodies, b, k, env));
  }

  lemma PlusSwaps(a: Vec, x: Vec, b: Vec)
    ensures Plus(Plus(a, x), b) == Plus(Plus(a, b), x)
  {
  }

  lemma ValidSlices(bodies: seq<Body>, t: seq<(nat, nat)>, i: nat)
    requires Valid(bodies, t) && i < |t|
    ensures Valid(bodies, t[..i]) && Valid(bodies, [t[i]]) && Valid(bodies, t[i + 1..]) && t[i].0 < |bodies| &&
            t[i].1 < |bodies|
  {
  }

  lemma ListsWithout<T(!new)>(s: seq<T>, all: set<T>, i: nat)
    requires Lists(s, all) && i < |s|
    ensures Lists(s[..i] + s[i + 1..], all - {s[i]})
  {
    var r := s[..i] + s[i + 1..];
    forall x ensures x in r <==> x in all - {s[i]} {
      if x in all && x != s[i] {
        var j :| 0 <= j < |s| && s[j] == x;
        assert r[if j < i then j else j - 1] == x;
      }
    }
  }

  lemma SameVelocities(bodies: seq<Body>, vel: seq<Vec>, s: seq<(nat, nat)>, t: seq<(nat, nat)>, all: set<(nat, nat)>,
                       env: Env)
    requires |vel| == |bodies| && Lists(s, all) && Lists(t, all) && Valid(bodies, s) && Valid(bodies, t)
    ensures ApplyAll(bodies, vel, s, env) == ApplyAll(bodies, vel, t, env)
  {
    var a, b := ApplyAll(bodies, vel, s, env), ApplyAll(bodies, vel, t, env);
    forall k | 0 <= k < |a| ensures a[k] == b[k] {
      VelocityIsSum(bodies, vel, s, k, env);
      VelocityIsSum(bodies, vel, t, k, env);
      PartsListed(bodies, s, t, all, k, env);
    }
  }

  // ---- the reference: all pairs ----

  function Row(bodies: seq<Body>, i: nat, n: nat): seq<(nat, nat)> {
    if n == 0 then [] else Row(bodies, i, n - 1) + if Pair(bodies, i, n - 1) then [(i, n - 1)] else []
  }

  function AllPairsTo(bodies: seq<Body>, i: nat): seq<(nat, nat)> {
    if i == 0 then [] else AllPairsTo(bodies, i - 1) + Row(bodies, i - 1, |bodies|)
  }

  /** The quadratic loop's pairs, in its order. */
  function AllPairs(bodies: seq<Body>): seq<(nat, nat)> {
    AllPairsTo(bodies, |bodies|)
  }

  ghost function InRow(bodies: seq<Body>, i: nat, n: nat): set<(nat, nat)> {
    set j: nat | j < n && Pair(bodies, i, j) :: (i, j)
  }

  ghost function RowsTo(bodies: seq<Body>, n: nat): set<(nat, nat)> {
    set i: nat, j: nat | i < n && j < |bodies| && Pair(bodies, i, j) :: (i, j)
  }

  lemma {:induction false} RowLists(bodies: seq<Body>, i: nat, n: nat)
    ensures Lists(Row(bodies, i, n), InRow(bodies, i, n))
  {
    hide Pair;
    if n == 0 {
      assert InRow(bodies, i, 0) == {};
    } else {
      RowLists(bodies, i, n - 1);
      if Pair(bodies, i, n - 1) {
        ListsAppend(Row(bodies, i, n - 1), InRow(bodies, i, n - 1), (i, n - 1));
        assert InRow(bodies, i, n) == InRow(bodies, i, n - 1) + {(i, n - 1)};
      } else {
        assert InRow(bodies, i, n) == InRow(bodies, i, n - 1);
        assert Row(bodies, i, n) == Row(bodies, i, n - 1);
      }
    }
  }

  lemma RowsToNext(bodies: seq<Body>, i: nat)
    ensures RowsTo(bodies, i + 1) == RowsTo(bodies, i) + InRow(bodies, i, |bodies|)
    ensures RowsTo(bodies, i) !! InRow(bodies, i, |bodies|) && RowsTo(bodies, 0) == {}
  {
    hide Pair;
    forall p ensures p in RowsTo(bodies, i + 1) <==> p in RowsTo(bodies, i) || p in InRow(bodies, i, |bodies|) {
    }
  }

  lemma {:induction false} AllPairsList(bodies: seq<Body>, n: nat)
    ensures Lists(AllPairsTo(bodies, n), RowsTo(bodies, n))
  {
    if n == 0 {
      RowsToNext(bodies, 0);
    } else {
      hide Pair, RowsTo, InRow;
      AllPairsList(bodies, n - 1);
      RowLists(bodies, n - 1, |bodies|);
      RowsToNext(bodies, n - 1);
      ListsConcat(AllPairsTo(bodies, n - 1), Row(bodies, n - 1, |bodies|), RowsTo(bodies, n - 1),
                  InRow(bodies, n - 1, |bodies|));
    }
  }

  lemma ValidPairs(bodies: seq<Body>, pairs: seq<(nat, nat)>)
    requires forall p | p in pairs :: Pair(bodies, p.0, p.1)
    ensures Valid(bodies, pairs)
  {
    forall i | 0 <= i < |pairs| ensures pairs[i].0 < |bodies| && pairs[i].1 < |bodies| && pairs[i].0 != pairs[i].1 {
      assert pairs[i] in pairs;
      LessTotal(bodies[pairs[i].0].key, bodies[pairs[i].1].key);
    }
  }

  // ---- the grid loop ----

  ghost predicate BucketFits(bucket: seq<nat>, c: (int, int), bodies: seq<Body>, n: nat) {
    Distinct(bucket) && forall j | j in bucket :: j < n && j < |bodies| && CellOf(bodies[j]) == c
  }

  ghost predicate GridOf(grid: map<(int, int), seq<nat>>, bodies: seq<Body>, n: nat) {
    && (forall c | c in grid :: BucketFits(grid[c], c, bodies, n))
    && (forall j: nat | j < n && j < |bodies| :: CellOf(bodies[j]) in grid && j in grid[CellOf(bodies[j])])
  }

  method BuildGrid(bodies: seq<Body>) returns (grid: map<(int, int), seq<nat>>)
    ensures GridOf(grid, bodies, |bodies|)
  {
    grid := map[];
    for i := 0 to |bodies|
      invariant GridOf(grid, bodies, i)
    {
      var key := CellOf(bodies[i]);
      GridPut(grid, bodies, i);
      if key !in grid {
        grid := grid[key := []];
      }
      grid := grid[key := grid[key] + [i]];
    }
  }

  lemma GridPut(grid: map<(int, int), seq<nat>>, bodies: seq<Body>, i: nat)
    requires GridOf(grid, bodies, i) && i < |bodies|
    ensures var c := CellOf(bodies[i]); GridOf(grid[c := (if c in grid then grid[c] else []) + [i]], bodies, i + 1)
  {
    var c := CellOf(bodies[i]);
    hide CellOf;
    var bucket := if c in grid then grid[c] else [];
    assert i !in bucket;
    assert Distinct(bucket + [i]);
    assert forall j :: j in bucket + [i] <==> j in bucket || j == i;
  }

  lemma BucketOf(grid: map<(int, int), seq<nat>>, bodies: seq<Body>, c: (int, int))
    requires GridOf(grid, bodies, |bodies|) && c in grid
    ensures Distinct(grid[c]) && forall j | j in grid[c] :: j < |bodies|
  {
    hide CellOf;
    assert BucketFits(grid[c], c, bodies, |bodies|);
  }

  /** The push one close pair gets, as it is computed. */
  method PushApart(a: Body, b: Body, dx: real, dy: real, d2: real, minDist: real, env: Env) returns (fx: real, fy: real)
    requires IsRoot(env.root) && d2 == Distance2(a, b) && Vec(dx, dy) == Offset(a, b, env) && minDist == MinDist(a, b)
    ensures env.root(Distance2(a, b)) > 0.0 && Vec(fx, fy) == Push(a, b, env)
  {
    RootPositive(a, b, env);
    hide Distance2, Offset, MinDist, Square, IsRoot;
    var d := env.root(d2);
    var force := (minDist - d) / d * 0.06;
    fx, fy := dx * force, dy * force;
  }

  /** The squared distance and offset, jittered where the nodes coincide. */
  method Separation(a: Body, b: Body, env: Env) returns (dx: real, dy: real, d2: real)
    ensures d2 == Distance2(a, b) && Vec(dx, dy) == Offset(a, b, env)
  {
    dx, dy := a.x - b.x, a.y - b.y;
    d2 := dx * dx + dy * dy;
    if d2 < 0.01 {
      dx, dy := env.jitter(a.key, b.key).x, env.jitter(a.key, b.key).y;
      d2 := 0.01;
    }
  }

  /** One visited pair: skipped unless the first key is smaller, pushed apart if close enough. */
  method RepelPair(bodies: seq<Body>, i: nat, j: nat, vel0: seq<Vec>, env: Env) returns (vel: seq<Vec>)
    requires i < |bodies| && j < |bodies| && |vel0| == |bodies| && IsRoot(env.root)
    ensures vel == if Pair(bodies, i, j) then Apply(bodies, vel0, (i, j), env) else vel0
  {
    hide Distance2, Offset, Less, IsRoot, Push;
    vel := vel0;
    var a, b := bodies[i], bodies[j];
    if !Less(a.key, b.key) {
      return;
    }
    var dx, dy, d2 := Separation(a, b, env);
    var minDist := a.r + b.r + if a.wide || b.wide then 70.0 else 24.0;
    assert minDist == MinDist(a, b);
    hide MinDist;
    if d2 < minDist * minDist {
      var fx, fy := PushApart(a, b, dx, dy, d2, minDist, env);
      assert Force(bodies, (i, j), env) == Vec(fx, fy);
      hide Force;
      if !a.pinned {
        vel := vel[i := Vec(vel[i].x + fx, vel[i].y + fy)];
      }
      if !b.pinned {
        vel := vel[j := Vec(vel[j].x - fx, vel[j].y - fy)];
      }
    }
  }

  ghost function InBucket(bodies: seq<Body>, i: nat, bucket: seq<nat>): set<(nat, nat)> {
    set j | j in bucket && Pair(bodies, i, j) :: (i, j)
  }

  lemma OneMoreVisit(bodies: seq<Body>, vel0: seq<Vec>, vel: seq<Vec>, more: seq<(nat, nat)>, all: set<(nat, nat)>,
                     i: nat, j: nat, env: Env)
    requires |vel0| == |bodies| && Pair(bodies, i, j) && (i, j) !in all
    requires Lists(more, all) && Valid(bodies, more) && vel == ApplyAll(bodies, vel0, more, env)
    ensures Lists(more + [(i, j)], all + {(i, j)}) && Valid(bodies, more + [(i, j)])
    ensures ApplyAll(bodies, vel0, more + [(i, j)], env) == Apply(bodies, vel, (i, j), env)
  {
    LessTotal(bodies[i].key, bodies[j].key);
    ListsAppend(more, all, (i, j));
    assert (more + [(i, j)])[..|more|] == more;
    hide Apply, Pair;
  }

  method RepelBucket(bodies: seq<Body>, i: nat, bucket: seq<nat>, vel0: seq<Vec>, env: Env)
    returns (vel: seq<Vec>, ghost more: seq<(nat, nat)>)
    requires i < |bodies| && |vel0| == |bodies| && IsRoot(env.root)
    requires Distinct(bucket) && forall j | j in bucket :: j < |bodies|
    ensures Lists(more, InBucket(bodies, i, bucket)) && Valid(bodies, more) && vel == ApplyAll(bodies, vel0, more, env)
  {
    hide Pair, Apply, IsRoot, ApplyAll, Valid;
    vel, more := vel0, [];
    NothingVisited(bodies, vel0, env);
    assert InBucket(bodies, i, bucket[..0]) == {};
    for t := 0 to |bucket|
      invariant Lists(more, InBucket(bodies, i, bucket[..t])) && Valid(bodies, more)
      invariant vel == ApplyAll(bodies, vel0, more, env)
    {
      var j := bucket[t];
      assert bucket[..t + 1] == bucket[..t] + [j] && j in bucket;
      ghost var all := InBucket(bodies, i, bucket[..t]);
      assert j !in bucket[..t] && (i, j) !in all;
      hide Lists, Distinct;
      if Pair(bodies, i, j) {
        OneMoreVisit(bodies, vel0, vel, more, all, i, j, env);
        more := more + [(i, j)];
        assert InBucket(bodies, i, bucket[..t + 1]) == all + {(i, j)};
      } else {
        assert InBucket(bodies, i, bucket[..t + 1]) == all;
      }
      vel := RepelPair(bodies, i, j, vel, env);
    }
    assert bucket[..|bucket|] == bucket;
  }

  lemma NothingVisited(bodies: seq<Body>, vel: seq<Vec>, env: Env)
    requires |vel| == |bodies|
    ensures Valid(bodies, []) && ApplyAll(bodies, vel, [], env) == vel
  {
  }

  /** The pairs of node `i` with nodes in the given cells. */
  ghost function InCells(bodies: seq<Body>, i: nat, cells: set<(int, int)>): set<(nat, nat)> {
    set j: nat | j < |bodies| && Pair(bodies, i, j) && CellOf(bodies[j]) in cells :: (i, j)
  }

  lemma CellsAdd(bodies: seq<Body>, i: nat, cells: set<(int, int)>, c: (int, int), grid: map<(int, int), seq<nat>>)
    requires GridOf(grid, bodies, |bodies|) && c !in cells
    ensures InCells(bodies, i, cells + {c}) ==
            InCells(bodies, i, cells) + if c in grid then InBucket(bodies, i, grid[c]) else {}
    ensures c in grid ==> InCells(bodies, i, cells) !! InBucket(bodies, i, grid[c])
  {
    hide Pair, CellOf, Distinct;
    forall p ensures p in InCells(bodies, i, cells + {c}) <==>
      p in InCells(bodies, i, cells) || (c in grid && p in InBucket(bodies, i, grid[c]))
    {
      if p in InCells(bodies, i, cells + {c}) && p !in InCells(bodies, i, cells) {
        assert p.1 < |bodies| && CellOf(bodies[p.1]) == c && p.1 in grid[c];
      }
      if c in grid && p in InBucket(bodies, i, grid[c]) {
        assert BucketFits(grid[c], c, bodies, |bodies|);
      }
    }
  }

  lemma JoinVisits(bodies: seq<Body>, vel0: seq<Vec>, a: seq<(nat, nat)>, b: seq<(nat, nat)>, all: set<(nat, nat)>,
                   more: set<(nat, nat)>, env: Env)
    requires |vel0| == |bodies| && Lists(a, all) && Lists(b, more) && all !! more
    requires Valid(bodies, a) && Valid(bodies, b)
    ensures Lists(a + b, all + more) && Valid(bodies, a + b)
    ensures ApplyAll(bodies, vel0, a + b, env) == ApplyAll(bodies, ApplyAll(bodies, vel0, a, env), b, env)
  {
    hide ApplyAll;
    ListsConcat(a, b, all, more);
    ApplyConcat(bodies, vel0, a, b, env);
  }

  /** One cell of the neighbourhood, which may hold no node. */
  method RepelCell(bodies: seq<Body>, grid: map<(int, int), seq<nat>>, i: nat, c: (int, int),
                   ghost cells: set<(int, int)>,
                   vel0: seq<Vec>, ghost start: seq<Vec>, ghost visits0: seq<(nat, nat)>, env: Env)
    returns (vel: seq<Vec>, ghost visits: seq<(nat, nat)>)
    requires GridOf(grid, bodies, |bodies|) && i < |bodies| && |start| == |bodies| && IsRoot(env.root) && c !in cells
    requires Lists(visits0, InCells(bodies, i, cells)) && Valid(bodies, visits0) &&
             vel0 == ApplyAll(bodies, start, visits0, env)
    ensures Lists(visits, InCells(bodies, i, cells + {c})) && Valid(bodies, visits) &&
            vel == ApplyAll(bodies, start, visits, env)
  {
    CellsAdd(bodies, i, cells, c, grid);
    hide Pair, ApplyAll, InCells, InBucket, CellOf, Lists, Valid, IsRoot;
    vel, visits := vel0, visits0;
    if c in grid {
      BucketOf(grid, bodies, c);
      ghost var more;
      vel, more := RepelBucket(bodies, i, grid[c], vel0, env);
      JoinVisits(bodies, start, visits0, more, InCells(bodies, i, cells), InBucket(bodies, i, grid[c]), env);
      visits := visits0 + more;
    } else {
      assert InCells(bodies, i, cells) + {} == InCells(bodies, i, cells);
    }
  }

  ghost function CellsTo(c: (int, int), gx: int, gy: int): set<(int, int)> {
    set x, y | c.0 - 1 <= x <= c.0 + 1 && c.1 - 1 <= y <= c.1 + 1 && (x < gx || (x == gx && y < gy)) :: (x, y)
  }

  lemma CellsNext(c: (int, int), gx: int, gy: int)
    requires c.0 - 1 <= gx <= c.0 + 1
    ensures c.1 - 1 <= gy <= c.1 + 1 ==>
            CellsTo(c, gx, gy + 1) == CellsTo(c, gx, gy) + {(gx, gy)} && (gx, gy) !in CellsTo(c, gx, gy)
    ensures CellsTo(c, gx, c.1 + 2) == CellsTo(c, gx + 1, c.1 - 1)
    ensures CellsTo(c, c.0 - 1, c.1 - 1) == {}
  {
  }

  lemma NoCells(bodies: seq<Body>, i: nat)
    ensures Lists([], InCells(bodies, i, {}))
  {
  }

  /** The three-by-three neighbourhood of one node. */
  method RepelAround(bodies: seq<Body>, grid: map<(int, int), seq<nat>>, i: nat, vel0: seq<Vec>, env: Env)
    returns (vel: seq<Vec>, ghost visits: seq<(nat, nat)>)
    requires GridOf(grid, bodies, |bodies|) && i < |bodies| && |vel0| == |bodies| && IsRoot(env.root)
    ensures Lists(visits,
                  InCells(bodies, i, CellsTo(CellOf(bodies[i]), CellOf(bodies[i]).0 + 2, CellOf(bodies[i]).1 - 1)))
    ensures Valid(bodies, visits) && vel == ApplyAll(bodies, vel0, visits, env)
  {
    var c := CellOf(bodies[i]);
    NoCells(bodies, i);
    CellsNext(c, c.0 - 1, c.1 - 1);
    NothingVisited(bodies, vel0, env);
    hide Pair, ApplyAll, InCells, CellOf, Lists, Valid, IsRoot, CellsTo, GridOf;
    vel, visits := vel0, [];
    for gx := c.0 - 1 to c.0 + 2
      invariant Lists(visits, InCells(bodies, i, CellsTo(c, gx, c.1 - 1))) && Valid(bodies, visits)
      invariant vel == ApplyAll(bodies, vel0, visits, env)
    {
      for gy := c.1 - 1 to c.1 + 2
        invariant Lists(visits, InCells(bodies, i, CellsTo(c, gx, gy))) && Valid(bodies, visits)
        invariant vel == ApplyAll(bodies, vel0, visits, env)
      {
        CellsNext(c, gx, gy);
        vel, visits := RepelCell(bodies, grid, i, (gx, gy), CellsTo(c, gx, gy), vel, vel0, visits, env);
      }
      CellsNext(c, gx, c.1 - 1);
    }
  }

  /** The neighbourhood misses nothing that interacts. */
  lemma AroundIsRow(bodies: seq<Body>, i: nat)
    requires Sized(bodies) && i < |bodies|
    ensures var c := CellOf(bodies[i]); InCells(bodies, i, CellsTo(c, c.0 + 2, c.1 - 1)) == InRow(bodies, i, |bodies|)
  {
    var c := CellOf(bodies[i]);
    forall j: nat | j < |bodies| && Pair(bodies, i, j) ensures CellOf(bodies[j]) in CellsTo(c, c.0 + 2, c.1 - 1) {
      InteractingIsNear(bodies[i], bodies[j]);
    }
    hide Pair, CellOf;
  }

  /** Main: the grid loop visits every interacting unordered pair exactly once, so the velocities it
      accumulates are those of the loop over all pairs. */
  method Repel(bodies: seq<Body>, vel0: seq<Vec>, env: Env) returns (vel: seq<Vec>, ghost visits: seq<(nat, nat)>)
    requires |vel0| == |bodies| && Sized(bodies) && IsRoot(env.root)
    ensures Lists(visits, Interacting(bodies)) && Valid(bodies, visits) && Valid(bodies, AllPairs(bodies))
    ensures vel == ApplyAll(bodies, vel0, AllPairs(bodies), env)
    ensures forall k | 0 <= k < |bodies| && bodies[k].pinned :: vel[k] == vel0[k]
    ensures |bodies| == 2 && bodies[0].key != bodies[1].key ==> TwoApart(bodies, vel0, vel)
  {
    var grid := BuildGrid(bodies);
    NothingVisited(bodies, vel0, env);
    RowsToNext(bodies, 0);
    assert forall i | 0 <= i < |bodies| :: bodies[i].r >= 0.0;
    hide Pair, ApplyAll, InCells, CellOf, Valid, IsRoot, CellsTo, GridOf, RowsTo, InRow, Sized, TwoApart;
    vel, visits := vel0, [];
    for i := 0 to |bodies|
      invariant Lists(visits, RowsTo(bodies, i)) && Valid(bodies, visits)
      invariant vel == ApplyAll(bodies, vel0, visits, env)
    {
      hide Lists;
      ghost var more;
      vel, more := RepelAround(bodies, grid, i, vel, env);
      AroundIsRow(bodies, i);
      RowsToNext(bodies, i);
      JoinVisits(bodies, vel0, visits, more, RowsTo(bodies, i), InRow(bodies, i, |bodies|), env);
      visits := visits + more;
    }
    AllRows(bodies);
    AllPairsList(bodies, |bodies|);
    ListedValid(bodies, AllPairs(bodies));
    SameVelocities(bodies, vel0, visits, AllPairs(bodies), Interacting(bodies), env);
    forall k | 0 <= k < |bodies| && bodies[k].pinned ensures vel[k] == vel0[k] {
      PinnedStay(bodies, vel0, AllPairs(bodies), env, k);
    }
    if |bodies| == 2 && bodies[0].key != bodies[1].key { TwoNodes(bodies, vel0, env); }
  }

  lemma AllRows(bodies: seq<Body>)
    ensures RowsTo(bodies, |bodies|) == Interacting(bodies)
  {
    hide Pair;
  }

  lemma ListedValid(bodies: seq<Body>, pairs: seq<(nat, nat)>)
    requires Lists(pairs, RowsTo(bodies, |bodies|))
    ensures Valid(bodies, pairs)
  {
    forall p | p in pairs ensures Pair(bodies, p.0, p.1) {
      assert p in RowsTo(bodies, |bodies|);
    }
    hide Pair;
    ValidPairs(bodies, pairs);
  }

  // ---- momentum ----

  function Total(vel: seq<Vec>): Vec {
    if vel == [] then Vec(0.0, 0.0) else Plus(Total(vel[..|vel| - 1]), vel[|vel| - 1])
  }

  lemma {:induction false} TotalUpdate(vel: seq<Vec>, i: nat, v: Vec)
    requires i < |vel|
    ensures Total(vel[i := v]) == Plus(Minus(Total(vel), vel[i]), v)
  {
    var n := |vel| - 1;
    if i < n {
      assert vel[i := v][..n] == vel[..n][i := v];
      TotalUpdate(vel[..n], i, v);
    } else {
      assert vel[i := v][..n] == vel[..n];
    }
  }

  /** Main: when nothing is pinned, repulsion adds no momentum, whatever pairs it pushes. */
  lemma {:induction false} NoNetImpulse(bodies: seq<Body>, vel: seq<Vec>, pairs: seq<(nat, nat)>, env: Env)
    requires |vel| == |bodies| && Valid(bodies, pairs) && forall i | 0 <= i < |bodies| :: !bodies[i].pinned
    ensures Total(ApplyAll(bodies, vel, pairs, env)) == Total(vel)
  {
    if pairs != [] {
      var init, p := pairs[..|pairs| - 1], pairs[|pairs| - 1];
      NoNetImpulse(bodies, vel, init, env);
      var v := ApplyAll(bodies, vel, init, env);
      hide Force, ApplyAll, Total;
      var f := Force(bodies, p, env);
      TotalUpdate(v, p.0, Plus(v[p.0], f));
      var w := v[p.0 := Plus(v[p.0], f)];
      TotalUpdate(w, p.1, Minus(w[p.1], f));
      LastPush(bodies, vel, pairs, env);
    }
  }

  lemma LastPush(bodies: seq<Body>, vel: seq<Vec>, pairs: seq<(nat, nat)>, env: Env)
    requires |vel| == |bodies| && Valid(bodies, pairs) && pairs != []
    ensures ApplyAll(bodies, vel, pairs, env)
         == Apply(bodies, ApplyAll(bodies, vel, pairs[..|pairs| - 1], env), pairs[|pairs| - 1], env)
  {
  }

  // ---- apart, and by how much ----

  lemma BelowRoot(d: real, m: real)
    requires d > 0.0 && m > 0.0 && d * d < m * m
    ensures d < m
  {
    if d >= m { Monotone(m, d); }
  }

  lemma ScaledLength(dx: real, dy: real, d: real, s: real)
    requires d * d == dx * dx + dy * dy
    ensures (dx * s) * (dx * s) + (dy * s) * (dy * s) == (d * s) * (d * s)
  {
    assert (dx * s) * (dx * s) == (dx * dx) * (s * s) && (dy * s) * (dy * s) == (dy * dy) * (s * s);
    assert (d * s) * (d * s) == (d * d) * (s * s);
    assert (dx * dx) * (s * s) + (dy * dy) * (s * s) == (dx * dx + dy * dy) * (s * s);
  }

  lemma Scale(m: real, d: real) returns (s: real)
    requires 0.0 < d < m
    ensures s == (m - d) / d * 0.06 && s > 0.0 && d * s == (m - d) * 0.06
  {
    s := (m - d) / d * 0.06;
    assert d * ((m - d) / d) == m - d;
    assert (m - d) / d > 0.0;
  }

  lemma Direction(a: Body, b: Body, env: Env) returns (s: real)
    requires IsRoot(env.root) && a.r >= 0.0 && b.r >= 0.0 && 0.01 <= Square(a, b) < MinDist(a, b) * MinDist(a, b)
    ensures env.root(Distance2(a, b)) > 0.0 && s > 0.0 && Push(a, b, env) == Vec((a.x - b.x) * s, (a.y - b.y) * s)
  {
    var d := env.root(Distance2(a, b));
    assert MinDist(a, b) > 0.0 && d * d == Square(a, b);
    hide Square, MinDist;
    BelowRoot(d, MinDist(a, b));
    s := Scale(MinDist(a, b), d);
  }

  /** Main: of two nodes closer than their radii and 24 more, or 70 if one of them is wide, the first is pushed
      straight away from the second, by 0.06 of what is missing. */
  lemma PushesApart(a: Body, b: Body, env: Env) returns (s: real, d: real)
    requires IsRoot(env.root) && a.r >= 0.0 && b.r >= 0.0
    requires var dx, dy := a.x - b.x, a.y - b.y;
             var near := a.r + b.r + if a.wide || b.wide then 70.0 else 24.0;
             0.01 <= dx * dx + dy * dy < near * near
    ensures Interacts(a, b) && env.root(Distance2(a, b)) > 0.0
    ensures var dx, dy := a.x - b.x, a.y - b.y;
            var near := a.r + b.r + if a.wide || b.wide then 70.0 else 24.0;
            var f := Push(a, b, env);
            && d > 0.0 && d * d == dx * dx + dy * dy && d < near
            && s > 0.0 && f.x == dx * s && f.y == dy * s
            && f.x * f.x + f.y * f.y == ((near - d) * 0.06) * ((near - d) * 0.06)
  {
    d := env.root(Distance2(a, b));
    BelowRoot(d, MinDist(a, b));
    s := Scale(MinDist(a, b), d);
    ScaledLength(a.x - b.x, a.y - b.y, d, s);
  }

  lemma SameSquare(a: real, b: real)
    requires a > 0.0 && b > 0.0 && a * a == b * b
    ensures a == b
  {
    assert (a - b) * (a + b) == 0.0;
  }

  /** Nodes that coincide are pushed along the jitter, as if they were a tenth apart. */
  lemma PushesCoinciding(a: Body, b: Body, env: Env) returns (s: real)
    requires IsRoot(env.root) && a.r >= 0.0 && b.r >= 0.0
    requires (a.x - b.x) * (a.x - b.x) + (a.y - b.y) * (a.y - b.y) < 0.01
    ensures Interacts(a, b) && env.root(Distance2(a, b)) > 0.0
    ensures var near := a.r + b.r + if a.wide || b.wide then 70.0 else 24.0;
            s > 0.0 && s * 0.1 == (near - 0.1) * 0.06 &&
            Push(a, b, env) == Vec(env.jitter(a.key, b.key).x * s, env.jitter(a.key, b.key).y * s)
  {
    var d := env.root(0.01);
    SameSquare(d, 0.1);
    assert MinDist(a, b) >= 24.0;
    assert MinDist(a, b) * MinDist(a, b) >= 24.0 * 24.0 by { Monotone(24.0, MinDist(a, b)); }
    s := Scale(MinDist(a, b), d);
  }

  /** Whichever of two nodes is not pinned gains speed away from the other, if they are closer than their radii
      and 24 more, or 70 if one of them is wide; otherwise neither gains any. */
  ghost predicate TwoApart(bodies: seq<Body>, vel0: seq<Vec>, vel: seq<Vec>)
    requires |bodies| == |vel0| == |vel| == 2
  {
    var a, b := bodies[0], bodies[1];
    var dx, dy := a.x - b.x, a.y - b.y;
    var near := a.r + b.r + if a.wide || b.wide then 70.0 else 24.0;
    && (0.01 <= dx * dx + dy * dy < near * near ==>
          && (if a.pinned then vel[0] == vel0[0]
              else (vel[0].x - vel0[0].x) * dx + (vel[0].y - vel0[0].y) * dy > 0.0)
          && (if b.pinned then vel[1] == vel0[1]
              else (vel[1].x - vel0[1].x) * dx + (vel[1].y - vel0[1].y) * dy < 0.0))
    && (0.01 <= dx * dx + dy * dy && dx * dx + dy * dy >= near * near ==> vel == vel0)
  }

  lemma TwoPairs(bodies: seq<Body>)
    requires |bodies| == 2 && bodies[0].key != bodies[1].key
    ensures AllPairs(bodies) ==
            if !Interacts(bodies[0], bodies[1]) then []
            else if Less(bodies[0].key, bodies[1].key) then [(0, 1)] else [(1, 0)]
  {
    SquareSymmetric(bodies[0], bodies[1]);
    LessTotal(bodies[0].key, bodies[1].key);
    LessTotal(bodies[0].key, bodies[0].key);
    LessTotal(bodies[1].key, bodies[1].key);
    hide Less, Distance2;
    assert Row(bodies, 0, 1) == [] && Row(bodies, 1, 1) == if Pair(bodies, 1, 0) then [(1, 0)] else [];
    assert Row(bodies, 0, 2) == if Pair(bodies, 0, 1) then [(0, 1)] else [];
    assert Row(bodies, 1, 2) == Row(bodies, 1, 1);
    assert AllPairsTo(bodies, 1) == Row(bodies, 0, 2);
    assert AllPairsTo(bodies, 2) == Row(bodies, 0, 2) + Row(bodies, 1, 2);
  }

  lemma Along(dx: real, dy: real, s: real)
    requires s > 0.0 && dx * dx + dy * dy >= 0.01
    ensures (dx * s) * dx + (dy * s) * dy > 0.0
  {
    assert (dx * s) * dx + (dy * s) * dy == s * (dx * dx + dy * dy);
  }

  /** A velocity's gain along (dx, dy). */
  function Gain(v: Vec, v': Vec, dx: real, dy: real): real {
    (v'.x - v.x) * dx + (v'.y - v.y) * dy
  }

  lemma GainOf(v: Vec, f: Vec, dx: real, dy: real)
    ensures Gain(v, Plus(v, f), dx, dy) == f.x * dx + f.y * dy
    ensures Gain(v, Minus(v, f), dx, dy) == -(f.x * dx + f.y * dy)
  {
    assert Plus(v, f).x - v.x == f.x && Plus(v, f).y - v.y == f.y;
    assert Minus(v, f).x - v.x == -f.x && Minus(v, f).y - v.y == -f.y;
    assert (-f.x) * dx + (-f.y) * dy == -(f.x * dx + f.y * dy);
  }

  lemma GainFlips(v: Vec, v': Vec, dx: real, dy: real)
    ensures Gain(v, v', -dx, -dy) == -Gain(v, v', dx, dy)
  {
  }

  /** Each of the two nodes gains speed away from the other, as seen from the first. */
  ghost predicate Parted(bodies: seq<Body>, vel0: seq<Vec>, vel: seq<Vec>, p: (nat, nat), dx: real, dy: real)
    requires p.0 < |bodies| == |vel0| == |vel| && p.1 < |bodies|
  {
    && (if bodies[p.0].pinned then vel[p.0] == vel0[p.0] else Gain(vel0[p.0], vel[p.0], dx, dy) > 0.0)
    && (if bodies[p.1].pinned then vel[p.1] == vel0[p.1] else Gain(vel0[p.1], vel[p.1], dx, dy) < 0.0)
  }

  lemma OnePush(bodies: seq<Body>, vel0: seq<Vec>, p: (nat, nat), env: Env, dx: real, dy: real, s: real)
    requires |bodies| == |vel0| && p.0 < |bodies| && p.1 < |bodies| && p.0 != p.1
    requires Force(bodies, p, env) == Vec(dx * s, dy * s) && s > 0.0 && dx * dx + dy * dy >= 0.01
    ensures Parted(bodies, vel0, Apply(bodies, vel0, p, env), p, dx, dy)
  {
    hide Force, Gain;
    var f := Vec(dx * s, dy * s);
    Along(dx, dy, s);
    GainOf(vel0[p.0], f, dx, dy);
    GainOf(vel0[p.1], f, dx, dy);
  }

  lemma ForceApart(bodies: seq<Body>, p: (nat, nat), env: Env) returns (s: real)
    requires p.0 < |bodies| && p.1 < |bodies| && IsRoot(env.root)
    requires bodies[p.0].r >= 0.0 && bodies[p.1].r >= 0.0
    requires var a, b := bodies[p.0], bodies[p.1]; 0.01 <= Square(a, b) < MinDist(a, b) * MinDist(a, b)
    ensures var a, b := bodies[p.0], bodies[p.1];
            s > 0.0 && Force(bodies, p, env) == Vec((a.x - b.x) * s, (a.y - b.y) * s)
  {
    hide Push, Square, MinDist, Distance2, IsRoot;
    s := Direction(bodies[p.0], bodies[p.1], env);
  }

  lemma PairParted(bodies: seq<Body>, vel0: seq<Vec>, p: (nat, nat), env: Env)
    requires |bodies| == |vel0| && p.0 < |bodies| && p.1 < |bodies| && p.0 != p.1 && IsRoot(env.root)
    requires bodies[p.0].r >= 0.0 && bodies[p.1].r >= 0.0
    requires var a, b := bodies[p.0], bodies[p.1]; 0.01 <= Square(a, b) < MinDist(a, b) * MinDist(a, b)
    ensures var a, b := bodies[p.0], bodies[p.1];
            Parted(bodies, vel0, Apply(bodies, vel0, p, env), p, a.x - b.x, a.y - b.y)
  {
    var a, b := bodies[p.0], bodies[p.1];
    assert (a.x - b.x) * (a.x - b.x) + (a.y - b.y) * (a.y - b.y) >= 0.01;
    hide *;
    var s := ForceApart(bodies, p, env);
    OnePush(bodies, vel0, p, env, a.x - b.x, a.y - b.y, s);
  }

  lemma ApplyOne(bodies: seq<Body>, vel0: seq<Vec>, pairs: seq<(nat, nat)>, env: Env)
    requires |vel0| == |bodies| && Valid(bodies, pairs) && |pairs| <= 1
    ensures ApplyAll(bodies, vel0, pairs, env) == if pairs == [] then vel0 else Apply(bodies, vel0, pairs[0], env)
  {
    hide Apply;
    if pairs != [] {
      assert pairs[..|pairs| - 1] == [];
      assert ApplyAll(bodies, vel0, pairs[..|pairs| - 1], env) == vel0;
    }
  }

  lemma PartedFlips(bodies: seq<Body>, vel0: seq<Vec>, vel: seq<Vec>, dx: real, dy: real)
    requires |bodies| == |vel0| == |vel| == 2 && Parted(bodies, vel0, vel, (1, 0), -dx, -dy)
    ensures Parted(bodies, vel0, vel, (0, 1), dx, dy)
  {
    hide Gain;
    GainFlips(vel0[0], vel[0], dx, dy);
    GainFlips(vel0[1], vel[1], dx, dy);
  }

  lemma CloseInteracts(a: Body, b: Body)
    requires 0.01 <= Square(a, b) < MinDist(a, b) * MinDist(a, b)
    ensures Interacts(a, b) && Square(b, a) == Square(a, b) && MinDist(b, a) == MinDist(a, b)
  {
    SquareSymmetric(a, b);
  }

  lemma TwoClose(bodies: seq<Body>, vel0: seq<Vec>, env: Env)
    requires |bodies| == |vel0| == 2 && bodies[0].key != bodies[1].key && IsRoot(env.root)
    requires bodies[0].r >= 0.0 && bodies[1].r >= 0.0 && Valid(bodies, AllPairs(bodies))
    requires 0.01 <= Square(bodies[0], bodies[1]) < MinDist(bodies[0], bodies[1]) * MinDist(bodies[0], bodies[1])
    ensures Parted(bodies, vel0, ApplyAll(bodies, vel0, AllPairs(bodies), env), (0, 1),
                   bodies[0].x - bodies[1].x, bodies[0].y - bodies[1].y)
  {
    hide *;
    TwoPairs(bodies);
    CloseInteracts(bodies[0], bodies[1]);
    ApplyOne(bodies, vel0, AllPairs(bodies), env);
    if Less(bodies[0].key, bodies[1].key) {
      PairParted(bodies, vel0, (0, 1), env);
    } else {
      PairParted(bodies, vel0, (1, 0), env);
      PartedFlips(bodies, vel0, Apply(bodies, vel0, (1, 0), env),
                  bodies[0].x - bodies[1].x, bodies[0].y - bodies[1].y);
    }
  }

  lemma PartedIsApart(bodies: seq<Body>, vel0: seq<Vec>, vel: seq<Vec>)
    requires |bodies| == |vel0| == |vel| == 2
    requires var d2, m := Square(bodies[0], bodies[1]), MinDist(bodies[0], bodies[1]);
             0.01 <= d2 ==>
               if d2 < m * m
               then Parted(bodies, vel0, vel, (0, 1), bodies[0].x - bodies[1].x, bodies[0].y - bodies[1].y)
               else vel == vel0
    ensures TwoApart(bodies, vel0, vel)
  {
    var a, b := bodies[0], bodies[1];
    var near := a.r + b.r + if a.wide || b.wide then 70.0 else 24.0;
    assert MinDist(a, b) == near;
    assert Square(a, b) == (a.x - b.x) * (a.x - b.x) + (a.y - b.y) * (a.y - b.y);
  }

  lemma TwoNodes(bodies: seq<Body>, vel0: seq<Vec>, env: Env)
    requires |bodies| == |vel0| == 2 && bodies[0].key != bodies[1].key && IsRoot(env.root)
    requires bodies[0].r >= 0.0 && bodies[1].r >= 0.0 && Valid(bodies, AllPairs(bodies))
    ensures TwoApart(bodies, vel0, ApplyAll(bodies, vel0, AllPairs(bodies), env))
  {
    hide Apply, AllPairs, ApplyAll, Less, IsRoot, Parted, TwoApart, Square, MinDist;
    var m := MinDist(bodies[0], bodies[1]);
    if 0.01 <= Square(bodies[0], bodies[1]) {
      if Square(bodies[0], bodies[1]) < m * m {
        TwoClose(bodies, vel0, env);
      } else {
        TwoPairs(bodies);
        ApplyOne(bodies, vel0, AllPairs(bodies), env);
      }
    }
    PartedIsApart(bodies, vel0, ApplyAll(bodies, vel0, AllPairs(bodies), env));
  }

  /** Main: pinned nodes keep their velocity whatever pushes them. */
  lemma {:induction false} PinnedStay(bodies: seq<Body>, vel: seq<Vec>, pairs: seq<(nat, nat)>, env: Env, k: nat)
    requires |vel| == |bodies| && Valid(bodies, pairs) && k < |bodies| && bodies[k].pinned
    ensures ApplyAll(bodies, vel, pairs, env)[k] == vel[k]
  {
    hide Force;
    if pairs != [] { PinnedStay(bodies, vel, pairs[..|pairs| - 1], env, k); }
  }
}
