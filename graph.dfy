/** Undirected, unweighted graphs given as edge lists, walks in them, and
    what "the shortest-path distance from i to j" means. */
module Graph {
  import opened Dist

  /** An undirected edge between two vertex ids. */
  type Edge = (nat, nat)

  predicate Joins(e: Edge, u: nat, v: nat) {
    (e.0 == u && e.1 == v) || (e.0 == v && e.1 == u)
  }

  /** u and v are the two ends of some edge of the list, in either order. */
  predicate Adjacent(edges: seq<Edge>, u: nat, v: nat) {
    exists e | e in edges :: Joins(e, u, v)
  }

  /** The edges of the list, forgetting order and repetition. */
  function EdgeSet(edges: seq<Edge>): set<Edge> {
    set e | e in edges
  }

  /** Every endpoint is a vertex id below n. */
  predicate EdgesInRange(edges: seq<Edge>, n: nat) {
    forall e | e in edges :: e.0 < n && e.1 < n
  }

  predicate NoSelfLoops(edges: seq<Edge>) {
    forall e | e in edges :: e.0 != e.1
  }

  lemma AdjacentIsSymmetric(edges: seq<Edge>, u: nat, v: nat)
    ensures Adjacent(edges, u, v) == Adjacent(edges, v, u)
  {
    if Adjacent(edges, u, v) {
      var e :| e in edges && Joins(e, u, v);
      assert Joins(e, v, u);
    }
    if Adjacent(edges, v, u) {
      var e :| e in edges && Joins(e, v, u);
      assert Joins(e, u, v);
    }
  }

  lemma NoSelfLoopsNotAdjacent(edges: seq<Edge>, v: nat)
    requires NoSelfLoops(edges)
    ensures !Adjacent(edges, v, v)
  {
    forall e | e in edges
      ensures !Joins(e, v, v)
    {
    }
  }

  /** Adjacency sees only the set of edges. */
  lemma AdjacentDependsOnEdgeSet(edges1: seq<Edge>, edges2: seq<Edge>, u: nat, v: nat)
    requires EdgeSet(edges1) == EdgeSet(edges2)
    ensures Adjacent(edges1, u, v) == Adjacent(edges2, u, v)
  {
    if Adjacent(edges1, u, v) {
      var e :| e in edges1 && Joins(e, u, v);
      assert e in EdgeSet(edges1);
    }
    if Adjacent(edges2, u, v) {
      var e :| e in edges2 && Joins(e, u, v);
      assert e in EdgeSet(edges2);
    }
  }

  /** p is a walk from i to j: consecutive vertices are adjacent. It has |p| - 1 edges. */
  ghost predicate IsWalk(edges: seq<Edge>, p: seq<nat>, i: nat, j: nat) {
    && |p| >= 1 && p[0] == i && p[|p| - 1] == j
    && forall t | 0 <= t < |p| - 1 :: Adjacent(edges, p[t], p[t + 1])
  }

  /** Every intermediate vertex of p (all but the two ends) is below k. */
  ghost predicate Within(p: seq<nat>, k: nat) {
    forall t | 0 < t < |p| - 1 :: p[t] < k
  }

  /** d is the shortest-path distance from i to j: the number of edges of a
      shortest walk, or +inf when j cannot be reached from i. */
  ghost predicate IsDistance(edges: seq<Edge>, i: nat, j: nat, d: Dist) {
    match d
    case Inf => forall p :: !IsWalk(edges, p, i, j)
    case Fin(m) =>
      && (exists p :: IsWalk(edges, p, i, j) && |p| == m + 1)
      && (forall p :: IsWalk(edges, p, i, j) ==> m + 1 <= |p|)
  }

  /** A walk with no room for intermediate vertices has at most one edge. */
  lemma WithinNothingIsShort(p: seq<nat>)
    ensures Within(p, 0) ==> |p| <= 2
  {
    if |p| > 2 {
      ghost var second := p[1];
    }
  }

  /** The shortest-path distance is determined by the graph. */
  lemma DistanceIsUnique(edges: seq<Edge>, i: nat, j: nat, d1: Dist, d2: Dist)
    requires IsDistance(edges, i, j, d1) && IsDistance(edges, i, j, d2)
    ensures d1 == d2
  {
    if d1.Fin? && d2.Fin? {
      var p1 :| IsWalk(edges, p1, i, j) && |p1| == d1.len + 1;
      var p2 :| IsWalk(edges, p2, i, j) && |p2| == d2.len + 1;
    }
  }

  /** A walk from i to k followed by a walk from k to j is a walk from i to j. */
  lemma WalkJoin(edges: seq<Edge>, p: seq<nat>, q: seq<nat>, i: nat, k: nat, j: nat)
    requires IsWalk(edges, p, i, k) && IsWalk(edges, q, k, j)
    ensures IsWalk(edges, p + q[1..], i, j) && |p + q[1..]| == |p| + |q| - 1
  {
    var r := p + q[1..];
    forall t | 0 <= t < |r| - 1
      ensures Adjacent(edges, r[t], r[t + 1])
    {
      if t < |p| - 1 {
        assert r[t] == p[t] && r[t + 1] == p[t + 1];
      } else {
        assert r[t] == q[t - |p| + 1] && r[t + 1] == q[t - |p| + 2];
      }
    }
  }

  /** Joining two walks whose intermediates are below `bound` at a vertex
      below `bound` keeps every intermediate below `bound`. */
  lemma WalkConcat(edges: seq<Edge>, p: seq<nat>, q: seq<nat>, i: nat, k: nat, j: nat, bound: nat)
    requires IsWalk(edges, p, i, k) && IsWalk(edges, q, k, j)
    requires Within(p, bound) && Within(q, bound) && k < bound
    ensures IsWalk(edges, p + q[1..], i, j) && Within(p + q[1..], bound)
    ensures |p + q[1..]| == |p| + |q| - 1
  {
    WalkJoin(edges, p, q, i, k, j);
    var r := p + q[1..];
    forall t | 0 < t < |r| - 1
      ensures r[t] < bound
    {
      if t < |p| - 1 {
        assert r[t] == p[t];
      } else if t == |p| - 1 {
        assert r[t] == k;
      } else {
        assert r[t] == q[t - |p| + 1];
      }
    }
  }

  /** The piece of a walk between positions a and b is a walk. */
  lemma WalkSlice(edges: seq<Edge>, p: seq<nat>, i: nat, j: nat, a: nat, b: nat)
    requires IsWalk(edges, p, i, j) && a <= b < |p|
    ensures IsWalk(edges, p[a..b + 1], p[a], p[b])
  {
    var r := p[a..b + 1];
    forall t | 0 <= t < |r| - 1
      ensures Adjacent(edges, r[t], r[t + 1])
    {
      assert r[t] == p[a + t] && r[t + 1] == p[a + t + 1];
    }
  }

  /** Cutting out the closed loop between two visits of the same vertex
      leaves a shorter walk between the same ends. */
  lemma WalkCut(edges: seq<Edge>, p: seq<nat>, i: nat, j: nat, a: nat, b: nat)
    requires IsWalk(edges, p, i, j) && a < b < |p| && p[a] == p[b]
    ensures IsWalk(edges, p[..a] + p[b..], i, j) && |p[..a] + p[b..]| == |p| - (b - a)
  {
    var r := p[..a] + p[b..];
    forall t | 0 <= t < |r| - 1
      ensures Adjacent(edges, r[t], r[t + 1])
    {
      if t + 1 < a {
        assert r[t] == p[t] && r[t + 1] == p[t + 1];
      } else if t + 1 == a {
        assert r[t] == p[a - 1] && r[t + 1] == p[b] == p[a];
      } else {
        assert r[t] == p[t - a + b] && r[t + 1] == p[t - a + b + 1];
      }
    }
    if a == 0 {
      assert r[0] == p[b] == p[0];
    }
  }

  /** The vertices that occur in a sequence. */
  function Occurring(p: seq<nat>): set<nat> {
    set x | x in p
  }

  /** A sequence without repetitions has as many distinct elements as positions. */
  lemma {:induction false} DistinctCount(p: seq<nat>)
    requires forall a, b | 0 <= a < b < |p| :: p[a] != p[b]
    ensures |Occurring(p)| == |p|
    decreases |p|
  {
    if p != [] {
      var p' := p[..|p| - 1];
      DistinctCount(p');
      assert Occurring(p) == Occurring(p') + {p[|p| - 1]};
      assert p[|p| - 1] !in Occurring(p');
    }
  }

  /** The n ids below n. */
  function Below(n: nat): (r: set<nat>)
    ensures forall x: nat :: x in r <==> x < n
    ensures |r| == n
  {
    if n == 0 then {} else Below(n - 1) + {n - 1}
  }

  lemma {:induction false} SubsetCount(a: set<nat>, b: set<nat>)
    requires a <= b
    ensures |a| <= |b|
    decreases |a|
  {
    if a != {} {
      var x :| x in a;
      SubsetCount(a - {x}, b - {x});
    }
  }

  /** Pigeonhole: more than n positions holding ids below n repeat an id. */
  lemma Pigeonhole(p: seq<nat>, n: nat) returns (a: nat, b: nat)
    requires |p| > n && forall t | 0 <= t < |p| :: p[t] < n
    ensures a < b < |p| && p[a] == p[b]
  {
    if forall a, b | 0 <= a < b < |p| :: p[a] != p[b] {
      DistinctCount(p);
      SubsetCount(Occurring(p), Below(n));
    }
    a, b :| a < b < |p| && p[a] == p[b];
  }

  /** Every walk between vertices below n can be shortened to one that visits
      at most n vertices: a shortest walk needs at most n - 1 edges. */
  lemma {:induction false} ShortWalk(edges: seq<Edge>, n: nat, p: seq<nat>, i: nat, j: nat) returns (q: seq<nat>)
    requires EdgesInRange(edges, n) && IsWalk(edges, p, i, j) && i < n
    ensures IsWalk(edges, q, i, j) && |q| <= |p| && |q| <= n
    decreases |p|
  {
    if |p| <= n {
      q := p;
    } else {
      WalkStaysInRange(edges, n, p, i, j);
      var a, b := Pigeonhole(p, n);
      WalkCut(edges, p, i, j, a, b);
      q := ShortWalk(edges, n, p[..a] + p[b..], i, j);
    }
  }

  /** Every vertex of a walk that starts at a vertex below n stays below n. */
  lemma WalkStaysInRange(edges: seq<Edge>, n: nat, p: seq<nat>, i: nat, j: nat)
    requires EdgesInRange(edges, n) && IsWalk(edges, p, i, j) && i < n
    ensures forall t | 0 <= t < |p| :: p[t] < n
  {
    forall t | 0 <= t < |p|
      ensures p[t] < n
    {
      if t > 0 {
        assert Adjacent(edges, p[t - 1], p[t]);
      }
    }
  }

  /** The edge list without its self-loops. */
  function Loopless(edges: seq<Edge>): (r: seq<Edge>)
    ensures NoSelfLoops(r)
    ensures forall e | e in r :: e in edges
    ensures forall e | e in edges && e.0 != e.1 :: e in r
  {
    if edges == [] then []
    else
      assert edges == [edges[0]] + edges[1..];
      (if edges[0].0 == edges[0].1 then [] else [edges[0]]) + Loopless(edges[1..])
  }

  /** Dropping the self-loops keeps every adjacency between distinct vertices. */
  lemma LooplessAdjacent(edges: seq<Edge>, u: nat, v: nat)
    ensures Adjacent(Loopless(edges), u, v) <==> Adjacent(edges, u, v) && u != v
  {
    if Adjacent(edges, u, v) && u != v {
      var e :| e in edges && Joins(e, u, v);
      assert e in Loopless(edges);
    }
  }

  /** A walk in a graph can drop its stays at a self-loop: the result is a
      walk between the same ends, no longer, that uses no self-loop. */
  lemma {:induction false} DropStays(edges: seq<Edge>, p: seq<nat>, i: nat, j: nat) returns (q: seq<nat>)
    requires IsWalk(edges, p, i, j)
    ensures IsWalk(Loopless(edges), q, i, j) && |q| <= |p|
    decreases |p|
  {
    if |p| == 1 {
      q := p;
    } else if p[0] == p[1] {
      q := DropStays(edges, p[1..], p[1], j);
    } else {
      var rest := DropStays(edges, p[1..], p[1], j);
      LooplessAdjacent(edges, i, p[1]);
      q := [i] + rest;
      forall t | 0 <= t < |q| - 1
        ensures Adjacent(Loopless(edges), q[t], q[t + 1])
      {
        if t > 0 {
          assert q[t] == rest[t - 1] && q[t + 1] == rest[t];
        }
      }
    }
  }

  /** Self-loops never shorten a walk: a distance in the graph without them
      is the distance in the graph itself. */
  lemma LooplessSameDistance(edges: seq<Edge>, i: nat, j: nat, d: Dist)
    requires IsDistance(Loopless(edges), i, j, d)
    ensures IsDistance(edges, i, j, d)
  {
    forall p | IsWalk(Loopless(edges), p, i, j)
      ensures IsWalk(edges, p, i, j)
    {
      forall t | 0 <= t < |p| - 1
        ensures Adjacent(edges, p[t], p[t + 1])
      {
        LooplessAdjacent(edges, p[t], p[t + 1]);
      }
    }
    match d
    case Inf =>
      forall p
        ensures !IsWalk(edges, p, i, j)
      {
        if IsWalk(edges, p, i, j) {
          var q := DropStays(edges, p, i, j);
        }
      }
    case Fin(m) =>
      forall p | IsWalk(edges, p, i, j)
        ensures m + 1 <= |p|
      {
        var q := DropStays(edges, p, i, j);
      }
  }
}
