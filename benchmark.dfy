/** The CPU Floyd-Warshall reference of the benchmarks and the path-graph
    generator it is benchmarked on. The distance slice holds an n x n matrix,
    row-major with stride n; the specification below works on its row view. */
module Benchmark {
  import opened Dist
  import opened Graph
  import Staging
  import Matrix
  import opened FloydWarshall

  /** Loop invariant of a pass: cells before (i, j) in row-major order hold
      their relaxed value r, the others still hold their pass-start value g. */
  ghost predicate RelaxedUpTo(a: seq<Dist>, g: seq<seq<Dist>>, r: seq<seq<Dist>>, n: nat, i: nat, j: nat)
    requires |a| == n * n && Matrix.IsSquare(g, n) && Matrix.IsSquare(r, n)
  {
    forall i', j' | 0 <= i' < n && 0 <= j' < n ::
      Matrix.Rows(a, n, n)[i'][j'] == if i' < i || (i' == i && j' < j) then r[i'][j'] else g[i'][j']
  }

  /** One pass of the k/i/j loop nest, in place on the flat slice. Cells of
      row k and column k are read while the pass updates the matrix; the pass
      still computes Relax because those cells never change during pass k. */
  method RelaxPass(distance: array<Dist>, n: nat, k: nat)
    requires distance.Length == n * n && k < n
    modifies distance
    ensures Matrix.Rows(distance[..], n, n) == Relax(Matrix.Rows(old(distance[..]), n, n), n, k)
  {
    ghost var g := Matrix.Rows(distance[..], n, n);
    ghost var r := Relax(g, n, k);
    for i := 0 to n
      invariant RelaxedUpTo(distance[..], g, r, n, i, 0)
    {
      for j := 0 to n
        invariant RelaxedUpTo(distance[..], g, r, n, i, j)
      {
        RelaxCell(distance, n, k, i, j, g, r);
      }
      RowDone(distance[..], g, r, n, i);
    }
    PassDone(distance[..], g, r, n);
  }

  /** The body of the inner loop: cell (i, j) becomes the shorter of itself
      and the detour through k. */
  method RelaxCell(distance: array<Dist>, n: nat, k: nat, i: nat, j: nat, ghost g: seq<seq<Dist>>, ghost r: seq<seq<Dist>>)
    requires distance.Length == n * n && Matrix.IsSquare(g, n) && k < n && i < n && j < n
    requires r == Relax(g, n, k) && RelaxedUpTo(distance[..], g, r, n, i, j)
    modifies distance
    ensures RelaxedUpTo(distance[..], g, r, n, i, j + 1)
  {
    ghost var before := distance[..];
    CellStep(before, g, r, n, k, i, j);
    var ij := Matrix.Index(n, i, j);
    var d := Add(distance[Matrix.Index(n, i, k)], distance[Matrix.Index(n, k, j)]);
    if Less(d, distance[ij]) {
      distance[ij] := d;
    }
    assert distance[..] == before[ij := r[i][j]];
    PrefixStep(before, g, r, n, i, j);
  }

  /** A finished row: the invariant moves to the start of the next row. */
  lemma RowDone(a: seq<Dist>, g: seq<seq<Dist>>, r: seq<seq<Dist>>, n: nat, i: nat)
    requires |a| == n * n && Matrix.IsSquare(g, n) && Matrix.IsSquare(r, n) && i < n
    requires RelaxedUpTo(a, g, r, n, i, n)
    ensures RelaxedUpTo(a, g, r, n, i + 1, 0)
  {
  }

  /** A finished pass: the slice holds the relaxed matrix. */
  lemma PassDone(a: seq<Dist>, g: seq<seq<Dist>>, r: seq<seq<Dist>>, n: nat)
    requires |a| == n * n && Matrix.IsSquare(g, n) && Matrix.IsSquare(r, n)
    requires RelaxedUpTo(a, g, r, n, n, 0)
    ensures Matrix.Rows(a, n, n) == r
  {
    forall i | 0 <= i < n
      ensures Matrix.Rows(a, n, n)[i] == r[i]
    {
    }
  }

  /** Storing the relaxed value of cell (i, j) advances the invariant by one cell. */
  lemma PrefixStep(a: seq<Dist>, g: seq<seq<Dist>>, r: seq<seq<Dist>>, n: nat, i: nat, j: nat)
    requires |a| == n * n && Matrix.IsSquare(g, n) && Matrix.IsSquare(r, n) && i < n && j < n
    requires RelaxedUpTo(a, g, r, n, i, j)
    ensures Matrix.Index(n, i, j) < n * n
    ensures RelaxedUpTo(a[Matrix.Index(n, i, j) := r[i][j]], g, r, n, i, j + 1)
  {
    Matrix.CellInBounds(n, n, i, j);
    var a' := a[Matrix.Index(n, i, j) := r[i][j]];
    forall i', j' | 0 <= i' < n && 0 <= j' < n
      ensures Matrix.Rows(a', n, n)[i'][j'] == if i' < i || (i' == i && j' < j + 1) then r[i'][j'] else g[i'][j']
    {
      Matrix.RowsAt(a, n, n, i', j');
      Matrix.RowsAt(a', n, n, i', j');
      Matrix.CellIndexInjective(n, i, j, i', j');
    }
  }

  /** The facts the in-place update of cell (i, j) in pass k relies on: the
      two cells it reads hold their pass-start values, and so does (i, j). */
  lemma CellStep(a: seq<Dist>, g: seq<seq<Dist>>, r: seq<seq<Dist>>, n: nat, k: nat, i: nat, j: nat)
    requires |a| == n * n && Matrix.IsSquare(g, n) && k < n && i < n && j < n
    requires r == Relax(g, n, k) && RelaxedUpTo(a, g, r, n, i, j)
    ensures Matrix.Index(n, i, j) < n * n && Matrix.Index(n, i, k) < n * n && Matrix.Index(n, k, j) < n * n
    ensures a[Matrix.Index(n, i, j)] == g[i][j] && a[Matrix.Index(n, i, k)] == g[i][k] && a[Matrix.Index(n, k, j)] == g[k][j]
    ensures r[i][j] == Min(a[Matrix.Index(n, i, j)], Add(a[Matrix.Index(n, i, k)], a[Matrix.Index(n, k, j)]))
  {
    RelaxFixesRowAndColumn(g, n, k, i);
    RelaxFixesRowAndColumn(g, n, k, j);
    Matrix.RowsAt(a, n, n, i, j);
    Matrix.RowsAt(a, n, n, i, k);
    Matrix.RowsAt(a, n, n, k, j);
  }

  /** `warshall_floyd_cpu`: fill with +inf, seed the diagonal and the edges,
      then run passes k = 0 .. n-1. */
  method WarshallFloydCpu(n: nat, edges: seq<Edge>, distance: array<Dist>)
    requires distance.Length == n * n && EdgesInRange(edges, n)
    modifies distance
    ensures Matrix.Rows(distance[..], n, n) == FwMatrix(edges, n, n)
    ensures forall i, j | 0 <= i < n && 0 <= j < n && (i != j || !Adjacent(edges, i, i)) ::
      IsDistance(edges, i, j, Matrix.Rows(distance[..], n, n)[i][j])
  {
    forall idx | 0 <= idx < distance.Length {
      distance[idx] := Inf;
    }
    Staging.SeedInPlace(distance, edges, n, n);
    SeedIsFwMatrix(edges, n);
    for k := 0 to n
      invariant Matrix.Rows(distance[..], n, n) == FwMatrix(edges, n, k)
    {
      RelaxPass(distance, n, k);
      RelaxAdvancesFw(edges, n, k);
    }
    forall i, j | 0 <= i < n && 0 <= j < n && (i != j || !Adjacent(edges, i, i))
      ensures IsDistance(edges, i, j, Matrix.Rows(distance[..], n, n)[i][j])
    {
      FloydWarshallComputesDistances(edges, n, i, j);
    }
  }

  /** `create_graph`: the path graph 0 - 1 - ... - (n-1), edges (i-1, i) for i in 1..n. */
  function CreateGraph(n: nat): (edges: seq<Edge>)
    ensures |edges| == if n == 0 then 0 else n - 1
    ensures EdgesInRange(edges, n) && NoSelfLoops(edges)
  {
    seq(if n == 0 then 0 else n - 1, t requires t >= 0 => (t, t + 1))
  }

  /** |i - j| */
  function Gap(i: nat, j: nat): nat {
    if i <= j then j - i else i - j
  }

  /** In the path graph two vertices are adjacent exactly when their ids differ by one. */
  lemma {:induction false} PathGraphAdjacency(n: nat, u: nat, v: nat)
    ensures Adjacent(CreateGraph(n), u, v) <==> u < n && v < n && Gap(u, v) == 1
  {
    var edges := CreateGraph(n);
    if u < n && v < n && Gap(u, v) == 1 {
      var lo := if u < v then u else v;
      assert edges[lo] in edges && Joins(edges[lo], u, v);
    }
  }

  /** Along a walk in the path graph each step moves by one, so the ends of a
      walk of m edges are at most m apart. */
  lemma {:induction false} PathGraphWalkSpan(n: nat, p: seq<nat>, i: nat, j: nat)
    requires IsWalk(CreateGraph(n), p, i, j)
    ensures Gap(i, j) <= |p| - 1
    decreases |p|
  {
    if |p| > 1 {
      var q := p[..|p| - 1];
      assert IsWalk(CreateGraph(n), q, i, q[|q| - 1]) by {
        forall t | 0 <= t < |q| - 1 ensures Adjacent(CreateGraph(n), q[t], q[t + 1]) {
          assert q[t] == p[t] && q[t + 1] == p[t + 1];
        }
      }
      PathGraphWalkSpan(n, q, i, q[|q| - 1]);
      PathGraphAdjacency(n, p[|p| - 2], p[|p| - 1]);
    }
  }

  /** The walk i, i +- 1, ..., j in the path graph. */
  lemma {:induction false} PathGraphStraightWalk(n: nat, i: nat, j: nat) returns (p: seq<nat>)
    requires i < n && j < n
    ensures IsWalk(CreateGraph(n), p, i, j) && |p| == Gap(i, j) + 1
  {
    p := seq(Gap(i, j) + 1, t requires 0 <= t <= Gap(i, j) => if i <= j then i + t else i - t);
    forall t | 0 <= t < |p| - 1
      ensures Adjacent(CreateGraph(n), p[t], p[t + 1])
    {
      PathGraphAdjacency(n, p[t], p[t + 1]);
    }
  }

  /** In the path graph on n vertices the distance from i to j is |i - j|. */
  lemma {:induction false} PathGraphDistance(n: nat, i: nat, j: nat)
    requires i < n && j < n
    ensures IsDistance(CreateGraph(n), i, j, Fin(Gap(i, j)))
  {
    var p := PathGraphStraightWalk(n, i, j);
    forall q | IsWalk(CreateGraph(n), q, i, j)
      ensures Gap(i, j) + 1 <= |q|
    {
      PathGraphWalkSpan(n, q, i, j);
    }
  }

  /** Any distance on the path graph is the gap between the ids. */
  lemma PathGraphDistanceIsGap(n: nat, i: nat, j: nat, d: Dist)
    requires i < n && j < n && IsDistance(CreateGraph(n), i, j, d)
    ensures d == Fin(Gap(i, j))
  {
    PathGraphDistance(n, i, j);
    DistanceIsUnique(CreateGraph(n), i, j, d, Fin(Gap(i, j)));
  }

  /** The CPU reference on the benchmark graph: cell (i, j) holds |i - j|. */
  lemma {:induction false} WarshallFloydOnPathGraph(n: nat, i: nat, j: nat)
    requires i < n && j < n
    ensures FwCell(CreateGraph(n), n, i, j) == Fin(Gap(i, j))
  {
    NoSelfLoopsNotAdjacent(CreateGraph(n), i);
    FloydWarshallComputesDistances(CreateGraph(n), n, i, j);
    PathGraphDistance(n, i, j);
    DistanceIsUnique(CreateGraph(n), i, j, FwCell(CreateGraph(n), n, i, j), Fin(Gap(i, j)));
  }
}
