/** Host-side construction of the seed distance matrix: a flat buffer of
    stride * n cells filled with +inf, then 0 on the diagonal, then 1 on both
    cells of every edge. The same three steps appear in `buffer.rs`, in the
    blocked engine's own staging function and at the start of the CPU
    Floyd-Warshall reference; they are modelled once, here. */
module Staging {
  import opened Dist
  import opened Graph
  import Matrix

  /** What the seeding steps leave in cell (i, j): edges are written after the
      diagonal, so an edge wins over the diagonal's 0. */
  function SeedCell(edges: seq<Edge>, i: nat, j: nat): Dist {
    if Adjacent(edges, i, j) then Fin(1)
    else if i == j then Fin(0)
    else Inf
  }

  /** The whole seed buffer: n rows of `stride` cells, row-major. */
  function SeedMatrix(edges: seq<Edge>, n: nat, stride: nat): (m: seq<Dist>)
    ensures |m| == stride * n
  {
    if stride == 0 then []
    else seq(stride * n, idx requires 0 <= idx < stride * n => SeedCell(edges, idx / stride, idx % stride))
  }

  /** The buffer after the diagonal loop has handled rows 0 .. d-1. */
  function DiagonalPrefix(n: nat, stride: nat, d: nat): (m: seq<Dist>)
    ensures |m| == stride * n
  {
    if stride == 0 then []
    else seq(stride * n, idx requires 0 <= idx < stride * n =>
                           if idx / stride == idx % stride && idx / stride < d then Fin(0) else Inf)
  }

  /** Cell (i, j) of the seed buffer is SeedCell(edges, i, j). */
  lemma SeedMatrixAt(edges: seq<Edge>, n: nat, stride: nat, i: nat, j: nat)
    requires i < n && j < stride
    ensures Matrix.Index(stride, i, j) < stride * n
    ensures SeedMatrix(edges, n, stride)[Matrix.Index(stride, i, j)] == SeedCell(edges, i, j)
  {
    Matrix.CellInBounds(stride, n, i, j);
    Matrix.CellOfIndex(stride, i, j);
  }

  lemma DiagonalStep(n: nat, stride: nat, d: nat)
    requires d < n <= stride
    ensures Matrix.Index(stride, d, d) < stride * n
    ensures DiagonalPrefix(n, stride, d + 1) == DiagonalPrefix(n, stride, d)[Matrix.Index(stride, d, d) := Fin(0)]
  {
    var p := Matrix.Index(stride, d, d);
    Matrix.CellInBounds(stride, n, d, d);
    Matrix.CellOfIndex(stride, d, d);
    var before, after := DiagonalPrefix(n, stride, d), DiagonalPrefix(n, stride, d + 1);
    forall idx | 0 <= idx < stride * n
      ensures after[idx] == before[p := Fin(0)][idx]
    {
      Matrix.IndexOfCell(stride, n, idx);
    }
  }

  lemma DiagonalDone(edges: seq<Edge>, n: nat, stride: nat)
    requires n <= stride && edges == []
    ensures DiagonalPrefix(n, stride, n) == SeedMatrix(edges, n, stride)
  {
    forall idx | 0 <= idx < stride * n
      ensures DiagonalPrefix(n, stride, n)[idx] == SeedMatrix(edges, n, stride)[idx]
    {
      Matrix.IndexOfCell(stride, n, idx);
    }
  }

  lemma AdjacentPrefix(edges: seq<Edge>, t: nat, u: nat, v: nat)
    requires t < |edges|
    ensures Adjacent(edges[..t + 1], u, v) <==> Adjacent(edges[..t], u, v) || Joins(edges[t], u, v)
  {
    assert edges[..t + 1] == edges[..t] + [edges[t]];
  }

  /** Writing 1 into both cells of edge t extends the seed of the first t edges
      to the seed of the first t + 1. */
  lemma EdgeStep(edges: seq<Edge>, n: nat, stride: nat, t: nat)
    requires t < |edges| && EdgesInRange(edges, n) && n <= stride
    ensures Matrix.Index(stride, edges[t].0, edges[t].1) < stride * n
    ensures Matrix.Index(stride, edges[t].1, edges[t].0) < stride * n
    ensures SeedMatrix(edges[..t + 1], n, stride)
         == SeedMatrix(edges[..t], n, stride)[Matrix.Index(stride, edges[t].0, edges[t].1) := Fin(1)]
                                            [Matrix.Index(stride, edges[t].1, edges[t].0) := Fin(1)]
  {
    var (a, b) := edges[t];
    assert edges[t] in edges;
    var p1, p2 := Matrix.Index(stride, a, b), Matrix.Index(stride, b, a);
    Matrix.CellInBounds(stride, n, a, b);
    Matrix.CellInBounds(stride, n, b, a);
    Matrix.CellOfIndex(stride, a, b);
    Matrix.CellOfIndex(stride, b, a);
    var before, after := SeedMatrix(edges[..t], n, stride), SeedMatrix(edges[..t + 1], n, stride);
    forall idx | 0 <= idx < stride * n
      ensures after[idx] == before[p1 := Fin(1)][p2 := Fin(1)][idx]
    {
      Matrix.IndexOfCell(stride, n, idx);
      AdjacentPrefix(edges, t, idx / stride, idx % stride);
    }
  }

  /** The diagonal loop and the edge loop, run in place over a buffer that is
      all +inf (`vec![INFINITY; ..]` or `fill(INFINITY)`). Writing an edge
      endpoint at or beyond n would index past the buffer, hence the range
      requirement on edges. */
  method SeedInPlace(distance: array<Dist>, edges: seq<Edge>, n: nat, stride: nat)
    requires n <= stride && distance.Length == stride * n
    requires EdgesInRange(edges, n)
    requires forall idx | 0 <= idx < distance.Length :: distance[idx] == Inf
    modifies distance
    ensures distance[..] == SeedMatrix(edges, n, stride)
  {
    assert distance[..] == DiagonalPrefix(n, stride, 0);
    for i := 0 to n
      invariant distance[..] == DiagonalPrefix(n, stride, i)
    {
      DiagonalStep(n, stride, i);
      distance[Matrix.Index(stride, i, i)] := Fin(0);
    }
    DiagonalDone(edges[..0], n, stride);
    for t := 0 to |edges|
      invariant distance[..] == SeedMatrix(edges[..t], n, stride)
    {
      EdgeStep(edges, n, stride, t);
      var (i, j) := edges[t];
      distance[Matrix.Index(stride, i, j)] := Fin(1);
      distance[Matrix.Index(stride, j, i)] := Fin(1);
    }
    assert edges[..|edges|] == edges;
  }

  /** Allocates the +inf host buffer of stride * n cells and seeds it; returns
      the cells that are uploaded. */
  method BuildSeed(edges: seq<Edge>, n: nat, stride: nat) returns (staged: seq<Dist>)
    requires n <= stride && EdgesInRange(edges, n)
    ensures staged == SeedMatrix(edges, n, stride)
  {
    var distance := new Dist[stride * n](_ => Inf);
    SeedInPlace(distance, edges, n, stride);
    staged := distance[..];
  }

  // Properties of the seed buffer.

  /** Both cells of an edge (i, j) lie inside the stride * n buffer exactly
      when both endpoints are below n, so the range requirement on edges is
      precisely what keeps the edge loop inside the buffer. */
  lemma EdgeCellsInBounds(n: nat, stride: nat, i: nat, j: nat)
    requires n <= stride
    ensures (Matrix.Index(stride, i, j) < stride * n && Matrix.Index(stride, j, i) < stride * n) <==> (i < n && j < n)
  {
    if i < n && j < n {
      Matrix.CellInBounds(stride, n, i, j);
      Matrix.CellInBounds(stride, n, j, i);
    }
    Matrix.MulMonotone(n, i, stride);
    Matrix.MulMonotone(n, j, stride);
  }

  /** Cell contents, case by case: 1 on both cells of every edge, 0 on the
      diagonal of a vertex without a self-loop, +inf everywhere else,
      including the padding columns n .. stride - 1. */
  lemma {:induction false} SeedMatrixContents(edges: seq<Edge>, n: nat, stride: nat, i: nat, j: nat)
    requires i < n && j < stride
    ensures Matrix.Index(stride, i, j) < stride * n
    ensures SeedMatrix(edges, n, stride)[Matrix.Index(stride, i, j)] == Fin(1) <==> Adjacent(edges, i, j)
    ensures SeedMatrix(edges, n, stride)[Matrix.Index(stride, i, j)] == Fin(0) <==> i == j && !Adjacent(edges, i, j)
    ensures SeedMatrix(edges, n, stride)[Matrix.Index(stride, i, j)] == Inf <==> i != j && !Adjacent(edges, i, j)
    ensures EdgesInRange(edges, n) && n <= j ==> SeedMatrix(edges, n, stride)[Matrix.Index(stride, i, j)] == Inf
  {
    SeedMatrixAt(edges, n, stride, i, j);
  }

  /** Both cells of every listed edge hold 1. */
  lemma {:induction false} SeedMatrixEdges(edges: seq<Edge>, n: nat, stride: nat, e: Edge)
    requires e in edges && EdgesInRange(edges, n) && n <= stride
    ensures Matrix.Index(stride, e.0, e.1) < stride * n && Matrix.Index(stride, e.1, e.0) < stride * n
    ensures SeedMatrix(edges, n, stride)[Matrix.Index(stride, e.0, e.1)] == Fin(1)
    ensures SeedMatrix(edges, n, stride)[Matrix.Index(stride, e.1, e.0)] == Fin(1)
  {
    SeedMatrixAt(edges, n, stride, e.0, e.1);
    SeedMatrixAt(edges, n, stride, e.1, e.0);
    assert Joins(e, e.0, e.1) && Joins(e, e.1, e.0);
  }

  /** The seed is symmetric on the logical n x n part. */
  lemma {:induction false} SeedMatrixSymmetric(edges: seq<Edge>, n: nat, stride: nat, i: nat, j: nat)
    requires i < n && j < n && n <= stride
    ensures Matrix.Index(stride, i, j) < stride * n && Matrix.Index(stride, j, i) < stride * n
    ensures SeedMatrix(edges, n, stride)[Matrix.Index(stride, i, j)] == SeedMatrix(edges, n, stride)[Matrix.Index(stride, j, i)]
  {
    SeedMatrixAt(edges, n, stride, i, j);
    SeedMatrixAt(edges, n, stride, j, i);
    AdjacentIsSymmetric(edges, i, j);
  }

  /** Only the set of edges matters: not their order, not repetitions. */
  lemma {:induction false} SeedMatrixDependsOnEdgeSet(edges1: seq<Edge>, edges2: seq<Edge>, n: nat, stride: nat)
    requires EdgeSet(edges1) == EdgeSet(edges2)
    ensures SeedMatrix(edges1, n, stride) == SeedMatrix(edges2, n, stride)
  {
    var m1, m2 := SeedMatrix(edges1, n, stride), SeedMatrix(edges2, n, stride);
    forall idx | 0 <= idx < stride * n
      ensures m1[idx] == m2[idx]
    {
      Matrix.IndexOfCell(stride, n, idx);
      AdjacentDependsOnEdgeSet(edges1, edges2, idx / stride, idx % stride);
    }
  }
}
