/** The Floyd-Warshall recurrence on the row view of a distance matrix, and
    the proof that n passes over the seed matrix give shortest-path distances. */
module FloydWarshall {
  import opened Dist
  import opened Graph
  import Staging
  import Matrix

  /** Pass k of Floyd-Warshall as if every cell read the values from the start
      of the pass: d[i][j] becomes min(d[i][j], d[i][k] + d[k][j]). */
  function Relax(g: seq<seq<Dist>>, n: nat, k: nat): (r: seq<seq<Dist>>)
    requires Matrix.IsSquare(g, n) && k < n
    ensures Matrix.IsSquare(r, n)
  {
    seq(n, i requires 0 <= i < n =>
             seq(n, j requires 0 <= j < n => Min(g[i][j], Add(g[i][k], g[k][j]))))
  }

  /** During pass k, row k and column k do not change: adding d[k][k] >= 0 to
      a distance never makes it smaller. */
  lemma {:induction false} RelaxFixesRowAndColumn(g: seq<seq<Dist>>, n: nat, k: nat, i: nat)
    requires Matrix.IsSquare(g, n) && i < n && k < n
    ensures Relax(g, n, k)[i][k] == g[i][k]
    ensures Relax(g, n, k)[k][i] == g[k][i]
  {
    MinAbsorbsDetour(g[i][k], g[k][k]);
    MinAbsorbsDetour(g[k][i], g[k][k]);
  }

  /** A relaxation pass never increases a cell; a cell that changes becomes strictly smaller. */
  lemma {:induction false} RelaxNeverIncreases(g: seq<seq<Dist>>, n: nat, k: nat, i: nat, j: nat)
    requires Matrix.IsSquare(g, n) && k < n && i < n && j < n
    ensures LessEq(Relax(g, n, k)[i][j], g[i][j])
    ensures Relax(g, n, k)[i][j] != g[i][j] ==> Less(Relax(g, n, k)[i][j], g[i][j])
  {
  }

  /** The seed matrix of the graph, as rows. */
  function Seed(edges: seq<Edge>, n: nat): (g: seq<seq<Dist>>)
    ensures Matrix.IsSquare(g, n)
  {
    Matrix.Rows(Staging.SeedMatrix(edges, n, n), n, n)
  }

  lemma SeedAt(edges: seq<Edge>, n: nat, i: nat, j: nat)
    requires i < n && j < n
    ensures Seed(edges, n)[i][j] == Staging.SeedCell(edges, i, j)
  {
    Staging.SeedMatrixAt(edges, n, n, i, j);
    Matrix.RowsAt(Staging.SeedMatrix(edges, n, n), n, n, i, j);
  }

  /** Cell (i, j) after passes 0 .. k-1 over the seed: pass k - 1 lowers
      the cell to the length through vertex k - 1 when that is shorter. */
  function FwCell(edges: seq<Edge>, k: nat, i: nat, j: nat): Dist {
    if k == 0 then Staging.SeedCell(edges, i, j)
    else Min(FwCell(edges, k - 1, i, j), Add(FwCell(edges, k - 1, i, k - 1), FwCell(edges, k - 1, k - 1, j)))
  }

  /** The n x n matrix after passes 0 .. k-1. */
  function FwMatrix(edges: seq<Edge>, n: nat, k: nat): (g: seq<seq<Dist>>)
    ensures Matrix.IsSquare(g, n)
  {
    seq(n, i requires 0 <= i < n => seq(n, j requires 0 <= j < n => FwCell(edges, k, i, j)))
  }

  /** Before any pass the matrix is the seed. */
  lemma SeedIsFwMatrix(edges: seq<Edge>, n: nat)
    ensures Seed(edges, n) == FwMatrix(edges, n, 0)
  {
    forall i, j | 0 <= i < n && 0 <= j < n
      ensures Seed(edges, n)[i][j] == FwMatrix(edges, n, 0)[i][j]
    {
      SeedAt(edges, n, i, j);
    }
    forall i | 0 <= i < n
      ensures Seed(edges, n)[i] == FwMatrix(edges, n, 0)[i]
    {
    }
  }

  /** One relaxation pass through vertex k takes the matrix after k passes
      to the matrix after k + 1 passes. */
  lemma RelaxAdvancesFw(edges: seq<Edge>, n: nat, k: nat)
    requires k < n
    ensures Relax(FwMatrix(edges, n, k), n, k) == FwMatrix(edges, n, k + 1)
  {
    var r, g := Relax(FwMatrix(edges, n, k), n, k), FwMatrix(edges, n, k + 1);
    forall i | 0 <= i < n
      ensures r[i] == g[i]
    {
      assert forall j | 0 <= j < n :: r[i][j] == g[i][j];
    }
  }

  /** Soundness: a finite entry after k passes is the length of a walk whose
      intermediate vertices are all below k. */
  lemma {:induction false} FwWitness(edges: seq<Edge>, k: nat, i: nat, j: nat) returns (p: seq<nat>)
    requires FwCell(edges, k, i, j).Fin?
    ensures IsWalk(edges, p, i, j) && Within(p, k)
    ensures |p| == FwCell(edges, k, i, j).len + 1
  {
    if k == 0 {
      if Adjacent(edges, i, j) {
        p := [i, j];
      } else {
        p := [i];
      }
    } else {
      var v := k - 1;
      if Less(Add(FwCell(edges, v, i, v), FwCell(edges, v, v, j)), FwCell(edges, v, i, j)) {
        var p1 := FwWitness(edges, v, i, v);
        var p2 := FwWitness(edges, v, v, j);
        WalkConcat(edges, p1, p2, i, v, j, k);
        p := p1 + p2[1..];
      } else {
        p := FwWitness(edges, v, i, j);
      }
    }
  }

  /** Completeness: after k passes an entry is at most the length of any walk
      whose intermediate vertices are all below k. Only the empty walk [i] of a
      self-looped vertex i is not matched: its diagonal cell holds 1. */
  lemma {:induction false} FwBelowWalk(edges: seq<Edge>, k: nat, i: nat, j: nat, p: seq<nat>)
    requires |p| >= 2 || !Adjacent(edges, i, i)
    requires IsWalk(edges, p, i, j) && Within(p, k)
    ensures LessEq(FwCell(edges, k, i, j), Fin(|p| - 1))
    decreases k, |p|
  {
    if k == 0 {
      WithinNothingIsShort(p);
      if |p| == 2 {
        assert Adjacent(edges, p[0], p[1]);
      }
    } else {
      var v := k - 1;
      if Within(p, v) {
        FwBelowWalk(edges, v, i, j, p);
      } else {
        var t :| 0 < t < |p| - 1 && p[t] >= v;
        WalkSlice(edges, p, i, j, 0, t);
        WalkSlice(edges, p, i, j, t, |p| - 1);
        var p1, p2 := p[..t + 1], p[t..];
        assert p[0..t + 1] == p1 && p[t..|p| - 1 + 1] == p2;
        FwBelowWalk(edges, k, i, v, p1);
        FwBelowWalk(edges, k, v, j, p2);
        MinAbsorbsDetour(FwCell(edges, v, i, v), FwCell(edges, v, v, v));
        MinAbsorbsDetour(FwCell(edges, v, v, j), FwCell(edges, v, v, v));
      }
    }
  }

  /** After n passes over the seed, every entry (i, j) is the shortest-path
      distance from i to j, or +inf when j is not reachable from i. The one
      exception is the diagonal cell of a self-looped vertex. */
  lemma {:induction false} FloydWarshallComputesDistances(edges: seq<Edge>, n: nat, i: nat, j: nat)
    requires EdgesInRange(edges, n) && i < n && j < n
    requires i != j || !Adjacent(edges, i, i)
    ensures IsDistance(edges, i, j, FwCell(edges, n, i, j))
  {
    var v := FwCell(edges, n, i, j);
    forall q | IsWalk(edges, q, i, j)
      ensures LessEq(v, Fin(|q| - 1))
    {
      WalkStaysInRange(edges, n, q, i, j);
      FwBelowWalk(edges, n, i, j, q);
    }
    if v.Fin? {
      var p := FwWitness(edges, n, i, j);
    }
  }

  /** Every pass keeps the matrix symmetric, as the seed is. */
  lemma {:induction false} FwSymmetric(edges: seq<Edge>, k: nat, i: nat, j: nat)
    ensures FwCell(edges, k, i, j) == FwCell(edges, k, j, i)
  {
    if k == 0 {
      AdjacentIsSymmetric(edges, i, j);
    } else {
      var v := k - 1;
      FwSymmetric(edges, v, i, j);
      FwSymmetric(edges, v, i, v);
      FwSymmetric(edges, v, v, j);
      AddCommutes(FwCell(edges, v, i, v), FwCell(edges, v, v, j));
    }
  }

  /** The diagonal of a vertex without a self-loop stays 0 through every pass. */
  lemma {:induction false} FwDiagonalStaysZero(edges: seq<Edge>, k: nat, i: nat)
    requires !Adjacent(edges, i, i)
    ensures FwCell(edges, k, i, i) == Fin(0)
  {
    if k > 0 {
      FwDiagonalStaysZero(edges, k - 1, i);
    }
  }

  /** Entries off the diagonal are never 0: no pass can produce a 0 from two
      cells of which at least one is off the diagonal. */
  lemma {:induction false} FwOffDiagonalPositive(edges: seq<Edge>, k: nat, i: nat, j: nat)
    requires i != j
    ensures FwCell(edges, k, i, j) != Fin(0)
  {
    if k > 0 {
      var v := k - 1;
      FwOffDiagonalPositive(edges, v, i, j);
      if i != v {
        FwOffDiagonalPositive(edges, v, i, v);
      } else {
        FwOffDiagonalPositive(edges, v, v, j);
      }
    }
  }

  /** A self-loop (v, v) is written after the diagonal and leaves 1 in cell
      (v, v); no pass lowers it back to 0. */
  lemma {:induction false} SelfLoopDiagonalStaysOne(edges: seq<Edge>, k: nat, v: nat)
    requires (v, v) in edges
    ensures FwCell(edges, k, v, v) == Fin(1)
  {
    if k == 0 {
      assert Joins((v, v), v, v);
    } else {
      var u := k - 1;
      SelfLoopDiagonalStaysOne(edges, u, v);
      if v != u {
        FwOffDiagonalPositive(edges, u, v, u);
        FwOffDiagonalPositive(edges, u, u, v);
      }
    }
  }

  /** As written, the CPU reference misreports a self-looped vertex: the
      distance from v to itself is 0 (the walk [v]), but its cell holds 1
      after the n passes. */
  lemma SelfLoopDiagonalIsWrong(edges: seq<Edge>, n: nat, v: nat)
    requires (v, v) in edges
    ensures IsDistance(edges, v, v, Fin(0)) && FwCell(edges, n, v, v) == Fin(1)
  {
    assert IsWalk(edges, [v], v, v);
    SelfLoopDiagonalStaysOne(edges, n, v);
  }

  /** Corrected staging: with the diagonal kept at 0 whatever the edge list
      (equivalently, self-loops ignored), the n passes give the shortest-path
      distance on every cell, the diagonal included. */
  lemma FwLooplessComputesDistances(edges: seq<Edge>, n: nat, i: nat, j: nat)
    requires EdgesInRange(edges, n) && i < n && j < n
    ensures IsDistance(edges, i, j, FwCell(Loopless(edges), n, i, j))
  {
    NoSelfLoopsNotAdjacent(Loopless(edges), i);
    FloydWarshallComputesDistances(Loopless(edges), n, i, j);
    LooplessSameDistance(edges, i, j, FwCell(Loopless(edges), n, i, j));
  }
}
