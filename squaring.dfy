/** Min-plus (tropical) matrix squaring, the product the matmul kernels
    compute, and why ceil(log2 n) squarings of the seeded matrix give the
    shortest-path distances: a product of two matrices of shortest walks with
    at most L edges is the matrix of shortest walks with at most 2L edges, and
    a shortest walk never needs more than n - 1 edges. */
module Squaring {
  import opened Dist
  import opened Graph
  import Matrix
  import opened Rounds
  import opened FloydWarshall

  /** The minimum over l < m of g[i][l] + g[l][j]; +inf when m = 0. */
  function MinOver(g: seq<seq<Dist>>, n: nat, i: nat, j: nat, m: nat): (d: Dist)
    requires Matrix.IsSquare(g, n) && i < n && j < n && m <= n
    ensures forall l | 0 <= l < m :: LessEq(d, Add(g[i][l], g[l][j]))
    ensures d == Inf || exists l | 0 <= l < m :: d == Add(g[i][l], g[l][j])
  {
    if m == 0 then Inf else Min(MinOver(g, n, i, j, m - 1), Add(g[i][m - 1], g[m - 1][j]))
  }

  /** The min-plus product of g with itself. */
  function Square(g: seq<seq<Dist>>, n: nat): (h: seq<seq<Dist>>)
    requires Matrix.IsSquare(g, n)
    ensures Matrix.IsSquare(h, n)
  {
    seq(n, i requires 0 <= i < n => seq(n, j requires 0 <= j < n => MinOver(g, n, i, j, n)))
  }

  /** g squared r times over. */
  function SquareAfter(g: seq<seq<Dist>>, n: nat, r: nat): (h: seq<seq<Dist>>)
    requires Matrix.IsSquare(g, n)
    ensures Matrix.IsSquare(h, n)
  {
    if r == 0 then g else Square(SquareAfter(g, n, r - 1), n)
  }

  /** d is the length of a shortest walk from i to j among those with at most
      L edges, or +inf when every walk from i to j has more than L edges. */
  ghost predicate IsDistanceWithin(edges: seq<Edge>, i: nat, j: nat, L: nat, d: Dist) {
    match d
    case Inf => forall p :: IsWalk(edges, p, i, j) ==> |p| > L + 1
    case Fin(m) =>
      && m <= L
      && (exists p :: IsWalk(edges, p, i, j) && |p| == m + 1)
      && (forall p :: IsWalk(edges, p, i, j) && |p| <= L + 1 ==> m + 1 <= |p|)
  }

  /** Every cell of g is a bounded distance with bound L. */
  ghost predicate AllWithin(edges: seq<Edge>, g: seq<seq<Dist>>, n: nat, L: nat) {
    && Matrix.IsSquare(g, n)
    && forall i, j | 0 <= i < n && 0 <= j < n :: IsDistanceWithin(edges, i, j, L, g[i][j])
  }

  /** The seeded matrix holds the shortest walks of at most one edge. */
  lemma SeedIsWithinOne(edges: seq<Edge>, n: nat)
    requires EdgesInRange(edges, n) && NoSelfLoops(edges)
    ensures AllWithin(edges, Seed(edges, n), n, 1)
  {
    var g := Seed(edges, n);
    forall i, j | 0 <= i < n && 0 <= j < n
      ensures IsDistanceWithin(edges, i, j, 1, g[i][j])
    {
      SeedAt(edges, n, i, j);
      NoSelfLoopsNotAdjacent(edges, i);
      if Adjacent(edges, i, j) {
        assert IsWalk(edges, [i, j], i, j);
      } else if i == j {
        assert IsWalk(edges, [i], i, j);
      } else {
        forall p | IsWalk(edges, p, i, j)
          ensures |p| > 2
        {
        }
      }
    }
  }

  /** Squaring is at most as long as any walk of at most 2L edges. */
  lemma SquareBelowWalk(edges: seq<Edge>, g: seq<seq<Dist>>, n: nat, L: nat, i: nat, j: nat, p: seq<nat>)
    requires EdgesInRange(edges, n) && AllWithin(edges, g, n, L) && i < n && j < n
    requires IsWalk(edges, p, i, j) && |p| <= 2 * L + 1
    ensures LessEq(Square(g, n)[i][j], Fin(|p| - 1))
  {
    var s := if |p| - 1 <= L then |p| - 1 else L;
    WalkStaysInRange(edges, n, p, i, j);
    var l := p[s];
    WalkSlice(edges, p, i, j, 0, s);
    WalkSlice(edges, p, i, j, s, |p| - 1);
    assert p[0..s + 1] == p[..s + 1];
    assert p[s..|p| - 1 + 1] == p[s..];
    assert IsDistanceWithin(edges, i, l, L, g[i][l]);
    assert IsDistanceWithin(edges, l, j, L, g[l][j]);
    assert LessEq(g[i][l], Fin(s));
    assert LessEq(g[l][j], Fin(|p| - 1 - s));
    assert LessEq(MinOver(g, n, i, j, n), Add(g[i][l], g[l][j]));
  }

  /** An infinite cell of the square has no walk of at most 2L edges. */
  lemma SquareInfCase(edges: seq<Edge>, g: seq<seq<Dist>>, n: nat, L: nat, i: nat, j: nat)
    requires EdgesInRange(edges, n) && AllWithin(edges, g, n, L) && i < n && j < n
    requires Square(g, n)[i][j] == Inf
    ensures IsDistanceWithin(edges, i, j, 2 * L, Inf)
  {
    forall p | IsWalk(edges, p, i, j)
      ensures |p| > 2 * L + 1
    {
      if |p| <= 2 * L + 1 {
        SquareBelowWalk(edges, g, n, L, i, j, p);
      }
    }
  }

  /** A finite bounded distance is the length of some walk. */
  lemma WithinWitness(edges: seq<Edge>, i: nat, j: nat, L: nat, d: Dist) returns (p: seq<nat>)
    requires d.Fin? && IsDistanceWithin(edges, i, j, L, d)
    ensures IsWalk(edges, p, i, j) && |p| == d.len + 1 && d.len <= L
  {
    p :| IsWalk(edges, p, i, j) && |p| == d.len + 1;
  }

  /** A finite cell of the square is realised by joining two walks of at most
      L edges, and no walk of at most 2L edges is shorter. */
  lemma SquareFinCase(edges: seq<Edge>, g: seq<seq<Dist>>, n: nat, L: nat, i: nat, j: nat)
    requires EdgesInRange(edges, n) && AllWithin(edges, g, n, L) && i < n && j < n
    requires Square(g, n)[i][j].Fin?
    ensures IsDistanceWithin(edges, i, j, 2 * L, Square(g, n)[i][j])
  {
    var l :| 0 <= l < n && Square(g, n)[i][j] == Add(g[i][l], g[l][j]);
    SquareBelowWalks(edges, g, n, L, i, j);
    JoinWithin(edges, i, l, j, L, g[i][l], g[l][j]);
  }

  /** Joining shortest walks of at most L edges from i to l and from l to j
      gives a bounded distance from i to j with bound 2L, provided nothing
      of at most 2L edges is shorter. */
  lemma JoinWithin(edges: seq<Edge>, i: nat, l: nat, j: nat, L: nat, a: Dist, b: Dist)
    requires Add(a, b).Fin?
    requires IsDistanceWithin(edges, i, l, L, a) && IsDistanceWithin(edges, l, j, L, b)
    requires forall p | IsWalk(edges, p, i, j) && |p| <= 2 * L + 1 :: LessEq(Add(a, b), Fin(|p| - 1))
    ensures IsDistanceWithin(edges, i, j, 2 * L, Add(a, b))
  {
    var p1 := WithinWitness(edges, i, l, L, a);
    var p2 := WithinWitness(edges, l, j, L, b);
    WalkJoin(edges, p1, p2, i, l, j);
    WithinIntro(edges, i, j, 2 * L, Add(a, b).len, p1 + p2[1..]);
  }

  /** SquareBelowWalk for every walk of at most 2L edges at once. */
  lemma SquareBelowWalks(edges: seq<Edge>, g: seq<seq<Dist>>, n: nat, L: nat, i: nat, j: nat)
    requires EdgesInRange(edges, n) && AllWithin(edges, g, n, L) && i < n && j < n
    ensures forall p | IsWalk(edges, p, i, j) && |p| <= 2 * L + 1 :: LessEq(Square(g, n)[i][j], Fin(|p| - 1))
  {
    forall p | IsWalk(edges, p, i, j) && |p| <= 2 * L + 1
      ensures LessEq(Square(g, n)[i][j], Fin(|p| - 1))
    {
      SquareBelowWalk(edges, g, n, L, i, j, p);
    }
  }

  /** A walk of m edges, m <= L, no longer than any walk of at most L edges,
      makes m the bounded distance. */
  lemma WithinIntro(edges: seq<Edge>, i: nat, j: nat, L: nat, m: nat, w: seq<nat>)
    requires m <= L && IsWalk(edges, w, i, j) && |w| == m + 1
    requires forall p | IsWalk(edges, p, i, j) && |p| <= L + 1 :: m + 1 <= |p|
    ensures IsDistanceWithin(edges, i, j, L, Fin(m))
  {
  }

  /** Squaring a matrix of shortest walks of at most L edges gives the
      shortest walks of at most 2L edges. */
  lemma SquareDoubles(edges: seq<Edge>, g: seq<seq<Dist>>, n: nat, L: nat)
    requires EdgesInRange(edges, n) && AllWithin(edges, g, n, L)
    ensures AllWithin(edges, Square(g, n), n, 2 * L)
  {
    forall i, j | 0 <= i < n && 0 <= j < n
      ensures IsDistanceWithin(edges, i, j, 2 * L, Square(g, n)[i][j])
    {
      if Square(g, n)[i][j] == Inf {
        SquareInfCase(edges, g, n, L, i, j);
      } else {
        SquareFinCase(edges, g, n, L, i, j);
      }
    }
  }

  /** After r squarings of the seed every cell is a shortest walk of at most 2^r edges. */
  lemma {:induction false} SquareAfterWithin(edges: seq<Edge>, n: nat, r: nat)
    requires EdgesInRange(edges, n) && NoSelfLoops(edges)
    ensures AllWithin(edges, SquareAfter(Seed(edges, n), n, r), n, Pow2(r))
  {
    if r == 0 {
      SeedIsWithinOne(edges, n);
    } else {
      SquareAfterWithin(edges, n, r - 1);
      SquareAfterStep(edges, Seed(edges, n), n, r);
    }
  }

  /** One more squaring doubles the bound 2^(r-1) to 2^r. */
  lemma SquareAfterStep(edges: seq<Edge>, g: seq<seq<Dist>>, n: nat, r: nat)
    requires r > 0 && EdgesInRange(edges, n) && Matrix.IsSquare(g, n)
    requires AllWithin(edges, SquareAfter(g, n, r - 1), n, Pow2(r - 1))
    ensures AllWithin(edges, SquareAfter(g, n, r), n, Pow2(r))
  {
    SquareDoubles(edges, SquareAfter(g, n, r - 1), n, Pow2(r - 1));
  }

  /** Once n - 1 edges are allowed, the bounded distance is the distance. */
  lemma WithinEnough(edges: seq<Edge>, n: nat, L: nat, i: nat, j: nat, d: Dist)
    requires EdgesInRange(edges, n) && i < n && j < n && n <= L + 1
    requires IsDistanceWithin(edges, i, j, L, d)
    ensures IsDistance(edges, i, j, d)
  {
    match d
    case Inf =>
      forall p
        ensures !IsWalk(edges, p, i, j)
      {
        if IsWalk(edges, p, i, j) {
          var q := ShortWalk(edges, n, p, i, j);
        }
      }
    case Fin(m) =>
      forall p | IsWalk(edges, p, i, j)
        ensures m + 1 <= |p|
      {
        var q := ShortWalk(edges, n, p, i, j);
      }
  }

  /** ceil(log2 n) squarings of the seeded matrix yield the shortest-path
      distances of a graph without self-loops. */
  lemma RepeatedSquaringComputesDistances(edges: seq<Edge>, n: nat, i: nat, j: nat)
    requires EdgesInRange(edges, n) && NoSelfLoops(edges) && i < n && j < n
    ensures IsDistance(edges, i, j, SquareAfter(Seed(edges, n), n, Log2Ceil(n))[i][j])
  {
    var r := Log2Ceil(n);
    SquareAfterWithin(edges, n, r);
    WithinEnough(edges, n, Pow2(r), i, j, SquareAfter(Seed(edges, n), n, r)[i][j]);
  }

  /** Repeated squaring and Floyd-Warshall agree cell by cell. */
  lemma SquaringAgreesWithFloydWarshall(edges: seq<Edge>, n: nat, i: nat, j: nat)
    requires EdgesInRange(edges, n) && NoSelfLoops(edges) && i < n && j < n
    ensures SquareAfter(Seed(edges, n), n, Log2Ceil(n))[i][j] == FwCell(edges, n, i, j)
  {
    RepeatedSquaringComputesDistances(edges, n, i, j);
    NoSelfLoopsNotAdjacent(edges, i);
    FloydWarshallComputesDistances(edges, n, i, j);
    DistanceIsUnique(edges, i, j, SquareAfter(Seed(edges, n), n, Log2Ceil(n))[i][j], FwCell(edges, n, i, j));
  }

  /** g is an n x n matrix equal to its transpose. */
  ghost predicate Symmetric(g: seq<seq<Dist>>, n: nat) {
    Matrix.IsSquare(g, n) && forall i, j | 0 <= i < n && 0 <= j < n :: g[i][j] == g[j][i]
  }

  lemma {:induction false} MinOverSymmetric(g: seq<seq<Dist>>, n: nat, i: nat, j: nat, m: nat)
    requires Symmetric(g, n) && i < n && j < n && m <= n
    ensures MinOver(g, n, i, j, m) == MinOver(g, n, j, i, m)
  {
    if m > 0 {
      MinOverSymmetric(g, n, i, j, m - 1);
      AddCommutes(g[i][m - 1], g[m - 1][j]);
    }
  }

  /** The min-plus square of a symmetric matrix is symmetric. */
  lemma SquareKeepsSymmetry(g: seq<seq<Dist>>, n: nat)
    requires Symmetric(g, n)
    ensures Symmetric(Square(g, n), n)
  {
    forall i, j | 0 <= i < n && 0 <= j < n
      ensures Square(g, n)[i][j] == Square(g, n)[j][i]
    {
      MinOverSymmetric(g, n, i, j, n);
    }
  }

  /** Every repeated square of a symmetric matrix is symmetric: round by
      round, as the engines' loop squares. */
  lemma SquareAfterKeepsSymmetry(g: seq<seq<Dist>>, n: nat, r: nat)
    requires Symmetric(g, n)
    ensures Symmetric(SquareAfter(g, n, r), n)
  {
    var k := 0;
    while k < r
      invariant k <= r && Symmetric(SquareAfter(g, n, k), n)
    {
      SquareAfterStepKeepsSymmetry(g, n, k + 1);
      k := k + 1;
    }
  }

  lemma SquareAfterStepKeepsSymmetry(g: seq<seq<Dist>>, n: nat, r: nat)
    requires r > 0 && Matrix.IsSquare(g, n) && Symmetric(SquareAfter(g, n, r - 1), n)
    ensures Symmetric(SquareAfter(g, n, r), n)
  {
    SquareKeepsSymmetry(SquareAfter(g, n, r - 1), n);
  }

  /** The seed of any edge list is symmetric, self-loops included. */
  lemma SeedIsSymmetric(edges: seq<Edge>, n: nat)
    ensures Symmetric(Seed(edges, n), n)
  {
    forall i, j | 0 <= i < n && 0 <= j < n
      ensures Seed(edges, n)[i][j] == Seed(edges, n)[j][i]
    {
      SeedAt(edges, n, i, j);
      SeedAt(edges, n, j, i);
      AdjacentIsSymmetric(edges, i, j);
    }
  }

  /** An edge between two vertices that both carry a self-loop. */
  const LoopedPair: seq<Edge> := [(0, 0), (1, 1), (0, 1)]

  lemma LoopedPairSeed()
    ensures Seed(LoopedPair, 2)[0][0] == Fin(1) && Seed(LoopedPair, 2)[0][1] == Fin(1)
    ensures Seed(LoopedPair, 2)[1][0] == Fin(1) && Seed(LoopedPair, 2)[1][1] == Fin(1)
  {
    var e := LoopedPair;
    assert Joins(e[0], 0, 0) && Joins(e[1], 1, 1) && Joins(e[2], 0, 1) && Joins(e[2], 1, 0);
    SeedAt(e, 2, 0, 0);
    SeedAt(e, 2, 0, 1);
    SeedAt(e, 2, 1, 0);
    SeedAt(e, 2, 1, 1);
  }

  /** With self-loops at both ends of an edge, the seed holds 1 on both
      diagonal cells, so the only products for the pair (0, 1) are 1 + 1:
      repeated squaring reports 2 where the distance, and the CPU
      reference, give 1. */
  lemma SelfLoopsBreakSquaring()
    ensures SquareAfter(Seed(LoopedPair, 2), 2, Log2Ceil(2))[0][1] == Fin(2)
    ensures IsDistance(LoopedPair, 0, 1, Fin(1))
    ensures FwCell(LoopedPair, 2, 0, 1) == Fin(1)
  {
    var g := Seed(LoopedPair, 2);
    assert Log2Ceil(2) == 1;
    assert SquareAfter(g, 2, 1) == Square(SquareAfter(g, 2, 0), 2);
    LoopedPairSeed();
    LoopedSquare(g);
    LoopedPairDistance();
    LoopedPairFloydWarshall();
  }

  /** With 1 on both diagonal cells, both products for the pair (0, 1)
      pass through a diagonal 1. */
  lemma LoopedSquare(g: seq<seq<Dist>>)
    requires Matrix.IsSquare(g, 2)
    requires g[0][0] == Fin(1) && g[0][1] == Fin(1) && g[1][1] == Fin(1)
    ensures Square(g, 2)[0][1] == Fin(2)
  {
    assert MinOver(g, 2, 0, 1, 1) == Min(Inf, Add(g[0][0], g[0][1])) == Fin(2);
    assert MinOver(g, 2, 0, 1, 2) == Min(Fin(2), Add(g[0][1], g[1][1])) == Fin(2);
  }

  lemma LoopedPairDistance()
    ensures IsDistance(LoopedPair, 0, 1, Fin(1))
  {
    assert Joins(LoopedPair[2], 0, 1);
    assert IsWalk(LoopedPair, [0, 1], 0, 1);
  }

  lemma LoopedPairFloydWarshall()
    ensures FwCell(LoopedPair, 2, 0, 1) == Fin(1)
  {
    var e := LoopedPair;
    assert Joins(e[0], 0, 0) && Joins(e[2], 0, 1);
    assert FwCell(e, 0, 0, 1) == Fin(1) && FwCell(e, 0, 0, 0) == Fin(1);
    assert FwCell(e, 1, 0, 1) == Fin(1);
  }

  /** Dropping the self-loops stages the seed with the diagonal written after
      the edges: 0 on every diagonal cell and the seed elsewhere. */
  lemma LooplessSeedIsDiagonalLast(edges: seq<Edge>, n: nat, i: nat, j: nat)
    requires i < n && j < n
    ensures Seed(Loopless(edges), n)[i][j] == if i == j then Fin(0) else Seed(edges, n)[i][j]
  {
    SeedAt(Loopless(edges), n, i, j);
    SeedAt(edges, n, i, j);
    LooplessAdjacent(edges, i, j);
  }

  /** Staged with its diagonal left at 0, every in-range edge list, self-loops
      included, gets its shortest-path distances from ceil(log2 n) squarings. */
  lemma DiagonalLastComputesDistances(edges: seq<Edge>, n: nat, i: nat, j: nat)
    requires EdgesInRange(edges, n) && i < n && j < n
    ensures IsDistance(edges, i, j, SquareAfter(Seed(Loopless(edges), n), n, Log2Ceil(n))[i][j])
  {
    RepeatedSquaringComputesDistances(Loopless(edges), n, i, j);
    LooplessSameDistance(edges, i, j, SquareAfter(Seed(Loopless(edges), n), n, Log2Ceil(n))[i][j]);
  }
}
