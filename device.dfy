/** What the device does with the commands the engines record, on the two
    buffers `in` and `out` and the 8-byte parameter uniform.

    The min-plus kernels are not part of this model, so a dispatch is
    described by an ASSUMED contract, the one the host code relies on: one
    invocation per cell (x, y) of the grid times the bound pipeline's
    workgroup size. When those invocations reach every logical cell, that
    is grid.x * wx >= n and grid.y * wy >= n for params {n, stride}, cell
    (i, j) of `out` with i, j < n becomes the minimum over l < n of
    in(i, l) + in(l, j), where cell (i, j) lives at index i * stride + j.
    A grid that falls short promises nothing about `out`. Either way `in`
    and the parameters are left alone, and the padding cells of `out` may
    hold anything. */
module Device {
  import opened Dist
  import opened Graph
  import Matrix
  import opened Kernel
  import opened Rounds
  import opened Staging
  import opened FloydWarshall
  import opened Squaring
  import Benchmark

  /** The two storage buffers, the uniform, and the workgroup size of the
      pipeline the compute pass binds. */
  datatype State = State(inBuf: seq<Dist>, outBuf: seq<Dist>, params: Params, workgroup: Shape)

  /** The invocations of a grid reach every cell of the logical n x n matrix. */
  predicate Covers(grid: Grid, workgroup: Shape, n: nat) {
    grid.x * workgroup.x >= n && grid.y * workgroup.y >= n
  }

  /** The logical n x n matrix held in a buffer with row stride `stride`. */
  function Logical(buf: seq<Dist>, n: nat, stride: nat): (g: seq<seq<Dist>>)
    requires n <= stride && n * stride <= |buf|
    ensures Matrix.IsSquare(g, n)
  {
    seq(n, i requires 0 <= i < n =>
             seq(n, j requires 0 <= j < n =>
                      Matrix.CellInBounds(stride, n, i, j);
                      buf[Matrix.Index(stride, i, j)]))
  }

  lemma LogicalAt(buf: seq<Dist>, n: nat, stride: nat, i: nat, j: nat)
    requires n <= stride && n * stride <= |buf| && i < n && j < n
    ensures Matrix.Index(stride, i, j) < |buf| && Logical(buf, n, stride)[i][j] == buf[Matrix.Index(stride, i, j)]
  {
    Matrix.CellInBounds(stride, n, i, j);
  }

  /** The assumed kernel contract for one dispatch of `grid`. */
  ghost predicate DispatchEffect(grid: Grid, s: State, s': State) {
    var p := s.params;
    && p.n <= p.stride && p.n * p.stride <= |s.inBuf| && p.n * p.stride <= |s.outBuf|
    && s'.inBuf == s.inBuf && s'.params == p && s'.workgroup == s.workgroup && |s'.outBuf| == |s.outBuf|
    && (Covers(grid, s.workgroup, p.n) ==>
          Logical(s'.outBuf, p.n, p.stride) == Square(Logical(s.inBuf, p.n, p.stride), p.n))
  }

  /** One command. A copy must stay inside both buffers (wgpu rejects it
      otherwise) and moves whole f32 cells from the front of `out` to the
      front of `in`. */
  ghost predicate Step(c: Command, s: State, s': State) {
    match c
    case WriteParams(p) => s' == s.(params := p)
    case CopyOutToIn(bytes) =>
      && bytes % 4 == 0 && bytes / 4 <= |s.outBuf| && bytes / 4 <= |s.inBuf|
      && s' == s.(inBuf := s.outBuf[..bytes / 4] + s.inBuf[bytes / 4..])
    case Dispatch(grid) => DispatchEffect(grid, s, s')
    case Submit => s' == s
  }

  /** The queue executes the commands in submission order, taking s to s'. */
  ghost predicate Runs(cmds: seq<Command>, s: State, s': State)
    decreases |cmds|
  {
    if cmds == [] then s' == s
    else exists mid :: Step(cmds[0], s, mid) && Runs(cmds[1..], mid, s')
  }

  lemma RunsCons(c: Command, rest: seq<Command>, s: State, s': State) returns (mid: State)
    requires Runs([c] + rest, s, s')
    ensures Step(c, s, mid) && Runs(rest, mid, s')
  {
    assert ([c] + rest)[1..] == rest;
    mid :| Step(c, s, mid) && Runs(rest, mid, s');
  }

  /** Running a + b passes through a state reached by a alone. */
  lemma {:induction false} RunsSplit(a: seq<Command>, b: seq<Command>, s: State, s': State) returns (mid: State)
    requires Runs(a + b, s, s')
    ensures Runs(a, s, mid) && Runs(b, mid, s')
    decreases |a|
  {
    if a == [] {
      assert a + b == b;
      mid := s;
    } else {
      assert a + b == [a[0]] + (a[1..] + b);
      var next := RunsCons(a[0], a[1..] + b, s, s');
      mid := RunsSplit(a[1..], b, next, s');
      assert a == [a[0]] + a[1..];
      assert ([a[0]] + a[1..])[1..] == a[1..];
    }
  }

  /** After r >= 1 rounds `out` holds the r-th repeated square of what `in`
      held at the start, provided the copy moves whole buffers. */
  lemma {:induction false} ScheduleSquares(rounds: nat, params: Params, bytes: nat, grid: Grid, s: State, s': State)
    requires rounds >= 1
    requires params.n <= params.stride && params.n * params.stride <= |s.inBuf|
    requires |s.outBuf| == |s.inBuf| && bytes == 4 * |s.outBuf|
    requires Covers(grid, s.workgroup, params.n)
    requires Runs(Schedule(rounds, params, bytes, grid), s, s')
    ensures |s'.outBuf| == |s.outBuf| && |s'.inBuf| == |s.inBuf| && s'.params == params
    ensures s'.workgroup == s.workgroup
    ensures Logical(s'.outBuf, params.n, params.stride)
         == SquareAfter(Logical(s.inBuf, params.n, params.stride), params.n, rounds)
  {
    var n, stride := params.n, params.stride;
    var m1 := s;
    if rounds > 1 {
      m1 := RunsSplit(Schedule(rounds - 1, params, bytes, grid), Round(false, params, bytes, grid), s, s');
      ScheduleSquares(rounds - 1, params, bytes, grid, s, m1);
    } else {
      assert Schedule(rounds, params, bytes, grid) == Round(true, params, bytes, grid);
    }
    var round := Round(rounds == 1, params, bytes, grid);
    assert Runs(round, m1, s');
    var tail := (if rounds == 1 then [] else [CopyOutToIn(bytes)]) + [Dispatch(grid), Submit];
    assert round == [WriteParams(params)] + tail;
    var m2 := RunsCons(WriteParams(params), tail, m1, s');
    var m3 := m2;
    if rounds > 1 {
      m3 := RunsCons(CopyOutToIn(bytes), [Dispatch(grid), Submit], m2, s');
      assert m3.inBuf == m2.outBuf by {
        assert m2.outBuf[..bytes / 4] == m2.outBuf;
      }
    } else {
      assert tail == [Dispatch(grid), Submit];
    }
    assert [Dispatch(grid), Submit] == [Dispatch(grid)] + [Submit];
    var m4 := RunsCons(Dispatch(grid), [Submit], m3, s');
    assert [Submit] == [Submit] + [];
    var m5 := RunsCons(Submit, [], m4, s');
  }

  /** The logical part of a seeded buffer is the seeded matrix of the graph. */
  lemma LogicalSeed(edges: seq<Edge>, rows: nat, stride: nat, n: nat)
    requires n <= rows && n <= stride
    ensures n * stride <= |SeedMatrix(edges, rows, stride)|
    ensures Logical(SeedMatrix(edges, rows, stride), n, stride) == Seed(edges, n)
  {
    var m := SeedMatrix(edges, rows, stride);
    Matrix.MulMonotone(n, rows, stride);
    var g := Logical(m, n, stride);
    forall i, j | 0 <= i < n && 0 <= j < n
      ensures g[i][j] == Seed(edges, n)[i][j]
    {
      LogicalAt(m, n, stride, i, j);
      SeedMatrixAt(edges, rows, stride, i, j);
      SeedAt(edges, n, i, j);
    }
    forall i | 0 <= i < n
      ensures g[i] == Seed(edges, n)[i]
    {
    }
  }

  /** Either repeated-squaring engine: started on a buffer seeded with the
      graph (with any row count and row stride that cover the n vertices) and
      an equally large `out`, the recorded rounds leave in cell i * stride + j
      of `out` the shortest-path distance from i to j, for n >= 2. */
  lemma EngineComputesDistances(edges: seq<Edge>, n: nat, rows: nat, stride: nat, grid: Grid,
                                s: State, s': State, i: nat, j: nat)
    requires n >= 2 && n <= rows && n <= stride && EdgesInRange(edges, n) && NoSelfLoops(edges)
    requires s.inBuf == SeedMatrix(edges, rows, stride) && |s.outBuf| == |s.inBuf|
    requires Covers(grid, s.workgroup, n)
    requires Runs(Schedule(Log2Ceil(n), Params(n, stride), 4 * |s.outBuf|, grid), s, s')
    requires i < n && j < n
    ensures Matrix.Index(stride, i, j) < |s'.outBuf|
    ensures IsDistance(edges, i, j, s'.outBuf[Matrix.Index(stride, i, j)])
  {
    LogicalSeed(edges, rows, stride, n);
    ScheduleSquares(Log2Ceil(n), Params(n, stride), 4 * |s.outBuf|, grid, s, s');
    LogicalAt(s'.outBuf, n, stride, i, j);
    RepeatedSquaringComputesDistances(edges, n, i, j);
  }

  /** On the benchmark's path graph either engine leaves |i - j| in cell
      i * stride + j of `out`. */
  lemma EngineOnPathGraph(n: nat, rows: nat, stride: nat, grid: Grid, s: State, s': State, i: nat, j: nat)
    requires n >= 2 && n <= rows && n <= stride
    requires s.inBuf == SeedMatrix(Benchmark.CreateGraph(n), rows, stride) && |s.outBuf| == |s.inBuf|
    requires Covers(grid, s.workgroup, n)
    requires Runs(Schedule(Log2Ceil(n), Params(n, stride), 4 * |s.outBuf|, grid), s, s')
    requires i < n && j < n
    ensures Matrix.Index(stride, i, j) < |s'.outBuf|
    ensures s'.outBuf[Matrix.Index(stride, i, j)] == Fin(Benchmark.Gap(i, j))
  {
    EngineComputesDistances(Benchmark.CreateGraph(n), n, rows, stride, grid, s, s', i, j);
    Benchmark.PathGraphDistanceIsGap(n, i, j, s'.outBuf[Matrix.Index(stride, i, j)]);
  }

  /** The engines' result is symmetric, as the graph is undirected: cells
      i * stride + j and j * stride + i of `out` are equal, for every edge
      list, self-loops included. */
  lemma EngineOutputSymmetric(edges: seq<Edge>, n: nat, rows: nat, stride: nat, grid: Grid,
                              s: State, s': State, i: nat, j: nat)
    requires n >= 2 && n <= rows && n <= stride && EdgesInRange(edges, n)
    requires s.inBuf == SeedMatrix(edges, rows, stride) && |s.outBuf| == |s.inBuf|
    requires Covers(grid, s.workgroup, n)
    requires Runs(Schedule(Log2Ceil(n), Params(n, stride), 4 * |s.outBuf|, grid), s, s')
    requires i < n && j < n
    ensures Matrix.Index(stride, i, j) < |s'.outBuf| && Matrix.Index(stride, j, i) < |s'.outBuf|
    ensures s'.outBuf[Matrix.Index(stride, i, j)] == s'.outBuf[Matrix.Index(stride, j, i)]
  {
    LogicalSeed(edges, rows, stride, n);
    ScheduleSquares(Log2Ceil(n), Params(n, stride), 4 * |s.outBuf|, grid, s, s');
    LogicalAt(s'.outBuf, n, stride, i, j);
    LogicalAt(s'.outBuf, n, stride, j, i);
    SeedIsSymmetric(edges, n);
    SquareAfterKeepsSymmetry(Seed(edges, n), n, Log2Ceil(n));
  }

  /** `buf` with its logical n x n part replaced by g, padding untouched. */
  function Overlay(buf: seq<Dist>, g: seq<seq<Dist>>, n: nat, stride: nat): (r: seq<Dist>)
    requires Matrix.IsSquare(g, n) && n <= stride
    ensures |r| == |buf|
  {
    seq(|buf|, k requires 0 <= k < |buf| =>
                 if n > 0 && k / stride < n && k % stride < n then g[k / stride][k % stride] else buf[k])
  }

  lemma OverlayLogical(buf: seq<Dist>, g: seq<seq<Dist>>, n: nat, stride: nat)
    requires Matrix.IsSquare(g, n) && n <= stride && n * stride <= |buf|
    ensures Logical(Overlay(buf, g, n, stride), n, stride) == g
  {
    var l := Logical(Overlay(buf, g, n, stride), n, stride);
    forall i | 0 <= i < n
      ensures l[i] == g[i]
    {
      forall j | 0 <= j < n
        ensures l[i][j] == g[i][j]
      {
        LogicalAt(Overlay(buf, g, n, stride), n, stride, i, j);
        Matrix.CellOfIndex(stride, i, j);
      }
    }
  }

  /** A state the assumed kernel contract allows after one dispatch. */
  function Dispatched(s: State): (s': State)
    requires s.params.n <= s.params.stride && s.params.n * s.params.stride <= |s.inBuf|
  {
    var p := s.params;
    s.(outBuf := Overlay(s.outBuf, Square(Logical(s.inBuf, p.n, p.stride), p.n), p.n, p.stride))
  }

  /** A dispatch can always run when the parameters fit both buffers. */
  lemma DispatchCanRun(grid: Grid, s: State)
    requires s.params.n <= s.params.stride
    requires s.params.n * s.params.stride <= |s.inBuf| && s.params.n * s.params.stride <= |s.outBuf|
    ensures DispatchEffect(grid, s, Dispatched(s))
  {
    var p := s.params;
    OverlayLogical(s.outBuf, Square(Logical(s.inBuf, p.n, p.stride), p.n), p.n, p.stride);
  }

  lemma RunsPrepend(c: Command, rest: seq<Command>, s: State, mid: State, s': State)
    requires Step(c, s, mid) && Runs(rest, mid, s')
    ensures Runs([c] + rest, s, s')
  {
    assert ([c] + rest)[1..] == rest;
  }

  lemma {:induction false} RunsAppend(a: seq<Command>, b: seq<Command>, s: State, mid: State, s': State)
    requires Runs(a, s, mid) && Runs(b, mid, s')
    ensures Runs(a + b, s, s')
    decreases |a|
  {
    if a == [] {
      assert a + b == b;
    } else {
      var next :| Step(a[0], s, next) && Runs(a[1..], next, mid);
      RunsAppend(a[1..], b, next, mid, s');
      RunsPrepend(a[0], a[1..] + b, s, next, s');
      assert a + b == [a[0]] + (a[1..] + b);
    }
  }

  /** One round can run from any state whose buffers are equally large and
      hold the written parameters; it keeps the buffer sizes. */
  lemma RoundCanRun(first: bool, params: Params, bytes: nat, grid: Grid, s: State) returns (s': State)
    requires params.n <= params.stride && params.n * params.stride <= |s.inBuf|
    requires |s.outBuf| == |s.inBuf| && bytes == 4 * |s.outBuf|
    ensures Runs(Round(first, params, bytes, grid), s, s')
    ensures |s'.inBuf| == |s.inBuf| && |s'.outBuf| == |s.outBuf|
  {
    var m1 := s.(params := params);
    var m2 := m1;
    if !first {
      m2 := m1.(inBuf := m1.outBuf[..bytes / 4] + m1.inBuf[bytes / 4..]);
    }
    DispatchCanRun(grid, m2);
    var m3 := Dispatched(m2);
    s' := m3;
    RunsPrepend(Submit, [], m3, m3, s');
    RunsPrepend(Dispatch(grid), [Submit], m2, m3, s');
    var tail := (if first then [] else [CopyOutToIn(bytes)]) + [Dispatch(grid), Submit];
    if first {
      assert tail == [Dispatch(grid)] + [Submit];
    } else {
      RunsPrepend(CopyOutToIn(bytes), [Dispatch(grid)] + [Submit], m1, m2, s');
      assert tail == [CopyOutToIn(bytes)] + ([Dispatch(grid)] + [Submit]);
    }
    RunsPrepend(WriteParams(params), tail, s, m1, s');
    assert Round(first, params, bytes, grid) == [WriteParams(params)] + tail;
  }

  /** The recorded schedule can run: from any state whose buffers are equally
      large and hold the n x n matrix, some end state is reached. The
      end-to-end theorems above, which assume a run, are therefore not
      vacuous. */
  lemma {:induction false} ScheduleCanRun(rounds: nat, params: Params, bytes: nat, grid: Grid, s: State) returns (s': State)
    requires params.n <= params.stride && params.n * params.stride <= |s.inBuf|
    requires |s.outBuf| == |s.inBuf| && bytes == 4 * |s.outBuf|
    ensures Runs(Schedule(rounds, params, bytes, grid), s, s')
    ensures |s'.inBuf| == |s.inBuf| && |s'.outBuf| == |s.outBuf|
  {
    if rounds == 0 {
      s' := s;
    } else {
      var mid := ScheduleCanRun(rounds - 1, params, bytes, grid, s);
      s' := RoundCanRun(rounds == 1, params, bytes, grid, mid);
      RunsAppend(Schedule(rounds - 1, params, bytes, grid), Round(rounds == 1, params, bytes, grid), s, mid, s');
    }
  }

  /** Every engine start state of the end-to-end theorems has a run. */
  lemma EngineCanRun(edges: seq<Edge>, n: nat, rows: nat, stride: nat, grid: Grid, s: State) returns (s': State)
    requires n <= rows && n <= stride
    requires s.inBuf == SeedMatrix(edges, rows, stride) && |s.outBuf| == |s.inBuf|
    ensures Runs(Schedule(Log2Ceil(n), Params(n, stride), 4 * |s.outBuf|, grid), s, s')
  {
    LogicalSeed(edges, rows, stride, n);
    s' := ScheduleCanRun(Log2Ceil(n), Params(n, stride), 4 * |s.outBuf|, grid, s);
  }
}
