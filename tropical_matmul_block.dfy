/** `tropical_matmul_block.rs`: the standalone blocked engine. Its matrix
    keeps n rows but pads each row to a multiple of 16 cells, so its buffer
    holds StrideX(n) * n cells rather than a padded square. */
module TropicalMatmulBlock {
  import opened Dist
  import opened Graph
  import opened Kernel
  import opened Rounds
  import opened Staging
  import opened Device
  import Matrix
  import Benchmark
  import TropicalMatmul

  /** `WORKGROUP_SIZE_X` and `WORKGROUP_SIZE_Y`. */
  const WorkgroupSizeX: Extent := 16
  const WorkgroupSizeY: Extent := 16

  /** `stride_x(n)`: the row length, padded to whole workgroups. */
  function StrideX(n: nat): (stride: nat)
    ensures stride % 16 == 0 && n <= stride < n + 16
  {
    NumThreads(n, WorkgroupSizeX)
  }

  /** `stride_y(n)`: the column count padded the same way; both extents are
      16, so it equals the row stride. */
  function StrideY(n: nat): (stride: nat)
    ensures stride == StrideX(n)
  {
    NumThreads(n, WorkgroupSizeY)
  }

  /** `stride_x(n)` is the least multiple of 16 that is at least n. */
  lemma StrideXIsLeastMultiple(n: nat, m: nat)
    requires m % 16 == 0 && n <= m
    ensures StrideX(n) <= m
  {
    NumThreadsIsLeastMultiple(n, WorkgroupSizeX, m);
  }

  /** `buffer_size(n)`: n rows of StrideX(n) f32 cells. Every row is a whole
      number of 16-cell workgroups (64 bytes each); the buffer holds the
      n x n matrix and fewer than 16 padding cells per row. */
  function BufferSize(n: nat): (size: nat)
    ensures size % 64 == 0
    ensures n * n * 4 <= size
    ensures n > 0 ==> size < (n + 16) * n * 4
  {
    var stride := StrideX(n);
    RowBytes(n, stride);
    stride * n * 4
  }

  /** n rows of a stride padded to a multiple of 16, in bytes. */
  lemma RowBytes(n: nat, stride: nat)
    requires stride % 16 == 0 && n <= stride < n + 16
    ensures (stride * n * 4) % 64 == 0
    ensures n * n * 4 <= stride * n * 4
    ensures n > 0 ==> stride * n * 4 < (n + 16) * n * 4
  {
    var q := stride / 16;
    var m := q * n;
    assert stride == 16 * q;
    assert stride * n == 16 * m;
    assert stride * n * 4 == 64 * m;
    Matrix.MulMonotone(n, stride, n);
    Matrix.MulMonotone(stride + 1, n + 16, n);
  }

  /** `WORKGROUP_SIZE_X` and `WORKGROUP_SIZE_Y` give the workgroup shape of
      the blocked kernel the generic engine runs, within the 256 invocations
      per workgroup of wgpu's default limits. */
  lemma WorkgroupShapeMatchesBlocked()
    ensures Shape(WorkgroupSizeX, WorkgroupSizeY, 1) == TropicalMatmul.WorkgroupShape(TropicalMatmul.Blocked)
    ensures WorkgroupSizeX * WorkgroupSizeY <= 256
  {
  }

  /** The grid of `TropicalMatmulKernel::run`, with its `as u32` casts: a
      flat grid whose invocations reach every logical cell while n fits in
      a u32. */
  function DispatchGrid(n: nat): (g: Grid)
    ensures g.z == 1
    ensures n < 0x1_0000_0000 ==> Covers(g, Shape(WorkgroupSizeX, WorkgroupSizeY, 1), n)
  {
    GridCoversItems(n, WorkgroupSizeX);
    Grid(U32(NumWorkgroups(n, WorkgroupSizeX)), U32(NumWorkgroups(n, WorkgroupSizeY)), 1)
  }

  /** While n fits in a u32 the grid covers every logical cell: at least n
      threads along each axis. */
  lemma GridCoversMatrix(n: nat)
    requires n < 0x1_0000_0000
    ensures DispatchGrid(n).x * WorkgroupSizeX >= n && DispatchGrid(n).y * WorkgroupSizeY >= n
    ensures DispatchGrid(n).x * WorkgroupSizeX == StrideX(n)
  {
    GridCoversItems(n, WorkgroupSizeX);
    GridCoversItems(n, WorkgroupSizeY);
  }

  /** The free function `stage_adjacency_matrix`: n rows of StrideX(n) cells,
      seeded in place and written whole to `dst`. `NonZeroU64::new(size)`
      rejects the zero size of n = 0. */
  method StageAdjacencyMatrix(edges: seq<Edge>, n: nat) returns (upload: seq<Dist>)
    requires EdgesInRange(edges, n) && n > 0
    ensures upload == SeedMatrix(edges, n, StrideX(n))
    ensures |upload| * 4 == BufferSize(n)
  {
    var stride := StrideX(n);
    upload := BuildSeed(edges, n, stride);
  }

  /** `TropicalMatmul::run`: the commands recorded for n vertices. */
  method Run(n: nat) returns (cmds: seq<Command>)
    ensures cmds == Schedule(Log2Ceil(n), Params(U32(n), U32(StrideX(n))), BufferSize(n), DispatchGrid(n))
  {
    var size := BufferSize(n);
    var params := Params(U32(n), U32(StrideX(n)));
    var finalK;
    cmds, finalK := RecordRounds(n, params, size, DispatchGrid(n));
  }

  /** A staged `in` and an `out` of BufferSize(n) bytes hold equally many
      cells, and the per-round copy moves all of them. */
  lemma SizesAgree(n: nat, s: State)
    requires |s.inBuf| == StrideX(n) * n && |s.outBuf| * 4 == BufferSize(n)
    ensures |s.outBuf| == |s.inBuf| && BufferSize(n) == 4 * |s.outBuf|
  {
  }

  /** Staging, then the rounds of `run`, leave in cell i * StrideX(n) + j of
      `out` the shortest-path distance from i to j, under the assumed kernel
      contract, for n >= 2 and a stride that fits in a u32. */
  lemma RunComputesDistances(edges: seq<Edge>, n: nat, s: State, s': State, i: nat, j: nat)
    requires n >= 2 && EdgesInRange(edges, n) && NoSelfLoops(edges) && StrideX(n) < 0x1_0000_0000
    requires s.inBuf == SeedMatrix(edges, n, StrideX(n)) && |s.outBuf| * 4 == BufferSize(n)
    requires s.workgroup == Shape(WorkgroupSizeX, WorkgroupSizeY, 1)
    requires Runs(Schedule(Log2Ceil(n), Params(U32(n), U32(StrideX(n))), BufferSize(n), DispatchGrid(n)), s, s')
    requires i < n && j < n
    ensures Matrix.Index(StrideX(n), i, j) < |s'.outBuf|
    ensures IsDistance(edges, i, j, s'.outBuf[Matrix.Index(StrideX(n), i, j)])
  {
    SizesAgree(n, s);
    GridCoversMatrix(n);
    EngineComputesDistances(edges, n, n, StrideX(n), DispatchGrid(n), s, s', i, j);
  }

  /** The expectation of the engine's test, for every n >= 2 (the test uses
      n = 512, nine rounds): on the path graph, cell i * StrideX(n) + j of the
      result is |i - j|. */
  lemma PathGraphResult(n: nat, s: State, s': State, i: nat, j: nat)
    requires n >= 2 && StrideX(n) < 0x1_0000_0000
    requires s.inBuf == SeedMatrix(Benchmark.CreateGraph(n), n, StrideX(n)) && |s.outBuf| * 4 == BufferSize(n)
    requires s.workgroup == Shape(WorkgroupSizeX, WorkgroupSizeY, 1)
    requires Runs(Schedule(Log2Ceil(n), Params(U32(n), U32(StrideX(n))), BufferSize(n), DispatchGrid(n)), s, s')
    requires i < n && j < n
    ensures Matrix.Index(StrideX(n), i, j) < |s'.outBuf|
    ensures s'.outBuf[Matrix.Index(StrideX(n), i, j)] == Fin(Benchmark.Gap(i, j))
  {
    SizesAgree(n, s);
    GridCoversMatrix(n);
    EngineOnPathGraph(n, n, StrideX(n), DispatchGrid(n), s, s', i, j);
  }
}
