/** `tropical_matmul.rs`: the repeated-squaring engine over either kernel
    (naive 1 x 1 workgroups or blocked 16 x 16), its buffer sizes, dispatch
    grid, staging wrapper and the command stream of `run`. The matrix is
    padded to NumThreadsX(n) in both directions. */
module TropicalMatmul {
  import opened Dist
  import opened Graph
  import opened Kernel
  import opened Rounds
  import opened Staging
  import opened Device
  import Buffer
  import Matrix
  import Benchmark

  /** The two kernels `TropicalMatmul<K>` runs. */
  datatype Variant = Naive | Blocked

  /** `WORKGROUP_SIZE_{X,Y,Z}` of each kernel. Both kernels use flat square
      workgroups, so the x and y paddings agree, and neither exceeds the 256
      invocations per workgroup that wgpu's default limits allow. */
  function WorkgroupShape(v: Variant): (s: Shape)
    ensures s.x == s.y && s.z == 1
    ensures s.x * s.y * s.z <= 256
  {
    match v
    case Naive => Shape(1, 1, 1)
    case Blocked => Shape(16, 16, 1)
  }

  /** The padded matrix dimension `num_threads_x(n)`, also the row stride. */
  function Stride(v: Variant, n: nat): (stride: nat)
    ensures n <= stride < n + WorkgroupShape(v).x && stride % WorkgroupShape(v).x == 0
  {
    NumThreads(n, WorkgroupShape(v).x)
  }

  /** `buffer_size(n)`: the bytes of a num_threads_x(n) x num_threads_y(n) f32 matrix. */
  function BufferSize(v: Variant, n: nat): (size: nat)
    ensures size == Stride(v, n) * Stride(v, n) * 4
    ensures size >= n * n * 4 && size % 4 == 0
  {
    var x, y := NumThreads(n, WorkgroupShape(v).x), NumThreads(n, WorkgroupShape(v).y);
    Matrix.MulMonotone(n, x, n);
    Matrix.MulMonotone(n, x, x);
    x * y * 4
  }

  /** The grid of `Kernel::run`, with its `as u32` casts: a flat grid whose
      invocations reach every logical cell while the stride fits in a u32. */
  function DispatchGrid(v: Variant, n: nat): (g: Grid)
    ensures g.z == 1
    ensures Stride(v, n) < 0x1_0000_0000 ==> Covers(g, WorkgroupShape(v), n)
  {
    var s := WorkgroupShape(v);
    GridCoversItems(n, s.x);
    Grid(U32(NumWorkgroups(n, s.x)), U32(NumWorkgroups(n, s.y)), 1)
  }

  /** While the stride fits in a u32, the grid launches exactly one thread
      per cell of the padded matrix: at least n * n threads, and as many as
      the buffer holds f32 cells. */
  lemma GridCoversMatrix(v: Variant, n: nat)
    requires Stride(v, n) < 0x1_0000_0000
    ensures var g, s := DispatchGrid(v, n), WorkgroupShape(v);
            && g.x * s.x == Stride(v, n) && g.y * s.y == Stride(v, n) && g.z == 1
            && (g.x * s.x) * (g.y * s.y) * 4 == BufferSize(v, n)
            && (g.x * s.x) * (g.y * s.y) >= n * n
  {
    var s := WorkgroupShape(v);
    GridCoversItems(n, s.x);
    GridCoversItems(n, s.y);
  }

  /** `TropicalMatmul::stage_adjacency_matrix`: stages the graph as a padded
      Stride(v, n) x Stride(v, n) matrix of BufferSize(v, n) bytes. When
      every edge endpoint is below n, the padding vertices are isolated,
      with 0 on their own diagonal cell. */
  method StageAdjacencyMatrix(v: Variant, edges: seq<Edge>, n: nat) returns (upload: seq<Dist>)
    requires EdgesInRange(edges, Stride(v, n)) && n > 0
    ensures upload == SeedMatrix(edges, Stride(v, n), Stride(v, n))
    ensures |upload| * 4 == BufferSize(v, n)
  {
    upload := Buffer.StageAdjacencyMatrix(edges, Stride(v, n), BufferSize(v, n));
  }

  /** wgpu buffer usages the engine asks for. */
  datatype Usage = Storage | CopySrc | CopyDst | Uniform

  datatype BufferDesc = BufferDesc(size: nat, usage: set<Usage>)

  /** `create_buffer`: the `in` and `out` buffers of one run. Both are
      storage buffers the kernel can bind, equally large, and the per-round
      copy from `out` to `in` is permitted: `out` is a copy source and `in`
      a copy destination. */
  function CreateBuffer(v: Variant, n: nat): (buffers: (BufferDesc, BufferDesc))
    ensures buffers.0.size == buffers.1.size
    ensures Storage in buffers.0.usage && Storage in buffers.1.usage
    ensures CopyDst in buffers.0.usage && CopySrc in buffers.1.usage
  {
    (BufferDesc(BufferSize(v, n), {Storage, CopyDst}), BufferDesc(BufferSize(v, n), {Storage, CopySrc}))
  }

  /** The buffers fit the engine: the upload fills `in` exactly and the
      per-round copy of BufferSize(v, n) bytes never exceeds either buffer. */
  lemma BuffersFitEngine(v: Variant, edges: seq<Edge>, n: nat)
    ensures var (inBuf, outBuf) := CreateBuffer(v, n);
            && |SeedMatrix(edges, Stride(v, n), Stride(v, n))| * 4 == inBuf.size
            && BufferSize(v, n) <= inBuf.size && BufferSize(v, n) <= outBuf.size
  {
  }

  /** `TropicalMatmul::run`: the commands recorded for n vertices. */
  method Run(v: Variant, n: nat) returns (cmds: seq<Command>)
    ensures cmds == Schedule(Log2Ceil(n), Params(U32(n), U32(Stride(v, n))), BufferSize(v, n), DispatchGrid(v, n))
  {
    var size := BufferSize(v, n);
    var params := Params(U32(n), U32(Stride(v, n)));
    var finalK;
    cmds, finalK := RecordRounds(n, params, size, DispatchGrid(v, n));
  }

  /** A staged `in` and the `out` buffer of `create_buffer` hold equally many
      cells, the per-round copy moves all of them, and the u32 parameters
      are n and the stride themselves. */
  lemma SizesAgree(v: Variant, n: nat, s: State)
    requires Stride(v, n) < 0x1_0000_0000
    requires |s.inBuf| == Stride(v, n) * Stride(v, n) && |s.outBuf| * 4 == CreateBuffer(v, n).1.size
    ensures |s.outBuf| == |s.inBuf| && BufferSize(v, n) == 4 * |s.outBuf|
    ensures n <= Stride(v, n) && U32(n) == n && U32(Stride(v, n)) == Stride(v, n)
  {
  }

  /** Staging, then the rounds of `run`, leave in cell i * Stride(v, n) + j of
      `out` the shortest-path distance from i to j, under the assumed kernel
      contract, for n >= 2 and a stride that fits in a u32. */
  lemma RunComputesDistances(v: Variant, edges: seq<Edge>, n: nat, s: State, s': State, i: nat, j: nat)
    requires n >= 2 && EdgesInRange(edges, n) && NoSelfLoops(edges) && Stride(v, n) < 0x1_0000_0000
    requires s.inBuf == SeedMatrix(edges, Stride(v, n), Stride(v, n))
    requires |s.outBuf| * 4 == CreateBuffer(v, n).1.size && s.workgroup == WorkgroupShape(v)
    requires Runs(Schedule(Log2Ceil(n), Params(U32(n), U32(Stride(v, n))), BufferSize(v, n), DispatchGrid(v, n)), s, s')
    requires i < n && j < n
    ensures Matrix.Index(Stride(v, n), i, j) < |s'.outBuf|
    ensures IsDistance(edges, i, j, s'.outBuf[Matrix.Index(Stride(v, n), i, j)])
  {
    SizesAgree(v, n, s);
    GridCoversMatrix(v, n);
    EngineComputesDistances(edges, n, Stride(v, n), Stride(v, n), DispatchGrid(v, n), s, s', i, j);
  }

  /** The expectation of the engine's test, for every n >= 2 (the test uses
      n = 100, seven rounds): on the path graph, cell i * Stride(v, n) + j
      of the result is |i - j|. */
  lemma PathGraphResult(v: Variant, n: nat, s: State, s': State, i: nat, j: nat)
    requires n >= 2 && Stride(v, n) < 0x1_0000_0000
    requires s.inBuf == SeedMatrix(Benchmark.CreateGraph(n), Stride(v, n), Stride(v, n))
    requires |s.outBuf| * 4 == CreateBuffer(v, n).1.size && s.workgroup == WorkgroupShape(v)
    requires Runs(Schedule(Log2Ceil(n), Params(U32(n), U32(Stride(v, n))), BufferSize(v, n), DispatchGrid(v, n)), s, s')
    requires i < n && j < n
    ensures Matrix.Index(Stride(v, n), i, j) < |s'.outBuf|
    ensures s'.outBuf[Matrix.Index(Stride(v, n), i, j)] == Fin(Benchmark.Gap(i, j))
  {
    SizesAgree(v, n, s);
    GridCoversMatrix(v, n);
    EngineOnPathGraph(n, Stride(v, n), Stride(v, n), DispatchGrid(v, n), s, s', i, j);
  }
}
