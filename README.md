# wgpu-apsp in Dafny

wgpu-apsp computes all-pairs shortest paths (APSP) on unweighted, undirected
graphs. Its GPU engines square the adjacency matrix repeatedly in the min-plus
(tropical) semiring, and its benchmark compares them with a CPU
Floyd–Warshall reference. This project models the host-side logic around
the GPU work and proves its properties:

- workgroup sizing: ceiling division, padded strides, buffer sizes
  (`Kernel`, the sizing functions in `TropicalMatmul` and
  `TropicalMatmulBlock`);
- host-side staging of the distance matrix: fill with +inf, write 0 on the
  diagonal, write 1 on both cells of every edge, over a row stride that may
  be padded. This is one in-place array method, `Staging.SeedInPlace`,
  shared by `buffer.rs`, the blocked engine's staging function and the
  CPU reference;
- the round loop of both repeated-squaring engines. It is modelled as a
  method that records abstract commands: `WriteParams`, `CopyOutToIn`,
  `Dispatch` and `Submit`. The proofs cover the round count, the copy
  pattern, and agreement of parameters and sizes with the staging code;
- what the engines compute. A small device semantics (`Device`) runs the
  recorded commands on the `in` and `out` buffers. Under an assumed
  contract for the WGSL kernel (one dispatch squares the logical n × n
  matrix in the min-plus semiring), the staged buffer followed by the
  recorded rounds leaves the shortest-path distance in cell
  `i * stride + j`. On the benchmark's path graph that value is |i − j|,
  as both engine tests expect;
- the CPU Floyd–Warshall reference `warshall_floyd_cpu`. Its in-place
  k/i/j loop nest on an `array` is proved to compute the Floyd–Warshall
  recurrence `FwCell`, and n passes of that recurrence give shortest-path
  distances. `create_graph` is modelled too.

Distances are `Fin(nat) | Inf`, with saturating addition and the `<` of f32.
Every value the code produces is a small integer or +inf, so this is exact.
Shortest-path distance is defined from walks (`Graph.IsDistance`). No
result is stated by fiat. The one exception is the dispatch contract
(`Device.DispatchEffect`): the WGSL kernels are not part of this model. That contract only holds for a grid that reaches every logical cell, so the end-to-end theorems depend on the workgroup counts of `num_workgroups_x/y`. They also assume that the bound pipeline's workgroup size (the WGSL `@workgroup_size`) equals the Rust constants: 16 × 16 × 1 for the blocked kernels, 1 × 1 × 1 for the naive one.

Modules, in dependency order: `Dist`, `Matrix`, `Kernel`, `Graph`,
`Staging`, `Buffer`, `FloydWarshall`, `Benchmark`, `Rounds`, `Squaring`,
`Device`, `TropicalMatmul`, `TropicalMatmulBlock`.

Points where the model follows the code, and what the code implies:

- Self-loops. Staging writes the diagonal first and the edges after. An
  edge `(v, v)` therefore leaves 1 in cell (v, v). The CPU reference then
  goes wrong only on that diagonal cell: no pass lowers it
  (`FloydWarshall.SelfLoopDiagonalStaysOne`), and every other cell is
  still the shortest-path distance
  (`FloydWarshall.FloydWarshallComputesDistances`). The squaring engines go wrong off the
  diagonal as well. A product term through a self-looped vertex adds that
  vertex's 1 to a path, and with the round count capped at ceil(log2 n)
  that padding can survive to the end. On n = 2 with edges (0, 0), (1, 1),
  (0, 1) the engines report 2 for the pair (0, 1), whose distance and CPU
  value are 1 (`Squaring.SelfLoopsBreakSquaring`). The engines and the CPU
  reference therefore disagree next to self-looped vertices. The engines'
  shortest-path theorems assume a graph without self-loops, and every graph
  the repository builds has none. Staging that ignores self-loops, so that
  the diagonal stays 0, gives shortest-path distances on every graph, for
  the engines (`Squaring.DiagonalLastComputesDistances`) and for the CPU
  reference (`FloydWarshall.FwLooplessComputesDistances`); see Findings.
- Panics are preconditions. An edge endpoint that is not below the matrix
  dimension indexes past the host vector. `Staging.EdgeCellsInBounds`
  shows this is exactly the condition for both writes to land inside the
  buffer. `copy_from_slice` panics unless the byte size equals the staged
  length. `NonZeroU64::new(size).unwrap()` panics on size 0, which is why
  the staging wrappers require n > 0.
- `as u32` casts are modelled as reduction modulo 2^32 (`Rounds.U32`). The
  end-to-end theorems require the padded stride to be below 2^32, so
  the uniform `[n, stride]` the kernel reads is exact.

## Model

| member | source | states |
|---|---|---|
| Kernel.NumWorkgroups | src/kernel.rs:6-16 | the workgroup count along an axis is the ceiling of n / w: r · w covers n items and r − 1 workgroups do not |
| Kernel.NumThreads | src/kernel.rs:18-28 | the padded extent is a multiple of w with n ≤ r < n + w |
| Kernel.NumThreadsIsLeastMultiple | src/kernel.rs:18-20 | the padded extent is the least multiple of w that is at least n |
| Kernel.NumThreadsIdempotent | src/kernel.rs:18-20 | padding an already padded extent leaves it unchanged |
| Kernel.NumThreadsMonotone | src/kernel.rs:6-20 | padding is monotone in n, and 0 pads to 0 |
| Kernel.UnitExtentIsIdentity | src/kernel.rs:6-20 | with workgroup extent 1, both the workgroup count and the padded extent equal n |
| Kernel.GridCoversItems | src/kernel.rs:6-20 | the grid's workgroup count times the extent is exactly the padded extent, and the count never exceeds n |
| Staging.SeedMatrix | src/buffer.rs:9 | the host vector has stride · n cells (n · n in `buffer.rs`) |
| Staging.SeedInPlace | src/buffer.rs:10-16 | on an all-+inf buffer of stride · n cells, the diagonal loop then the edge loop leave exactly the seed matrix; edge endpoints must be below n |
| Staging.BuildSeed | src/buffer.rs:9-16 | allocating the +inf vector and seeding it in place yields the seed matrix |
| Staging.EdgeCellsInBounds | src/buffer.rs:13-16 | both writes of edge (i, j) are inside the stride · n buffer exactly when i < n and j < n |
| Staging.SeedMatrixContents | src/buffer.rs:9-16 | a cell is 1 iff its ends are joined by an edge; 0 iff it is on the diagonal with no self-loop; +inf otherwise, including every padding column |
| Staging.SeedMatrixEdges | src/buffer.rs:13-16 | both cells of every listed edge hold 1 |
| Staging.SeedMatrixSymmetric | src/buffer.rs:9-16 | cells (i, j) and (j, i) are equal on the logical n × n part |
| Staging.SeedMatrixDependsOnEdgeSet | src/buffer.rs:13-16 | two edge lists with the same set of edges stage the same buffer, whatever their order or repetitions |
| Buffer.StageAdjacencyMatrix | src/buffer.rs:1-32 | the upload is the n × n seed matrix and fills exactly `size` bytes; requires size == n · n · 4 and size > 0, as `copy_from_slice` and `NonZeroU64::unwrap` demand |
| TropicalMatmul.WorkgroupShape | src/tropical_matmul.rs:67-71 | the workgroup shapes of the naive (1 × 1 × 1) and blocked (16 × 16 × 1) kernels are flat squares, so the x and y paddings agree, within wgpu's default limit of 256 invocations per workgroup (blocked shape at src/tropical_matmul.rs:96-100) |
| TropicalMatmul.DispatchGrid | src/tropical_matmul.rs:38-42 | the `dispatch_workgroups` grid is flat, and while the stride fits in a u32 its invocations reach every logical cell on both axes |
| TropicalMatmul.Stride | src/tropical_matmul.rs:170-177 | the staging dimension `num_threads_x(n)` is a multiple of the x extent in [n, n + extent) |
| TropicalMatmul.BufferSize | src/tropical_matmul.rs:45-47 | `buffer_size(n)` is stride · stride · 4 bytes, at least n · n · 4 and a whole number of f32 cells |
| TropicalMatmul.GridCoversMatrix | src/tropical_matmul.rs:34-47 | while the stride fits in a u32, the grid launches one thread per cell of the padded matrix: at least n · n threads, as many as the buffer has cells |
| TropicalMatmul.StageAdjacencyMatrix | src/tropical_matmul.rs:162-178 | the wrapper stages a padded stride × stride seed matrix whose byte length equals `buffer_size(n)` |
| TropicalMatmul.CreateBuffer | src/tropical_matmul.rs:180-195 | `in` and `out` are equally large storage buffers, and the per-round copy from `out` to `in` is permitted: `out` is COPY_SRC and `in` COPY_DST |
| TropicalMatmul.BuffersFitEngine | src/tropical_matmul.rs:180-195 | the staged upload fills `in` exactly, and the per-round copy of `buffer_size(n)` bytes fits both buffers |
| TropicalMatmul.SizesAgree | src/tropical_matmul.rs:170-177 | a staged `in` and the created `out` hold equally many cells, the copy moves all of them, and the u32 parameters equal n and the stride |
| TropicalMatmul.Run | src/tropical_matmul.rs:117-159 | `run` records ceil(log2 n) rounds with params [n, num_threads_x(n)], copy length `buffer_size(n)` and the kernel's grid |
| TropicalMatmul.RunComputesDistances | src/tropical_matmul.rs:117-178 | after staging and the recorded rounds, cell i · stride + j of `out` is the shortest-path distance from i to j, for n ≥ 2 and a graph without self-loops; the pipeline's workgroup shape is the kernel's, and `GridCoversMatrix` discharges the grid's coverage (assumed kernel contract) |
| TropicalMatmul.PathGraphResult | src/tropical_matmul.rs:226-242 | the test's expectation: on the path graph, cell i · num_threads_x(n) + j of the result is \|i − j\|, for every n ≥ 2 |
| TropicalMatmulBlock.StrideX | src/tropical_matmul_block.rs:67-69 | `stride_x(n)` is a multiple of 16 in [n, n + 16) |
| TropicalMatmulBlock.StrideY | src/tropical_matmul_block.rs:71-73 | `stride_y(n)` equals `stride_x(n)` |
| TropicalMatmulBlock.StrideXIsLeastMultiple | src/tropical_matmul_block.rs:59-69 | `stride_x(n)` is at most every multiple of 16 that is at least n |
| TropicalMatmulBlock.WorkgroupShapeMatchesBlocked | src/tropical_matmul_block.rs:6-7 | `WORKGROUP_SIZE_X/Y` are the 16 × 16 shape of the generic engine's blocked kernel, within wgpu's default limit of 256 invocations per workgroup |
| TropicalMatmulBlock.BufferSize | src/tropical_matmul_block.rs:75-77 | `buffer_size(n)` holds the n × n matrix with fewer than 16 padding cells per row (n·n·4 ≤ size < (n+16)·n·4 for n > 0), and the total is a multiple of 64 bytes |
| TropicalMatmulBlock.DispatchGrid | src/tropical_matmul_block.rs:52-56 | the `dispatch_workgroups` grid is flat, and while n fits in a u32 its invocations reach every logical cell on both axes |
| TropicalMatmulBlock.GridCoversMatrix | src/tropical_matmul_block.rs:48-65 | while n fits in a u32, the grid covers n threads on each axis, and its x extent in threads is the row stride |
| TropicalMatmulBlock.StageAdjacencyMatrix | src/tropical_matmul_block.rs:136-168 | stages n rows of stride_x(n) cells seeded with the graph, exactly `buffer_size(n)` bytes; edge endpoints below n and n > 0 |
| TropicalMatmulBlock.Run | src/tropical_matmul_block.rs:90-133 | `run` records ceil(log2 n) rounds with params [n, stride_x(n)], copy length `buffer_size(n)` and the 16 × 16 grid |
| TropicalMatmulBlock.SizesAgree | src/tropical_matmul_block.rs:143-145 | the staged n · stride_x(n) cells and an `out` of `buffer_size(n)` bytes hold equally many cells, and the per-round copy moves all of them |
| TropicalMatmulBlock.RunComputesDistances | src/tropical_matmul_block.rs:90-152 | after staging and the recorded rounds, cell i · stride_x(n) + j of `out` is the shortest-path distance, for n ≥ 2 and a graph without self-loops; the pipeline runs 16 × 16 workgroups, and `GridCoversMatrix` discharges the grid's coverage (assumed kernel contract) |
| TropicalMatmulBlock.PathGraphResult | src/tropical_matmul_block.rs:204-231 | the test's expectation: on the path graph, cell i · stride_x(n) + j of the result is \|i − j\|, for every n ≥ 2 |
| Rounds.U32 | src/tropical_matmul.rs:141 | `as u32` yields a value below 2^32 and is exact for values that fit |
| Rounds.Log2Ceil | src/tropical_matmul.rs:137-158 | the number of doublings of k = 1 until k ≥ n: n ≤ 2^r, and 2^(r−1) < n when r > 0 |
| Rounds.Log2CeilIsLeast | src/tropical_matmul.rs:137-158 | only one r has 2^(r−1) < n ≤ 2^r |
| Rounds.RecordRounds | src/tropical_matmul.rs:137-159 | the `while k < n` loop with k doubling records exactly Log2Ceil(n) rounds and exits with k = 2^Log2Ceil(n), so n ≤ k, and k < 2n when n ≥ 1 |
| Rounds.FinalKBounds | src/tropical_matmul_block.rs:110-131 | the least power of two at or above n, the value the loop's k ends with, is below 2n when n ≥ 1 |
| Rounds.ScheduleLength | src/tropical_matmul.rs:137-159 | r rounds record 4r − 1 commands: three in the first round, four in every later one |
| Rounds.ScheduleCounts | src/tropical_matmul.rs:137-159 | r rounds issue r dispatches and r − 1 copies (none for r = 0) |
| Rounds.ScheduleUsesFixedValues | src/tropical_matmul.rs:141-155 | every round writes the same params, copies the same byte count and dispatches the same grid |
| Rounds.CopyPrecedesLaterDispatches | src/tropical_matmul.rs:152-155 | the first dispatch has no copy before it; every later dispatch comes right after a copy of `size` bytes; every copy is followed by a dispatch |
| Rounds.RoundsForTestSizes | src/tropical_matmul.rs:226-232 | the test sizes give 7 rounds for n = 100 and 9 for n = 512 |
| Device.ScheduleSquares | src/tropical_matmul.rs:137-159 | under the assumed dispatch contract and a grid that covers the n × n matrix, r ≥ 1 rounds leave in `out` the r-th repeated min-plus square of the matrix first staged in `in` |
| Device.LogicalSeed | src/tropical_matmul_block.rs:143-152 | the logical n × n part of a seeded buffer with any row count and stride covering n is the graph's seed matrix |
| Device.EngineComputesDistances | src/tropical_matmul.rs:117-178 | for either engine, staging then the recorded rounds with a covering grid leave the shortest-path distance in cell i · stride + j of `out` |
| Device.EngineOutputSymmetric | src/tropical_matmul.rs:117-178 | the engines' result is symmetric for every edge list, self-loops included: cells i · stride + j and j · stride + i of `out` are equal |
| Device.DispatchCanRun | src/tropical_matmul.rs:155 | whenever the parameters fit both buffers, some result state satisfies the assumed dispatch contract |
| Device.RoundCanRun | src/tropical_matmul.rs:139-157 | one recorded round, copy included, can run from any state with equally large buffers that hold the written parameters, and it keeps the buffer sizes |
| Device.ScheduleCanRun | src/tropical_matmul.rs:137-159 | every recorded schedule of r rounds can run to some end state, so the theorems that assume a run are not vacuous |
| Device.EngineCanRun | src/tropical_matmul.rs:117-178 | for every start state of the end-to-end theorems (seeded `in`, equally large `out`), the recorded rounds have a run |
| Device.EngineOnPathGraph | src/tropical_matmul.rs:226-242 | on the path graph either engine leaves \|i − j\| in cell i · stride + j |
| Squaring.MinOver | src/tropical_matmul.rs:34-43 | the min-plus product cell is at most every g[i][l] + g[l][j] with l < m, and equals one of them unless it is +inf |
| Squaring.SeedIsWithinOne | src/buffer.rs:9-16 | the seed matrix holds the shortest walks of at most one edge |
| Squaring.SquareDoubles | src/tropical_matmul.rs:137-159 | squaring a matrix of shortest walks of at most L edges gives the shortest walks of at most 2L edges |
| Squaring.SquareAfterWithin | src/tropical_matmul.rs:137-159 | after r squarings of the seed, every cell is a shortest walk of at most 2^r edges |
| Squaring.WithinEnough | src/tropical_matmul.rs:137-138 | once n − 1 edges are allowed, the bounded distance is the shortest-path distance, so stopping at k ≥ n loses nothing |
| Squaring.RepeatedSquaringComputesDistances | src/tropical_matmul.rs:137-159 | ceil(log2 n) squarings of the seed give the shortest-path distances of a graph without self-loops |
| Squaring.SquaringAgreesWithFloydWarshall | benches/my_benchmark.rs:6-25 | for a graph without self-loops, the GPU engines' result and the CPU reference agree cell by cell |
| Squaring.SeedIsSymmetric | src/buffer.rs:9-16 | the staged seed matrix is symmetric for every edge list, self-loops included |
| Squaring.SquareKeepsSymmetry | src/tropical_matmul.rs:34-43 | the min-plus square of a symmetric matrix is symmetric |
| Squaring.SquareAfterKeepsSymmetry | src/tropical_matmul.rs:137-159 | every number of squaring rounds keeps a symmetric matrix symmetric |
| Squaring.SelfLoopsBreakSquaring | src/buffer.rs:10-16 | with edges (0, 0), (1, 1), (0, 1) on n = 2, the engines' ceil(log2 n) squarings leave 2 in cell (0, 1), while the distance and the CPU reference's cell are 1 |
| Squaring.LooplessSeedIsDiagonalLast | src/buffer.rs:10-16 | staging the list without its self-loops equals staging with 0 written on the diagonal after the edges |
| Squaring.DiagonalLastComputesDistances | src/tropical_matmul.rs:137-159 | when staging ignores self-loops, ceil(log2 n) squarings give the shortest-path distance of every graph, self-loops included |
| Graph.LooplessAdjacent | src/buffer.rs:13-16 | dropping self-loops keeps exactly the adjacencies between distinct vertices |
| Graph.DropStays | src/buffer.rs:13-16 | a walk can drop its self-loop steps and stays a walk between the same ends, no longer than before |
| Graph.LooplessSameDistance | src/buffer.rs:13-16 | a graph and its self-loop-free version have the same shortest-path distances |
| Graph.ShortWalk | src/tropical_matmul.rs:137-138 | every walk in a graph on n vertices can be shortened to a walk between the same ends with at most n vertices |
| FloydWarshall.RelaxFixesRowAndColumn | benches/my_benchmark.rs:15-24 | during pass k, row k and column k do not change |
| FloydWarshall.RelaxNeverIncreases | benches/my_benchmark.rs:18-21 | a pass never increases a cell, and a cell that changes becomes strictly smaller |
| FloydWarshall.SeedIsFwMatrix | benches/my_benchmark.rs:7-14 | after initialisation the matrix is the recurrence at k = 0 |
| FloydWarshall.RelaxAdvancesFw | benches/my_benchmark.rs:15-24 | relaxing through vertex k takes the recurrence from k to k + 1 |
| FloydWarshall.FwWitness | benches/my_benchmark.rs:15-24 | a finite cell after k passes is the length of a walk whose intermediate vertices are below k |
| FloydWarshall.FwBelowWalk | benches/my_benchmark.rs:15-24 | after k passes a cell is at most the length of every walk whose intermediate vertices are below k |
| FloydWarshall.FloydWarshallComputesDistances | benches/my_benchmark.rs:15-24 | after n passes cell (i, j) is the shortest-path distance, or +inf when j is unreachable, on every graph; only the diagonal cell of a self-looped vertex is excluded |
| FloydWarshall.FwSymmetric | benches/my_benchmark.rs:11-24 | every pass keeps the matrix symmetric |
| FloydWarshall.FwDiagonalStaysZero | benches/my_benchmark.rs:7-21 | the diagonal cell of a vertex without a self-loop stays 0 through every pass |
| FloydWarshall.FwOffDiagonalPositive | benches/my_benchmark.rs:18-21 | no pass writes 0 off the diagonal |
| FloydWarshall.SelfLoopDiagonalStaysOne | benches/my_benchmark.rs:8-21 | a self-loop leaves 1 on its diagonal cell, and no pass lowers it |
| FloydWarshall.SelfLoopDiagonalIsWrong | benches/my_benchmark.rs:8-24 | for a self-looped vertex v, the distance from v to itself is 0 but cell (v, v) ends as 1 |
| FloydWarshall.FwLooplessComputesDistances | benches/my_benchmark.rs:8-24 | with the diagonal kept at 0 (self-loops ignored), n passes give the shortest-path distance on every cell of every graph, the diagonal included |
| Benchmark.RelaxCell | benches/my_benchmark.rs:18-21 | one inner-loop step stores the relaxed value of cell (i, j) and keeps the row-major progress invariant |
| Benchmark.RelaxPass | benches/my_benchmark.rs:16-23 | the in-place i/j loops of pass k compute the pass over the pass-start matrix, although they read cells the pass updates |
| Benchmark.WarshallFloydCpu | benches/my_benchmark.rs:6-25 | the slice ends as the recurrence after n passes, and every cell (i, j) is the shortest-path distance, except the diagonal cell of a self-looped vertex |
| Benchmark.CreateGraph | benches/my_benchmark.rs:27-29 | `create_graph(n)` has n − 1 edges (none for n = 0), all with endpoints below n and none a self-loop |
| Benchmark.PathGraphAdjacency | benches/my_benchmark.rs:27-29 | two vertices of the path graph are adjacent iff both are below n and their ids differ by one |
| Benchmark.PathGraphDistance | benches/my_benchmark.rs:27-29 | in the path graph the distance from i to j is \|i − j\| |
| Benchmark.PathGraphDistanceIsGap | benches/my_benchmark.rs:27-29 | any shortest-path distance in the path graph is \|i − j\| |
| Benchmark.WarshallFloydOnPathGraph | benches/my_benchmark.rs:6-29 | the CPU reference on the benchmark graph leaves \|i − j\| in cell (i, j) |

## Left out

- wgpu plumbing is not modelled as calls: adapters, devices, shader modules, pipelines, bind groups, staging belts, encoders, `queue.submit` and `device.poll`. A round is reduced to its four abstract commands.
- The WGSL kernels `tropical_matmul.wgsl` and `tropical_matmul_block.wgsl` are not part of this model. A dispatch is described by the assumed contract `Device.DispatchEffect`. When the grid times the bound pipeline's workgroup size reaches n on both axes, the logical n × n part of `out` becomes the min-plus square of that part of `in`. A grid that falls short promises nothing about `out`. In both cases `in` and the parameters are untouched. It says nothing about the padding cells of `out`. The end-to-end theorems are only as good as this assumption. They also assume, as a precondition on the device state, that the pipeline's workgroup size is the WGSL `@workgroup_size` and that it equals the Rust constants (`s.workgroup == WorkgroupShape(v)`, `Shape(16, 16, 1)` for the blocked engine); the WGSL attribute itself is not read by the model.
- `download_distance_matrix` is left out because it is an asynchronous readback over a oneshot channel. The theorems speak about the `out` buffer itself.
- The criterion benchmark driver, the tokio tests' device setup and the `init` helpers are left out.
- The `warshall_floyd` GPU engine that the benchmark also runs is not part of this model.
- IEEE f32 behaviour (NaN, rounding, negative values) is left out. Every value is a small integer or +inf.
- `bytemuck` casts are modelled only as "cells × 4 bytes".
- usize overflow of `n + w - 1`, of the index `i * stride + j` and of the buffer sizes is left out: integers are unbounded. The u64 casts of sizes are left out for the same reason.
- The 8-byte params buffer, its usages and its staging belt are left out. The write is modelled as `WriteParams([n, stride])`.
- The x, y and z variants of `num_workgroups_*` and `num_threads_*` are one function each (`Kernel.NumWorkgroups`, `Kernel.NumThreads`), applied to the extent of the axis. `num_workgroups_z` and `num_threads_z` are never called by the engines.
- Device.EngineComputesDistances: for n ≤ 1 the loop runs no round and `out` is never written, so the model claims nothing about `out` then. Its correctness theorems require n ≥ 2 and a graph without self-loops, because the as-written staging breaks squaring next to self-looped vertices (see Findings).
- TropicalMatmul.RunComputesDistances: requires the padded stride to be below 2^32. This makes the `as u32` casts exact; it does not model wrapped parameters.
- TropicalMatmulBlock.RunComputesDistances: requires `stride_x(n)` to be below 2^32, for the same reason.
- Benchmark.WarshallFloydCpu: the diagonal cell of a self-looped vertex is excluded from the shortest-path statement, because the code leaves 1 there (`FloydWarshall.SelfLoopDiagonalStaysOne`); the result still equals the recurrence `FwCell` on every cell.

## Findings

| source | as written | input that shows it | evidently intended | confidence | as-written member | corrected member |
|---|---|---|---|---|---|---|
| src/buffer.rs:10-16 | the diagonal loop runs before the edge loop, so an edge (v, v) overwrites d(v, v) = 0 with 1 | n = 2, edges (0, 0), (1, 1), (0, 1): the squaring engines leave 2 for the pair (0, 1), whose distance is 1 | the diagonal stays 0 whatever the edge list, so every cell is the shortest-path distance | not executed; medium (no graph the repository builds has a self-loop) | Squaring.SelfLoopsBreakSquaring | Squaring.DiagonalLastComputesDistances |
| src/tropical_matmul_block.rs:146-152 | the blocked engine's staging has the same order over its padded stride, so an edge (v, v) overwrites d(v, v) = 0 with 1 | n = 2, edges (0, 0), (1, 1), (0, 1): the logical part is the same seed (`Device.LogicalSeed`), and the engine leaves 2 for the pair (0, 1), whose distance is 1 | the diagonal stays 0 whatever the edge list | not executed; medium (no graph the repository builds has a self-loop) | Squaring.SelfLoopsBreakSquaring | Squaring.DiagonalLastComputesDistances |
| benches/my_benchmark.rs:8-14 | the CPU reference writes the diagonal before the edges, so an edge (v, v) leaves 1 in d(v, v) and no pass lowers it | any edge list holding (v, v): cell (v, v) ends as 1, while the distance from v to itself is 0 | the diagonal stays 0, so every cell, the diagonal included, is the shortest-path distance | not executed; medium (no graph the benchmark builds has a self-loop) | FloydWarshall.SelfLoopDiagonalIsWrong | FloydWarshall.FwLooplessComputesDistances |

The rest of the model stages as written and states its shortest-path theorems for graphs without self-loops, where both stagings agree.
