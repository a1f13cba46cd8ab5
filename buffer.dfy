/** `stage_adjacency_matrix` of `buffer.rs`: builds the n x n seed matrix on
    the host and uploads all of it to the destination buffer in one write. */
module Buffer {
  import opened Dist
  import opened Graph
  import opened Staging

  /** The f32 cells uploaded to `dst`. The staging-belt write of `size` bytes
      is filled from the n * n cells with `copy_from_slice`, which panics
      unless the two lengths agree, and `NonZeroU64::new(size).unwrap()`
      panics on a zero size. */
  method StageAdjacencyMatrix(edges: seq<Edge>, n: nat, size: nat) returns (upload: seq<Dist>)
    requires EdgesInRange(edges, n)
    requires size == n * n * 4 && size > 0
    ensures upload == SeedMatrix(edges, n, n)
    ensures |upload| * 4 == size
  {
    upload := BuildSeed(edges, n, n);
  }
}
