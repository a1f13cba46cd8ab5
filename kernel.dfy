/** Workgroup sizing shared by every kernel: the dispatch grid along one axis
    covers n items with workgroups of a fixed extent, and the padded extent
    (the row stride of a distance buffer) is that grid measured in threads. */
module Kernel {
  import Matrix

  /** A workgroup extent; a zero extent would divide by zero. */
  type Extent = w: nat | w > 0 witness 1

  /** The fixed workgroup shape a kernel declares (`WORKGROUP_SIZE_X/Y/Z`). */
  datatype Shape = Shape(x: Extent, y: Extent, z: Extent)

  /** `num_workgroups_{x,y,z}`: the ceiling of n / w, written `(n + w - 1) / w`. */
  function NumWorkgroups(n: nat, w: Extent): (r: nat)
    ensures n <= r * w
    ensures r == 0 || (r - 1) * w < n
  {
    var q := (n + w - 1) / w;
    assert q * w <= n + w - 1 < (q + 1) * w;
    q
  }

  /** `num_threads_{x,y,z}`: the workgroup count times the extent. */
  function NumThreads(n: nat, w: Extent): (r: nat)
    ensures n <= r < n + w
    ensures r % w == 0
  {
    var g := NumWorkgroups(n, w);
    DivModUnique(g * w, w, g, 0);
    g * w
  }

  /** Euclidean division has exactly one quotient and remainder. */
  lemma DivModUnique(a: int, w: Extent, q: int, r: int)
    requires a == q * w + r && 0 <= r < w
    ensures a / w == q && a % w == r
  {
    var q', r' := a / w, a % w;
    Matrix.MulMonotone(q + 1, q', w);
    Matrix.MulMonotone(q' + 1, q, w);
  }

  /** The padded extent is the least multiple of w that is at least n. */
  lemma {:induction false} NumThreadsIsLeastMultiple(n: nat, w: Extent, m: nat)
    requires m % w == 0 && n <= m
    ensures NumThreads(n, w) <= m
  {
    var t := NumThreads(n, w);
    // Both are multiples of w, so distinct ones are at least w apart; but t < n + w <= m + w.
    MultiplesApart(m, t, w);
  }

  lemma MultiplesApart(a: nat, b: nat, w: Extent)
    requires a % w == 0 && b % w == 0
    ensures a < b ==> a + w <= b
  {
    var qa, qb := a / w, b / w;
    assert a == qa * w && b == qb * w;
    Matrix.MulMonotone(qb, qa, w);
    Matrix.MulMonotone(qa + 1, qb, w);
  }

  /** A value that is already padded is left alone. */
  lemma {:induction false} NumThreadsIdempotent(n: nat, w: Extent)
    ensures NumThreads(NumThreads(n, w), w) == NumThreads(n, w)
  {
    var t := NumThreads(n, w);
    NumThreadsIsLeastMultiple(t, w, t);
  }

  /** Padding is monotone, and nothing is padded to nothing. */
  lemma {:induction false} NumThreadsMonotone(n: nat, m: nat, w: Extent)
    requires n <= m
    ensures NumThreads(n, w) <= NumThreads(m, w)
    ensures NumThreads(0, w) == 0
  {
    NumThreadsIsLeastMultiple(n, w, NumThreads(m, w));
    NumThreadsIsLeastMultiple(0, w, 0);
  }

  /** With a workgroup extent of 1, every item is its own workgroup. */
  lemma UnitExtentIsIdentity(n: nat)
    ensures NumWorkgroups(n, 1) == n && NumThreads(n, 1) == n
  {
  }

  /** A grid of NumWorkgroups(n, w) workgroups covers n items in NumThreads(n, w) threads. */
  lemma {:induction false} GridCoversItems(n: nat, w: Extent)
    ensures NumWorkgroups(n, w) * w == NumThreads(n, w)
    ensures NumWorkgroups(n, w) <= n
  {
    var g := NumWorkgroups(n, w);
    if g > 0 {
      Matrix.MulMonotone(1, w, g - 1);
    }
  }
}
