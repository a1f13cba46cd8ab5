/** Row-major addressing of a flat distance buffer: cell (i, j) of a matrix
    with row stride `stride` lives at index i * stride + j. */
module Matrix {

  /** The buffer index of cell (i, j). */
  function Index(stride: nat, i: nat, j: nat): nat {
    i * stride + j
  }

  lemma MulMonotone(a: int, b: int, w: nat)
    ensures a <= b ==> a * w <= b * w
  {
  }

  /** A cell of an in-range row and column lies inside a buffer of stride * rows cells. */
  lemma CellInBounds(stride: nat, rows: nat, i: nat, j: nat)
    requires i < rows && j < stride
    ensures Index(stride, i, j) < stride * rows
  {
    MulMonotone(i + 1, rows, stride);
  }

  /** The index of cell (i, j) determines i and j. */
  lemma CellOfIndex(stride: nat, i: nat, j: nat)
    requires j < stride
    ensures Index(stride, i, j) / stride == i && Index(stride, i, j) % stride == j
  {
    var a := Index(stride, i, j);
    var q, r := a / stride, a % stride;
    MulMonotone(i + 1, q, stride);
    MulMonotone(q + 1, i, stride);
  }

  /** Every index of a stride * rows buffer is the index of some in-range cell. */
  lemma IndexOfCell(stride: nat, rows: nat, idx: nat)
    requires idx < stride * rows
    ensures stride > 0
    ensures idx / stride < rows && idx % stride < stride
    ensures idx == (idx / stride) * stride + idx % stride
  {
    MulMonotone(rows, idx / stride, stride);
  }

  /** Distinct in-range cells have distinct indices. */
  lemma CellIndexInjective(stride: nat, i: nat, j: nat, i': nat, j': nat)
    requires j < stride && j' < stride
    ensures Index(stride, i, j) == Index(stride, i', j') <==> i == i' && j == j'
  {
    CellOfIndex(stride, i, j);
    CellOfIndex(stride, i', j');
  }

  /** The row view of a flat buffer: row i, column j is index i * stride + j. */
  function Rows<T>(a: seq<T>, rows: nat, stride: nat): (g: seq<seq<T>>)
    requires |a| == stride * rows
    ensures |g| == rows && forall i | 0 <= i < rows :: |g[i]| == stride
  {
    seq(rows, i requires 0 <= i < rows =>
                seq(stride, j requires 0 <= j < stride =>
                              CellInBounds(stride, rows, i, j);
                              a[Index(stride, i, j)]))
  }

  lemma RowsAt<T>(a: seq<T>, rows: nat, stride: nat, i: nat, j: nat)
    requires |a| == stride * rows && i < rows && j < stride
    ensures Index(stride, i, j) < |a| && Rows(a, rows, stride)[i][j] == a[Index(stride, i, j)]
  {
    CellInBounds(stride, rows, i, j);
  }

  /** n rows of n cells each. */
  ghost predicate IsSquare<T>(g: seq<seq<T>>, n: nat) {
    |g| == n && forall i | 0 <= i < n :: |g[i]| == n
  }
}
