/** The dense matrix value of `matrix.h`: a row count, a column count and a
    flat row-major buffer in which element (i, j) sits at index i * cols + j.

    C pointers to a matrix are modelled as `Option<Matrix>`, with `None`
    standing for NULL. Elements are exact reals rather than IEEE doubles. */
module MatrixType {

  /** The number of distinct `size_t` values on a 64-bit target. */
  const SIZE_RANGE: int := 0x1_0000_0000_0000_0000

  /** True when `n` is representable as a `size_t`. */
  predicate IsSize(n: int) {
    0 <= n < SIZE_RANGE
  }

  /** A possibly absent value; `None` plays the part of a NULL pointer. */
  datatype Option<+T> = None | Some(value: T)

  datatype Matrix = Matrix(rows: nat, cols: nat, data: seq<real>)

  /** The invariant every matrix built by `matrix_create` keeps: both
      dimensions are positive `size_t` values, the element count fits in a
      `size_t` too, and the buffer holds exactly rows * cols elements. */
  predicate Valid(m: Matrix) {
    && 1 <= m.rows && IsSize(m.rows)
    && 1 <= m.cols && IsSize(m.cols)
    && |m.data| == m.rows * m.cols
    && IsSize(|m.data|)
  }

  /** A pointer argument: either NULL or a valid matrix. */
  predicate ValidRef(p: Option<Matrix>) {
    p.Some? ==> Valid(p.value)
  }

  /** Row-major position (i, j) of a matrix with `cols` columns lies inside a
      rows * cols buffer. */
  lemma FlatIndexBound(rows: nat, cols: nat, i: nat, j: nat)
    requires i < rows && j < cols
    ensures i * cols + j < rows * cols
  {
    calc {
      i * cols + j;
    <
      i * cols + cols;
    ==
      (i + 1) * cols;
    <=  { MulMonotone(i + 1, rows, cols); }
      rows * cols;
    }
  }

  /** Row-major position (i, j) lies inside the buffer, and splitting it
      again gives back i and j. */
  lemma FlatIndexJoin(rows: nat, cols: nat, i: nat, j: nat)
    requires i < rows && j < cols
    ensures i * cols + j < rows * cols
    ensures (i * cols + j) / cols == i
    ensures (i * cols + j) % cols == j
  {
    FlatIndexBound(rows, cols, i, j);
    DivModUnique(i * cols + j, cols, i, j);
  }

  /** The row k / cols and column k % cols of a flat index k of a
      rows * cols buffer lie inside the matrix. */
  lemma FlatIndexRange(rows: nat, cols: nat, k: nat)
    requires k < rows * cols
    ensures 0 < cols
    ensures 0 <= k / cols < rows
    ensures 0 <= k % cols < cols
  {
    if k / cols >= rows {
      MulMonotone(rows, k / cols, cols);
      assert false;
    }
  }

  /** Every flat index k of a rows * cols buffer is the row-major position of
      the pair (k / cols, k % cols), which lies inside the matrix. */
  lemma FlatIndexSplit(rows: nat, cols: nat, k: nat)
    requires k < rows * cols
    ensures 0 < cols
    ensures 0 <= k / cols < rows
    ensures 0 <= k % cols < cols
    ensures (k / cols) * cols + k % cols == k
  {
    FlatIndexRange(rows, cols, k);
  }

  /** Flat indices of a Valid matrix and their row-major positions are
      representable as `size_t`, so the C index arithmetic never wraps. */
  lemma FlatIndexFitsSize(m: Matrix, i: nat, j: nat)
    requires Valid(m)
    requires i < m.rows && j < m.cols
    ensures IsSize(i * m.cols + j)
    ensures i * m.cols + j < |m.data|
  {
    FlatIndexBound(m.rows, m.cols, i, j);
  }

  /** Multiplying by a natural number preserves order. */
  lemma MulMonotone(x: nat, y: nat, c: nat)
    requires x <= y
    ensures x * c <= y * c
  {
  }

  /** Quotient and remainder are unique: k == q * c + r with 0 <= r < c
      fixes k / c and k % c. */
  lemma DivModUnique(k: int, c: nat, q: int, r: int)
    requires 0 <= r < c
    requires k == q * c + r
    ensures k / c == q && k % c == r
  {
    var q', r' := k / c, k % c;
    assert (q' - q) * c == r - r' by {
      assert q' * c + r' == q * c + r;
    }
    if q' > q {
      MulMonotone(1, q' - q, c);
      assert false;
    } else if q' < q {
      MulMonotone(1, q - q', c);
      assert false;
    }
  }

  /** Element (i, j) of `m`. */
  function At(m: Matrix, i: nat, j: nat): real
    requires Valid(m)
    requires i < m.rows && j < m.cols
  {
    FlatIndexBound(m.rows, m.cols, i, j);
    m.data[i * m.cols + j]
  }

  /** Element (i, j) is the buffer entry at flat index i * cols + j. */
  lemma AtFlat(m: Matrix)
    requires Valid(m)
    ensures forall i: nat, j: nat | i < m.rows && j < m.cols ::
      i * m.cols + j < |m.data| && At(m, i, j) == m.data[i * m.cols + j]
  {
    forall i: nat, j: nat | i < m.rows && j < m.cols
      ensures i * m.cols + j < |m.data| && At(m, i, j) == m.data[i * m.cols + j]
    {
      FlatIndexBound(m.rows, m.cols, i, j);
    }
  }

  /** Two valid matrices of the same shape are equal as soon as they agree
      on every element. */
  lemma EqualByElements(m: Matrix, n: Matrix)
    requires Valid(m) && Valid(n)
    requires m.rows == n.rows && m.cols == n.cols
    requires forall i: nat, j: nat | i < m.rows && j < m.cols :: At(m, i, j) == At(n, i, j)
    ensures m == n
  {
    forall k | 0 <= k < |m.data|
      ensures m.data[k] == n.data[k]
    {
      FlatIndexSplit(m.rows, m.cols, k);
      var i, j := k / m.cols, k % m.cols;
      assert At(m, i, j) == At(n, i, j);
    }
  }
}
