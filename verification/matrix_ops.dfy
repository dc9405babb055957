/** The operations of `matrix.c` as pure functions on matrix values. Each one
    mirrors the C function's branches: a NULL operand or a shape mismatch
    gives `None`, otherwise a new matrix obtained from `Create` is filled
    with the result. */
module MatrixOps {
  import opened MatrixType

  /** `matrix_create`: a zero-filled r x c matrix. It fails for a zero
      dimension and, in this corrected model, when r * c does not fit in a
      `size_t` (the C code computes that product with wrap-around). */
  function Create(r: nat, c: nat): (m: Option<Matrix>)
    requires IsSize(r) && IsSize(c)
    ensures m.None? <==> r == 0 || c == 0 || !IsSize(r * c)
    ensures m.Some? ==> Valid(m.value) && m.value.rows == r && m.value.cols == c
    ensures m.Some? ==> forall i: nat, j: nat | i < r && j < c :: At(m.value, i, j) == 0.0
  {
    if r == 0 || c == 0 || !IsSize(r * c) then None
    else
      var m := Matrix(r, c, seq(r * c, _ => 0.0));
      AtFlat(m);
      Some(m)
  }

  /** `matrix_clone`: a deep copy, which as a value is the operand itself. */
  function Clone(p: Option<Matrix>): (r: Option<Matrix>)
    requires ValidRef(p)
    ensures r == p
  {
    if p.None? then None
    else
      var created := Create(p.value.rows, p.value.cols);
      if created.None? then None else Some(created.value.(data := p.value.data))
  }

  /** `matrix_is_same_size`: both operands exist and have equal dimensions. */
  function SameSize(a: Option<Matrix>, b: Option<Matrix>): (same: bool)
    requires ValidRef(a) && ValidRef(b)
    ensures same <==> a.Some? && b.Some? && (a.value.rows, a.value.cols) == (b.value.rows, b.value.cols)
    ensures same ==> |a.value.data| == |b.value.data|
  {
    match (a, b)
    case (Some(x), Some(y)) => x.rows == y.rows && x.cols == y.cols
    case _ => false
  }

  /** `matrix_add`: element-wise sum of two matrices of the same shape. */
  function Add(a: Option<Matrix>, b: Option<Matrix>): (r: Option<Matrix>)
    requires ValidRef(a) && ValidRef(b)
    ensures r.Some? <==> SameSize(a, b)
    ensures r.Some? ==> Valid(r.value) && r.value.rows == a.value.rows && r.value.cols == a.value.cols
    ensures r.Some? ==>
      forall i: nat, j: nat | i < r.value.rows && j < r.value.cols ::
        At(r.value, i, j) == At(a.value, i, j) + At(b.value, i, j)
  {
    if !SameSize(a, b) then None
    else
      var x, y := a.value, b.value;
      var created := Create(x.rows, x.cols);
      if created.None? then None
      else
        var m := created.value.(data := seq(|x.data|, k requires 0 <= k < |x.data| => x.data[k] + y.data[k]));
        AtFlat(m); AtFlat(x); AtFlat(y);
        Some(m)
  }

  /** `matrix_sub`: element-wise difference of two matrices of the same shape. */
  function Sub(a: Option<Matrix>, b: Option<Matrix>): (r: Option<Matrix>)
    requires ValidRef(a) && ValidRef(b)
    ensures r.Some? <==> SameSize(a, b)
    ensures r.Some? ==> Valid(r.value) && r.value.rows == a.value.rows && r.value.cols == a.value.cols
    ensures r.Some? ==>
      forall i: nat, j: nat | i < r.value.rows && j < r.value.cols ::
        At(r.value, i, j) == At(a.value, i, j) - At(b.value, i, j)
  {
    if !SameSize(a, b) then None
    else
      var x, y := a.value, b.value;
      var created := Create(x.rows, x.cols);
      if created.None? then None
      else
        var m := created.value.(data := seq(|x.data|, k requires 0 <= k < |x.data| => x.data[k] - y.data[k]));
        AtFlat(m); AtFlat(x); AtFlat(y);
        Some(m)
  }

  /** The sum over k < n of a(i, k) * b(k, j), accumulated left to right
      starting from zero, the order of the inner loop of `matrix_mul`. */
  function Dot(a: Matrix, b: Matrix, i: nat, j: nat, n: nat): real
    requires Valid(a) && Valid(b) && a.cols == b.rows
    requires i < a.rows && j < b.cols && n <= a.cols
  {
    if n == 0 then 0.0
    else Dot(a, b, i, j, n - 1) + At(a, i, n - 1) * At(b, n - 1, j)
  }

  /** The product entry stored at flat index k of an a.rows x b.cols result. */
  function MulEntry(a: Matrix, b: Matrix, k: nat): real
    requires Valid(a) && Valid(b) && a.cols == b.rows
    requires k < a.rows * b.cols
  {
    FlatIndexRange(a.rows, b.cols, k);
    Dot(a, b, k / b.cols, k % b.cols, a.cols)
  }

  /** `matrix_mul`: the standard product, defined when a.cols == b.rows. */
  function Mul(a: Option<Matrix>, b: Option<Matrix>): (r: Option<Matrix>)
    requires ValidRef(a) && ValidRef(b)
    ensures r.Some? <==>
      a.Some? && b.Some? && a.value.cols == b.value.rows && IsSize(a.value.rows * b.value.cols)
    ensures r.Some? ==> Valid(r.value) && r.value.rows == a.value.rows && r.value.cols == b.value.cols
    ensures r.Some? ==>
      forall i: nat, j: nat | i < r.value.rows && j < r.value.cols ::
        At(r.value, i, j) == Dot(a.value, b.value, i, j, a.value.cols)
  {
    if a.None? || b.None? then None
    else if a.value.cols != b.value.rows then None
    else
      var x, y := a.value, b.value;
      var created := Create(x.rows, y.cols);
      if created.None? then None
      else
        var m := created.value.(data := seq(x.rows * y.cols, k requires 0 <= k < x.rows * y.cols => MulEntry(x, y, k)));
        MulEntries(x, y, m);
        Some(m)
  }

  /** Entry (i, j) of a buffer filled by `MulEntry` is the product sum for (i, j). */
  lemma MulEntries(a: Matrix, b: Matrix, m: Matrix)
    requires Valid(a) && Valid(b) && a.cols == b.rows
    requires Valid(m) && m.rows == a.rows && m.cols == b.cols
    requires forall k | 0 <= k < |m.data| :: m.data[k] == MulEntry(a, b, k)
    ensures forall i: nat, j: nat | i < m.rows && j < m.cols :: At(m, i, j) == Dot(a, b, i, j, a.cols)
  {
    forall i: nat, j: nat | i < m.rows && j < m.cols
      ensures At(m, i, j) == Dot(a, b, i, j, a.cols)
    {
      var k := i * m.cols + j;
      FlatIndexJoin(m.rows, m.cols, i, j);
      assert At(m, i, j) == m.data[k];
      MulEntryAtPosition(a, b, i, j, k);
    }
  }

  /** `MulEntry` at the row-major index of (i, j) is the product sum for (i, j). */
  lemma MulEntryAtPosition(a: Matrix, b: Matrix, i: nat, j: nat, k: nat)
    requires Valid(a) && Valid(b) && a.cols == b.rows
    requires i < a.rows && j < b.cols
    requires k == i * b.cols + j && k < a.rows * b.cols
    requires k / b.cols == i && k % b.cols == j
    ensures MulEntry(a, b, k) == Dot(a, b, i, j, a.cols)
  {
  }

  /** The transposed entry stored at flat index k of an a.cols x a.rows result. */
  function TransposeEntry(a: Matrix, k: nat): real
    requires Valid(a)
    requires k < a.cols * a.rows
  {
    FlatIndexRange(a.cols, a.rows, k);
    At(a, k % a.rows, k / a.rows)
  }

  /** `TransposeEntry` at the index j * a.rows + i of the result is a(i, j). */
  lemma TransposeEntryAtPosition(a: Matrix, i: nat, j: nat, k: nat)
    requires Valid(a)
    requires i < a.rows && j < a.cols
    requires k == j * a.rows + i && k < a.cols * a.rows
    requires k / a.rows == j && k % a.rows == i
    ensures TransposeEntry(a, k) == At(a, i, j)
  {
  }

  /** `matrix_transpose`: rows become columns. */
  function Transpose(a: Option<Matrix>): (r: Option<Matrix>)
    requires ValidRef(a)
    ensures r.Some? <==> a.Some?
    ensures r.Some? ==> Valid(r.value) && r.value.rows == a.value.cols && r.value.cols == a.value.rows
    ensures r.Some? ==>
      forall i: nat, j: nat | i < a.value.rows && j < a.value.cols ::
        At(r.value, j, i) == At(a.value, i, j)
  {
    if a.None? then None
    else
      var x := a.value;
      var created := Create(x.cols, x.rows);
      if created.None? then None
      else
        var m := created.value.(data := seq(x.cols * x.rows, k requires 0 <= k < x.cols * x.rows => TransposeEntry(x, k)));
        TransposeEntries(x, m);
        Some(m)
  }

  /** A buffer filled by `TransposeEntry` holds a(i, j) at position (j, i). */
  lemma TransposeEntries(a: Matrix, m: Matrix)
    requires Valid(a)
    requires Valid(m) && m.rows == a.cols && m.cols == a.rows
    requires forall k | 0 <= k < |m.data| :: m.data[k] == TransposeEntry(a, k)
    ensures forall i: nat, j: nat | i < a.rows && j < a.cols :: At(m, j, i) == At(a, i, j)
  {
    forall i: nat, j: nat | i < a.rows && j < a.cols
      ensures At(m, j, i) == At(a, i, j)
    {
      var k := j * m.cols + i;
      FlatIndexJoin(m.rows, m.cols, j, i);
      assert At(m, j, i) == m.data[k];
      assert TransposeEntry(a, k) == At(a, i, j);
    }
  }

  /** `matrix_scalar_mul`: every element multiplied by `s`. */
  function ScalarMul(a: Option<Matrix>, s: real): (r: Option<Matrix>)
    requires ValidRef(a)
    ensures r.Some? <==> a.Some?
    ensures r.Some? ==> Valid(r.value) && r.value.rows == a.value.rows && r.value.cols == a.value.cols
    ensures r.Some? ==>
      forall i: nat, j: nat | i < r.value.rows && j < r.value.cols ::
        At(r.value, i, j) == At(a.value, i, j) * s
  {
    if a.None? then None
    else
      var x := a.value;
      var created := Create(x.rows, x.cols);
      if created.None? then None
      else
        var m := created.value.(data := seq(|x.data|, k requires 0 <= k < |x.data| => x.data[k] * s));
        AtFlat(m); AtFlat(x);
        Some(m)
  }
}
