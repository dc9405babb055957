/** The loops of `matrix.c`, written as the C code runs them: a result buffer
    obtained from `Create` is overwritten index by index. Each method is
    proved to compute exactly the value the matching function of `MatrixOps`
    defines, and every buffer index it touches is shown to be in bounds. */
module MatrixKernels {
  import opened MatrixType
  import MatrixOps

  /** `matrix_clone`: the `memcpy` of the operand's buffer into a new one. */
  method Clone(p: Option<Matrix>) returns (r: Option<Matrix>)
    requires ValidRef(p)
    ensures r == MatrixOps.Clone(p)
  {
    if p.None? {
      return None;
    }
    var m := p.value;
    var created := MatrixOps.Create(m.rows, m.cols);
    if created.None? {
      return None;
    }
    var buf := created.value.data;
    var n := m.rows * m.cols;
    for k := 0 to n
      invariant |buf| == n
      invariant forall t | 0 <= t < k :: buf[t] == m.data[t]
    {
      assert IsSize(k);
      buf := buf[k := m.data[k]];
    }
    assert buf == m.data;
    r := Some(created.value.(data := buf));
  }

  /** `matrix_add`: one pass over the flat buffers. */
  method Add(a: Option<Matrix>, b: Option<Matrix>) returns (r: Option<Matrix>)
    requires ValidRef(a) && ValidRef(b)
    ensures r == MatrixOps.Add(a, b)
  {
    if !MatrixOps.SameSize(a, b) {
      return None;
    }
    var x, y := a.value, b.value;
    var created := MatrixOps.Create(x.rows, x.cols);
    if created.None? {
      return None;
    }
    var buf := created.value.data;
    var n := x.rows * x.cols;
    for k := 0 to n
      invariant |buf| == n
      invariant forall t | 0 <= t < k :: buf[t] == x.data[t] + y.data[t]
    {
      assert IsSize(k);
      buf := buf[k := x.data[k] + y.data[k]];
    }
    assert buf == seq(|x.data|, k requires 0 <= k < |x.data| => x.data[k] + y.data[k]);
    r := Some(created.value.(data := buf));
  }

  /** `matrix_sub`: one pass over the flat buffers. */
  method Sub(a: Option<Matrix>, b: Option<Matrix>) returns (r: Option<Matrix>)
    requires ValidRef(a) && ValidRef(b)
    ensures r == MatrixOps.Sub(a, b)
  {
    if !MatrixOps.SameSize(a, b) {
      return None;
    }
    var x, y := a.value, b.value;
    var created := MatrixOps.Create(x.rows, x.cols);
    if created.None? {
      return None;
    }
    var buf := created.value.data;
    var n := x.rows * x.cols;
    for k := 0 to n
      invariant |buf| == n
      invariant forall t | 0 <= t < k :: buf[t] == x.data[t] - y.data[t]
    {
      assert IsSize(k);
      buf := buf[k := x.data[k] - y.data[k]];
    }
    assert buf == seq(|x.data|, k requires 0 <= k < |x.data| => x.data[k] - y.data[k]);
    r := Some(created.value.(data := buf));
  }

  /** `matrix_mul`: rows i, columns j, and an accumulator `sum` running
      over k; entries are written in row-major order. */
  method Mul(a: Option<Matrix>, b: Option<Matrix>) returns (r: Option<Matrix>)
    requires ValidRef(a) && ValidRef(b)
    ensures r == MatrixOps.Mul(a, b)
  {
    if a.None? || b.None? {
      return None;
    }
    if a.value.cols != b.value.rows {
      return None;
    }
    var x, y := a.value, b.value;
    var created := MatrixOps.Create(x.rows, y.cols);
    if created.None? {
      return None;
    }
    var buf := created.value.data;
    for i := 0 to x.rows
      invariant |buf| == x.rows * y.cols
      invariant i * y.cols <= |buf|
      invariant forall t | 0 <= t < i * y.cols :: buf[t] == MatrixOps.MulEntry(x, y, t)
    {
      for j := 0 to y.cols
        invariant |buf| == x.rows * y.cols
        invariant i * y.cols + j <= |buf|
        invariant forall t | 0 <= t < i * y.cols + j :: buf[t] == MatrixOps.MulEntry(x, y, t)
      {
        var sum := RowTimesColumn(x, y, i, j);
        FlatIndexJoin(x.rows, y.cols, i, j);
        assert IsSize(i * y.cols + j);
        buf := buf[i * y.cols + j := sum];
      }
      assert i * y.cols + y.cols == (i + 1) * y.cols;
      MulMonotone(i + 1, x.rows, y.cols);
    }
    assert buf == seq(x.rows * y.cols, k requires 0 <= k < x.rows * y.cols => MatrixOps.MulEntry(x, y, k));
    r := Some(created.value.(data := buf));
  }

  /** The innermost loop of `matrix_mul`: row i of `a` times column j of
      `b`, accumulated left to right from 0. */
  method RowTimesColumn(a: Matrix, b: Matrix, i: nat, j: nat) returns (sum: real)
    requires Valid(a) && Valid(b) && a.cols == b.rows
    requires i < a.rows && j < b.cols
    ensures sum == MatrixOps.Dot(a, b, i, j, a.cols)
  {
    sum := 0.0;
    for k := 0 to a.cols
      invariant sum == MatrixOps.Dot(a, b, i, j, k)
    {
      FlatIndexFitsSize(a, i, k);
      FlatIndexFitsSize(b, k, j);
      sum := sum + a.data[i * a.cols + k] * b.data[k * b.cols + j];
    }
  }

  /** `matrix_transpose`: element (i, j) of the operand is written to
      position (j, i) of the result, whose row length is a.rows. */
  method Transpose(a: Option<Matrix>) returns (r: Option<Matrix>)
    requires ValidRef(a)
    ensures r == MatrixOps.Transpose(a)
  {
    if a.None? {
      return None;
    }
    var x := a.value;
    var created := MatrixOps.Create(x.cols, x.rows);
    if created.None? {
      return None;
    }
    var buf := created.value.data;
    var n := x.cols * x.rows;
    for i := 0 to x.rows
      invariant |buf| == n
      invariant forall t | 0 <= t < n && t % x.rows < i :: buf[t] == MatrixOps.TransposeEntry(x, t)
    {
      buf := TransposeRow(x, i, buf);
    }
    forall t | 0 <= t < n
      ensures buf[t] == MatrixOps.TransposeEntry(x, t)
    {
      FlatIndexSplit(x.cols, x.rows, t);
    }
    var m := created.value.(data := buf);
    MatrixOps.TransposeEntries(x, m);
    EqualByElements(m, MatrixOps.Transpose(a).value);
    r := Some(m);
  }

  /** One pass of the outer loop of `matrix_transpose`: row i of `a` is
      written to column i of the result buffer, the rest is kept. */
  method TransposeRow(a: Matrix, i: nat, buf: seq<real>) returns (out: seq<real>)
    requires Valid(a) && i < a.rows
    requires |buf| == a.cols * a.rows
    requires forall t | 0 <= t < |buf| && t % a.rows < i :: buf[t] == MatrixOps.TransposeEntry(a, t)
    ensures |out| == |buf|
    ensures forall t | 0 <= t < |out| && t % a.rows <= i :: out[t] == MatrixOps.TransposeEntry(a, t)
  {
    out := buf;
    for j := 0 to a.cols
      invariant |out| == |buf|
      invariant Transposed(a, out, i, j)
    {
      FlatIndexBound(a.cols, a.rows, j, i);
      FlatIndexFitsSize(a, i, j);
      ghost var before := out;
      out := out[j * a.rows + i := a.data[i * a.cols + j]];
      TransposeRowStep(a, i, j, before, out);
    }
    TransposeRowDone(a, i, out);
  }

  /** The part of a transposed buffer written so far: result columns below
      i, and the first j entries of column i. */
  ghost predicate Transposed(a: Matrix, out: seq<real>, i: nat, j: nat)
    requires Valid(a) && |out| == a.cols * a.rows
  {
    forall t | 0 <= t < |out| && (t % a.rows < i || (t % a.rows == i && t / a.rows < j)) ::
      out[t] == MatrixOps.TransposeEntry(a, t)
  }

  /** Writing a(i, j) at position j * a.rows + i extends the written part of
      the transposed buffer from (column i, rows below j) to rows up to j. */
  lemma TransposeRowStep(a: Matrix, i: nat, j: nat, before: seq<real>, after: seq<real>)
    requires Valid(a) && i < a.rows && j < a.cols
    requires |before| == a.cols * a.rows
    requires j * a.rows + i < |before| && i * a.cols + j < |a.data|
    requires after == before[j * a.rows + i := a.data[i * a.cols + j]]
    requires Transposed(a, before, i, j)
    ensures Transposed(a, after, i, j + 1)
  {
    var p := j * a.rows + i;
    FlatIndexJoin(a.cols, a.rows, j, i);
    MatrixOps.TransposeEntryAtPosition(a, i, j, p);
    assert At(a, i, j) == a.data[i * a.cols + j];
    forall t | 0 <= t < |after| && (t % a.rows < i || (t % a.rows == i && t / a.rows <= j))
      ensures after[t] == MatrixOps.TransposeEntry(a, t)
    {
      if t % a.rows == i && t / a.rows == j {
        assert t == p;
      }
    }
  }

  /** Once all a.cols rows of column i are written, so is every index whose
      column is i. */
  lemma TransposeRowDone(a: Matrix, i: nat, out: seq<real>)
    requires Valid(a) && i < a.rows
    requires |out| == a.cols * a.rows
    requires Transposed(a, out, i, a.cols)
    ensures forall t | 0 <= t < |out| && t % a.rows <= i :: out[t] == MatrixOps.TransposeEntry(a, t)
  {
    forall t | 0 <= t < |out| && t % a.rows == i
      ensures out[t] == MatrixOps.TransposeEntry(a, t)
    {
      FlatIndexSplit(a.cols, a.rows, t);
    }
  }

  /** `matrix_scalar_mul`: one pass over the flat buffer. */
  method ScalarMul(a: Option<Matrix>, s: real) returns (r: Option<Matrix>)
    requires ValidRef(a)
    ensures r == MatrixOps.ScalarMul(a, s)
  {
    if a.None? {
      return None;
    }
    var x := a.value;
    var created := MatrixOps.Create(x.rows, x.cols);
    if created.None? {
      return None;
    }
    var buf := created.value.data;
    var n := x.rows * x.cols;
    for k := 0 to n
      invariant |buf| == n
      invariant forall t | 0 <= t < k :: buf[t] == x.data[t] * s
    {
      assert IsSize(k);
      buf := buf[k := x.data[k] * s];
    }
    var m := created.value.(data := buf);
    AtFlat(m);
    AtFlat(x);
    EqualByElements(m, MatrixOps.ScalarMul(a, s).value);
    r := Some(m);
  }
}
