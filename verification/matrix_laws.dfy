/** Properties that relate several operations of `matrix.c` to each other,
    and the worked examples the operations are expected to reproduce. */
module MatrixLaws {
  import opened MatrixType
  import opened MatrixOps

  /** Subtracting b from a + b gives a back (exact arithmetic). */
  lemma SubAfterAdd(a: Option<Matrix>, b: Option<Matrix>)
    requires ValidRef(a) && ValidRef(b)
    requires SameSize(a, b)
    ensures Sub(Add(a, b), b) == a
  {
    var s := Add(a, b);
    var d := Sub(s, b);
    assert SameSize(s, b);
    EqualByElements(d.value, a.value);
  }

  /** Adding b to a - b gives a back (exact arithmetic). */
  lemma AddAfterSub(a: Option<Matrix>, b: Option<Matrix>)
    requires ValidRef(a) && ValidRef(b)
    requires SameSize(a, b)
    ensures Add(Sub(a, b), b) == a
  {
    var s := Sub(a, b);
    var d := Add(s, b);
    assert SameSize(s, b);
    EqualByElements(d.value, a.value);
  }

  /** Transposing twice gives back the original matrix, and NULL stays NULL. */
  lemma TransposeTwice(a: Option<Matrix>)
    requires ValidRef(a)
    ensures Transpose(Transpose(a)) == a
  {
    if a.Some? {
      var t := Transpose(a);
      var tt := Transpose(t);
      forall i: nat, j: nat | i < a.value.rows && j < a.value.cols
        ensures At(tt.value, i, j) == At(a.value, i, j)
      {
        assert At(tt.value, i, j) == At(t.value, j, i);
      }
      EqualByElements(tt.value, a.value);
    }
  }

  /** Scaling by 1 is a copy. */
  lemma ScalarMulOne(a: Option<Matrix>)
    requires ValidRef(a)
    ensures ScalarMul(a, 1.0) == Clone(a)
  {
    if a.Some? {
      EqualByElements(ScalarMul(a, 1.0).value, a.value);
    }
  }

  /** Scaling by 0 gives the zero matrix `matrix_create` builds for the
      same shape. */
  lemma ScalarMulZero(a: Option<Matrix>)
    requires ValidRef(a)
    ensures a.None? ==> ScalarMul(a, 0.0) == None
    ensures a.Some? ==> ScalarMul(a, 0.0) == Create(a.value.rows, a.value.cols)
  {
    if a.Some? {
      EqualByElements(ScalarMul(a, 0.0).value, Create(a.value.rows, a.value.cols).value);
    }
  }

  /** For the dimensions the interactive caller admits (1 to 100), the
      product fails exactly when the inner dimensions disagree or an operand
      is missing: the size_t limit on the result is never reached. */
  lemma MulFailsOnlyOnMismatch(a: Option<Matrix>, b: Option<Matrix>)
    requires ValidRef(a) && ValidRef(b)
    requires a.Some? ==> a.value.rows <= 100
    requires b.Some? ==> b.value.cols <= 100
    ensures Mul(a, b).None? <==> a.None? || b.None? || a.value.cols != b.value.rows
  {
    if a.Some? && b.Some? {
      MulMonotone(a.value.rows, 100, b.value.cols);
      MulMonotone(b.value.cols, 100, 100);
    }
  }

  /** The operands of the 2 x 2 example: [[1,2],[3,4]] and [[5,6],[7,8]]. */
  const SquareA: Option<Matrix> := Some(Matrix(2, 2, [1.0, 2.0, 3.0, 4.0]))
  const SquareB: Option<Matrix> := Some(Matrix(2, 2, [5.0, 6.0, 7.0, 8.0]))

  /** Their sum is [[6,8],[10,12]]. */
  lemma SquareAddExample()
    ensures Add(SquareA, SquareB) == Some(Matrix(2, 2, [6.0, 8.0, 10.0, 12.0]))
  {
    var expected := Matrix(2, 2, [6.0, 8.0, 10.0, 12.0]);
    AtFlat(SquareA.value);
    AtFlat(SquareB.value);
    AtFlat(expected);
    EqualByElements(Add(SquareA, SquareB).value, expected);
  }

  /** Their difference is [[-4,-4],[-4,-4]]. */
  lemma SquareSubExample()
    ensures Sub(SquareA, SquareB) == Some(Matrix(2, 2, [-4.0, -4.0, -4.0, -4.0]))
  {
    var expected := Matrix(2, 2, [-4.0, -4.0, -4.0, -4.0]);
    AtFlat(SquareA.value);
    AtFlat(SquareB.value);
    AtFlat(expected);
    EqualByElements(Sub(SquareA, SquareB).value, expected);
  }

  /** Their product is [[19,22],[43,50]]. */
  lemma SquareMulExample()
    ensures Mul(SquareA, SquareB) == Some(Matrix(2, 2, [19.0, 22.0, 43.0, 50.0]))
  {
    var a, b := SquareA.value, SquareB.value;
    var expected := Matrix(2, 2, [19.0, 22.0, 43.0, 50.0]);
    AtFlat(a);
    AtFlat(b);
    AtFlat(expected);
    assert Dot(a, b, 0, 0, 2) == 19.0;
    assert Dot(a, b, 0, 1, 2) == 22.0;
    assert Dot(a, b, 1, 0, 2) == 43.0;
    assert Dot(a, b, 1, 1, 2) == 50.0;
    EqualByElements(Mul(SquareA, SquareB).value, expected);
  }

  /** A 1 x 3 row times a 3 x 1 column is the 1 x 1 matrix [[14]]. */
  lemma RowTimesColumnExample()
    ensures
      var a := Some(Matrix(1, 3, [1.0, 2.0, 3.0]));
      var b := Some(Matrix(3, 1, [1.0, 2.0, 3.0]));
      Mul(a, b) == Some(Matrix(1, 1, [14.0]))
  {
    var a := Some(Matrix(1, 3, [1.0, 2.0, 3.0]));
    var b := Some(Matrix(3, 1, [1.0, 2.0, 3.0]));
    AtFlat(a.value);
    AtFlat(b.value);
    assert Dot(a.value, b.value, 0, 0, 3) == 14.0;
    EqualByElements(Mul(a, b).value, Matrix(1, 1, [14.0]));
  }
}
