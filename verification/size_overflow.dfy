/** `matrix_create` as the C code is written. The element count `r * c` is
    a `size_t` product, so it wraps modulo 2^64 before `calloc` sees it, and
    the buffer can come out shorter than rows * cols. `MatrixOps.Create` is
    the corrected definition the rest of the model uses. Allocation failure
    is not modelled here either. */
module SizeOverflow {
  import opened MatrixType
  import MatrixOps

  /** The zero-filled buffer has (r * c) mod 2^64 elements, not r * c. */
  function CreateAsWritten(r: nat, c: nat): (m: Option<Matrix>)
    requires IsSize(r) && IsSize(c)
    ensures m.None? <==> r == 0 || c == 0
    ensures m.Some? ==> m.value.rows == r && m.value.cols == c
    ensures m.Some? ==> |m.value.data| < SIZE_RANGE
    ensures m.Some? ==> |m.value.data| == (m.value.rows * m.value.cols) % SIZE_RANGE
    ensures m.Some? ==> forall k | 0 <= k < |m.value.data| :: m.value.data[k] == 0.0
  {
    if r == 0 || c == 0 then None
    else Some(Matrix(r, c, seq((r * c) % SIZE_RANGE, _ => 0.0)))
  }

  /** matrix_create(2^63 + 1, 2) succeeds with a two-element buffer for a
      matrix whose dimensions promise 2^64 + 2 elements. The nested
      row/column loops of transpose, multiply, input and print would index
      past its end; see `ShortBufferReach`. */
  lemma CreateAsWrittenShortBuffer()
    ensures
      var m := CreateAsWritten(0x8000_0000_0000_0001, 2);
      && m.Some?
      && |m.value.data| == 2
      && m.value.rows * m.value.cols == SIZE_RANGE + 2
      && !Valid(m.value)
  {
  }

  /** Whenever r * c fits in a size_t, the code as written and the
      corrected definition build the same matrix. */
  lemma CreateAgreesWithoutOverflow(r: nat, c: nat)
    requires IsSize(r) && IsSize(c)
    requires IsSize(r * c)
    ensures CreateAsWritten(r, c) == MatrixOps.Create(r, c)
  {
  }

  /** Which loops overrun the short buffer. The flat loops of add, sub and
      scalar multiply recompute rows * cols in a size_t, and clone's memcpy
      counts 8 * rows * cols bytes in a size_t: both wrap to exactly the
      buffer's size. The nested loops of transpose instead run i below rows
      and j below cols, and already (i, j) = (1, 0) reads index
      i * cols + j = 2 of a two-element buffer. */
  lemma ShortBufferReach()
    ensures
      var m := CreateAsWritten(0x8000_0000_0000_0001, 2);
      && m.Some?
      && (m.value.rows * m.value.cols) % SIZE_RANGE == |m.value.data|
      && (8 * m.value.rows * m.value.cols) % SIZE_RANGE == 8 * |m.value.data|
      && 1 < m.value.rows && 0 < m.value.cols
      && 1 * m.value.cols + 0 == |m.value.data|
  {
  }
}
