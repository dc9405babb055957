# matrix-c: the dense matrix value and its arithmetic

This project models the core of `matrix.c`, a small C library behind an
interactive linear-algebra console tool. The core is a dense matrix made of
`rows`, `cols` and a flat row-major buffer. Element (i, j) sits at index
`i * cols + j`. On top of it are eight operations: `matrix_create`,
`matrix_clone`, `matrix_is_same_size`, `matrix_add`, `matrix_sub`,
`matrix_mul`, `matrix_transpose` and `matrix_scalar_mul`. `matrix_is_same_size`
only compares the dimensions of two matrices and returns 0 or 1. The other
seven each build a new matrix, never change their operands, and return NULL
when they cannot produce a result.

The model has three layers:

- `MatrixType` (`matrix_type.dfy`) is the struct of `matrix.h`. It is a datatype
  `Matrix(rows, cols, data: seq<real>)` with the invariant `Valid`: both
  dimensions are positive, the element count fits in a 64-bit `size_t`, and
  the buffer has exactly rows * cols elements. `At(m, i, j)` reads element
  (i, j). A C pointer is `Option<Matrix>`, and `None` stands for NULL.
- `MatrixOps` (`matrix_ops.dfy`) gives each C function as a pure function.
  Each one follows the C branches: NULL operands, the shape check, the
  `matrix_create` call, then the filled result. Each contract states when the
  operation fails, the shape of the result and a closed formula for every
  element (i, j). The product's formula uses `Dot`, a sum over k that runs
  left to right like the C accumulator.
- `MatrixKernels` (`matrix_kernels.dfy`) gives the C loops as methods. These
  are the flat loops of add, sub, scalar multiply and clone, and the nested
  i/j/k loops of multiply and transpose. Each method writes into the buffer
  that `Create` returned. Its loop invariants and assertions prove two
  things: every index it reads or writes is in bounds, and its result equals
  the `MatrixOps` function. Every index is below a buffer length, and `Valid`
  bounds those lengths by 2^64, so no index computation wraps in a `size_t`.

`MatrixLaws` (`matrix_laws.dfy`) relates the operations to each other and
checks the worked examples. `SizeOverflow` (`size_overflow.dfy`) models
`matrix_create` as written; see Findings.

## Model

| member | source | states |
|---|---|---|
| `MatrixType.AtFlat` | matrix.h:7-11 | in a valid matrix, every (i, j) with i < rows and j < cols has its flat index i*cols+j inside the buffer, and element (i, j) is the buffer entry there |
| `MatrixType.FlatIndexFitsSize` | matrix.c:90-92 | the row-major index i*cols+j that the loops compute is below rows*cols, so the `size_t` arithmetic never wraps and every buffer access is in bounds |
| `MatrixType.FlatIndexSplit` | matrix.c:104 | every flat index of a rows*cols buffer splits into a row below rows and a column below cols that rebuild it, so the transposed write positions j*rows+i cover the whole result |
| `MatrixType.EqualByElements` | matrix.h:7-11 | two valid matrices of the same shape that agree at every (i, j) are the same matrix (buffer included) |
| `MatrixOps.Create` | matrix.c:7-16 | fails exactly for a zero dimension or an element count beyond `size_t`; otherwise gives a valid r x c matrix whose every element is 0 (the calloc zero fill) |
| `MatrixOps.Clone` | matrix.c:50-56 | NULL gives NULL; otherwise the copy has the same dimensions and the same element in every position as the original |
| `MatrixOps.SameSize` | matrix.c:58-61 | true exactly when both matrices exist and their rows and cols agree; when true their buffers have equal length |
| `MatrixOps.Add` | matrix.c:63-70 | succeeds exactly when the operands are the same size; the result keeps their shape and holds a(i,j) + b(i,j) at every position |
| `MatrixOps.Sub` | matrix.c:72-79 | succeeds exactly when the operands are the same size; the result keeps their shape and holds a(i,j) - b(i,j) at every position |
| `MatrixOps.Mul` | matrix.c:81-96 | succeeds exactly when both operands exist, a.cols == b.rows and a.rows*b.cols fits in `size_t`; the result is a.rows x b.cols with entry (i, j) the left-to-right sum over k of a(i,k)*b(k,j) |
| `MatrixOps.Transpose` | matrix.c:98-106 | fails only for NULL; the result is a.cols x a.rows and holds a(i,j) at position (j, i) for every i, j |
| `MatrixOps.ScalarMul` | matrix.c:108-115 | fails only for NULL; the result keeps the shape and holds a(i,j) * s at every position |
| `MatrixOps.MulEntries` | matrix.c:92 | writing each product entry at flat index i*cols+j of the result places the sum for (i, j) at position (i, j) |
| `MatrixOps.TransposeEntries` | matrix.c:104 | writing a(i,j) at flat index j*rows+i of the result places it at position (j, i) |
| `MatrixKernels.Clone` | matrix.c:50-56 | the copy loop yields exactly the clone, so the result equals the operand |
| `MatrixKernels.Add` | matrix.c:63-70 | the flat loop over n = rows*cols indices yields exactly the element-wise sum, and NULL on a shape mismatch |
| `MatrixKernels.Sub` | matrix.c:72-79 | the flat loop yields exactly the element-wise difference, and NULL on a shape mismatch |
| `MatrixKernels.Mul` | matrix.c:81-96 | the nested i/j loops, with every read and write in bounds, yield exactly the matrix product, and NULL for absent or incompatible operands |
| `MatrixKernels.RowTimesColumn` | matrix.c:88-91 | the accumulator loop starting from 0.0 ends with the left-to-right sum of a(i,k)*b(k,j) over all k < a.cols |
| `MatrixKernels.Transpose` | matrix.c:98-106 | the nested loops yield exactly the transposed matrix, and NULL for NULL |
| `MatrixKernels.TransposeRow` | matrix.c:103-104 | one pass of the inner loop writes row i of a into column i of the result and leaves the columns already written intact |
| `MatrixKernels.ScalarMul` | matrix.c:108-115 | the flat loop yields exactly the scaled matrix, and NULL for NULL |
| `MatrixLaws.SubAfterAdd` | matrix.c:63-79 | for same-sized a and b, sub(add(a, b), b) gives back a |
| `MatrixLaws.AddAfterSub` | matrix.c:63-79 | for same-sized a and b, add(sub(a, b), b) gives back a |
| `MatrixLaws.TransposeTwice` | matrix.c:98-106 | transposing twice gives back the original matrix, and NULL stays NULL |
| `MatrixLaws.ScalarMulOne` | matrix.c:108-115 | scaling by 1 is the same as cloning |
| `MatrixLaws.ScalarMulZero` | matrix.c:108-115 | scaling by 0 gives the zero matrix that `matrix_create` builds for the same shape |
| `MatrixLaws.MulFailsOnlyOnMismatch` | matrix.c:81-85 | for operands within the 1-100 bound the caller enforces, mul fails exactly when an operand is NULL or a.cols != b.rows |
| `MatrixLaws.SquareAddExample` | matrix.c:63-70 | [[1,2],[3,4]] + [[5,6],[7,8]] = [[6,8],[10,12]] |
| `MatrixLaws.SquareSubExample` | matrix.c:72-79 | [[1,2],[3,4]] - [[5,6],[7,8]] = [[-4,-4],[-4,-4]] |
| `MatrixLaws.SquareMulExample` | matrix.c:81-96 | [[1,2],[3,4]] x [[5,6],[7,8]] = [[19,22],[43,50]] |
| `MatrixLaws.RowTimesColumnExample` | matrix.c:81-96 | the 1x3 row [1,2,3] times the 3x1 column [1,2,3] is [[14]] |
| `SizeOverflow.CreateAsWritten` | matrix.c:7-16 | as written: fails only for a zero dimension, and the buffer length is the wrapped `size_t` product, which can be below rows*cols |
| `SizeOverflow.CreateAsWrittenShortBuffer` | matrix.c:13 | matrix_create(2^63+1, 2) succeeds with a 2-element buffer for a matrix that claims 2^64+2 elements |
| `SizeOverflow.ShortBufferReach` | matrix.c:102-104 | for the 2^63+1 x 2 matrix, the flat loop bound rows*cols and the memcpy byte count both wrap to fit its 2-element buffer, while the nested transpose loop reads element (1, 0) at index 2, past its end |
| `SizeOverflow.CreateAgreesWithoutOverflow` | matrix.c:7-16 | when r*c fits in `size_t`, the code as written and the corrected `Create` build the same matrix |

## Left out

- `matrix_free` (matrix.c:18-22): Dafny values need no manual release.
- `matrix_input` and `matrix_print` (matrix.c:24-48): console I/O through `scanf` and `printf`.
- `matrix_save_result_to_file`, `matrix_delete_all_data` and `matrix_show_saved_results` (matrix.h:31-33): their definitions are not part of this model, and they only do file I/O.
- `main.c`: the menu loop, prompts, loading bar and stdin clearing. Its 1-100 dimension check appears only as the precondition of `MatrixLaws.MulFailsOnlyOnMismatch`.
- Allocation failure (matrix.c:9-14, 53, 66, 75, 85, 101, 111): `Create` succeeds whenever the dimensions are positive and their product fits in `size_t`. The NULL checks after each `matrix_create` call stay in the model. That branch is never taken, except in `MatrixOps.Mul` and `MatrixKernels.Mul` when a.rows * b.cols does not fit in `size_t`: there the corrected `Create` fails (see Findings).
- Byte-count overflow in `calloc` (matrix.c:13) and `memcpy` (matrix.c:54): `calloc` receives the wrapped count (r * c) mod 2^64 and 8 bytes per element, and a real `calloc` returns NULL once 8 times that count exceeds `SIZE_MAX`. So no C matrix whose rows * cols fits in `size_t` has 2^61 or more elements. The wrapped case is the Finding. `Valid` and `Create` bound only the element count by 2^64, so `Create` succeeds for element counts from 2^61 up to 2^64 - 1. The model treats that `calloc` failure as an allocation failure, which it does not model.
- IEEE-754 doubles: elements and the scalar are exact reals. Rounding, NaN and infinities are not modelled, and neither is how the accumulation order affects rounding. `Dot` keeps the left-to-right order anyway.
- Aliasing and mutation: operands are immutable values. The C functions take `const` pointers and never write to them, so "the operands do not change" holds by construction.
- `size_t` is taken to be 64 bits wide (`SIZE_RANGE` = 2^64).
- `MatrixOps.Mul`: it also fails when a.rows * b.cols does not fit in `size_t`, so it does not always succeed when a.cols == b.rows. The code builds its result through `matrix_create`, and the corrected `Create` rejects that element count (see Findings).

## Findings

| source | as written | input that shows it | evidently intended | confidence | as-written member | corrected member |
|---|---|---|---|---|---|---|
| matrix.c:13 | `calloc(r * c, sizeof(double))` computes `r * c` in `size_t`, so it wraps modulo 2^64 before `calloc` can catch the overflow | `matrix_create(2^63 + 1, 2)`: `r * c` wraps to 2, so the matrix claims 2^64 + 2 elements over a 2-element buffer | the buffer holds `r * c` elements, or creation fails | not executed; high for the arithmetic (no caller inside `main.c` reaches it because of the 1-100 bound) | `SizeOverflow.CreateAsWritten`, `SizeOverflow.CreateAsWrittenShortBuffer` | `MatrixOps.Create` (its result is always `Valid`: the buffer length equals rows * cols) |
