# matrix_product in Dafny

A model of the core of `matrix_product`, a C++ program that multiplies two dense matrices and detects overflow. It has two parts:

- **The container `matrix::Matrix<T>`** (`src/matrix.h`). This is a grid of `rows * columns` elements stored row-major in one flat buffer. The constructor rejects zero dimensions and shapes with more than `max(T)` elements. Element reads and writes are bounds-checked. The free function `transpose` fills a fresh matrix element by element.
- **`get_matrix_product`** (`src/matrix_product.cpp`). It checks that the inner dimensions agree, allocates the result and transposes the second operand. A triple `i`/`j`/`k` loop then builds each element as a running sum.
  - Before each multiplication it tests `a != 0 && MAX / a < b`.
  - Before each addition it tests `MAX - term < sum`.
  - If either test trips, the call aborts with an overflow error at the output position `(i, j)`.

Files:

- `errors.dfy` (module `Errors`): the thrown exceptions as values. `Error` is one of `InvalidDims | OutOfRange | DimMismatch | Overflow(row, column)`. `Result<T>` and `Outcome` carry either a value or an error.
- `bounded_int.dfy` (module `BoundedInt`): the element type `int` as `Int32`, with `MAX = 2^31 - 1` and `MIN = -2^31`. It also holds C++'s truncating division and two multiplication guards. The corrected guard `MulExceedsMax` is proved exact for every pair. The guard as written, `MulGuardAsWritten`, is proved exact when the first factor is non-negative and wrong for some negative first factors.
- `matrix.dfy` (module `Matrices`):
  - The grid value `Grid` (dimensions and row-major cells), with the index map `row * columns + column`, updates and the transpose.
  - The class `Matrix`. Its `const` fields `rows` and `columns` model `rows_` and `columns_`, which no operation changes. Its buffer is an `array<Int32>` of fixed length, updated in place.
  - The method `Transpose`.
- `matrix_product.dfy` (module `MatrixProduct`):
  - The specification of the product: `PartialSum` and `Dot` (exact integer sums), and `OverflowsAt`, `FirstOverflow`, `NoOverflow` and `IsProduct`.
  - The loop itself. `GetMatrixProduct` runs the `i`/`j` loops. The `k` loop for one output element is the method `CellProduct`; it is the same loop, given its own contract.

Each method is proved against these functions. `GetMatrixProduct` promises exactly four outcomes:

- `DimMismatch` when the inner dimensions differ.
- `InvalidDims` when the result shape itself has more than `MAX` elements. Line 24 builds the result through the same checked constructor, so this failure is part of the code's behaviour.
- `Overflow(i, j)` at the first position in row-major order whose exact dot product exceeds `MAX`.
- Otherwise, a fresh matrix whose every element is that exact dot product.

The two guards make this exact. On non-negative operands the multiplication guard trips exactly when the term exceeds `MAX` (`MulGuardExactOnNonNegative`). Partial sums grow monotonically (`PartialSumMonotone`). So "a guard trips somewhere in the `k` loop" is the same as "the whole sum exceeds `MAX`". A failed call returns no matrix.

## Model

| member | source | states |
|---|---|---|
| Matrices.Matrix.Create | src/matrix.h:25-32 | Fails with `InvalidDims` exactly when `rows == 0`, `columns == 0` or `rows * columns > MAX`. Otherwise returns a fresh valid matrix with exactly these dimensions and every element 0. |
| Matrices.Matrix.Init | src/matrix.h:26-31 | For accepted dimensions, a fresh buffer of length `rows * columns` holding only zeros. |
| Matrices.DimsCheckExact | src/matrix.h:28 | The guard `rows == 0 \|\| columns == 0 \|\| MAX / rows < columns` holds exactly when a dimension is zero or the element count exceeds `MAX`. The division form detects the overflow without computing the product. |
| Matrices.ZerosEntry | src/matrix.h:31 | Every element of a freshly constructed matrix reads as 0. |
| Matrices.Matrix.GetElement | src/matrix.h:34-40 | Succeeds exactly when `row < rows` and `column < columns`, and then returns the element at that position. Otherwise fails with `OutOfRange`. |
| Matrices.IndexInRange | src/matrix.h:39 | An in-range `(row, column)` maps to a position `row * columns + column` inside the buffer of length `rows * columns`. |
| Matrices.IndexSplit | src/matrix.h:39 | The row-major position can be undone: dividing by `columns` gives back the row, and the remainder gives back the column. |
| Matrices.FlatIndexSplit | src/matrix.h:31-39 | Every position `k` of the buffer belongs to an in-range element `(k / columns, k % columns)`, so the buffer holds nothing but grid elements. |
| Matrices.IndexInjective | src/matrix.h:47 | Two elements share a buffer position only if they are the same element. |
| Matrices.Matrix.SetElement | src/matrix.h:42-48 | An out-of-range write fails with `OutOfRange` and leaves the buffer unchanged. An in-range write replaces exactly that element: reading it back gives the written value, and every other position reads as before. Dimensions never change. |
| Matrices.EntryOfUpdated | src/matrix.h:47 | Writing element `(row, column)` of a grid and then reading `(r, c)` gives the written value when `(r, c)` is that element, and the old value otherwise. |
| Matrices.Matrix.RowsNum | src/matrix.h:50-53 | Returns the row count fixed at construction. It is positive, and times the column count it stays within `MAX`. `Transpose` and `GetMatrixProduct` read the dimensions through it. |
| Matrices.Matrix.ColumnsNum | src/matrix.h:55-58 | Returns the column count fixed at construction. It is positive, and times the row count it stays within `MAX`. `Transpose`, `CellProduct` and `GetMatrixProduct` read the dimensions through it. |
| Matrices.Transpose | src/matrix.h:60-69 | A fresh `columns` by `rows` matrix whose value is the transpose of the argument. `get_element(j, i)` of the result equals `get_element(i, j)` of the argument for every `i` and `j`, including out-of-range ones. The argument is unchanged. |
| Matrices.TransposedEntry | src/matrix.h:65 | Element `(j, i)` of the transpose is element `(i, j)` of the original. |
| Matrices.TransposeInvolution | src/matrix.h:60-69 | Transposing twice gives back the original grid, in its dimensions and in every element. |
| BoundedInt.PositiveDivGuard | src/matrix_product.cpp:34 | For a positive divisor `d`, `MAX / d < x` holds exactly when `d * x > MAX`. |
| BoundedInt.MulGuardExactOnNonNegative | src/matrix_product.cpp:34 | For `a >= 0`, the guard as written, `a != 0 && MAX / a < b`, holds exactly when `a * b > MAX`. There it coincides with the corrected guard. |
| BoundedInt.MulExceedsMaxExact | src/matrix_product.cpp:34 | The corrected multiplication guard holds exactly when `a * b > MAX`, for every pair of `int` values, negative ones included. |
| BoundedInt.MulGuardMissesNegativeOverflow | src/matrix_product.cpp:34 | The guard as written does not trip for `a = -1`, `b = INT_MIN`, although their product `2^31` exceeds `MAX`. |
| BoundedInt.MulGuardMissesBothNegative | src/matrix_product.cpp:34 | The guard as written also lets `-2 * -0x4000_0001` through, which the corrected guard rejects. |
| BoundedInt.MulGuardMissesEveryNegativeOverflow | src/matrix_product.cpp:34-38 | For every negative `a` and every `b` with `a * b > MAX`, the guard as written does not trip, so line 38 overflows. |
| BoundedInt.MulGuardTripsWithoutOverflow | src/matrix_product.cpp:34-36 | For every negative `a` and positive `b` the guard as written trips, although `a * b` does not exceed `MAX` and the corrected guard does not trip. |
| BoundedInt.MulGuardTripsBelowMin | src/matrix_product.cpp:34-38 | For `a = -2`, `b = MAX` the guard as written trips, and here that is needed: `a * b` is below `INT_MIN`. The corrected guard, which tests only for exceeding `MAX`, does not trip. |
| MatrixProduct.PartialSumMonotone | src/matrix_product.cpp:29-43 | With non-negative operands the running sums are non-negative and never decrease with `k`. So once a prefix sum exceeds `MAX`, the whole dot product does. |
| MatrixProduct.CellProduct | src/matrix_product.cpp:29-43 | The `k` loop succeeds exactly when the dot product for `(i, j)` is at most `MAX`, and then returns it. Otherwise it fails with `Overflow(i, j)`. Loop invariant: the running sum equals the exact prefix sum and never exceeds `MAX`. |
| MatrixProduct.FilledBeforeStep | src/matrix_product.cpp:44 | Storing the exact element `(i, j)` extends, by one position in row-major order, the part of the result that holds the exact product. |
| MatrixProduct.FilledBeforeComplete | src/matrix_product.cpp:27-48 | A result filled at every position is the product, and no element overflowed. |
| MatrixProduct.GetMatrixProduct | src/matrix_product.cpp:11-49 | On non-negative operands: `DimMismatch` iff the inner dimensions differ. `InvalidDims` iff they agree but the result shape has more than `MAX` elements. Every other failure is an `Overflow(i, j)`, and it happens iff some element overflows; `(i, j)` is then the first row-major position whose dot product exceeds `MAX`. Otherwise a fresh `m1.rows` by `m2.columns` matrix whose every element is the exact sum of `m1[i][k] * m2[k][j]`. A failed call returns no matrix. |
| MatrixProduct.ProductWithIdentity | src/matrix_product.cpp:27-44 | The exact product of any grid with the identity on the right exceeds `MAX` nowhere and is the grid itself. With `GetMatrixProduct`'s contract, a non-negative matrix times the identity therefore gives back that matrix. A matrix with a negative element is not covered: there the guard as written trips (see Findings). |
| MatrixProduct.ExampleProduct | src/matrix_product.cpp:27-44 | `[[1, 2], [3, 4]]` times `[[5, 6], [7, 8]]` is `[[19, 22], [43, 50]]`, with no overflow. |
| MatrixProduct.ExampleMultiplicationOverflow | src/matrix_product.cpp:34-36 | For `[[2^30]]` times `[[2]]` the multiplication guard trips, and `(0, 0)` is the first overflowing position. |
| MatrixProduct.ExampleAccumulationOverflow | src/matrix_product.cpp:39-41 | For `[[2^30, 2^30]]` times `[[1], [1]]` the multiplication guard does not trip. The sum still overflows at `(0, 0)`, so only the accumulation guard catches it. |
| MatrixProduct.ExampleSpuriousOverflow | src/matrix_product.cpp:34-36 | `[[-1]]` times `[[1]]` is `[[-1]]`, with no overflow, yet the multiplication guard as written trips on its only term. |

## Left out

- MatrixProduct.GetMatrixProduct: requires every element of both operands to be non-negative, which is what the test generator produces (integers 1 to 100, `test/input_matrix.py:9`). On negative elements the code does something other than detect overflow, and the model does not reproduce it:
  - for a negative `m1_value`, the guard at line 34 trips for every positive `m2_value`, so the call throws an overflow error even when the product does not exceed `MAX` (see Findings). When the product is below `INT_MIN` the trip is needed, and the corrected guard `MulExceedsMax` would miss it (`MulGuardTripsBelowMin`);
  - for a negative `m1_value` it can also let an overflowing product through (see Findings);
  - for a positive `m1_value` and a negative `m2_value` the guard never trips, and `MAX - res_elem` at line 39 then exceeds `MAX`, which is undefined behaviour in C++.
- MatrixProduct.CellProduct: requires non-negative elements, for the same reason.
- Element types: only `T = int` (32-bit, `MAX = 2^31 - 1`) is modelled. The `double` element type and the `std::common_type_t` promotion of `int` and `double` to `double` are floating-point semantics and are left out. Another integer width would only change `MAX` and `MIN`.
- Element layout: indices are `nat`. `size_t` wrap-around in `row * columns_ + column` cannot happen, because a valid matrix has at most `MAX` elements.
- Matrix values: C++ returns matrices by value. The model returns fresh objects, which likewise share nothing with their arguments.
- I/O: `print_matrix`, `load_from_file`, `read_name_and_type`, `read_second_and_print_product`, `read_and_print_product` and `main` (`src/matrix_product.cpp:52-164`) are file parsing, console output and exit-code handling. They are not part of this model.
- Exception messages: their text is not modelled. Each exception becomes an `Error` value.
- Associativity of the product on small non-overflowing matrices is not proved.

## Findings

| source | as written | input that shows it | evidently intended | confidence | as-written member | corrected member |
|---|---|---|---|---|---|---|
| src/matrix_product.cpp:34 | `m1_value != 0 && MAX / m1_value < m2_value`, with C++ truncating division | every negative `m1_value` whose product with `m2_value` exceeds `MAX`; e.g. `m1_value = -1`, `m2_value = INT_MIN`: `MAX / -1 = -MAX` is not below `INT_MIN`, so the guard passes, but the product is `2^31 > MAX` (`MulGuardMissesNegativeOverflow`; likewise `-2` and `-0x4000_0001`) | reject every pair whose product exceeds `MAX`. For a negative `a` that means testing `b < MAX / a` instead | high; not executed | BoundedInt.MulGuardMissesEveryNegativeOverflow | BoundedInt.MulExceedsMaxExact |
| src/matrix_product.cpp:34 | `m1_value != 0 && MAX / m1_value < m2_value`, with C++ truncating division | `[[-1]]` times `[[1]]`: `MAX / -1 = -MAX < 1`, so the guard trips and the call throws "Overflow at product element 0, 0", but the product is `[[-1]]` | throw only when the product leaves `int`. The corrected guard `MulExceedsMax` (`b < MAX / a` for a negative `a`) covers only exceeding `MAX`: for `a < 0 < b` with `a * b < INT_MIN` it lets line 38 wrap where the code as written throws (`MulGuardTripsBelowMin`), so a full correction also needs a test against `INT_MIN` | high; not executed | BoundedInt.MulGuardTripsWithoutOverflow | BoundedInt.MulExceedsMaxExact |

The product loop uses the corrected guard `BoundedInt.MulExceedsMax`. On the non-negative elements the model admits, it coincides with the guard as written (`BoundedInt.MulGuardExactOnNonNegative`).
