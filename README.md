# matrix.c in Dafny

This project models the uint32 square-matrix engine in `matrix.c`.

The engine keeps state in module globals:
- a pseudo-random generator seed;
- the order of the matrices: width, height and element count.

Every generator, transform and operator allocates a zero-filled buffer of `g_elements` values and fills it with index loops in row-major order (`identity_matrix` writes only the diagonal, `transposed` writes it column by column). The reductions only read their input, and the configuration functions allocate nothing. Arithmetic is `uint32_t` arithmetic, so it wraps around modulo 2^32.

The project is laid out as the C file is:

- `wrap32.dfy` (module `Wrap32`): `u32`, wrapping `Add` and `Mul`, and the modular-arithmetic facts the proofs use.
- `matrix_spec.dfy` (module `MatrixSpec`): reference definitions on `seq<u32>` for the operations that build or reduce a matrix. The generators, transforms and operators are defined element by element, except `Reverse` and `Power`, which are recursive. `Sum`, `Dot`, `Count` and `RandomStream` are the loops' running accumulations written as recursion; their independent forms are `ExactSum`, `ExactDot`, the cardinality of an index set (`CountIsIndexCount`) and the element formula of `RandomStreamAt`. `cloned`, `get_minimum` and `get_maximum` have no definition here: their contracts state the property directly.
  - `Identity`, `RandomStream`, `Uniform`, `Sequence`
  - `Reverse`, `Transpose`
  - `AddScalar`, `MulScalar`, `AddElementwise`
  - `Product` (row times column), `Power`
  - `Sum`, `Trace`, `Count`
  - the row-major layout lemmas.
- `matrix_laws.dfy` (module `MatrixLaws`): what the engine promises, proved about those definitions:
  - element formulas
  - involutions
  - the identity as a two-sided unit of the product
  - the cases of the power
  - the sum and trace laws under wraparound
  - frequency as an index count
  - the order-2 worked example.
- `matrix.dfy` (module `Matrix`): class `Context`. Its fields `seed`, `width`, `height` and `elements` are the C globals.
  - There is one method per C function, with the C loops and their invariants.
  - Each method that builds a matrix returns a fresh array whose contents equal the reference definition (for `Cloned`, the input), and changes none of its inputs.

`Context.Valid()` is the state after `set_dimensions`: positive order, `height == width`, `elements == width*width`, and fewer than 2^32 elements. Every matrix operation requires it, and requires its array arguments to hold `elements` values.

`matrix_pow` seeds its accumulator with `cloned(matrix)` (matrix.c:331), not with a zero matrix. So exponent 1 returns a copy of the base, and exponent k ≥ 1 returns the k-th power. The model follows the code and proves exactly that.

## Model

| member | source | states |
|---|---|---|
| Matrix.Context.constructor | matrix.c:12-16 | Before configuration, seed, width, height and element count are all zero, and no dimensions are set. |
| Matrix.Context.FastRand | matrix.c:27-32 | The seed becomes `214013*seed + 2531011` mod 2^32. The result is bits 16..30 of the new seed, so it is below 32768. |
| Matrix.Context.SetSeed | matrix.c:37-41 | The seed becomes the argument; nothing else changes. |
| Matrix.Context.SetDimensions | matrix.c:55-62 | Width and height become the order, and the element count becomes order*order. The context is then valid. |
| Matrix.Context.NewMatrix | matrix.c:125-129 | A fresh buffer of `elements` zeros. |
| Matrix.Context.IdentityMatrix | matrix.c:134-145 | A fresh buffer equal to the identity of order `width`. Ones are written only at `i*w+i`; every other cell keeps calloc's zero. |
| Matrix.Context.RandomMatrix | matrix.c:150-163 | Reseeds, then element i is the output of the (i+1)-th generator step. Every element is below 32768, and the seed ends `elements` steps after `s`. Two calls with the same seed and order therefore yield equal contents. |
| Matrix.Context.UniformMatrix | matrix.c:168-179 | Every element is `value`. |
| Matrix.Context.SequenceMatrix | matrix.c:184-197 | The running `current += step` leaves element i equal to `start + i*step` mod 2^32. |
| Matrix.Context.Cloned | matrix.c:206-217 | A fresh buffer with the same contents as the input. |
| Matrix.Context.Reversed | matrix.c:222-233 | A fresh buffer holding the whole flat input in reverse order. |
| Matrix.Context.Transposed | matrix.c:238-252 | The nested y/x loops leave a fresh buffer equal to the transpose of the input. |
| Matrix.Context.ScalarAdd | matrix.c:257-268 | Each element is the input element plus the scalar, mod 2^32. |
| Matrix.Context.ScalarMul | matrix.c:273-284 | Each element is the input element times the scalar, mod 2^32. |
| Matrix.Context.MatrixAdd | matrix.c:289-300 | Each element is the sum of the two input elements at the same index, mod 2^32. |
| Matrix.Context.MatrixMul | matrix.c:305-323 | A fresh buffer equal to the matrix product (row of a times column of b, with wraparound). |
| Matrix.Context.AccumulateCell | matrix.c:312-319 | The walk with `first_row` along row c/w of a and `second_column` down column c%w of b accumulates the dot product into `result[c]`. No other cell changes. |
| Matrix.Context.MatrixPow | matrix.c:328-349 | Exponent 0 gives the identity. Otherwise the accumulator starts as a clone of m and is multiplied by m `exponent-1` times, giving `m^exponent`. |
| Matrix.Context.GetSum | matrix.c:358-368 | The running uint32 sum equals the exact sum of all elements mod 2^32. |
| Matrix.Context.GetTrace | matrix.c:373-384 | The running uint32 sum of the `m[c*w+c]` is the trace. |
| Matrix.Context.GetMinimum | matrix.c:389-402 | The result is an element of the buffer and is at most every element. |
| Matrix.Context.GetMaximum | matrix.c:407-420 | The result is an element of the buffer and is at least every element. |
| Matrix.Context.GetFrequency | matrix.c:425-439 | The counter equals the number of indices holding `value`, which is at most `elements`. |
| Matrix.DiagonalSetStep | matrix.c:139-142 | Writing 1 at `i*w+i` extends the invariant "diagonal set below row i, zero elsewhere" to row i+1. |
| Matrix.DiagonalSetDone | matrix.c:139-144 | Once every row has its diagonal cell set, the buffer is the identity. |
| Matrix.TransposedStep | matrix.c:245-248 | Writing `matrix[y*w+x]` to `result[x*w+y]` extends the written region by one cell without disturbing the cells already written. |
| Matrix.TransposedDone | matrix.c:243-251 | Once every (y, x) has been visited, the buffer is the transpose. |
| Matrix.OffsetInjective | matrix.c:247 | Distinct (row, col) cells have distinct offsets `row*w+col`. |
| Matrix.MulWalkStep | matrix.c:314-316 | Each step of the `matrix_mul` walk reads inside both buffers and moves `second_column` down one row. It adds `a[first_row]*b[second_column]` as the next dot-product term. |
| Matrix.MulWalkDone | matrix.c:314 | The guard `second_column < g_elements` stops the walk after exactly w steps. |
| MatrixLaws.IdentityAt | matrix.c:134-145 | Identity cell (row, col) is 1 exactly when row == col, and 0 otherwise. |
| MatrixLaws.RandomStreamAt | matrix.c:150-163 | The stream of n draws has length n. Draw i is the output of the state after i+1 steps, and it is below 32768. |
| MatrixLaws.SequenceStart | matrix.c:188-192 | A non-empty sequence matrix starts at `start`. |
| MatrixLaws.SequenceStep | matrix.c:188-194 | Each element of a sequence matrix is the previous one plus `step`, mod 2^32. |
| MatrixLaws.ReverseAt | matrix.c:227-230 | `result[i] == m[n-1-i]` for every i below n. |
| MatrixLaws.ReverseInvolution | matrix.c:222-233 | Reversing twice gives back the input. |
| MatrixLaws.TransposeAt | matrix.c:243-249 | `result[x*w+y] == m[y*w+x]` for every cell. |
| MatrixLaws.TransposeInvolution | matrix.c:238-252 | Transposing twice gives back the input. |
| MatrixLaws.DotWrapsExact | matrix.c:314-317 | Accumulating `+=` of wrapped products gives the exact dot product mod 2^32. |
| MatrixLaws.ProductCell | matrix.c:310-319 | Cell c of the product is row c/w of a times column c%w of b. |
| MatrixLaws.ProductAt | matrix.c:305-323 | Cell (row, col) of the product is the exact sum over k of `a[row*w+k]*b[k*w+col]`, mod 2^32. |
| MatrixLaws.DotUnitLeft | matrix.c:316 | A dot product with a unit vector on the left picks out one element of the right operand. |
| MatrixLaws.DotUnitRight | matrix.c:316 | A dot product with a unit vector on the right picks out one element of the left operand. |
| MatrixLaws.IdentityRowUnit | matrix.c:139-142 | Each row of the identity is a unit vector. |
| MatrixLaws.IdentityColumnUnit | matrix.c:139-142 | Each column of the identity is a unit vector. |
| MatrixLaws.ProductIdentityLeft | matrix.c:305-323 | identity × m == m. |
| MatrixLaws.ProductIdentityRight | matrix.c:305-323 | m × identity == m. |
| MatrixLaws.PowerLaws | matrix.c:328-349 | `m^0` is the identity, `m^1 == m`, and `m^2 == m × m`. |
| MatrixLaws.SumWrapsExact | matrix.c:358-368 | The wrapped running sum equals the exact sum mod 2^32. |
| MatrixLaws.SumAddScalar | matrix.c:257-268 | `get_sum(scalar_add(m, k)) == get_sum(m) + k*elements` mod 2^32. |
| MatrixLaws.SumMulScalar | matrix.c:273-284 | `get_sum(scalar_mul(m, k)) == get_sum(m) * k` mod 2^32. |
| MatrixLaws.SumAddElementwise | matrix.c:289-300 | `get_sum(matrix_add(a, b)) == get_sum(a) + get_sum(b)` mod 2^32. |
| MatrixLaws.TraceTranspose | matrix.c:373-384 | Transposing leaves the diagonal, and so the trace, unchanged. |
| MatrixLaws.SumUniform | matrix.c:168-179 | A uniform matrix of v sums to `v*elements` mod 2^32. |
| MatrixLaws.TraceIdentity | matrix.c:373-384 | The trace of the identity of order w is w mod 2^32. |
| MatrixLaws.IndexSetSnoc | matrix.c:430-436 | The indices holding v are those of the prefix, plus the last index when it holds v. |
| MatrixLaws.CountIsIndexCount | matrix.c:425-439 | The frequency is the number of indices holding the value, so it is at most the element count. |
| MatrixLaws.CountUniform | matrix.c:425-439 | In a uniform matrix of v, the frequency of v is the element count and the frequency of any other value is 0. |
| MatrixLaws.ExampleSequence | matrix.c:184-197 | At order 2, `sequence_matrix(1, 1)` is `[1, 2, 3, 4]`. |
| MatrixLaws.ExampleSumAndTrace | matrix.c:358-384 | `[1, 2, 3, 4]` has sum 10 and trace 5. |
| MatrixLaws.ExampleTranspose | matrix.c:238-252 | The transpose of `[1, 2, 3, 4]` is `[1, 3, 2, 4]`. |
| MatrixLaws.DotOfTwo | matrix.c:314-317 | A two-term dot product is `u0*v0 + u1*v1` mod 2^32. |
| MatrixLaws.ProductOfTwoAt | matrix.c:305-323 | One cell of an order-2 product, written out. |
| MatrixLaws.ProductOfTwo | matrix.c:305-323 | The whole order-2 product, written out cell by cell. |
| MatrixLaws.ExampleProduct | matrix.c:305-323 | `[1, 2, 3, 4] × [1, 2, 3, 4] == [7, 10, 15, 22]`. |
| MatrixLaws.ExampleIdentity | matrix.c:333-336 | `matrix_pow([1, 2, 3, 4], 0)` at order 2 is `[1, 0, 0, 1]`. |
| MatrixLaws.ExampleUniform | matrix.c:425-439 | In a uniform matrix of 5s with 4 elements, the frequency of 5 is 4 and the frequency of 6 is 0. |
| Wrap32.AddInterchange | matrix.c:296 | Wrapping uint32 addition can be regrouped: (a+b)+(c+d) == (a+c)+(b+d). |
| Wrap32.MulDistributes | matrix.c:280 | Wrapping uint32 multiplication distributes over wrapping addition. |
| Wrap32.WrapAddLeft | matrix.c:193 | Reducing one operand of a sum modulo 2^32 first does not change the reduced sum. |

## Left out

- `display`, `display_row`, `display_column` and `display_element` (matrix.c:67-116) only print, so they are not modelled.
- `set_nthreads` and `g_nthreads` (matrix.c:18, 46-50) are not modelled: nothing reads the thread count.
- calloc failure is not modelled: `new_matrix` always succeeds.
- Freeing buffers is not modelled, including the intermediate buffers `matrix_pow` leaks when it overwrites `result` (matrix.c:335, 342). Every operation returns a fresh array, and memory is garbage-collected.
- Matrix.Context.SetDimensions: requires a positive order whose square is below 2^32. It does not model the signed `ssize_t` overflow of `g_width * g_height` (matrix.c:61), or a zero or negative order.
- Matrix.Context.MatrixPow: requires `exponent <= 2^31`. This keeps the `int c` loop counter, compared against the unsigned `exponent-1` (matrix.c:340), away from signed overflow. C's integer promotion is not modelled.
- Matrix.Context.GetMinimum: requires at least one element, through `Valid()`. It does not model the out-of-bounds read of `matrix[0]` on an empty matrix (matrix.c:391).
- Matrix.Context.GetMaximum: requires at least one element for the same reason (matrix.c:409).
- Matrix.Context.GetFrequency: `Valid()` keeps the element count below 2^32, so the `uint32_t` counter (matrix.c:428) cannot wrap. Counter wrap-around is therefore not modelled.
- Matrix.Context.AccumulateCell: the `matrix_mul` loop over `first_row` ends in `break` after its first pass (matrix.c:312-319), so it is modelled as a single call per output cell. That call updates `result[c]` in place, and `first_row` is post-incremented exactly as in the source.
- The operations take their matrix arguments as arrays whose length is the current element count. The C code cannot check that a pointer refers to a buffer of that size, and the model does not cover other sizes.
- An output buffer aliasing an input is not modelled: every output is a fresh array.
- `matrix.h` is not part of this model; only the definitions in `matrix.c` are.
