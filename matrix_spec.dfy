/**
 * Reference definitions for the matrix engine: a matrix of order `w` is a row-major flat
 * sequence of `w*w` unsigned 32-bit values, element (row, col) at offset `row*w + col`.
 * The generators, transforms and operators are defined element by element, except `Reverse`
 * and `Power`, which are recursive. `Sum`, `Dot`, `Count` and `RandomStream` are the loops'
 * running accumulations written as recursion; `ExactSum` and `ExactDot` are their exact forms.
 */
module MatrixSpec {
  import opened Wrap32

  type Mat = seq<u32>

  // ---------------------------------------------------------------------------
  // Row-major layout
  // ---------------------------------------------------------------------------

  predicate IsOrder(m: Mat, w: nat) {
    |m| == w * w
  }

  /** Every (row, col) of an order-w matrix has an offset inside the buffer. */
  lemma OffsetInBounds(w: nat, row: nat, col: nat)
    requires row < w && col < w
    ensures row * w + col < w * w
  {
    assert row * w <= (w - 1) * w;
  }

  /** Multiplying by a natural number preserves order. */
  lemma MulMonotone(x: int, y: int, w: nat)
    ensures x <= y ==> x * w <= y * w
  {
  }

  /** The offset `row*w + col` is decoded back by `/ w` and `% w`. */
  lemma OffsetDecode(w: nat, row: nat, col: nat)
    requires col < w
    ensures (row * w + col) / w == row && (row * w + col) % w == col
  {
    var k := row * w + col;
    var q, r := k / w, k % w;
    assert k == q * w + r && 0 <= r < w;
    MulMonotone(row + 1, q, w);
    MulMonotone(q + 1, row, w);
    assert (row + 1) * w == row * w + w;
    assert (q + 1) * w == q * w + w;
  }

  /** Every offset of an order-w buffer splits into a row and a column below w. */
  lemma OffsetSplit(w: nat, k: nat)
    requires k < w * w
    ensures w > 0 && k / w < w && k % w < w && k == (k / w) * w + k % w
    ensures 0 <= (k / w) * w <= k
  {
    assert w > 0;
    assert (k / w) * w <= k;
    MulMonotone(w, k / w, w);
    MulMonotone(0, k / w, w);
  }

  /** Walking column `col` in steps of w stays inside the buffer for exactly w steps. */
  lemma ColumnWalk(w: nat, j: nat, col: nat)
    requires col < w
    ensures j * w + col < w * w <==> j < w
    ensures (j + 1) * w + col == j * w + col + w
  {
    if j < w {
      OffsetInBounds(w, j, col);
    } else {
      MulMonotone(w, j, w);
    }
  }

  // ---------------------------------------------------------------------------
  // Generators
  // ---------------------------------------------------------------------------

  /** The zero-filled buffer `calloc` hands out. */
  function Zero(n: nat): Mat {
    seq(n, _ => 0)
  }

  /** 1 where the row equals the column, 0 elsewhere. */
  function Identity(w: nat): (r: Mat)
    ensures IsOrder(r, w)
  {
    seq(w * w, k requires 0 <= k < w * w => if k / w == k % w then 1 else 0)
  }

  /** One step of the linear congruential generator behind `fast_rand`. */
  function LcgNext(s: u32): u32 {
    Wrap(214013 * s + 2531011)
  }

  /** Bits 16 to 30 of a generator state: `(s >> 16) & 0x7FFF`. */
  function LcgOutput(s: u32): u32 {
    (s / 0x1_0000) % 0x8000
  }

  /** The generator state after `n` draws starting from `s`. */
  function SeedAfter(s: u32, n: nat): u32 {
    if n == 0 then s else LcgNext(SeedAfter(s, n - 1))
  }

  /** The first `n` values drawn from the generator seeded with `s`, in draw order. */
  function RandomStream(s: u32, n: nat): (r: Mat)
    ensures |r| == n
  {
    if n == 0 then [] else RandomStream(s, n - 1) + [LcgOutput(SeedAfter(s, n))]
  }

  function Uniform(v: u32, n: nat): Mat {
    seq(n, _ => v)
  }

  /** Element i is `start + i*step` reduced modulo 2^32. */
  function Sequence(start: u32, step: u32, n: nat): Mat {
    seq(n, i => Wrap(start + i * step))
  }

  // ---------------------------------------------------------------------------
  // Structural transforms
  // ---------------------------------------------------------------------------

  /** The whole flat buffer in reverse order (across row boundaries). */
  function Reverse(m: Mat): (r: Mat)
    ensures |r| == |m|
  {
    if |m| == 0 then [] else [m[|m| - 1]] + Reverse(m[..|m| - 1])
  }

  /** Element (row, col) of the result is element (col, row) of `m`. */
  function Transpose(m: Mat, w: nat): (r: Mat)
    requires IsOrder(m, w)
    ensures IsOrder(r, w)
  {
    seq(w * w, k requires 0 <= k < w * w =>
      OffsetSplit(w, k); OffsetInBounds(w, k % w, k / w);
      m[(k % w) * w + k / w])
  }

  // ---------------------------------------------------------------------------
  // Algebraic operators
  // ---------------------------------------------------------------------------

  function AddScalar(m: Mat, s: u32): (r: Mat)
    ensures |r| == |m|
  {
    seq(|m|, i requires 0 <= i < |m| => Add(m[i], s))
  }

  function MulScalar(m: Mat, s: u32): (r: Mat)
    ensures |r| == |m|
  {
    seq(|m|, i requires 0 <= i < |m| => Mul(m[i], s))
  }

  function AddElementwise(a: Mat, b: Mat): (r: Mat)
    requires |a| == |b|
    ensures |r| == |a|
  {
    seq(|a|, i requires 0 <= i < |a| => Add(a[i], b[i]))
  }

  /** Row `row` of `m`: the w elements from offset `row*w` on. */
  function Row(m: Mat, w: nat, row: nat): (r: seq<u32>)
    requires IsOrder(m, w) && row < w
    ensures |r| == w
  {
    OffsetInBounds(w, row, w - 1);
    m[row * w .. row * w + w]
  }

  /** Column `col` of `m`: the elements at offsets `k*w + col` for k below w. */
  function Column(m: Mat, w: nat, col: nat): (r: seq<u32>)
    requires IsOrder(m, w) && col < w
    ensures |r| == w
  {
    seq(w, k requires 0 <= k < w => OffsetInBounds(w, k, col); m[k * w + col])
  }

  /** Element j of row i is the element at offset `i*w + j`. */
  lemma RowElem(m: Mat, w: nat, i: nat, j: nat)
    requires IsOrder(m, w) && i < w && j < w
    ensures i * w + j < |m| && Row(m, w, i)[j] == m[i * w + j]
  {
    var start: nat := i * w;
    OffsetInBounds(w, i, j);
    OffsetInBounds(w, i, w - 1);
    assert Row(m, w, i) == m[start .. start + w];
  }

  /** Element i of column j is the element at offset `i*w + j`. */
  lemma ColumnElem(m: Mat, w: nat, i: nat, j: nat)
    requires IsOrder(m, w) && i < w && j < w
    ensures i * w + j < |m| && Column(m, w, j)[i] == m[i * w + j]
  {
    OffsetInBounds(w, i, j);
  }

  /**
   * The first `k` terms of the dot product of `u` and `v`, each product and each partial
   * sum reduced modulo 2^32 as `uint32_t` arithmetic does.
   */
  function Dot(u: seq<u32>, v: seq<u32>, k: nat): u32
    requires k <= |u| && k <= |v|
  {
    if k == 0 then 0 else Add(Dot(u, v, k - 1), Mul(u[k - 1], v[k - 1]))
  }

  /** The same dot-product prefix in exact (unbounded) integer arithmetic. */
  function ExactDot(u: seq<u32>, v: seq<u32>, k: nat): int
    requires k <= |u| && k <= |v|
  {
    if k == 0 then 0
    else
      var x: int, y: int := u[k - 1], v[k - 1];
      ExactDot(u, v, k - 1) + x * y
  }

  /** The matrix product: element (row, col) is row `row` of `a` times column `col` of `b`. */
  function Product(a: Mat, b: Mat, w: nat): (r: Mat)
    requires IsOrder(a, w) && IsOrder(b, w)
    ensures IsOrder(r, w)
  {
    seq(w * w, c requires 0 <= c < w * w =>
      OffsetSplit(w, c);
      Dot(Row(a, w, c / w), Column(b, w, c % w), w))
  }

  /** `m` raised to the power `e`: the identity for 0, else `Power(m, e-1)` times `m`. */
  function Power(m: Mat, w: nat, e: nat): (r: Mat)
    requires IsOrder(m, w)
    ensures IsOrder(r, w)
  {
    if e == 0 then Identity(w) else Product(Power(m, w, e - 1), m, w)
  }

  // ---------------------------------------------------------------------------
  // Reductions
  // ---------------------------------------------------------------------------

  /** Sum of all elements in buffer order, reduced modulo 2^32 at each step. */
  function Sum(m: Mat): u32 {
    if |m| == 0 then 0 else Add(Sum(m[..|m| - 1]), m[|m| - 1])
  }

  /** Sum of all elements in exact integer arithmetic. */
  function ExactSum(m: Mat): int {
    if |m| == 0 then 0 else ExactSum(m[..|m| - 1]) + m[|m| - 1]
  }

  /** The diagonal of `m`: element i is (i, i). */
  function Diagonal(m: Mat, w: nat): (r: seq<u32>)
    requires IsOrder(m, w)
    ensures |r| == w
  {
    seq(w, i requires 0 <= i < w => OffsetInBounds(w, i, i); m[i * w + i])
  }

  /** Sum of the diagonal elements, reduced modulo 2^32 at each step. */
  function Trace(m: Mat, w: nat): u32
    requires IsOrder(m, w)
  {
    Sum(Diagonal(m, w))
  }

  /** How many elements of `m` equal `v`. */
  function Count(m: Mat, v: u32): nat {
    if |m| == 0 then 0 else Count(m[..|m| - 1], v) + (if m[|m| - 1] == v then 1 else 0)
  }
}
