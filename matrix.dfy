/**
 * The matrix engine itself: the module state of the C file (generator seed, width, height,
 * element count) as the fields of one context object, and one method per operation. Every
 * method that builds a matrix returns a fresh array and changes none of its inputs.
 */
module Matrix {
  import opened Wrap32
  import opened MatrixSpec
  import opened MatrixLaws

  class Context {
    var seed: u32
    var width: nat
    var height: nat
    var elements: nat

    /** The dimensions have been set: square, positive order, element count below 2^32. */
    ghost predicate Valid()
      reads this
    {
      0 < width && height == width && elements == width * width &&
      0 < elements < Modulus
    }

    /** The state before any configuration: everything zero, so no dimensions yet. */
    constructor ()
      ensures seed == 0 && width == 0 && height == 0 && elements == 0
      ensures !Valid()
    {
      seed, width, height, elements := 0, 0, 0, 0;
    }

    // -------------------------------------------------------------------------
    // Configuration and the pseudo-random generator
    // -------------------------------------------------------------------------

    /** One generator step; returns bits 16 to 30 of the new state. */
    method FastRand() returns (r: u32)
      modifies this`seed
      ensures seed == LcgNext(old(seed))
      ensures r == LcgOutput(seed) && r < 0x8000
    {
      seed := Wrap(214013 * seed + 2531011);
      r := (seed / 0x1_0000) % 0x8000;
    }

    method SetSeed(s: u32)
      modifies this`seed
      ensures seed == s
    {
      seed := s;
    }

    method SetDimensions(order: nat)
      requires 0 < order && order * order < Modulus
      modifies this`width, this`height, this`elements
      ensures Valid()
      ensures width == order && height == order && elements == order * order
    {
      width := order;
      height := order;
      elements := width * height;
    }

    // -------------------------------------------------------------------------
    // Generators
    // -------------------------------------------------------------------------

    /** A zero-filled buffer of the current element count. */
    method NewMatrix() returns (r: array<u32>)
      requires Valid()
      ensures fresh(r) && r[..] == Zero(elements)
    {
      r := new u32[elements](_ => 0);
    }

    method IdentityMatrix() returns (r: array<u32>)
      requires Valid()
      ensures fresh(r) && r[..] == Identity(width)
    {
      r := NewMatrix();
      DiagonalSetStart(width);
      var i := 0;
      while i < width
        invariant 0 <= i <= width && r.Length == elements
        invariant DiagonalSetUpTo(r[..], width, i)
      {
        DiagonalSetStep(r[..], width, i);
        r[i * width + i] := 1;
        i := i + 1;
      }
      DiagonalSetDone(r[..], width);
    }

    /** Reseeds the generator and fills the buffer with draws in row-major order. */
    method RandomMatrix(s: u32) returns (r: array<u32>)
      requires Valid()
      modifies this`seed
      ensures fresh(r) && r.Length == elements && r[..] == RandomStream(s, elements)
      ensures forall k :: 0 <= k < r.Length ==> r[k] < 0x8000
      ensures seed == SeedAfter(s, elements)
    {
      r := NewMatrix();
      SetSeed(s);
      var i := 0;
      while i < elements
        invariant 0 <= i <= elements && r.Length == elements
        invariant Valid()
        invariant seed == SeedAfter(s, i)
        invariant r[..i] == RandomStream(s, i)
      {
        r[i] := FastRand();
        assert r[..i + 1] == r[..i] + [r[i]];
        i := i + 1;
      }
      assert r[..] == r[..elements];
      RandomStreamAt(s, elements);
    }

    method UniformMatrix(v: u32) returns (r: array<u32>)
      requires Valid()
      ensures fresh(r) && r[..] == Uniform(v, elements)
    {
      r := NewMatrix();
      var i := 0;
      while i < elements
        invariant 0 <= i <= elements && r.Length == elements
        invariant forall k :: 0 <= k < i ==> r[k] == v
      {
        r[i] := v;
        i := i + 1;
      }
    }

    /** Element i is start plus i steps, each step added with wraparound. */
    method SequenceMatrix(start: u32, step: u32) returns (r: array<u32>)
      requires Valid()
      ensures fresh(r) && r[..] == Sequence(start, step, elements)
    {
      r := NewMatrix();
      var current := start;
      var i := 0;
      while i < elements
        invariant 0 <= i <= elements && r.Length == elements
        invariant current == Wrap(start + i * step)
        invariant forall k :: 0 <= k < i ==> r[k] == Wrap(start + k * step)
      {
        r[i] := current;
        WrapAddLeft(start + i * step, step);
        assert start + i * step + step == start + (i + 1) * step;
        current := Add(current, step);
        i := i + 1;
      }
    }

    // -------------------------------------------------------------------------
    // Structural transforms
    // -------------------------------------------------------------------------

    method Cloned(m: array<u32>) returns (r: array<u32>)
      requires Valid() && m.Length == elements
      ensures fresh(r) && r[..] == m[..]
    {
      r := NewMatrix();
      var i := 0;
      while i < elements
        invariant 0 <= i <= elements && r.Length == elements
        invariant forall k :: 0 <= k < i ==> r[k] == m[k]
      {
        r[i] := m[i];
        i := i + 1;
      }
    }

    /** The whole buffer in reverse order, across row boundaries. */
    method Reversed(m: array<u32>) returns (r: array<u32>)
      requires Valid() && m.Length == elements
      ensures fresh(r) && r.Length == elements && r[..] == Reverse(m[..])
    {
      r := NewMatrix();
      var i := 0;
      while i < elements
        invariant 0 <= i <= elements && r.Length == elements
        invariant forall k :: 0 <= k < i ==> r[k] == m[elements - 1 - k]
      {
        r[i] := m[elements - 1 - i];
        i := i + 1;
      }
      ReverseAt(m[..]);
    }

    method Transposed(m: array<u32>) returns (r: array<u32>)
      requires Valid() && m.Length == elements
      ensures fresh(r) && r[..] == Transpose(m[..], width)
    {
      r := NewMatrix();
      var y := 0;
      while y < height
        invariant 0 <= y <= height && r.Length == elements
        invariant TransposedUpTo(r[..], m[..], width, y, 0)
      {
        var x := 0;
        while x < width
          invariant 0 <= x <= width
          invariant TransposedUpTo(r[..], m[..], width, y, x)
        {
          TransposedStep(r[..], m[..], width, y, x);
          r[x * width + y] := m[y * width + x];
          x := x + 1;
        }
        y := y + 1;
      }
      TransposedDone(r[..], m[..], width);
    }

    // -------------------------------------------------------------------------
    // Algebraic operators
    // -------------------------------------------------------------------------

    method ScalarAdd(m: array<u32>, scalar: u32) returns (r: array<u32>)
      requires Valid() && m.Length == elements
      ensures fresh(r) && r[..] == AddScalar(m[..], scalar)
    {
      r := NewMatrix();
      var c := 0;
      while c < elements
        invariant 0 <= c <= elements && r.Length == elements
        invariant forall k :: 0 <= k < c ==> r[k] == Add(m[k], scalar)
      {
        r[c] := Add(m[c], scalar);
        c := c + 1;
      }
    }

    method ScalarMul(m: array<u32>, scalar: u32) returns (r: array<u32>)
      requires Valid() && m.Length == elements
      ensures fresh(r) && r[..] == MulScalar(m[..], scalar)
    {
      r := NewMatrix();
      var c := 0;
      while c < elements
        invariant 0 <= c <= elements && r.Length == elements
        invariant forall k :: 0 <= k < c ==> r[k] == Mul(m[k], scalar)
      {
        r[c] := Mul(m[c], scalar);
        c := c + 1;
      }
    }

    method MatrixAdd(a: array<u32>, b: array<u32>) returns (r: array<u32>)
      requires Valid() && a.Length == elements && b.Length == elements
      ensures fresh(r) && r[..] == AddElementwise(a[..], b[..])
    {
      r := NewMatrix();
      var c := 0;
      while c < elements
        invariant 0 <= c <= elements && r.Length == elements
        invariant forall k :: 0 <= k < c ==> r[k] == Add(a[k], b[k])
      {
        r[c] := Add(a[c], b[c]);
        c := c + 1;
      }
    }

    /**
     * The product, accumulated into each output cell in place. The source wraps the walk of
     * each cell in a loop over `firstRow` that ends in `break`, so that loop runs exactly once
     * per cell; it is the call to AccumulateCell here.
     */
    method MatrixMul(a: array<u32>, b: array<u32>) returns (r: array<u32>)
      requires Valid() && a.Length == elements && b.Length == elements
      ensures fresh(r) && r[..] == Product(a[..], b[..], width)
    {
      r := NewMatrix();
      ghost var p := Product(a[..], b[..], width);
      var c := 0;
      while c < elements
        invariant 0 <= c <= elements && r.Length == elements
        invariant forall k :: 0 <= k < c ==> r[k] == p[k]
        invariant forall k :: c <= k < elements ==> r[k] == 0
      {
        AccumulateCell(a, b, r, c);
        c := c + 1;
      }
    }

    /**
     * One cell of the product: `firstRow` walks row c/w of `a` while `secondColumn` walks
     * column c%w of `b`, adding each product into `r[c]`, which starts at 0.
     */
    method AccumulateCell(a: array<u32>, b: array<u32>, r: array<u32>, c: nat)
      requires Valid() && a.Length == elements && b.Length == elements && r.Length == elements
      requires c < elements && r != a && r != b && r[c] == 0
      modifies r
      ensures r[c] == Product(a[..], b[..], width)[c]
      ensures forall k :: 0 <= k < r.Length && k != c ==> r[k] == old(r[k])
    {
      OffsetSplit(width, c);
      var row, col := c / width, c % width;
      ghost var u, v := Row(a[..], width, row), Column(b[..], width, col);
      var firstRow: nat := row * width;
      var secondColumn: nat := col;
      ghost var j := 0;
      while secondColumn < elements
        invariant 0 <= j <= width && row < width && col < width
        invariant firstRow == row * width + j && secondColumn == j * width + col
        invariant r[c] == Dot(u, v, j)
        invariant forall k :: 0 <= k < r.Length && k != c ==> r[k] == old(r[k])
        decreases elements - secondColumn
      {
        MulWalkStep(a[..], b[..], u, v, width, row, col, j, firstRow, secondColumn);
        var x := a[firstRow];
        var y := b[secondColumn];
        r[c] := Add(r[c], Mul(x, y));
        firstRow := firstRow + 1;
        secondColumn := secondColumn + width;
        j := j + 1;
      }
      MulWalkDone(width, col, j);
      ProductCell(a[..], b[..], width, c);
    }

    /**
     * `m` to the power `exponent` by repeated multiplication on the right, starting from a
     * copy of `m`; the identity for exponent 0.
     */
    method MatrixPow(m: array<u32>, exponent: u32) returns (r: array<u32>)
      requires Valid() && m.Length == elements
      requires exponent <= 0x8000_0000
      ensures fresh(r) && r[..] == Power(m[..], width, exponent)
    {
      r := Cloned(m);
      if exponent == 0 {
        r := IdentityMatrix();
      } else {
        ProductIdentityLeft(m[..], width);
        var c := 0;
        while c < exponent - 1 && exponent != 0
          invariant 0 <= c <= exponent - 1
          invariant fresh(r) && r.Length == elements
          invariant r[..] == Power(m[..], width, c + 1)
        {
          r := MatrixMul(r, m);
          c := c + 1;
        }
      }
    }

    // -------------------------------------------------------------------------
    // Reductions
    // -------------------------------------------------------------------------

    method GetSum(m: array<u32>) returns (r: u32)
      requires Valid() && m.Length == elements
      ensures r == Sum(m[..])
      ensures r == Wrap(ExactSum(m[..]))
    {
      r := 0;
      var c := 0;
      while c < elements
        invariant 0 <= c <= elements
        invariant r == Sum(m[..c])
      {
        assert m[..c + 1][..c] == m[..c];
        r := Add(r, m[c]);
        c := c + 1;
      }
      assert m[..] == m[..elements];
      SumWrapsExact(m[..]);
    }

    method GetTrace(m: array<u32>) returns (r: u32)
      requires Valid() && m.Length == elements
      ensures r == Trace(m[..], width)
    {
      r := 0;
      var c := 0;
      while c < width
        invariant 0 <= c <= width
        invariant r == Sum(Diagonal(m[..], width)[..c])
      {
        OffsetInBounds(width, c, c);
        ghost var d := Diagonal(m[..], width);
        assert d[..c + 1][..c] == d[..c];
        r := Add(r, m[c * width + c]);
        c := c + 1;
      }
      assert Diagonal(m[..], width)[..width] == Diagonal(m[..], width);
    }

    /** Linear scan from the first element, replacing the candidate on a strictly smaller one. */
    method GetMinimum(m: array<u32>) returns (r: u32)
      requires Valid() && m.Length == elements
      ensures exists k :: 0 <= k < m.Length && r == m[k]
      ensures forall k :: 0 <= k < m.Length ==> r <= m[k]
    {
      r := m[0];
      var c := 0;
      while c < elements
        invariant 0 <= c <= elements
        invariant exists k :: 0 <= k < m.Length && r == m[k]
        invariant forall k :: 0 <= k < c ==> r <= m[k]
      {
        if m[c] < r {
          r := m[c];
        }
        c := c + 1;
      }
    }

    /** Linear scan from the first element, replacing the candidate on a strictly larger one. */
    method GetMaximum(m: array<u32>) returns (r: u32)
      requires Valid() && m.Length == elements
      ensures exists k :: 0 <= k < m.Length && r == m[k]
      ensures forall k :: 0 <= k < m.Length ==> m[k] <= r
    {
      r := m[0];
      var c := 0;
      while c < elements
        invariant 0 <= c <= elements
        invariant exists k :: 0 <= k < m.Length && r == m[k]
        invariant forall k :: 0 <= k < c ==> m[k] <= r
      {
        if m[c] > r {
          r := m[c];
        }
        c := c + 1;
      }
    }

    /** The number of elements equal to `value`; never more than the element count. */
    method GetFrequency(m: array<u32>, value: u32) returns (r: u32)
      requires Valid() && m.Length == elements
      ensures r == Count(m[..], value)
      ensures r == |set k | 0 <= k < m.Length && m[k] == value|
      ensures r <= elements
    {
      var count: nat := 0;
      var c := 0;
      while c < elements
        invariant 0 <= c <= elements
        invariant count == Count(m[..c], value)
      {
        assert m[..c + 1][..c] == m[..c];
        if m[c] == value {
          count := count + 1;
        }
        c := c + 1;
      }
      assert m[..] == m[..elements];
      CountIsIndexCount(m[..], value);
      assert (set k | 0 <= k < m.Length && m[k] == value) == (set k | 0 <= k < |m[..]| && m[..][k] == value);
      r := count;
    }
  }

  // ---------------------------------------------------------------------------
  // Loop invariants of the methods above and their step lemmas
  // ---------------------------------------------------------------------------

  /** The row-major offset of cell (row, col) in an order-w buffer. */
  function Offset(w: nat, row: nat, col: nat): (k: nat)
    requires row < w && col < w
    ensures k < w * w
  {
    OffsetInBounds(w, row, col);
    row * w + col
  }

  /** Distinct cells have distinct offsets. */
  lemma OffsetInjective(w: nat, row: nat, col: nat, row': nat, col': nat)
    requires row < w && col < w && row' < w && col' < w
    ensures Offset(w, row, col) == Offset(w, row', col') ==> row == row' && col == col'
  {
    OffsetDecode(w, row, col);
    OffsetDecode(w, row', col');
  }

  /** The diagonal cells of rows 0..i-1 hold 1; every other cell still holds 0. */
  ghost predicate DiagonalSetUpTo(r: Mat, w: nat, i: nat) {
    |r| == w * w &&
    forall row, col :: 0 <= row < w && 0 <= col < w ==>
      r[Offset(w, row, col)] == if row == col && row < i then 1 else 0
  }

  lemma DiagonalSetStart(w: nat)
    ensures DiagonalSetUpTo(Zero(w * w), w, 0)
  {
  }

  lemma DiagonalSetStep(r: Mat, w: nat, i: nat)
    requires DiagonalSetUpTo(r, w, i) && i < w
    ensures i * w + i < w * w && DiagonalSetUpTo(r[i * w + i := 1], w, i + 1)
  {
    var s := r[Offset(w, i, i) := 1];
    forall row, col | 0 <= row < w && 0 <= col < w
      ensures s[Offset(w, row, col)] == if row == col && row < i + 1 then 1 else 0
    {
      OffsetInjective(w, row, col, i, i);
    }
  }

  lemma DiagonalSetDone(r: Mat, w: nat)
    requires DiagonalSetUpTo(r, w, w)
    ensures r == Identity(w)
  {
    forall k | 0 <= k < w * w
      ensures r[k] == Identity(w)[k]
    {
      OffsetSplit(w, k);
      var row, col := k / w, k % w;
      assert r[Offset(w, row, col)] == if row == col then 1 else 0;
    }
  }

  /**
   * Every cell (row, col) of `r` with col < y, and every cell (row, y) with row < x, holds
   * element (col, row) of `m`: the cells the transposing loops of Transposed have written.
   */
  ghost predicate TransposedUpTo(r: Mat, m: Mat, w: nat, y: nat, x: nat) {
    |r| == w * w && |m| == w * w &&
    forall row, col :: 0 <= row < w && 0 <= col < w && (col < y || (col == y && row < x)) ==>
      r[Offset(w, row, col)] == m[Offset(w, col, row)]
  }

  lemma TransposedStep(r: Mat, m: Mat, w: nat, y: nat, x: nat)
    requires TransposedUpTo(r, m, w, y, x) && y < w && x < w
    ensures x * w + y < w * w && y * w + x < w * w
    ensures TransposedUpTo(r[x * w + y := m[y * w + x]], m, w, y, x + 1)
  {
    var d := Offset(w, x, y);
    var s := r[d := m[Offset(w, y, x)]];
    forall row, col | 0 <= row < w && 0 <= col < w && (col < y || (col == y && row < x + 1))
      ensures s[Offset(w, row, col)] == m[Offset(w, col, row)]
    {
      OffsetInjective(w, row, col, x, y);
    }
  }

  lemma TransposedDone(r: Mat, m: Mat, w: nat)
    requires TransposedUpTo(r, m, w, w, 0)
    ensures r == Transpose(m, w)
  {
    forall k | 0 <= k < w * w
      ensures r[k] == Transpose(m, w)[k]
    {
      OffsetSplit(w, k);
      var row, col := k / w, k % w;
      assert r[Offset(w, row, col)] == m[Offset(w, col, row)];
    }
  }

  /**
   * One step of the walk in MatrixMul: `first` is element j of row `row` of `a`, `second`
   * element j of column `col` of `b`; both are inside the buffers, and the step adds their
   * product to the dot-product prefix.
   */
  lemma MulWalkStep(a: Mat, b: Mat, u: seq<u32>, v: seq<u32>, w: nat, row: nat, col: nat, j: nat,
                    first: nat, second: nat)
    requires IsOrder(a, w) && IsOrder(b, w) && row < w && col < w
    requires u == Row(a, w, row) && v == Column(b, w, col)
    requires first == row * w + j && second == j * w + col && second < w * w
    ensures j < w && first < w * w
    ensures second + w == (j + 1) * w + col
    ensures Dot(u, v, j + 1) == Add(Dot(u, v, j), Mul(a[first], b[second]))
  {
    ColumnWalk(w, j, col);
    RowElem(a, w, row, j);
    ColumnElem(b, w, j, col);
  }

  /** The walk down a column of MatrixMul ends after exactly w steps. */
  lemma MulWalkDone(w: nat, col: nat, j: nat)
    requires col < w && j <= w && j * w + col >= w * w
    ensures j == w
  {
    ColumnWalk(w, j, col);
  }
}
