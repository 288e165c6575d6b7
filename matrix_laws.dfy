/**
 * Properties of the reference definitions: element formulas of the generators and
 * transforms, involutions, the identity as a unit of the product, the cases of the power,
 * and the laws of the reductions under wraparound arithmetic.
 */
module MatrixLaws {
  import opened Wrap32
  import opened MatrixSpec

  // ---------------------------------------------------------------------------
  // Generators
  // ---------------------------------------------------------------------------

  /** The identity has 1 at (i, i) and 0 at every other (row, col). */
  lemma IdentityAt(w: nat, row: nat, col: nat)
    requires row < w && col < w
    ensures row * w + col < |Identity(w)|
    ensures Identity(w)[row * w + col] == if row == col then 1 else 0
  {
    OffsetInBounds(w, row, col);
    OffsetDecode(w, row, col);
  }

  /** Draw i of the stream is the output of the state after i+1 generator steps, below 2^15. */
  lemma {:induction false} RandomStreamAt(s: u32, n: nat)
    ensures |RandomStream(s, n)| == n
    ensures forall i :: 0 <= i < n ==>
      RandomStream(s, n)[i] == LcgOutput(SeedAfter(s, i + 1)) && RandomStream(s, n)[i] < 0x8000
  {
    if n > 0 {
      RandomStreamAt(s, n - 1);
    }
  }

  /** A non-empty sequence matrix starts at `start`. */
  lemma SequenceStart(start: u32, step: u32, n: nat)
    requires n > 0
    ensures Sequence(start, step, n)[0] == start
  {
    assert start + 0 * step == start;
  }

  /** Each element of a sequence matrix is the previous one plus `step`, with wraparound. */
  lemma SequenceStep(start: u32, step: u32, n: nat, i: nat)
    requires i + 1 < n
    ensures Sequence(start, step, n)[i + 1] == Add(Sequence(start, step, n)[i], step)
  {
    WrapAddLeft(start + i * step, step);
    assert start + i * step + step == start + (i + 1) * step;
  }

  // ---------------------------------------------------------------------------
  // Structural transforms
  // ---------------------------------------------------------------------------

  /** Element k of the reversal is element n-1-k of the input. */
  lemma {:induction false} ReverseAt(m: Mat)
    ensures |Reverse(m)| == |m|
    ensures forall k :: 0 <= k < |m| ==> Reverse(m)[k] == m[|m| - 1 - k]
  {
    if |m| > 0 {
      ReverseAt(m[..|m| - 1]);
    }
  }

  lemma ReverseInvolution(m: Mat)
    ensures Reverse(Reverse(m)) == m
  {
    ReverseAt(m);
    ReverseAt(Reverse(m));
  }

  /** Element (col, row) of the transpose is element (row, col) of the input. */
  lemma TransposeAt(m: Mat, w: nat, row: nat, col: nat)
    requires IsOrder(m, w) && row < w && col < w
    ensures col * w + row < w * w && row * w + col < w * w
    ensures Transpose(m, w)[col * w + row] == m[row * w + col]
  {
    OffsetInBounds(w, col, row);
    OffsetInBounds(w, row, col);
    OffsetDecode(w, col, row);
  }

  lemma TransposeInvolution(m: Mat, w: nat)
    requires IsOrder(m, w)
    ensures Transpose(Transpose(m, w), w) == m
  {
    var t := Transpose(m, w);
    forall k | 0 <= k < w * w
      ensures Transpose(t, w)[k] == m[k]
    {
      OffsetSplit(w, k);
      TransposeAt(t, w, k % w, k / w);
      TransposeAt(m, w, k / w, k % w);
    }
  }

  // ---------------------------------------------------------------------------
  // Product and power
  // ---------------------------------------------------------------------------

  /** Accumulating with wraparound at every step gives the exact dot product modulo 2^32. */
  lemma {:induction false} DotWrapsExact(u: seq<u32>, v: seq<u32>, k: nat)
    requires k <= |u| && k <= |v|
    ensures Dot(u, v, k) == Wrap(ExactDot(u, v, k))
  {
    if k > 0 {
      DotWrapsExact(u, v, k - 1);
      var x: int, y: int := u[k - 1], v[k - 1];
      var e, p := ExactDot(u, v, k - 1), x * y;
      assert ExactDot(u, v, k) == e + p;
      assert Dot(u, v, k) == Add(Wrap(e), Wrap(p));
      WrapAddBoth(e, p);
    }
  }

  /** Cell c of the product is row c/w of `a` times column c%w of `b`. */
  lemma ProductCell(a: Mat, b: Mat, w: nat, c: nat)
    requires IsOrder(a, w) && IsOrder(b, w) && c < w * w
    ensures c / w < w && c % w < w && 0 <= (c / w) * w
    ensures Product(a, b, w)[c] == Dot(Row(a, w, c / w), Column(b, w, c % w), w)
  {
    OffsetSplit(w, c);
  }

  /**
   * Element (row, col) of the product is the exact sum over k of a(row, k) * b(k, col),
   * reduced modulo 2^32 once.
   */
  lemma ProductAt(a: Mat, b: Mat, w: nat, row: nat, col: nat)
    requires IsOrder(a, w) && IsOrder(b, w) && row < w && col < w
    ensures row * w + col < w * w
    ensures Product(a, b, w)[row * w + col] == Wrap(ExactDot(Row(a, w, row), Column(b, w, col), w))
  {
    OffsetInBounds(w, row, col);
    OffsetDecode(w, row, col);
    DotWrapsExact(Row(a, w, row), Column(b, w, col), w);
  }

  /** `u` is the unit vector with its 1 at index i. */
  ghost predicate IsUnit(u: seq<u32>, i: nat) {
    i < |u| && forall j :: 0 <= j < |u| ==> u[j] == if j == i then 1 else 0
  }

  lemma {:induction false} DotUnitLeft(u: seq<u32>, v: seq<u32>, i: nat, k: nat)
    requires IsUnit(u, i) && |v| == |u| && k <= |u|
    ensures Dot(u, v, k) == if i < k then v[i] else 0
  {
    if k > 0 {
      var j := k - 1;
      DotUnitLeft(u, v, i, j);
      assert Dot(u, v, k) == Add(Dot(u, v, j), Mul(u[j], v[j]));
      UnitLaws(v[j]);
      UnitLaws(Dot(u, v, j));
      if j == i {
        assert u[j] == 1 && Dot(u, v, j) == 0;
      } else {
        assert u[j] == 0;
      }
    }
  }

  lemma {:induction false} DotUnitRight(u: seq<u32>, v: seq<u32>, i: nat, k: nat)
    requires IsUnit(v, i) && |u| == |v| && k <= |u|
    ensures Dot(u, v, k) == if i < k then u[i] else 0
  {
    if k > 0 {
      var j := k - 1;
      DotUnitRight(u, v, i, j);
      assert Dot(u, v, k) == Add(Dot(u, v, j), Mul(u[j], v[j]));
      UnitLaws(u[j]);
      UnitLaws(Dot(u, v, j));
      if j == i {
        assert v[j] == 1 && Dot(u, v, j) == 0;
      } else {
        assert v[j] == 0;
      }
    }
  }

  /** Every row of the identity is a unit vector. */
  lemma IdentityRowUnit(w: nat, i: nat)
    requires i < w
    ensures IsUnit(Row(Identity(w), w, i), i)
  {
    var r := Row(Identity(w), w, i);
    forall j | 0 <= j < w
      ensures r[j] == if j == i then 1 else 0
    {
      IdentityAt(w, i, j);
      RowElem(Identity(w), w, i, j);
    }
  }

  /** Every column of the identity is a unit vector. */
  lemma IdentityColumnUnit(w: nat, i: nat)
    requires i < w
    ensures IsUnit(Column(Identity(w), w, i), i)
  {
    var c := Column(Identity(w), w, i);
    forall j | 0 <= j < w
      ensures c[j] == if j == i then 1 else 0
    {
      IdentityAt(w, j, i);
      ColumnElem(Identity(w), w, j, i);
    }
  }

  /** The identity is a left unit of the product. */
  lemma ProductIdentityLeft(m: Mat, w: nat)
    requires IsOrder(m, w)
    ensures Product(Identity(w), m, w) == m
  {
    var p := Product(Identity(w), m, w);
    forall c | 0 <= c < w * w
      ensures p[c] == m[c]
    {
      OffsetSplit(w, c);
      var row, col := c / w, c % w;
      IdentityRowUnit(w, row);
      DotUnitLeft(Row(Identity(w), w, row), Column(m, w, col), row, w);
      ColumnElem(m, w, row, col);
    }
  }

  /** The identity is a right unit of the product. */
  lemma ProductIdentityRight(m: Mat, w: nat)
    requires IsOrder(m, w)
    ensures Product(m, Identity(w), w) == m
  {
    var p := Product(m, Identity(w), w);
    forall c | 0 <= c < w * w
      ensures p[c] == m[c]
    {
      OffsetSplit(w, c);
      var row, col := c / w, c % w;
      IdentityColumnUnit(w, col);
      DotUnitRight(Row(m, w, row), Column(Identity(w), w, col), col, w);
      RowElem(m, w, row, col);
    }
  }

  /** The zeroth power is the identity, the first is `m`, the second is `m` times `m`. */
  lemma PowerLaws(m: Mat, w: nat)
    requires IsOrder(m, w)
    ensures Power(m, w, 0) == Identity(w)
    ensures Power(m, w, 1) == m
    ensures Power(m, w, 2) == Product(m, m, w)
  {
    ProductIdentityLeft(m, w);
  }

  // ---------------------------------------------------------------------------
  // Reductions
  // ---------------------------------------------------------------------------

  /** Summing with wraparound at every step gives the exact sum modulo 2^32. */
  lemma {:induction false} SumWrapsExact(m: Mat)
    ensures Sum(m) == Wrap(ExactSum(m))
  {
    if |m| > 0 {
      SumWrapsExact(m[..|m| - 1]);
      WrapAddLeft(ExactSum(m[..|m| - 1]), m[|m| - 1]);
    }
  }

  /** Adding k to every element adds k times the element count to the sum, mod 2^32. */
  lemma {:induction false} SumAddScalar(m: Mat, k: u32)
    ensures Sum(AddScalar(m, k)) == Wrap(Sum(m) + k * |m|)
  {
    if |m| > 0 {
      var p := |m| - 1;
      var init, x := m[..p], m[p];
      assert AddScalar(m, k)[..p] == AddScalar(init, k);
      SumAddScalar(init, k);
      WrapAddScalarStep(Sum(init), x, k, p);
    }
  }

  /** Multiplying every element by k multiplies the sum by k, mod 2^32. */
  lemma {:induction false} SumMulScalar(m: Mat, k: u32)
    ensures Sum(MulScalar(m, k)) == Mul(Sum(m), k)
  {
    if |m| > 0 {
      var n := |m|;
      var init, x := m[..n - 1], m[n - 1];
      assert MulScalar(m, k)[..n - 1] == MulScalar(init, k);
      SumMulScalar(init, k);
      MulDistributes(Sum(init), x, k);
    }
  }

  /** The sum of an elementwise sum is the sum of the two sums, mod 2^32. */
  lemma {:induction false} SumAddElementwise(a: Mat, b: Mat)
    requires |a| == |b|
    ensures Sum(AddElementwise(a, b)) == Add(Sum(a), Sum(b))
  {
    if |a| > 0 {
      var n := |a|;
      assert AddElementwise(a, b)[..n - 1] == AddElementwise(a[..n - 1], b[..n - 1]);
      SumAddElementwise(a[..n - 1], b[..n - 1]);
      AddInterchange(Sum(a[..n - 1]), Sum(b[..n - 1]), a[n - 1], b[n - 1]);
    }
  }

  /** Transposing leaves the diagonal, and so the trace, unchanged. */
  lemma TraceTranspose(m: Mat, w: nat)
    requires IsOrder(m, w)
    ensures Diagonal(Transpose(m, w), w) == Diagonal(m, w)
    ensures Trace(Transpose(m, w), w) == Trace(m, w)
  {
    forall i | 0 <= i < w
      ensures Diagonal(Transpose(m, w), w)[i] == Diagonal(m, w)[i]
    {
      TransposeAt(m, w, i, i);
    }
  }

  /** The sum of n copies of v is v*n, mod 2^32. */
  lemma {:induction false} SumUniform(v: u32, n: nat)
    ensures Sum(Uniform(v, n)) == Wrap(v * n)
  {
    if n > 0 {
      var p := n - 1;
      var u := Uniform(v, n);
      assert u[..p] == Uniform(v, p);
      assert u[p] == v;
      assert Sum(u) == Add(Sum(u[..p]), u[p]);
      SumUniform(v, p);
      var vp: int, vn: int := v * p, v * n;
      MulStep(v, p);
      WrapAddLeft(vp, v);
      assert Wrap(Wrap(vp) + v) == Wrap(vn);
    }
  }

  /** The trace of the identity of order w is w, mod 2^32. */
  lemma TraceIdentity(w: nat)
    ensures Trace(Identity(w), w) == Wrap(w)
  {
    forall i | 0 <= i < w
      ensures Diagonal(Identity(w), w)[i] == 1
    {
      IdentityAt(w, i, i);
    }
    assert Diagonal(Identity(w), w) == Uniform(1, w);
    SumUniform(1, w);
  }

  /** The indices of `m` holding v. */
  ghost function IndicesOf(m: Mat, v: u32): set<int> {
    set i | 0 <= i < |m| && m[i] == v
  }

  /** The indices holding v are those of the prefix, plus the last index when it holds v. */
  lemma IndexSetSnoc(m: Mat, v: u32)
    requires |m| > 0
    ensures |IndicesOf(m, v)| == |IndicesOf(m[..|m| - 1], v)| + (if m[|m| - 1] == v then 1 else 0)
  {
    var n := |m| - 1;
    var before := IndicesOf(m[..n], v);
    var last: set<int> := if m[n] == v then {n} else {};
    assert before == set i | 0 <= i < n && m[i] == v;
    assert IndicesOf(m, v) == before + last;
    assert before !! last;
  }

  /** The count is the number of indices holding the value, so at most the element count. */
  lemma {:induction false} CountIsIndexCount(m: Mat, v: u32)
    ensures Count(m, v) == |set i | 0 <= i < |m| && m[i] == v|
    ensures Count(m, v) <= |m|
  {
    if |m| > 0 {
      CountIsIndexCount(m[..|m| - 1], v);
      IndexSetSnoc(m, v);
    }
  }

  /** A uniform matrix of v holds v at every index and no other value. */
  lemma {:induction false} CountUniform(v: u32, u: u32, n: nat)
    ensures Count(Uniform(v, n), u) == if u == v then n else 0
  {
    if n > 0 {
      assert Uniform(v, n)[..n - 1] == Uniform(v, n - 1);
      CountUniform(v, u, n - 1);
    }
  }

  // ---------------------------------------------------------------------------
  // A worked example of order 2
  // ---------------------------------------------------------------------------

  lemma ExampleSequence()
    ensures Sequence(1, 1, 4) == [1, 2, 3, 4]
  {
  }

  lemma ExampleSumAndTrace()
    ensures Sum([1, 2, 3, 4]) == 10
    ensures Trace([1, 2, 3, 4], 2) == 5
  {
    var m: Mat := [1, 2, 3, 4];
    assert m[..3] == [1, 2, 3] && m[..3][..2] == [1, 2] && m[..3][..2][..1] == [1];
    assert Sum([1]) == 1 && Sum([1, 2]) == 3 && Sum([1, 2, 3]) == 6;
    var d := Diagonal(m, 2);
    assert d[0] == 1 && d[1] == 4;
    assert d == [1, 4] && d[..1] == [1];
  }

  lemma ExampleTranspose()
    ensures Transpose([1, 2, 3, 4], 2) == [1, 3, 2, 4]
  {
  }

  /** A dot product of length 2, written out. */
  lemma DotOfTwo(u: seq<u32>, v: seq<u32>)
    requires |u| == 2 && |v| == 2
    ensures Dot(u, v, 2) == Add(Mul(u[0], v[0]), Mul(u[1], v[1]))
  {
    assert Dot(u, v, 1) == Add(0, Mul(u[0], v[0]));
    UnitLaws(Mul(u[0], v[0]));
  }

  /** Cell (row, col) of a product of order 2, written out. */
  lemma ProductOfTwoAt(a: Mat, b: Mat, row: nat, col: nat)
    requires |a| == 4 && |b| == 4 && row < 2 && col < 2
    ensures Product(a, b, 2)[2 * row + col]
         == Add(Mul(a[2 * row], b[col]), Mul(a[2 * row + 1], b[2 + col]))
  {
    var c := 2 * row + col;
    ProductCell(a, b, 2, c);
    assert c / 2 == row && c % 2 == col;
    var u, v := Row(a, 2, row), Column(b, 2, col);
    RowElem(a, 2, row, 0);
    RowElem(a, 2, row, 1);
    ColumnElem(b, 2, 0, col);
    ColumnElem(b, 2, 1, col);
    DotOfTwo(u, v);
  }

  /** The product of order 2 written out cell by cell. */
  lemma ProductOfTwo(a: Mat, b: Mat)
    requires |a| == 4 && |b| == 4
    ensures Product(a, b, 2) == [
      Add(Mul(a[0], b[0]), Mul(a[1], b[2])), Add(Mul(a[0], b[1]), Mul(a[1], b[3])),
      Add(Mul(a[2], b[0]), Mul(a[3], b[2])), Add(Mul(a[2], b[1]), Mul(a[3], b[3]))]
  {
    ProductOfTwoAt(a, b, 0, 0);
    ProductOfTwoAt(a, b, 0, 1);
    ProductOfTwoAt(a, b, 1, 0);
    ProductOfTwoAt(a, b, 1, 1);
  }

  lemma ExampleProduct(m: Mat)
    requires m == [1, 2, 3, 4]
    ensures Product(m, m, 2) == [7, 10, 15, 22]
  {
    ProductOfTwo(m, m);
    assert Add(Mul(1, 1), Mul(2, 3)) == 7 && Add(Mul(1, 2), Mul(2, 4)) == 10;
    assert Add(Mul(3, 1), Mul(4, 3)) == 15 && Add(Mul(3, 2), Mul(4, 4)) == 22;
  }

  lemma ExampleIdentity()
    ensures Power([1, 2, 3, 4], 2, 0) == [1, 0, 0, 1]
  {
  }

  lemma ExampleUniform()
    ensures Count(Uniform(5, 4), 5) == 4
    ensures Count(Uniform(5, 4), 6) == 0
  {
    CountUniform(5, 5, 4);
    CountUniform(5, 6, 4);
  }
}
