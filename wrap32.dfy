/** Unsigned 32-bit integers with the wraparound arithmetic of C's `uint32_t`. */
module Wrap32 {

  /** 2^32: every `uint32_t` operation is exact arithmetic reduced modulo this. */
  const Modulus: int := 0x1_0000_0000

  type u32 = x: int | 0 <= x < 0x1_0000_0000

  /** The `uint32_t` an exact integer result is stored as. */
  function Wrap(x: int): u32 {
    x % Modulus
  }

  /** `a + b` on `uint32_t`. */
  function Add(a: u32, b: u32): u32 {
    Wrap(a + b)
  }

  /** `a * b` on `uint32_t`. */
  function Mul(a: u32, b: u32): u32 {
    Wrap(a * b)
  }

  /** Adding a multiple of 2^32 does not change the stored value. */
  lemma WrapShift(x: int, q: int)
    ensures Wrap(x + q * Modulus) == Wrap(x)
  {
    var r := x % Modulus;
    var d := x / Modulus;
    assert x == d * Modulus + r;
    assert x + q * Modulus == (d + q) * Modulus + r;
  }

  /** Reducing an operand of a sum early does not change the reduced sum. */
  lemma WrapAddLeft(x: int, y: int)
    ensures Wrap(Wrap(x) + y) == Wrap(x + y)
  {
    var d := x / Modulus;
    assert x == d * Modulus + Wrap(x);
    WrapShift(Wrap(x) + y, d);
    assert Wrap(x) + y + d * Modulus == x + y;
  }

  lemma WrapAddBoth(x: int, y: int)
    ensures Wrap(Wrap(x) + Wrap(y)) == Wrap(x + y)
  {
    WrapAddLeft(x, Wrap(y));
    WrapAddLeft(y, x);
  }

  /** Reducing a factor of a product early does not change the reduced product. */
  lemma WrapMulLeft(x: int, y: int)
    ensures Wrap(Wrap(x) * y) == Wrap(x * y)
  {
    var d := x / Modulus;
    assert x == d * Modulus + Wrap(x);
    assert x * y == Wrap(x) * y + (d * y) * Modulus;
    WrapShift(Wrap(x) * y, d * y);
  }

  /** One more element, plus k, adds k once more to a sum that already holds n copies of k. */
  lemma WrapAddScalarStep(s: int, x: int, k: int, n: int)
    ensures Wrap(Wrap(s + k * n) + Wrap(x + k)) == Wrap(Wrap(s + x) + k * (n + 1))
  {
    WrapAddBoth(s + k * n, x + k);
    WrapAddLeft(s + x, k * (n + 1));
    assert s + k * n + (x + k) == s + x + k * (n + 1);
  }

  /** Reduced sums can be regrouped: (p + q) + (r + s) == (p + r) + (q + s) modulo 2^32. */
  lemma WrapInterchange(p: int, q: int, r: int, s: int)
    ensures Wrap(Wrap(p + q) + Wrap(r + s)) == Wrap(Wrap(p + r) + Wrap(q + s))
  {
    WrapAddBoth(p + q, r + s);
    WrapAddBoth(p + r, q + s);
    assert p + q + (r + s) == p + r + (q + s);
  }

  /** Wraparound addition can be regrouped: (a + b) + (c + d) == (a + c) + (b + d). */
  lemma AddInterchange(a: u32, b: u32, c: u32, d: u32)
    ensures Add(Add(a, b), Add(c, d)) == Add(Add(a, c), Add(b, d))
  {
    WrapInterchange(a, b, c, d);
  }

  /** Wraparound multiplication distributes over wraparound addition. */
  lemma MulDistributes(s: u32, x: u32, k: u32)
    ensures Add(Mul(s, k), Mul(x, k)) == Mul(Add(s, x), k)
  {
    var sk: int, xk: int, total: int := s * k, x * k, (s + x) * k;
    assert sk + xk == total;
    WrapAddBoth(sk, xk);
    WrapMulLeft(s + x, k);
  }

  /** One more copy of x adds x to a product. */
  lemma MulStep(x: int, p: int)
    ensures x * (p + 1) == x * p + x
  {
  }

  /** 0 is the unit of addition; 1 is the unit of multiplication and 0 absorbs it. */
  lemma UnitLaws(a: u32)
    ensures Add(a, 0) == a && Add(0, a) == a
    ensures Mul(1, a) == a && Mul(a, 1) == a && Mul(0, a) == 0 && Mul(a, 0) == 0
  {
  }
}
