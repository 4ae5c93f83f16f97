/**
 * The parts of JavaScript number semantics that the fingerprint hash relies on,
 * for numbers that hold integers. JavaScript's bitwise operators first convert
 * their operands with ToInt32 / ToUint32 (reduction modulo 2^32), operate on the
 * 32 bits, and read the result back as a signed 32-bit integer. Bitwise
 * operations are written over `nat` bit by bit.
 */
module JsNumber {
  const Two32: int := 0x1_0000_0000
  const Two31: int := 0x8000_0000

  /** ToUint32: the representative of `x` modulo 2^32 in [0, 2^32). */
  function ToUint32(x: int): (r: int)
    ensures 0 <= r < Two32
    ensures (x - r) % Two32 == 0
  {
    x % Two32
  }

  /** ToInt32: the representative of `x` modulo 2^32 in [-2^31, 2^31). */
  function ToInt32(x: int): (r: int)
    ensures -Two31 <= r < Two31
    ensures ToUint32(r) == ToUint32(x)
  {
    var u := ToUint32(x);
    if u >= Two31 then u - Two32 else u
  }

  function Pow2(k: nat): (r: nat)
    ensures 0 < r
  {
    if k == 0 then 1 else 2 * Pow2(k - 1)
  }

  /** Bitwise exclusive or of two non-negative integers. */
  function XorBits(a: nat, b: nat): nat
    decreases a + b
  {
    if a == 0 && b == 0 then 0
    else 2 * XorBits(a / 2, b / 2) + (if a % 2 == b % 2 then 0 else 1)
  }

  /** Bitwise and of two non-negative integers. */
  function AndBits(a: nat, b: nat): nat
    decreases a + b
  {
    if a == 0 || b == 0 then 0
    else 2 * AndBits(a / 2, b / 2) + (if a % 2 == 1 && b % 2 == 1 then 1 else 0)
  }

  /** `x << k` for 0 <= k < 32. */
  function ShiftLeft(x: int, k: nat): int
    requires k < 32
  {
    ToInt32(ToInt32(x) * Pow2(k))
  }

  /** `x ^ y`. */
  function BitXor(x: int, y: int): int
  {
    ToInt32(XorBits(ToUint32(x), ToUint32(y)))
  }

  /** `x & y`. */
  function BitAnd(x: int, y: int): int
  {
    ToInt32(AndBits(ToUint32(x), ToUint32(y)))
  }

  lemma Pow2Of31()
    ensures Pow2(31) == Two31
  {
    assert Pow2(8) == 0x100;
    assert Pow2(16) == 0x1_0000;
    assert Pow2(24) == 0x100_0000;
  }

  lemma Pow2Of32()
    ensures Pow2(32) == Two32
  {
    Pow2Of31();
  }

  /** Two integers that differ by a multiple of 2^32 have the same ToUint32. */
  lemma CongruentUint32(x: int, y: int, t: int)
    requires x == y + Two32 * t
    ensures ToUint32(x) == ToUint32(y)
  {
    DivModUnique(x, Two32, y / Two32 + t, y % Two32);
  }

  /** Integers with the same ToUint32 differ by a multiple of 2^32. */
  lemma SameUint32(x: int, y: int)
    requires ToUint32(x) == ToUint32(y)
    ensures x == y + Two32 * (x / Two32 - y / Two32)
  {
  }

  /** Adding the same amount keeps two values congruent modulo 2^32. */
  lemma AddCongruent(a: int, b: int, d: int)
    requires ToUint32(a) == ToUint32(b)
    ensures ToUint32(a + d) == ToUint32(b + d)
  {
    SameUint32(a, b);
    CongruentUint32(a + d, b + d, a / Two32 - b / Two32);
  }

  lemma ScaleDistributes(x: int, t: int, p: int)
    ensures (x + Two32 * t) * p == x * p + Two32 * (t * p)
  {
  }

  /** Multiplying by the same factor keeps two values congruent modulo 2^32. */
  lemma MulCongruent(a: int, b: int, p: int)
    requires ToUint32(a) == ToUint32(b)
    ensures ToUint32(a * p) == ToUint32(b * p)
  {
    SameUint32(a, b);
    var t := a / Two32 - b / Two32;
    ScaleDistributes(b, t, p);
    CongruentUint32(a * p, b * p, t * p);
  }

  /** A bitwise xor of two values below 2^k stays below 2^k. */
  lemma {:induction false} XorBitsBelow(a: nat, b: nat, k: nat)
    requires a < Pow2(k) && b < Pow2(k)
    ensures XorBits(a, b) < Pow2(k)
    decreases k
  {
    if a != 0 || b != 0 {
      assert k > 0;
      XorBitsBelow(a / 2, b / 2, k - 1);
    }
  }

  lemma MulAtLeast(d: int, k: int)
    requires d > 0 && k >= 1
    ensures d * k >= d
  {
    var n := k - 1;
    assert d * k == d * n + d;
    assert d * n >= 0;
  }

  /** Quotient and remainder are determined by `x == d * q + r` with 0 <= r < d. */
  lemma DivModUnique(x: int, d: int, q: int, r: int)
    requires d > 0 && 0 <= r < d && x == d * q + r
    ensures x / d == q && x % d == r
  {
    var q', r' := x / d, x % d;
    assert x == d * q' + r';
    assert d * (q - q') == r' - r;
    if q != q' {
      if q > q' { MulAtLeast(d, q - q'); } else { MulAtLeast(d, q' - q); }
      assert false;
    }
  }

  lemma ModOfDouble(x: nat, p: nat)
    requires p > 0
    ensures x % (2 * p) == 2 * ((x / 2) % p) + x % 2
  {
    var q, r := x / 2, x % 2;
    var t, s := q / p, q % p;
    assert q == p * t + s;
    assert x == (2 * p) * t + (2 * s + r);
    DivModUnique(x, 2 * p, t, 2 * s + r);
  }

  /** Masking with 2^k - 1 keeps the low k bits: `x & (2^k - 1) == x mod 2^k`. */
  lemma {:induction false} AndBitsLowMask(x: nat, k: nat)
    ensures AndBits(x, Pow2(k) - 1) == x % Pow2(k)
    decreases k
  {
    if k > 0 && x != 0 {
      var p := Pow2(k - 1);
      var m := Pow2(k) - 1;
      assert Pow2(k) == 2 * p;
      assert m / 2 == p - 1 && m % 2 == 1;
      assert AndBits(x, m) == 2 * AndBits(x / 2, p - 1) + x % 2;
      AndBitsLowMask(x / 2, k - 1);
      ModOfDouble(x, p);
      assert x % Pow2(k) == 2 * ((x / 2) % p) + x % 2;
    } else if k == 0 {
      assert AndBits(x, 0) == 0 && x % 1 == 0;
    } else {
      assert AndBits(0, Pow2(k) - 1) == 0;
      DivModUnique(0, Pow2(k), 0, 0);
    }
  }

  /** `x << k` is congruent to x * 2^k modulo 2^32. */
  lemma ShiftLeftWraps(x: int, k: nat)
    requires k < 32
    ensures ToUint32(ShiftLeft(x, k)) == ToUint32(x * Pow2(k))
  {
    MulCongruent(ToInt32(x), x, Pow2(k));
  }
}
