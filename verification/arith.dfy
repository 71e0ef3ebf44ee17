/** Powers of two and the division facts the bit and byte codecs rely on. */
module Arith {

  /** 2^n. */
  function Pow2(n: nat): (r: nat)
    ensures r >= 1
    ensures n >= 1 ==> r >= 2
  {
    if n == 0 then 1 else 2 * Pow2(n - 1)
  }

  /** 2^(a+b) = 2^a * 2^b. */
  lemma {:induction false} Pow2Add(a: nat, b: nat)
    ensures Pow2(a + b) == Pow2(a) * Pow2(b)
  {
    if a > 0 {
      Pow2Add(a - 1, b);
      assert Pow2(a + b) == 2 * Pow2(a - 1 + b);
      MulDoubleLeft(Pow2(a - 1), Pow2(b));
    }
  }

  /** The byte range. */
  lemma Pow2Byte()
    ensures Pow2(8) == 256
  {
    assert Pow2(2) == 4;
    assert Pow2(4) == 16;
    assert Pow2(6) == 64;
  }

  /** 256^n: the number of values n bytes can hold. */
  function Pow256(n: nat): (r: nat)
    ensures r >= 1
  {
    if n == 0 then 1 else 256 * Pow256(n - 1)
  }

  /** The 16-bit and 64-bit ranges. */
  lemma Pow256Values()
    ensures Pow256(2) == 0x1_0000
    ensures Pow256(8) == 0x1_0000_0000_0000_0000
  {
  }

  /** Powers of two grow with the exponent. */
  lemma Pow2Mono(a: nat, b: nat)
    requires a <= b
    ensures Pow2(a) <= Pow2(b)
  {
    Pow2Add(a, b - a);
    MulAtLeast(Pow2(a), Pow2(b - a));
  }

  /** Doubling the left factor doubles the product. */
  lemma MulDoubleLeft(p: nat, q: nat)
    ensures (2 * p) * q == 2 * (p * q)
  {
  }

  /** Doubling one factor doubles the product. */
  lemma MulDouble(f: nat, p: nat)
    ensures f * (2 * p) == 2 * (f * p)
  {
  }

  /** A positive multiple of d is at least d. */
  lemma {:induction false} MulAtLeast(d: nat, k: nat)
    ensures k >= 1 ==> d * k >= d
  {
    if k > 1 {
      MulAtLeast(d, k - 1);
      assert d * k == d * (k - 1) + d;
    }
  }

  /** Multiplying a strict inequality of integers by d leaves a gap of at least d. */
  lemma MulGap(d: nat, a: int, b: int)
    ensures a < b ==> d * a + d <= d * b
  {
    if a < b {
      MulAtLeast(d, b - a);
      assert d * (b - a) == d * b - d * a;
    }
  }

  /** Euclidean division is unique: a quotient/remainder pair in range is the one `/` and `%` give. */
  lemma DivUnique(x: nat, d: nat, q: nat, r: nat)
    requires d > 0
    requires x == d * q + r && r < d
    ensures x / d == q && x % d == r
  {
    var q' := x / d;
    var r' := x % d;
    assert x == d * q' + r';
    MulGap(d, q', q);
    MulGap(d, q, q');
  }

  /** Reducing one addend modulo m does not change the sum modulo m. */
  lemma ModAdd(x: nat, y: nat, m: nat)
    requires m > 0
    ensures (x + y % m) % m == (x + y) % m
  {
    var q := y / m;
    var r := y % m;
    var q2 := (x + r) / m;
    var r2 := (x + r) % m;
    assert x + y == m * (q + q2) + r2 by {
      assert y == m * q + r;
      assert x + r == m * q2 + r2;
      assert m * (q + q2) == m * q + m * q2;
    }
    DivUnique(x + y, m, q + q2, r2);
  }

  /** A remainder below a*b has a quotient by a below b. */
  lemma QuotientBelow(r: nat, a: nat, b: nat)
    requires a > 0 && r < a * b
    ensures r / a < b
  {
    MulGap(a, b - 1, r / a);
    assert a * (b - 1) + a == a * b;
  }

  /** Dividing by a and then by b is dividing by a*b. */
  lemma DivDiv(x: nat, a: nat, b: nat)
    requires a > 0 && b > 0
    ensures x / a / b == x / (a * b)
  {
    var ab := a * b;
    var q := x / ab;
    var r := x % ab;
    QuotientBelow(r, a, b);
    var r1 := r / a;
    var r0 := r % a;
    Regroup(x, a, b, q, r1, r0);
    DivUnique(x, a, b * q + r1, r0);
    DivUnique(x / a, b, q, r1);
  }

  lemma Regroup(x: nat, a: nat, b: nat, q: nat, r1: nat, r0: nat)
    requires x == (a * b) * q + (a * r1 + r0)
    ensures x == a * (b * q + r1) + r0
  {
    assert (a * b) * q == a * (b * q);
  }
}
