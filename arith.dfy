/** Natural-number facts the RSA model rests on: powers, bit lengths and 32-bit subtraction. */
module Arith {

  /** b raised to the k-th power, the reference definition of exponentiation. */
  function Pow(b: nat, k: nat): (r: nat)
  {
    if k == 0 then 1 else b * Pow(b, k - 1)
  }

  lemma {:induction false} PowPositive(b: nat, k: nat)
    requires b > 0
    ensures Pow(b, k) > 0
  {
    if k > 0 {
      PowPositive(b, k - 1);
    }
  }

  lemma {:induction false} PowAdd(b: nat, i: nat, j: nat)
    ensures Pow(b, i + j) == Pow(b, i) * Pow(b, j)
  {
    if j > 0 {
      PowAdd(b, i, j - 1);
      calc {
        Pow(b, i + j);
        b * Pow(b, i + j - 1);
        b * (Pow(b, i) * Pow(b, j - 1));
        Pow(b, i) * (b * Pow(b, j - 1));
        Pow(b, i) * Pow(b, j);
      }
    }
  }

  lemma {:induction false} PowMonotone(b: nat, i: nat, j: nat)
    requires b > 0 && i <= j
    ensures Pow(b, i) <= Pow(b, j)
  {
    if i < j {
      PowMonotone(b, i, j - 1);
      PowPositive(b, j - 1);
      assert Pow(b, j) == b * Pow(b, j - 1) >= Pow(b, j - 1);
    }
  }

  /** A power of 256 is a power of 2 with eight times the exponent: a byte is eight bits. */
  lemma {:induction false} Pow256(k: nat)
    ensures Pow(256, k) == Pow(2, 8 * k)
  {
    if k > 0 {
      Pow256(k - 1);
      assert Pow(2, 8) == 256;
      PowAdd(2, 8 * (k - 1), 8);
      assert 8 * k == 8 * (k - 1) + 8;
    }
  }

  /** The number of significant bits of x (BigInt::bits); zero has none. */
  function Bits(x: nat): (r: nat)
    ensures x < Pow(2, r)
    ensures x > 0 ==> r > 0 && Pow(2, r - 1) <= x
  {
    if x == 0 then 0 else 1 + Bits(x / 2)
  }

  /** x fits in k bits exactly when it is below 2^k. */
  lemma {:induction false} BitsBound(x: nat, k: nat)
    ensures Bits(x) <= k <==> x < Pow(2, k)
  {
    if x > 0 && k > 0 {
      BitsBound(x / 2, k - 1);
    } else if x > 0 {
      assert Pow(2, 0) == 1;
    } else {
      PowPositive(2, k);
    }
  }

  /** A value at or below another has no more significant bits. */
  lemma BitsMonotone(x: nat, y: nat)
    requires x <= y
    ensures Bits(x) <= Bits(y)
  {
    BitsBound(y, Bits(y));
    BitsBound(x, Bits(y));
  }

  /** A positive value is at least 2^(Bits(x) - 1): its top bit is set. */
  lemma TopBit(x: nat)
    requires x > 0
    ensures Bits(x) > 0 && Pow(2, Bits(x) - 1) <= x
  {
    BitsBound(x, Bits(x) - 1);
  }

  /** Subtraction on u32bit: the difference wraps modulo 2^32 (Dafny's % never goes negative). */
  function U32Sub(a: nat, b: nat): (r: nat)
    ensures r < 0x1_0000_0000
    ensures b <= a < 0x1_0000_0000 + b ==> r == a - b
    ensures a < b <= a + 0x1_0000_0000 ==> r == 0x1_0000_0000 + a - b
  {
    (a - b) % 0x1_0000_0000
  }

  /** Reducing both factors first does not change a product's residue. */
  lemma MulMod(a: nat, b: nat, n: nat)
    requires n > 0
    ensures (a % n) * (b % n) % n == a * b % n
  {
    MulModParts(a, b, n, a / n, a % n, b / n, b % n);
  }

  lemma MulModParts(a: nat, b: nat, n: nat, qa: nat, ra: nat, qb: nat, rb: nat)
    requires n > 0 && a == qa * n + ra && b == qb * n + rb
    ensures ra * rb % n == a * b % n
  {
    var k := qa * qb * n + qa * rb + ra * qb;
    Expand(a, b, qa, ra, qb, rb, n);
    ModAddMultiple(ra * rb, k, n);
  }

  lemma Expand(a: int, b: int, qa: int, ra: int, qb: int, rb: int, n: int)
    requires a == qa * n + ra && b == qb * n + rb
    ensures a * b == (qa * qb * n + qa * rb + ra * qb) * n + ra * rb
  {
  }

  lemma ModAddMultiple(r: nat, k: int, n: nat)
    requires n > 0 && k * n + r >= 0
    ensures (k * n + r) % n == r % n
  {
    assert k * n + r == (k + r / n) * n + r % n by {
      assert (k + r / n) * n == k * n + (r / n) * n;
    }
    ModUnique(k * n + r, n, k + r / n, r % n);
  }

  /** A remainder in [0, n) that leaves a multiple of n is the remainder. */
  lemma ModUnique(a: nat, n: nat, q: int, r: int)
    requires n > 0 && 0 <= r < n && a == q * n + r
    ensures a % n == r
  {
    var d := q - a / n;
    assert d * n == a % n - r by {
      assert d * n == q * n - (a / n) * n;
    }
  }
}
