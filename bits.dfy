/** Python's integer bit operations (`&`, `|`, `<<`, `>>`) on non-negative integers,
    written out on unbounded naturals, with the lemmas that relate them to
    ordinary arithmetic.  The codec only ever applies them to non-negative values. */
module Bits {

  /** An 8-bit value: one pixel channel sample (numpy uint8) or one byte of a file. */
  type Byte = x: int | 0 <= x < 256

  function Pow2(k: nat): (r: nat)
    ensures r >= 1
  {
    if k == 0 then 1 else 2 * Pow2(k - 1)
  }

  /** Python's `a >> s`: drop the s low bits. */
  function Shr(a: nat, s: nat): (r: nat)
  {
    if s == 0 then a else Shr(a / 2, s - 1)
  }

  /** Python's `a << s`: append s zero bits. */
  function Shl(a: nat, s: nat): (r: nat)
  {
    if s == 0 then a else 2 * Shl(a, s - 1)
  }

  /** Python's `a & b`, taken bit by bit from the least significant end. */
  function And(a: nat, b: nat): (r: nat)
    ensures r <= a && r <= b
    decreases a
  {
    if a == 0 || b == 0 then 0
    else 2 * And(a / 2, b / 2) + (if a % 2 == 1 && b % 2 == 1 then 1 else 0)
  }

  /** Python's `a | b`, taken bit by bit from the least significant end. */
  function Or(a: nat, b: nat): (r: nat)
    ensures a <= r && b <= r && r <= a + b
    decreases a + b
  {
    if a == 0 then b
    else if b == 0 then a
    else 2 * Or(a / 2, b / 2) + (if a % 2 == 1 || b % 2 == 1 then 1 else 0)
  }

  lemma {:induction false} Pow2Add(a: nat, b: nat)
    ensures Pow2(a + b) == Pow2(a) * Pow2(b)
  {
    if a > 0 {
      Pow2Add(a - 1, b);
    }
  }

  lemma {:induction false} Pow2Monotone(a: nat, b: nat)
    requires a <= b
    ensures Pow2(a) <= Pow2(b)
  {
    if a < b {
      Pow2Monotone(a, b - 1);
    }
  }

  /** The powers of two the codec mentions by value. */
  lemma Pow2Values()
    ensures Pow2(1) == 2 && Pow2(2) == 4 && Pow2(3) == 8 && Pow2(4) == 16
    ensures Pow2(8) == 256 && Pow2(16) == 65536 && Pow2(24) == 16777216
    ensures Pow2(32) == 0x1_0000_0000
  {
    assert Pow2(4) == 16 by {
      assert Pow2(1) == 2;
      assert Pow2(2) == 4;
      assert Pow2(3) == 8;
    }
    assert Pow2(8) == 256 by {
      assert Pow2(5) == 32;
      assert Pow2(6) == 64;
      assert Pow2(7) == 128;
    }
    Pow2Add(8, 8);
    Pow2Add(16, 8);
    Pow2Add(16, 16);
  }

  /** Euclidean division of a natural by a positive divisor. */
  lemma DivModNat(x: nat, d: int)
    requires d > 0
    ensures x / d >= 0 && x == (x / d) * d + x % d && 0 <= x % d < d
  {
  }

  /** A positive multiple of d is at least d. */
  lemma {:induction false} MulAtLeast(d: int, k: int)
    requires d > 0 && k >= 1
    ensures d * k >= d
    decreases k
  {
    if k > 1 {
      MulAtLeast(d, k - 1);
      assert d * k == d * (k - 1) + d;
    }
  }

  /** Euclidean division is determined by its quotient and remainder. */
  lemma DivModUnique(x: int, d: int, q: int, r: int)
    requires d > 0 && 0 <= r < d && x == d * q + r
    ensures x / d == q && x % d == r
  {
    var q', r' := x / d, x % d;
    assert d * q + r == d * q' + r';
    assert d * (q - q') == r' - r;
    if q - q' >= 1 {
      MulAtLeast(d, q - q');
    } else if q' - q >= 1 {
      MulAtLeast(d, q' - q);
    }
  }

  /** Multiplication by a natural is monotone. */
  lemma MulLe(a: nat, u: int, v: int)
    requires u <= v
    ensures a * u <= a * v
  {
    assert a * v - a * u == a * (v - u);
  }

  /** A value below the divisor is its own remainder. */
  lemma ModSmall(x: int, d: int)
    requires 0 <= x < d
    ensures x % d == x && x / d == 0
  {
    DivModUnique(x, d, 0, x);
  }

  /** A positive multiple of d is at least d. */
  lemma MultipleAtLeast(x: int, d: int)
    requires d > 0 && x > 0 && x % d == 0
    ensures x >= d
  {
    if x < d {
      ModSmall(x, d);
    }
  }

  /** Taking one divisor off keeps the remainder. */
  lemma ModSub(x: int, d: int)
    requires d > 0 && x >= d
    ensures (x - d) % d == x % d
  {
    var q, r := (x - d) / d, (x - d) % d;
    MulSucc(q, d);
    DivModUnique(x, d, q + 1, r);
  }

  /** `a >> s` is division by 2^s. */
  lemma {:induction false} ShrDiv(a: nat, s: nat)
    ensures Shr(a, s) == a / Pow2(s)
  {
    if s > 0 {
      ShrDiv(a / 2, s - 1);
      DivDiv(a, 2, Pow2(s - 1));
    }
  }

  /** `a << s` is multiplication by 2^s. */
  lemma {:induction false} ShlMul(a: nat, s: nat)
    ensures Shl(a, s) == a * Pow2(s)
  {
    if s > 0 {
      ShlMul(a, s - 1);
      MulPow2Succ(a, s - 1);
    }
  }

  /** `(a + 1) * s == a * s + s`. */
  lemma MulSucc(a: int, s: int)
    ensures (a + 1) * s == a * s + s
  {
  }

  /** Index j of group i of size s lies inside n such groups. */
  lemma IndexInGroups(i: nat, j: nat, s: nat, n: nat)
    requires i < n && j < s
    ensures i * s + j < n * s
  {
    MulLe(s, i + 1, n);
    MulSucc(i, s);
  }

  /** Appending a digit below p to a number below b gives a number below b * p. */
  lemma DigitAppendBound(a: nat, d: nat, p: nat, b: nat)
    requires a < b && d < p
    ensures a * p + d < b * p
  {
    MulLe(p, a + 1, b);
    MulSucc(a, p);
  }

  /** One more factor of two, pulled out of a product. */
  lemma MulPow2Succ(c: int, k: nat)
    ensures c * Pow2(k + 1) == 2 * (c * Pow2(k))
  {
    var p := Pow2(k);
    assert Pow2(k + 1) == 2 * p;
    assert c * (2 * p) == 2 * (c * p);
  }

  /** Dividing by a then by b is dividing by a * b. */
  lemma DivDiv(x: nat, a: nat, b: nat)
    requires a >= 1 && b >= 1
    ensures x / (a * b) == (x / a) / b
  {
    var q1, r1 := x / a, x % a;
    var q2, r2 := q1 / b, q1 % b;
    var ab := a * b;
    assert x == a * q1 + r1;
    assert q1 == b * q2 + r2;
    assert a * q1 == ab * q2 + a * r2 by {
      assert a * (b * q2 + r2) == a * (b * q2) + a * r2;
    }
    assert a * r2 + r1 < ab by {
      MulLe(a, r2, b - 1);
      assert a * (b - 1) == ab - a;
    }
    DivModUnique(x, ab, q2, a * r2 + r1);
  }

  /** The remainder modulo 2p seen through the low bit and the remainder of the half modulo p. */
  lemma ModDouble(x: nat, p: nat)
    requires p >= 1
    ensures x % (2 * p) == 2 * ((x / 2) % p) + x % 2
  {
    var h := x / 2;
    assert x == 2 * h + x % 2;
    assert h == p * (h / p) + h % p;
    assert x == (2 * p) * (h / p) + (2 * (h % p) + x % 2);
    DivModUnique(x, 2 * p, h / p, 2 * (h % p) + x % 2);
  }

  /** The remainder modulo 2^k through the low bit and the half's remainder modulo 2^(k-1). */
  lemma ModPow2(x: nat, k: nat)
    requires k > 0
    ensures x % Pow2(k) == 2 * ((x / 2) % Pow2(k - 1)) + x % 2
  {
    ModDouble(x, Pow2(k - 1));
  }

  /** `x & (2^k - 1)` keeps the low k bits. */
  lemma {:induction false} AndLowMask(x: nat, k: nat)
    ensures And(x, Pow2(k) - 1) == x % Pow2(k)
  {
    if k == 0 {
      assert x % 1 == 0;
    } else if x == 0 {
      assert 0 % Pow2(k) == 0;
    } else {
      var p := Pow2(k - 1);
      var m := Pow2(k) - 1;
      assert m / 2 == p - 1 && m % 2 == 1 by {
        assert m == 2 * (p - 1) + 1;
      }
      var a, h := And(x, m), (x / 2) % p;
      assert a == 2 * And(x / 2, p - 1) + x % 2;
      assert And(x / 2, p - 1) == h by {
        AndLowMask(x / 2, k - 1);
      }
      assert x % Pow2(k) == 2 * h + x % 2 by {
        ModDouble(x, p);
      }
    }
  }

  /** `x & (2^n - 2^k)` clears the low k bits of a value below 2^n. */
  lemma {:induction false} AndHighMask(x: nat, k: nat, n: nat)
    requires k <= n && x < Pow2(n)
    ensures Pow2(k) <= Pow2(n)
    ensures And(x, Pow2(n) - Pow2(k)) == x - x % Pow2(k)
    decreases k, 1
  {
    Pow2Monotone(k, n);
    if k == 0 {
      AndLowMask(x, n);
      ModSmall(x, Pow2(n));
      assert x % 1 == 0;
    } else if x == 0 {
      assert 0 % Pow2(k) == 0;
    } else if k == n {
      ModSmall(x, Pow2(k));
      assert And(x, 0) == 0;
    } else {
      AndHighMaskStep(x, k, n);
    }
  }

  /** The same mask rounds a value below 2^n down to a multiple of 2^k. */
  lemma AndRoundDown(x: nat, k: nat, n: nat)
    requires k <= n && x < Pow2(n)
    ensures Pow2(k) <= Pow2(n)
    ensures And(x, Pow2(n) - Pow2(k)) == (x / Pow2(k)) * Pow2(k)
  {
    AndHighMask(x, k, n);
    DivModNat(x, Pow2(k));
  }

  /** The inductive step of AndHighMask: both masks share their low bit, drop it. */
  lemma {:induction false} AndHighMaskStep(x: nat, k: nat, n: nat)
    requires 0 < k < n && 0 < x < Pow2(n) && Pow2(k) <= Pow2(n)
    ensures And(x, Pow2(n) - Pow2(k)) == x - x % Pow2(k)
    decreases k, 0
  {
    var m := Pow2(n) - Pow2(k);
    var a, b, r := And(x, m), And(x / 2, m / 2), (x / 2) % Pow2(k - 1);
    assert a == 2 * b by {
      HighMaskHalf(k, n);
      AndEvenMask(x, m);
    }
    assert b == x / 2 - r by {
      HighMaskHalf(k, n);
      AndHighMask(x / 2, k - 1, n - 1);
    }
    assert x % Pow2(k) == 2 * r + x % 2 by {
      ModPow2(x, k);
    }
    HalfStep(x, a, b, x % Pow2(k), r);
  }

  /** The arithmetic that closes AndHighMaskStep, over plain integers. */
  lemma HalfStep(x: nat, a: int, b: int, m: int, r: int)
    requires a == 2 * b && b == x / 2 - r && m == 2 * r + x % 2
    ensures a == x - m
  {
  }

  /** With an even mask the low bit of the result is clear. */
  lemma AndEvenMask(x: nat, m: nat)
    requires m > 0 && m % 2 == 0
    ensures And(x, m) == 2 * And(x / 2, m / 2)
  {
  }

  /** Halving the mask 2^n - 2^k gives the mask one size down; its low bit is clear. */
  lemma HighMaskHalf(k: nat, n: nat)
    requires 0 < k < n
    ensures Pow2(k) <= Pow2(n) && Pow2(k - 1) <= Pow2(n - 1) && Pow2(k) == 2 * Pow2(k - 1)
    ensures (Pow2(n) - Pow2(k)) / 2 == Pow2(n - 1) - Pow2(k - 1)
    ensures (Pow2(n) - Pow2(k)) % 2 == 0 && Pow2(n) - Pow2(k) > 0
  {
    Pow2Monotone(k, n);
    Pow2Monotone(k - 1, n - 1);
    Pow2Monotone(k + 1, n);
  }

  /** OR-ing a value below 2^k into a multiple of 2^k is addition. */
  lemma {:induction false} OrLow(q: nat, s: nat, k: nat)
    requires s < Pow2(k)
    ensures Or(q * Pow2(k), s) == q * Pow2(k) + s
  {
    if k > 0 && q * Pow2(k) > 0 && s > 0 {
      var a := q * Pow2(k);
      assert a == 2 * (q * Pow2(k - 1));
      assert a / 2 == q * Pow2(k - 1) && a % 2 == 0;
      OrLow(q, s / 2, k - 1);
    }
  }

  /** OR commutes with a common left shift. */
  lemma {:induction false} OrScaled(a: nat, b: nat, k: nat)
    ensures Or(a * Pow2(k), b * Pow2(k)) == Or(a, b) * Pow2(k)
    decreases k, 1
  {
    if k == 0 {
    } else if a == 0 {
      assert a * Pow2(k) == 0;
    } else if b == 0 {
      assert b * Pow2(k) == 0;
    } else {
      OrScaledStep(a, b, k);
    }
  }

  /** The inductive step of OrScaled: both operands are even, drop one factor of two. */
  lemma {:induction false} OrScaledStep(a: nat, b: nat, k: nat)
    requires k > 0 && a > 0 && b > 0
    ensures Or(a * Pow2(k), b * Pow2(k)) == Or(a, b) * Pow2(k)
    decreases k, 0
  {
    var p := Pow2(k - 1);
    var x, y := a * Pow2(k), b * Pow2(k);
    MulPow2Succ(a, k - 1);
    MulPow2Succ(b, k - 1);
    assert x == 2 * (a * p) && y == 2 * (b * p);
    assert x / 2 == a * p && x % 2 == 0;
    assert y / 2 == b * p && y % 2 == 0;
    assert a * p > 0 && b * p > 0;
    assert Or(x, y) == 2 * Or(a * p, b * p);
    OrScaled(a, b, k - 1);
    MulPow2Succ(Or(a, b), k - 1);
  }

  /** OR of two values below 2^n stays below 2^n. */
  lemma {:induction false} OrBound(a: nat, b: nat, n: nat)
    requires a < Pow2(n) && b < Pow2(n)
    ensures Or(a, b) < Pow2(n)
  {
    if n > 0 && a > 0 && b > 0 {
      OrBound(a / 2, b / 2, n - 1);
    }
  }
}
