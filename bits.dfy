/**
 * Python's integer bit operations, restricted to the operands the generator
 * uses. `<<`, `>>`, `~` follow Python's definitions on unbounded integers;
 * `&`, `|` and `^` are defined bit by bit on non-negative integers (every
 * operand the generator and its configuration check hand them is >= 0).
 */
module Bits {

  /** 2 to the power k. */
  function Pow2(k: nat): (p: nat)
    ensures p >= 1
  {
    if k == 0 then 1 else 2 * Pow2(k - 1)
  }

  /** Python's `x << k` for a non-negative shift count: multiplication by 2^k. */
  function ShiftLeft(x: int, k: nat): (r: int)
    ensures x >= 0 ==> r >= 0
    ensures x < 0 ==> r < 0
  {
    MulSign(x, Pow2(k));
    x * Pow2(k)
  }

  /** Python's `x >> k` on a non-negative x: floor division by 2^k. */
  function ShiftRight(x: nat, k: nat): (r: nat)
    ensures r <= x
    ensures x < Pow2(k) ==> r == 0
  {
    FloorDiv(x, Pow2(k));
    x / Pow2(k)
  }

  /** The quotient of a non-negative x by d is at most x, and 0 when x is below d. */
  lemma FloorDiv(x: nat, d: nat)
    requires d >= 1
    ensures 0 <= x / d <= x
    ensures x < d ==> x / d == 0
  {
    if x < d {
      DivModUnique(x, d, 0, x);
    } else {
      var q, r := x / d, x % d;
      assert x == q * d + r && 0 <= r;
      if q < 0 {
        MulAtLeast(-q, d);
      } else {
        assert q * d == q * (d - 1) + q;
        MulNonNegative(q, d - 1);
      }
    }
  }

  lemma MulNonNegative(a: nat, b: nat)
    ensures a * b >= 0
  {
  }

  /** Python's `~x`, which is -x - 1 on every integer. */
  function BitNot(x: int): (r: int)
    ensures x >= 0 <==> r < 0
  {
    -x - 1
  }

  /** Python's `a & b` on non-negative integers, bit by bit from the low end. */
  function BitAnd(a: nat, b: nat): (r: nat)
    ensures r <= a && r <= b
  {
    if a == 0 || b == 0 then 0
    else 2 * BitAnd(a / 2, b / 2) + (if a % 2 == 1 && b % 2 == 1 then 1 else 0)
  }

  /** Python's `a | b` on non-negative integers. */
  function BitOr(a: nat, b: nat): (r: nat)
    ensures a <= r && b <= r && r <= a + b
  {
    if a == 0 then b
    else if b == 0 then a
    else 2 * BitOr(a / 2, b / 2) + (if a % 2 == 1 || b % 2 == 1 then 1 else 0)
  }

  /** Python's `a ^ b` (exclusive or) on non-negative integers. */
  function BitXor(a: nat, b: nat): (r: nat)
    ensures r <= a + b
    ensures r % 2 == (a + b) % 2
  {
    if a == 0 then b
    else if b == 0 then a
    else
      var h := BitXor(a / 2, b / 2);
      XorStep(a, b, h);
      2 * h + (if a % 2 != b % 2 then 1 else 0)
  }

  /** The low bit of `a ^ b` is the parity of a + b, and the higher bits add at most the halves. */
  lemma XorStep(a: nat, b: nat, h: nat)
    requires h <= a / 2 + b / 2
    ensures 2 * h + (if a % 2 != b % 2 then 1 else 0) <= a + b
    ensures (2 * h + (if a % 2 != b % 2 then 1 else 0)) % 2 == (a + b) % 2
  {
    var bit := if a % 2 != b % 2 then 1 else 0;
    DivModUnique(2 * h + bit, 2, h, bit);
    var c := a / 2 + b / 2 + (if a % 2 == 1 && b % 2 == 1 then 1 else 0);
    assert a + b == 2 * c + bit;
    DivModUnique(a + b, 2, c, bit);
  }

  lemma MulSign(x: int, p: nat)
    requires p >= 1
    ensures x >= 0 ==> x * p >= 0
    ensures x < 0 ==> x * p < 0
  {
    if x < 0 {
      assert x * p <= x * 1;
    }
  }

  /** Division with remainder has exactly one answer. */
  lemma DivModUnique(x: int, d: int, q: int, r: int)
    requires d > 0 && 0 <= r < d && x == q * d + r
    ensures x / d == q && x % d == r
  {
    var q', r' := x / d, x % d;
    assert x == q' * d + r';
    var k := q - q';
    assert k * d == q * d - q' * d;
    if k >= 1 {
      MulAtLeast(k, d);
    } else if k <= -1 {
      MulAtLeast(-k, d);
    }
  }

  lemma MulAtLeast(k: int, d: int)
    requires k >= 1 && d > 0
    ensures k * d >= d
  {
    assert k * d == (k - 1) * d + d;
    MulSign(k - 1, d);
  }

  lemma {:induction false} Pow2Add(a: nat, b: nat)
    ensures Pow2(a + b) == Pow2(a) * Pow2(b)
  {
    if a > 0 {
      Pow2Add(a - 1, b);
      assert Pow2(a + b) == 2 * Pow2(a - 1 + b);
    }
  }

  lemma {:induction false} Pow2Monotone(a: nat, b: nat)
    requires a <= b
    ensures Pow2(a) <= Pow2(b)
  {
    if a < b {
      Pow2Monotone(a, b - 1);
    }
  }

  /** `~(-1 << n)` is the mask of the n low bits, 2^n - 1. */
  lemma LowMask(n: nat)
    ensures BitNot(ShiftLeft(-1, n)) == Pow2(n) - 1
  {
  }

  /** Masking with 2^n - 1 keeps the n low bits: `x & (2^n - 1) == x % 2^n`. */
  lemma {:induction false} AndLowMask(x: nat, n: nat)
    ensures BitAnd(x, Pow2(n) - 1) == x % Pow2(n)
  {
    if x == 0 {
      DivModUnique(0, Pow2(n), 0, 0);
    } else if n == 0 {
      DivModUnique(x, 1, x, 0);
    } else {
      var m := Pow2(n - 1);
      var mask := Pow2(n) - 1;
      assert Pow2(n) == 2 * m;
      assert mask / 2 == m - 1 && mask % 2 == 1 by {
        DivModUnique(mask, 2, m - 1, 1);
      }
      var half := BitAnd(x / 2, mask / 2);
      assert half == (x / 2) % m by {
        AndLowMask(x / 2, n - 1);
      }
      assert BitAnd(x, mask) == 2 * half + x % 2 by {
        BitAndStep(x, mask);
      }
      ModDouble(x, m);
    }
  }

  /** One step of `&`: the low bits combine, the rest is the and of the halves. */
  lemma BitAndStep(a: nat, b: nat)
    requires a > 0 && b % 2 == 1
    ensures BitAnd(a, b) == 2 * BitAnd(a / 2, b / 2) + a % 2
  {
  }

  /** The remainder by 2m is twice the remainder of x / 2 by m, plus the low bit of x. */
  lemma ModDouble(x: nat, m: nat)
    requires m >= 1
    ensures x % (2 * m) == 2 * ((x / 2) % m) + x % 2
  {
    var q, r := (x / 2) / m, (x / 2) % m;
    assert x == q * (2 * m) + (2 * r + x % 2);
    DivModUnique(x, 2 * m, q, 2 * r + x % 2);
  }

  /**
   * Or-ing a value shifted left by k with a value below 2^k is addition:
   * the two operands have no bit in common.
   */
  lemma {:induction false} OrDisjoint(a: nat, k: nat, b: nat)
    requires b < Pow2(k)
    ensures BitOr(ShiftLeft(a, k), b) == a * Pow2(k) + b
  {
    if k > 0 && a > 0 && b > 0 {
      var hi := a * Pow2(k - 1);
      assert a * Pow2(k) == 2 * hi;
      DivModUnique(a * Pow2(k), 2, hi, 0);
      OrDisjoint(a, k - 1, b / 2);
    }
  }

  /** Or-ing a value with itself gives it back. */
  lemma {:induction false} OrSelf(a: nat)
    ensures BitOr(a, a) == a
  {
    if a > 0 {
      OrSelf(a / 2);
    }
  }

  /** Python's `2 ^ n` for n >= 1 differs from n by exactly 2, and so is never 2^n. */
  lemma XorTwo(n: nat)
    requires n >= 1
    ensures BitXor(2, n) == if (n / 2) % 2 == 0 then n + 2 else n - 2
    ensures BitXor(2, n) != Pow2(n)
  {
    var m := n / 2;
    if m > 0 {
      assert BitXor(1, m) == 2 * BitXor(0, m / 2) + (if 1 != m % 2 then 1 else 0);
    }
    if n >= 3 {
      Pow2Exceeds(n);
    } else if n == 2 {
      assert Pow2(n) == 2 * Pow2(1);
    }
  }

  /** From 3 on, 2^n outgrows n + 2. */
  lemma {:induction false} Pow2Exceeds(n: nat)
    requires n >= 3
    ensures Pow2(n) > n + 2
  {
    if n == 3 {
      assert Pow2(n) == 2 * Pow2(2);
    } else {
      Pow2Exceeds(n - 1);
    }
  }
}
