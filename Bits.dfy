// The 32-bit two's-complement bit operations the file cache uses on its
// indices (trotfile.h, trotfile.cc), written over unbounded integers.
module Bits {

  const IntMin: int := -0x8000_0000
  const IntMax: int := 0x7fff_ffff

  /** A value of the platform's 32-bit `int`. */
  predicate IsInt32(x: int) { IntMin <= x <= IntMax }

  /** The unsigned reinterpretation `(uint)x` of a 32-bit int. */
  function ToUint(x: int): (r: int)
    requires IsInt32(x)
    ensures 0 <= r < 0x1_0000_0000
    ensures x >= 0 ==> r == x
    ensures x < 0 ==> r == x + 0x1_0000_0000
  {
    x % 0x1_0000_0000
  }

  /**
   * Storing a wider integer into a 32-bit int: the value modulo 2^32, read
   * back as two's complement.
   */
  function Wrap32(x: int): (r: int)
    ensures IsInt32(r) && (x - r) % 0x1_0000_0000 == 0
    ensures IsInt32(x) ==> r == x
    ensures x >= 0 && r >= 0 ==> r <= x
    ensures x >= 0 && r < 0 ==> x > IntMax
  {
    var m := x % 0x1_0000_0000;
    if m > IntMax then m - 0x1_0000_0000 else m
  }

  /** `x << 1` on a 32-bit int, wrapping past IntMax into the negatives. */
  function ShiftLeft1(x: int): (r: int)
    requires IsInt32(x)
    ensures IsInt32(r)
    ensures 0 <= x < 0x4000_0000 ==> r == 2 * x
    ensures x == 0x4000_0000 ==> r == IntMin
  {
    var y := (2 * x) % 0x1_0000_0000;
    if y > IntMax then y - 0x1_0000_0000 else y
  }

  function Pow2(k: nat): (r: nat)
    ensures r >= 1
  {
    if k == 0 then 1 else 2 * Pow2(k - 1)
  }

  /** n is a power of two. */
  ghost predicate IsPow2(n: int)
  {
    exists k: nat :: Pow2(k) == n
  }

  /** `~x` in two's complement. */
  function Not(x: int): int { -x - 1 }

  /** Size of a two's-complement value, measured by the bits above the sign run. */
  function Mag(x: int): nat { if x >= 0 then x else -x - 1 }

  /** `a & b` in two's complement: `/ 2` is an arithmetic shift and `% 2` the low bit. */
  function And(a: int, b: int): int
    decreases Mag(a) + Mag(b)
  {
    if a == 0 || b == 0 then 0
    else if a == -1 then b
    else if b == -1 then a
    else 2 * And(a / 2, b / 2) + (a % 2) * (b % 2)
  }

  /** `a >> k`, an arithmetic shift right. */
  function Shr(a: int, k: nat): int
    decreases k
  {
    if k == 0 then a else Shr(a / 2, k - 1)
  }

  /** Euclidean division by a product splits into two divisions. */
  lemma DivMod2(a: int, m: int)
    requires m > 0
    ensures a / (2 * m) == (a / 2) / m
    ensures a % (2 * m) == 2 * ((a / 2) % m) + a % 2
  {
    var q, r := a / 2, a % 2;
    var q2, r2 := q / m, q % m;
    assert a == 2 * m * q2 + (2 * r2 + r) by {
      assert q == m * q2 + r2;
      assert a == 2 * q + r;
    }
    DivModUnique(a, 2 * m, q2, 2 * r2 + r);
  }

  lemma DivModUnique(a: int, d: int, q: int, r: int)
    requires d > 0 && 0 <= r < d && a == d * q + r
    ensures a / d == q && a % d == r
  {
    var q0, r0 := a / d, a % d;
    assert d * q0 + r0 == d * q + r;
    if q0 < q {
      MulAtLeast(d, q - q0);
    } else if q0 > q {
      MulAtLeast(d, q0 - q);
    }
  }

  lemma MulAtLeast(d: int, x: int)
    requires d > 0 && x >= 1
    ensures d * x >= d
  {
    assert d * x == d + d * (x - 1);
  }

  /** Shifting right by k divides by 2^k. */
  lemma {:induction false} ShrIsDiv(a: int, k: nat)
    ensures Shr(a, k) == a / Pow2(k)
    decreases k
  {
    if k > 0 {
      ShrIsDiv(a / 2, k - 1);
      DivMod2(a, Pow2(k - 1));
    }
  }

  lemma {:induction false} ShrNonNegative(a: int, k: nat)
    requires a >= 0
    ensures Shr(a, k) >= 0
    decreases k
  {
    if k > 0 { ShrNonNegative(a / 2, k - 1); }
  }

  /** Masking with 2^k - 1 keeps the remainder modulo 2^k. */
  lemma {:induction false} AndLowMask(a: int, k: nat)
    ensures And(a, Pow2(k) - 1) == a % Pow2(k)
    decreases k
  {
    if k == 0 {
      assert Pow2(k) == 1;
    } else if a == 0 {
      DivModUnique(0, Pow2(k), 0, 0);
    } else if a == -1 {
      DivModUnique(-1, Pow2(k), -1, Pow2(k) - 1);
    } else {
      var m := Pow2(k) - 1;
      assert m != 0 && m != -1 && m % 2 == 1 && m / 2 == Pow2(k - 1) - 1 by {
        DivModUnique(m, 2, Pow2(k - 1) - 1, 1);
      }
      assert And(a, m) == 2 * And(a / 2, m / 2) + a % 2;
      AndLowMask(a / 2, k - 1);
      var p := Pow2(k - 1);
      assert Pow2(k) == 2 * p;
      DivMod2(a, p);
      assert And(a, m) == 2 * ((a / 2) % p) + a % 2;
    }
  }

  /** Masking with ~(2^k - 1) clears the remainder modulo 2^k. */
  lemma {:induction false} AndHighMask(a: int, k: nat)
    ensures And(a, Not(Pow2(k) - 1)) == a - a % Pow2(k)
    decreases k
  {
    if k == 0 {
      assert Pow2(k) == 1 && Not(0) == -1;
    } else if a == 0 {
      DivModUnique(0, Pow2(k), 0, 0);
    } else if a == -1 {
      HighMaskHalf(k);
      DivModUnique(-1, Pow2(k), -1, Pow2(k) - 1);
    } else {
      var m := Not(Pow2(k) - 1);
      HighMaskHalf(k);
      AndHighMask(a / 2, k - 1);
      AndEven(a, m);
      HighMaskStep(a, Pow2(k - 1), Pow2(k));
    }
  }

  /** Masking with an even mask other than 0 and -1 is one shift of the halves. */
  lemma AndEven(a: int, m: int)
    requires a != 0 && a != -1 && m != 0 && m != -1 && m % 2 == 0
    ensures And(a, m) == 2 * And(a / 2, m / 2)
  {
  }

  /** The arithmetic of one step of AndHighMask: doubling the masked half of a masks a. */
  lemma HighMaskStep(a: int, p: int, q: int)
    requires p > 0 && q == 2 * p
    ensures 2 * (a / 2 - (a / 2) % p) == a - a % q
  {
    DivMod2(a, p);
  }

  /** ~(2^k - 1) for k > 0 is even, and halving it gives ~(2^(k-1) - 1). */
  lemma HighMaskHalf(k: nat)
    requires k > 0
    ensures var m := Not(Pow2(k) - 1);
      m != 0 && m != -1 && m / 2 == Not(Pow2(k - 1) - 1) && m % 2 == 0
  {
    var m := Not(Pow2(k) - 1);
    assert m == -2 * Pow2(k - 1);
    DivModUnique(m, 2, 0 - Pow2(k - 1), 0);
  }

  /** Two powers of two that are equal have equal exponents. */
  lemma {:induction false} Pow2Injective(j: nat, k: nat)
    requires Pow2(j) == Pow2(k)
    ensures j == k
  {
    if j > 0 && k > 0 {
      Pow2Injective(j - 1, k - 1);
    }
  }

  /** An odd factor above one keeps a number off the powers of two. */
  lemma {:induction false} OddTimesPow2NotPow2(odd: int, s: nat, k: nat)
    requires odd > 1 && odd % 2 == 1
    ensures Pow2(k) != odd * Pow2(s)
  {
    if s == 0 {
      if k > 0 { assert Pow2(k) == 2 * Pow2(k - 1); }
    } else if k == 0 {
      assert odd * Pow2(s) == 2 * (odd * Pow2(s - 1)) >= 2;
    } else {
      OddTimesPow2NotPow2(odd, s - 1, k - 1);
      assert odd * Pow2(s) == 2 * (odd * Pow2(s - 1));
    }
  }

  lemma {:induction false} Pow2Add(a: nat, b: nat)
    ensures Pow2(a + b) == Pow2(a) * Pow2(b)
    decreases a
  {
    if a > 0 {
      Pow2Add(a - 1, b);
      assert Pow2(a + b) == 2 * Pow2(a - 1 + b);
    }
  }

  lemma Pow2Of30()
    ensures Pow2(30) == 0x4000_0000
  {
    Pow2Add(10, 20);
    Pow2Add(10, 10);
  }

  /** b * x and b * y are at least b apart when x < y. */
  lemma MulStrictMonotone(b: int, x: int, y: int)
    requires b > 0 && x < y
    ensures b * x + b <= b * y
  {
    MulAtLeast(b, y - x);
    assert b * y - b * x == b * (y - x);
  }

  /** Division by a positive number is monotone. */
  lemma DivMonotone(x: int, y: int, b: int)
    requires x <= y && b > 0
    ensures x / b <= y / b
  {
    if x / b > y / b {
      MulStrictMonotone(b, y / b, x / b);
    }
  }

  lemma {:induction false} Pow2Monotone(j: nat, k: nat)
    requires j <= k
    ensures Pow2(j) <= Pow2(k)
  {
    if j < k { Pow2Monotone(j, k - 1); }
  }
}
