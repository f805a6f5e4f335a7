/**
  The bitwise operators the crates apply to `u8` values (`^`, `&`) and the
  number of set bits, defined on non-negative integers one binary digit at a
  time, lowest digit first.
*/
module Bits {
  import opened Common

  /** 2 to the power `n`. */
  function Pow2(n: nat): (p: nat)
    ensures p >= 1
  {
    if n == 0 then 1 else 2 * Pow2(n - 1)
  }

  /** `a ^ b`: a digit of the result is 1 exactly where the digits of `a` and `b` differ. */
  function Xor(a: nat, b: nat): nat
    decreases a + b
  {
    if a == 0 && b == 0 then 0
    else 2 * Xor(a / 2, b / 2) + (if a % 2 == b % 2 then 0 else 1)
  }

  /** `a & b`: a digit of the result is 1 exactly where both digits are 1. */
  function And(a: nat, b: nat): nat
    decreases a + b
  {
    if a == 0 || b == 0 then 0
    else 2 * And(a / 2, b / 2) + (if a % 2 == 1 && b % 2 == 1 then 1 else 0)
  }

  /** The number of 1 digits of `x` (`u8::count_ones`). */
  function PopCount(x: nat): nat
  {
    if x == 0 then 0 else x % 2 + PopCount(x / 2)
  }

  /** `u8 ^ u8`. */
  function XorByte(a: byte, b: byte): byte
  {
    XorBound(a, b, 8);
    Xor(a, b)
  }

  // ---------------------------------------------------------------------------
  // Widths

  /** Xor keeps values of `n` bits within `n` bits, so `u8 ^ u8` is a `u8`. */
  lemma {:induction false} XorBound(a: nat, b: nat, n: nat)
    requires a < Pow2(n) && b < Pow2(n)
    ensures Xor(a, b) < Pow2(n)
    decreases n
  {
    if n > 0 && !(a == 0 && b == 0) {
      XorBound(a / 2, b / 2, n - 1);
    }
  }

  /** `a & b` never exceeds `a`. */
  lemma {:induction false} AndAtMost(a: nat, b: nat)
    ensures And(a, b) <= a
    decreases a + b
  {
    if a != 0 && b != 0 {
      AndAtMost(a / 2, b / 2);
    }
  }

  /** A value of `n` bits has at most `n` set bits. */
  lemma {:induction false} PopCountBound(x: nat, n: nat)
    requires x < Pow2(n)
    ensures PopCount(x) <= n
    decreases n
  {
    if n > 0 && x != 0 {
      PopCountBound(x / 2, n - 1);
    }
  }

  /** Only zero has no set bits. */
  lemma PopCountZero(x: nat)
    ensures PopCount(x) == 0 <==> x == 0
  {
  }

  // ---------------------------------------------------------------------------
  // Algebra of Xor

  lemma {:induction false} XorComm(a: nat, b: nat)
    ensures Xor(a, b) == Xor(b, a)
    decreases a + b
  {
    if !(a == 0 && b == 0) {
      XorComm(a / 2, b / 2);
    }
  }

  /** Zero is the identity of Xor. */
  lemma {:induction false} XorZero(a: nat)
    ensures Xor(a, 0) == a && Xor(0, a) == a
    decreases a
  {
    if a != 0 {
      XorZero(a / 2);
    }
  }

  /** Applying the same key twice gives back the input. */
  lemma {:induction false} XorCancel(a: nat, k: nat)
    ensures Xor(Xor(a, k), k) == a
    decreases a + k
  {
    if !(a == 0 && k == 0) {
      XorCancel(a / 2, k / 2);
      XorHalves(a, k);
    }
  }

  lemma {:induction false} XorSelf(a: nat)
    ensures Xor(a, a) == 0
    decreases a
  {
    if a != 0 {
      XorSelf(a / 2);
    }
  }

  /** Two values agree exactly when their Xor is zero. */
  lemma XorZeroIffEqual(a: nat, b: nat)
    ensures Xor(a, b) == 0 <==> a == b
  {
    if Xor(a, b) == 0 {
      XorCancel(a, b);
      XorZero(b);
    } else if a == b {
      XorSelf(a);
    }
  }

  // ---------------------------------------------------------------------------
  // Kernighan's step: `x & (x - 1)` clears the lowest set bit.

  lemma {:induction false} AndSelf(a: nat)
    ensures And(a, a) == a
    decreases a
  {
    if a != 0 {
      AndSelf(a / 2);
    }
  }

  /** PopCount of a doubled value: the new lowest digit is 0. */
  lemma PopCountDouble(y: nat)
    ensures PopCount(2 * y) == PopCount(y)
  {
  }

  /** `x & (x - 1)` has exactly one set bit fewer than a non-zero `x`. */
  lemma {:induction false} ClearLowestBit(x: nat)
    requires x > 0
    ensures And(x, x - 1) < x
    ensures PopCount(And(x, x - 1)) == PopCount(x) - 1
    decreases x
  {
    if x % 2 == 1 {
      if x > 1 {
        AndSelf(x / 2);
        assert (x - 1) / 2 == x / 2;
        assert And(x, x - 1) == x - 1;
        PopCountDouble(x / 2);
      }
    } else {
      var h := x / 2;
      ClearLowestBit(h);
      assert (x - 1) / 2 == h - 1 && (x - 1) % 2 == 1;
      assert And(x, x - 1) == 2 * And(h, h - 1);
      PopCountDouble(And(h, h - 1));
    }
  }

  // ---------------------------------------------------------------------------
  // Hamming distance between two values

  /** The number of digits in which `a` and `c` differ is at most that of `a, b` plus `b, c`. */
  lemma {:induction false} XorTriangle(a: nat, b: nat, c: nat)
    ensures PopCount(Xor(a, c)) <= PopCount(Xor(a, b)) + PopCount(Xor(b, c))
    decreases a + b + c
  {
    if !(a == 0 && b == 0 && c == 0) {
      XorTriangle(a / 2, b / 2, c / 2);
      XorHalves(a, c);
      XorHalves(a, b);
      XorHalves(b, c);
    }
  }

  /** The lowest digit and the remaining digits of a Xor. */
  lemma XorHalves(a: nat, b: nat)
    ensures Xor(a, b) % 2 == (if a % 2 == b % 2 then 0 else 1)
    ensures Xor(a, b) / 2 == Xor(a / 2, b / 2)
  {
    if !(a == 0 && b == 0) {
      var q, r := Xor(a / 2, b / 2), if a % 2 == b % 2 then 0 else 1;
      assert Xor(a, b) == 2 * q + r;
      DigitAndRest(Xor(a, b), q, r);
    }
  }

  /** The lowest binary digit `r` and the remaining digits `q` of `x == 2 * q + r`. */
  lemma DigitAndRest(x: int, q: int, r: int)
    requires x == 2 * q + r && 0 <= r < 2
    ensures x % 2 == r && x / 2 == q
  {
  }
}
