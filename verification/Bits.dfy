/** Bitwise operators of an unsigned machine word, on natural numbers, and what
    they compute on powers of two. */
module Bits {
  import opened Arith

  /** `a & b`, bit by bit. */
  function BitAnd(a: nat, b: nat): nat {
    if a == 0 || b == 0 then 0
    else (if a % 2 == 1 && b % 2 == 1 then 1 else 0) + 2 * BitAnd(a / 2, b / 2)
  }

  /** `a | b`, bit by bit. */
  function BitOr(a: nat, b: nat): nat
    decreases a + b
  {
    if a == 0 then b else if b == 0 then a
    else Max(a % 2, b % 2) + 2 * BitOr(a / 2, b / 2)
  }

  /** The number of trailing zero bits of a 64-bit word. */
  function Tz(n: nat): nat {
    if n == 0 then 64 else if n % 2 == 1 then 0 else 1 + Tz(n / 2)
  }

  /** The value of the lowest set bit, 0 for the word 0. */
  function LowBit(n: nat): nat {
    if n == 0 then 0 else Pow2(Tz(n))
  }

  /** `n >> t`. */
  function Shr(n: nat, t: nat): nat {
    if t == 0 then n else Shr(n / 2, t - 1)
  }

  /** The low `t` bits of `n`. */
  function LowBits(n: nat, t: nat): (r: nat)
    ensures r <= n && r < Pow2(t)
  {
    if t == 0 then 0 else n % 2 + 2 * LowBits(n / 2, t - 1)
  }

  lemma {:induction false} AndComplement(q: nat, w: nat)
    requires q < Pow2(w)
    ensures BitAnd(q, Pow2(w) - 1 - q) == 0
  {
    if w > 0 && q > 0 {
      AndComplement(q / 2, w - 1);
      assert (Pow2(w) - 1 - q) / 2 == Pow2(w - 1) - 1 - q / 2;
    }
  }

  /** `n & -n` isolates the lowest set bit, in any word wide enough for `n`. */
  lemma {:induction false} AndNegation(n: nat, w: nat)
    requires 0 < n < Pow2(w)
    ensures BitAnd(n, Pow2(w) - n) == LowBit(n)
  {
    assert w > 0;
    var m := Pow2(w) - n;
    if n % 2 == 1 {
      AndComplement(n / 2, w - 1);
      assert m / 2 == Pow2(w - 1) - 1 - n / 2 && m % 2 == 1;
    } else {
      AndNegation(n / 2, w - 1);
      assert m / 2 == Pow2(w - 1) - n / 2 && m % 2 == 0;
    }
  }

  lemma {:induction false} AndOnes(n: nat, w: nat)
    requires n < Pow2(w)
    ensures BitAnd(n, Pow2(w) - 1) == n
  {
    if n > 0 {
      AndOnes(n / 2, w - 1);
      assert (Pow2(w) - 1) / 2 == Pow2(w - 1) - 1;
    }
  }

  /** Masking with `-2^t` clears the low `t` bits. */
  lemma {:induction false} AndHighMask(n: nat, t: nat, w: nat)
    requires n < Pow2(w) && t < w
    ensures Pow2(t) < Pow2(w)
    ensures BitAnd(n, Pow2(w) - Pow2(t)) == n - LowBits(n, t)
  {
    hide BitAnd;
    Pow2Monotone(t, w);
    if t == 0 {
      AndOnes(n, w);
    } else {
      var half := Pow2(w - 1) - Pow2(t - 1);
      assert Pow2(w) == 2 * Pow2(w - 1) && Pow2(t) == 2 * Pow2(t - 1);
      assert LowBits(n, t) == n % 2 + 2 * LowBits(n / 2, t - 1);
      hide Pow2, LowBits;
      AndHighMask(n / 2, t - 1, w - 1);
      AndEven(n, half);
    }
  }

  lemma AndEven(n: nat, half: nat)
    ensures BitAnd(n, 2 * half) == 2 * BitAnd(n / 2, half)
  {
  }

  lemma {:induction false} ClearLow(n: nat, t: nat)
    ensures LowBits(n - LowBits(n, t), t) == 0 && Shr(n - LowBits(n, t), t) == Shr(n, t)
  {
    if t > 0 {
      ClearLow(n / 2, t - 1);
      var m := n - LowBits(n, t);
      assert m / 2 == n / 2 - LowBits(n / 2, t - 1) && m % 2 == 0;
    }
  }

  /** Setting bit `t` of a number whose lower bits are clear. */
  lemma {:induction false} OrBit(n: nat, t: nat)
    requires LowBits(n, t) == 0
    ensures BitOr(n, Pow2(t)) == if Shr(n, t) % 2 == 1 then n else n + Pow2(t)
  {
    if n == 0 {
      ShrZero(t);
    } else if t == 0 {
      assert BitOr(n / 2, 0) == n / 2;
    } else {
      OrBit(n / 2, t - 1);
    }
  }

  lemma {:induction false} ShrZero(t: nat)
    ensures Shr(0, t) == 0
  {
    if t > 0 { ShrZero(t - 1); }
  }

  /** Testing a single bit. */
  lemma {:induction false} AndPow2(t: nat, m: nat)
    ensures BitAnd(Pow2(t), m) == if Shr(m, t) % 2 == 1 then Pow2(t) else 0
  {
    if m == 0 {
      ShrZero(t);
    } else if t == 0 {
    } else {
      AndPow2(t - 1, m / 2);
    }
  }

  /** Or-ing bits below the lowest possible set bit is addition. */
  lemma {:induction false} OrDisjoint(a: nat, b: nat, s: nat)
    requires LowBits(a, s) == 0 && b < Pow2(s)
    ensures BitOr(a, b) == a + b
  {
    if a > 0 && b > 0 {
      OrDisjoint(a / 2, b / 2, s - 1);
    }
  }

  lemma {:induction false} OrCommutes(a: nat, b: nat)
    ensures BitOr(a, b) == BitOr(b, a)
    decreases a + b
  {
    if a > 0 && b > 0 { OrCommutes(a / 2, b / 2); }
  }

  lemma EvenHalf(m: nat)
    ensures 2 * m % 2 == 0 && 2 * m / 2 == m
  {
  }

  /** A multiple of `2^s` has nothing below bit `s`. */
  lemma {:induction false} TimesLow(q: nat, s: nat)
    ensures LowBits(Times(q, Pow2(s)), s) == 0
  {
    hide Times;
    if s > 0 {
      DoubleTimes(q, Pow2(s - 1));
      TimesLow(q, s - 1);
      EvenHalf(Times(q, Pow2(s - 1)));
    }
  }
}
