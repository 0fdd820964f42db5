/** Powers of two and four, and the few non-linear facts the S2 proofs rest on. */
module Arith {

  function Pow2(k: nat): (p: nat)
    ensures p > 0
  {
    if k == 0 then 1 else 2 * Pow2(k - 1)
  }

  function Pow4(k: nat): (p: nat)
    ensures p > 0
  {
    if k == 0 then 1 else 4 * Pow4(k - 1)
  }

  function Times(a: nat, b: nat): nat {
    a * b
  }

  function Max(a: int, b: int): int {
    if a < b then b else a
  }

  lemma DoubleTimes(a: nat, b: nat)
    ensures Times(a, 2 * b) == 2 * Times(a, b)
  {
  }

  lemma DoubleProduct(a: nat, b: nat)
    ensures 2 * (a * b) == (2 * a) * b
  {
  }

  /** A sum scaled, when its first part is itself a product. */
  lemma ScaledSum(a: nat, b: nat, c: nat, s: nat)
    ensures Times(Times(a, b) + c, s) == Times(a, b * s) + Times(c, s)
  {
  }

  lemma {:induction false} Pow2Add(a: nat, b: nat)
    ensures Pow2(a + b) == Pow2(a) * Pow2(b)
  {
    if a > 0 {
      Pow2Add(a - 1, b);
      assert Pow2(a + b) == 2 * Pow2((a - 1) + b);
      DoubleProduct(Pow2(a - 1), Pow2(b));
    }
  }

  lemma {:induction false} Pow4IsPow2(k: nat)
    ensures Pow4(k) == Pow2(2 * k)
  {
    if k > 0 {
      Pow4IsPow2(k - 1);
      assert Pow2(2 * k) == 2 * Pow2(2 * k - 1) == 4 * Pow2(2 * (k - 1));
    }
  }

  lemma {:induction false} Pow2Monotone(a: nat, b: nat)
    requires a < b
    ensures 2 * Pow2(a) <= Pow2(b)
  {
    if a + 1 < b {
      Pow2Monotone(a, b - 1);
    }
  }

  lemma Pow2Literals()
    ensures Pow2(8) == 0x100
    ensures Pow2(16) == 0x1_0000
    ensures Pow2(32) == 0x1_0000_0000
    ensures Pow2(60) == 0x1000_0000_0000_0000
    ensures Pow2(61) == 0x2000_0000_0000_0000
    ensures Pow2(64) == 0x1_0000_0000_0000_0000
    ensures Pow4(30) == 0x1000_0000_0000_0000
  {
    SmallPowers();
    hide Pow2, Pow4;
    Pow2Add(8, 8);
    Pow2Add(16, 16);
    Pow2Add(32, 32);
    Pow2Add(28, 32);
    Pow2Add(16, 12);
    Pow2Add(1, 60);
    Pow4IsPow2(30);
  }

  lemma SmallPowers()
    ensures Pow2(1) == 2 && Pow2(8) == 0x100 && Pow2(12) == 0x1000
  {
  }

  /** Euclidean division is unique. */
  lemma DivModUnique(x: int, d: int, q: int, r: int)
    requires 0 <= r < d && x == q * d + r
    ensures x / d == q && x % d == r
  {
    var q', r' := x / d, x % d;
    assert x == q' * d + r';
    if q < q' {
      ScaleStep(q, q', d);
    } else if q' < q {
      ScaleStep(q', q, d);
    }
  }

  /** Scaling keeps a strict order of integers at least one step apart. */
  lemma ScaleStep(a: int, b: int, s: nat)
    requires a < b
    ensures a * s + s <= b * s
  {
    assert (b - a - 1) * s >= 0;
    assert b * s == (a + 1) * s + (b - a - 1) * s;
  }

  lemma ScaleMonotone(a: int, b: int, s: nat)
    requires a <= b
    ensures a * s <= b * s
  {
  }

  lemma ScaleCompare(a: int, b: int, p: nat)
    requires p > 0
    ensures a * p < b * p <==> a < b
    ensures a * p == b * p <==> a == b
  {
    if a < b { ScaleStep(a, b, p); }
    if b < a { ScaleStep(b, a, p); }
  }
}
