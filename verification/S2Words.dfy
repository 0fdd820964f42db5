/** The word-level code of src/s2.rs (masks, wrapping negation, shifts) computes
    the arithmetic reading in Cells, and no id operation leaves 64 bits. */
module S2Words {
  import opened Arith
  import opened Bits
  import opened Bytes
  import Cells

  const EVEN_BITS: nat := 0x1555_5555_5555_5555

  function WrappingNeg(x: nat): nat
    requires x < WORD
  {
    (WORD - x) % WORD
  }

  function Lsb(id: nat): nat
    requires id < WORD
  {
    BitAnd(id, WrappingNeg(id))
  }

  /** `(id >> 61) < 6 && lsb(id) & 0x1555… != 0`. */
  predicate IsValid(id: nat)
    requires id < WORD
  {
    Shr(id, 61) < 6 && BitAnd(Lsb(id), EVEN_BITS) != 0
  }

  /** `(id & -l) | l` with `l = 1 << 2(30 - level)`. */
  function Parent(id: nat, level: nat): nat
    requires id < WORD && level <= 30
  {
    var l := Pow2(2 * (30 - level)) % WORD;
    BitOr(BitAnd(id, WrappingNeg(l)), l)
  }

  lemma LsbIsLowBit(id: nat)
    requires id < WORD
    ensures Lsb(id) == Cells.Lsb(id)
  {
    Pow2Literals();
    if id > 0 {
      AndNegation(id, 64);
      assert WrappingNeg(id) == WORD - id;
    }
  }

  /** The number with a set bit at each even position below `2k`. */
  function EvenBits(k: nat): nat {
    if k == 0 then 0 else 1 + 4 * EvenBits(k - 1)
  }

  lemma {:induction false} EvenBitsValue(k: nat)
    ensures 3 * EvenBits(k) + 1 == Pow4(k)
  {
    if k > 0 { EvenBitsValue(k - 1); }
  }

  lemma {:induction false} EvenBitSet(k: nat, t: nat)
    ensures Shr(EvenBits(k), t) % 2 == 1 <==> t % 2 == 0 && t < 2 * k
  {
    if k == 0 {
      ShrZero(t);
    } else if t >= 2 {
      EvenBitSet(k - 1, t - 2);
      ShrTwo(EvenBits(k), t);
      assert EvenBits(k) / 2 / 2 == EvenBits(k - 1);
    } else {
      assert Shr(EvenBits(k), t) == if t == 0 then EvenBits(k) else EvenBits(k) / 2;
    }
  }

  lemma ShrTwo(n: nat, t: nat)
    requires t >= 2
    ensures Shr(n, t) == Shr(n / 2 / 2, t - 2)
  {
  }

  lemma EvenBitsLiteral()
    ensures EvenBits(31) == EVEN_BITS
  {
    EvenBitsValue(31);
    Pow2Literals();
    assert Pow4(31) == 4 * Pow4(30);
  }

  lemma MaskBit(t: nat, k: nat)
    ensures BitAnd(Pow2(t), EvenBits(k)) != 0 <==> t % 2 == 0 && t < 2 * k
  {
    AndPow2(t, EvenBits(k));
    EvenBitSet(k, t);
  }

  lemma MaskTest(id: nat)
    requires 0 < id < WORD
    ensures BitAnd(Lsb(id), EVEN_BITS) != 0 <==> Tz(id) % 2 == 0 && Tz(id) < 62
  {
    LsbIsLowBit(id);
    EvenBitsLiteral();
    MaskBit(Tz(id), 31);
  }

  lemma FaceTest(id: nat)
    ensures Shr(id, 61) < 6 <==> id < Cells.ID_END
  {
    Pow2Literals();
    ShrBelow(id, 61, 6);
  }

  /** The mask test accepts exactly the faces 0 to 5 with an even lowest bit. */
  lemma ValidAgrees(id: nat)
    requires id < WORD
    ensures IsValid(id) <==> Cells.IsValid(id)
  {
    FaceTest(id);
    if id > 0 { MaskTest(id); }
  }

  lemma {:induction false} ShrBelow(n: nat, t: nat, q: nat)
    ensures Shr(n, t) < q <==> n < q * Pow2(t)
  {
    if t > 0 {
      ShrBelow(n / 2, t - 1, q);
      assert q * Pow2(t) == 2 * (q * Pow2(t - 1));
    }
  }

  /** Clearing one more bit. */
  lemma {:induction false} FloorOneBit(n: nat, t: nat)
    ensures Cells.Floor(n, t) == Cells.Floor(n, t + 1) + if Shr(n, t) % 2 == 1 then Pow2(t) else 0
  {
    if t > 0 {
      FloorOneBit(n / 2, t - 1);
    }
  }

  lemma ParentAgrees(id: nat, level: nat)
    requires id < WORD && level <= 30
    ensures Parent(id, level) == Cells.Parent(id, level)
  {
    var t := 2 * (30 - level);
    WordSizes(t);
    MarkerCore(id, t, 64);
  }

  lemma MarkerCore(id: nat, t: nat, w: nat)
    requires id < Pow2(w) && t < w
    ensures Pow2(t) < Pow2(w)
    ensures BitOr(BitAnd(id, Pow2(w) - Pow2(t)), Pow2(t)) == Cells.Floor(id, t + 1) + Pow2(t)
  {
    AndHighMask(id, t, w);
    ClearLow(id, t);
    OrBit(id - LowBits(id, t), t);
    FloorOneBit(id, t);
  }

  lemma WordSizes(t: nat)
    requires t <= 60
    ensures Pow2(64) == WORD && Pow2(t) % WORD == Pow2(t) < WORD && WrappingNeg(Pow2(t)) == WORD - Pow2(t)
  {
    Pow2Literals();
    Pow2Monotone(t, 64);
  }

  /** Range and child arithmetic on a valid id stays in 64 bits. */
  lemma NoOverflow(id: nat)
    requires Cells.IsValid(id)
    ensures 1 <= Cells.RangeMin(id) && Cells.RangeMax(id) < WORD
    ensures Cells.Level(id) < 30 ==>
              forall q :: 0 <= q < 4 ==> 0 < Cells.Child(id, q) < WORD
    ensures Cells.Level(id) == 30 - Tz(id) / 2 >= 0
  {
    Cells.RangeEnds(id);
    if Cells.Level(id) < 30 { Cells.ChildrenTile(id); }
  }
}
