/** S2 cell ids (src/s2.rs): a face, a position on its Hilbert curve, and a level
    marked by the lowest set bit. The arithmetic reading is used throughout;
    S2Words shows that the word-level code computes it. */
module Cells {
  import opened Arith
  import opened Bits

  const MAX_LEVEL: nat := 30

  /** First id past face 5, `6 << 61`. */
  const ID_END: nat := 0xC000_0000_0000_0000

  /** An id of one of the six faces whose trailing zeros are even in number, at most 60. */
  predicate IsValid(id: nat) {
    0 < id < ID_END && Tz(id) % 2 == 0 && Tz(id) <= 60
  }

  function Level(c: nat): int {
    MAX_LEVEL - Tz(c) / 2
  }

  function Lsb(c: nat): nat {
    LowBit(c)
  }

  predicate IsLeaf(id: nat) {
    id < ID_END && id % 2 == 1
  }

  /** The first leaf of the cell, in id order. */
  function RangeMin(c: nat): int {
    c - (Lsb(c) - 1)
  }

  /** The last one. */
  function RangeMax(c: nat): int {
    c + (Lsb(c) - 1)
  }

  predicate Contains(a: nat, b: nat) {
    RangeMin(a) <= b <= RangeMax(a)
  }

  /** The largest multiple of `2^t` not above `n`. */
  function Floor(n: nat, t: nat): nat {
    n - LowBits(n, t)
  }

  /** The cell at `level` that `id` lies in. */
  function Parent(id: nat, level: nat): nat
    requires level <= MAX_LEVEL
  {
    Floor(id, 2 * (MAX_LEVEL - level) + 1) + Pow2(2 * (MAX_LEVEL - level))
  }

  /** The parent one level up, `parent(id, level(id) - 1)`. */
  function Up(id: nat): nat
    requires Level(id) > 0
  {
    Parent(id, Level(id) - 1)
  }

  /** The `q`-th quarter of a cell, along the curve. */
  function Child(c: nat, q: nat): int {
    var step := Lsb(c) / 2;
    var first := c - Lsb(c) + Lsb(c) / 4;
    if q == 0 then first else if q == 1 then first + step else if q == 2 then first + 2 * step else first + 3 * step
  }

  // --- aligned blocks: a cell with lowest bit 2^t is u + 2^t, u a multiple of 2^(t+1) ---

  /** `u` is a multiple of `2^t`. */
  predicate Aligned(u: nat, t: nat) {
    t == 0 || (u % 2 == 0 && Aligned(u / 2, t - 1))
  }

  lemma {:induction false} Shape(c: nat)
    requires c > 0
    ensures LowBit(c) <= c && Aligned(c - LowBit(c), Tz(c) + 1)
  {
    if c % 2 == 0 {
      Shape(c / 2);
      assert LowBit(c) == 2 * LowBit(c / 2);
      assert (c - LowBit(c)) / 2 == c / 2 - LowBit(c / 2);
    } else {
      assert Aligned((c - 1) / 2, 0);
    }
  }

  lemma {:induction false} FromShape(u: nat, t: nat)
    requires Aligned(u, t + 1)
    ensures Tz(u + Pow2(t)) == t && LowBit(u + Pow2(t)) == Pow2(t)
  {
    if t > 0 {
      FromShape(u / 2, t - 1);
      var c := u + Pow2(t);
      assert c / 2 == u / 2 + Pow2(t - 1) && c % 2 == 0;
    }
  }

  lemma {:induction false} FloorAligned(n: nat, t: nat)
    ensures Aligned(Floor(n, t), t)
  {
    if t > 0 {
      FloorAligned(n / 2, t - 1);
      assert Floor(n, t) == 2 * Floor(n / 2, t - 1);
      hide Floor, LowBits;
      EvenHalf(Floor(n / 2, t - 1));
    }
  }

  lemma {:induction false} AlignedStep(u: nat, w: nat, t: nat)
    requires Aligned(u, t) && Aligned(w, t) && u < w
    ensures u + Pow2(t) <= w
  {
    if t > 0 {
      AlignedStep(u / 2, w / 2, t - 1);
    }
  }

  lemma AlignedUnique(u: nat, w: nat, t: nat)
    requires Aligned(u, t) && Aligned(w, t) && w < u + Pow2(t) && u < w + Pow2(t)
    ensures u == w
  {
    if w < u { AlignedStep(w, u, t); }
    if u < w { AlignedStep(u, w, t); }
  }

  lemma {:induction false} AlignedFiner(u: nat, t: nat)
    requires Aligned(u, t + 1)
    ensures Aligned(u, t)
  {
    if t > 0 {
      AlignedFiner(u / 2, t - 1);
    }
  }

  lemma {:induction false} AlignedNext(u: nat, t: nat)
    requires Aligned(u, t)
    ensures Aligned(u + Pow2(t), t)
  {
    if t > 0 {
      AlignedNext(u / 2, t - 1);
      assert (u + Pow2(t)) / 2 == u / 2 + Pow2(t - 1);
    }
  }

  /** The four quarters of an aligned block. */
  lemma Quarters(u: nat, t: nat)
    requires Aligned(u, t + 2)
    ensures Aligned(u, t) && Aligned(u + Pow2(t), t)
    ensures Aligned(u + 2 * Pow2(t), t) && Aligned(u + 3 * Pow2(t), t)
  {
    AlignedFiner(u, t + 1);
    AlignedFiner(u, t);
    AlignedNext(u, t);
    AlignedNext(u + Pow2(t), t);
    AlignedNext(u + 2 * Pow2(t), t);
  }

  lemma {:induction false} ZeroAligned(t: nat)
    ensures Aligned(0, t)
  {
    if t > 0 { ZeroAligned(t - 1); }
  }

  lemma {:induction false} EndAligned(t: nat)
    requires t <= 61
    ensures Aligned(ID_END, t)
    decreases 61 - t
  {
    if t == 61 {
      SixFaces();
    } else {
      EndAligned(t + 1);
      AlignedFiner(ID_END, t);
    }
  }

  lemma SixFaces()
    ensures Aligned(ID_END, 61)
  {
    hide Pow2, Aligned;
    ZeroAligned(63);
    Quarters(0, 61);
    AlignedNext(3 * Pow2(61), 61);
    AlignedNext(4 * Pow2(61), 61);
    AlignedNext(5 * Pow2(61), 61);
    Pow2Literals();
  }

  lemma LevelBits(c: nat)
    requires IsValid(c)
    ensures 0 <= Level(c) <= 30 && Tz(c) == 2 * (30 - Level(c)) && Lsb(c) == Pow2(Tz(c))
  {
  }

  /** The first and last odd number of an aligned block. */
  lemma BlockEnds(u: nat, t: nat)
    requires Aligned(u, t + 1) && t <= 60 && u < ID_END
    ensures u + 2 * Pow2(t) <= ID_END
    ensures IsLeaf(u + 1) && IsLeaf(u + 2 * Pow2(t) - 1)
  {
    EndAligned(t + 1);
    AlignedStep(u, ID_END, t + 1);
    OddEnds(u, Pow2(t));
  }

  lemma OddEnds(u: nat, p: nat)
    requires u % 2 == 0 && p > 0
    ensures (u + 1) % 2 == 1 && (u + 2 * p - 1) % 2 == 1
  {
  }

  /** The ends of a cell's range are leaves, and no range passes the last face. */
  lemma RangeEnds(c: nat)
    requires IsValid(c)
    ensures 0 <= Level(c) <= 30 && Tz(c) == 2 * (30 - Level(c)) && Lsb(c) == Pow2(Tz(c))
    ensures 1 <= RangeMin(c) <= c <= RangeMax(c)
    ensures IsLeaf(RangeMin(c)) && IsLeaf(RangeMax(c))
  {
    Shape(c);
    LevelBits(c);
    BlockEnds(c - Lsb(c), Tz(c));
  }

  lemma RangeOrder(c: nat)
    requires IsValid(c)
    ensures RangeMin(c) <= RangeMax(c)
  {
    RangeEnds(c);
  }

  // --- laminarity ---

  /** Blocks `[u, u + m)` and `[w, w + n)`: the first inside the second, or apart. */
  predicate InsideOrApart(u: nat, m: nat, w: nat, n: nat) {
    u + m <= w || w + n <= u || (w <= u && u + m <= w + n)
  }

  lemma {:induction false} AlignedBlocks(u: nat, s: nat, w: nat, t: nat)
    requires Aligned(u, s) && Aligned(w, t) && s <= t
    ensures InsideOrApart(u, Pow2(s), w, Pow2(t))
  {
    if s > 0 {
      AlignedBlocks(u / 2, s - 1, w / 2, t - 1);
    }
  }

  /** `a` lies inside `b` (or equals it). */
  predicate Within(a: nat, b: nat) {
    RangeMin(b) <= RangeMin(a) && RangeMax(a) <= RangeMax(b) && Contains(b, a) && Level(b) <= Level(a)
  }

  lemma CellBlocks(a: nat, b: nat)
    requires 0 < a && 0 < b && Tz(a) <= Tz(b)
    ensures Lsb(a) <= a && Lsb(b) <= b && InsideOrApart(a - Lsb(a), 2 * Lsb(a), b - Lsb(b), 2 * Lsb(b))
  {
    Shape(a);
    Shape(b);
    AlignedBlocks(a - Lsb(a), Tz(a) + 1, b - Lsb(b), Tz(b) + 1);
  }

  lemma BlocksOfCells(a: nat, b: nat)
    requires IsValid(a) && IsValid(b) && Tz(a) <= Tz(b)
    ensures RangeMax(a) < RangeMin(b) || RangeMax(b) < RangeMin(a) || Within(a, b)
  {
    LevelBits(a);
    LevelBits(b);
    CellBlocks(a, b);
  }

  /** Two cells are nested or disjoint. */
  lemma Laminar(a: nat, b: nat)
    requires IsValid(a) && IsValid(b)
    ensures RangeMax(a) < RangeMin(b) || RangeMax(b) < RangeMin(a) || Within(a, b) || Within(b, a)
  {
    if Tz(a) <= Tz(b) {
      BlocksOfCells(a, b);
    } else {
      BlocksOfCells(b, a);
    }
  }

  lemma SameLevelWithin(a: nat, b: nat)
    requires IsValid(a) && IsValid(b) && Within(a, b) && Level(a) == Level(b)
    ensures a == b
  {
    RangeEnds(a);
    RangeEnds(b);
  }

  lemma StrictlyWithin(a: nat, b: nat)
    requires IsValid(a) && IsValid(b) && Within(a, b) && a != b
    ensures Level(b) < Level(a)
  {
    if Level(a) == Level(b) { SameLevelWithin(a, b); }
  }

  /** A leaf lies in exactly one cell of each level: its ancestor there. */
  lemma LeafInAncestor(c: nat, x: nat)
    requires IsValid(c) && IsLeaf(x)
    ensures 0 <= Level(c) <= 30 && (Contains(c, x) <==> Parent(x, Level(c)) == c)
  {
    LevelBits(c);
    var t := Tz(c);
    Shape(c);
    FloorAligned(x, t + 1);
    EvenBlock(c - Pow2(t), t);
    if c - Pow2(t) <= x < c + Pow2(t) { AlignedUnique(c - Pow2(t), Floor(x, t + 1), t + 1); }
  }

  /** A block of two or more starts at an even number, so no leaf is its first. */
  lemma EvenBlock(u: nat, t: nat)
    requires Aligned(u, t + 1)
    ensures u % 2 == 0
  {
  }

  // --- parents and children ---

  /** A quarter block of a cell is a cell one level down, with this parent. */
  lemma SubBlock(c: nat, t: nat, w: nat)
    requires IsValid(c) && Tz(c) == t + 2
    requires Aligned(w, t + 1) && c - Pow2(t + 2) <= w <= c + Pow2(t + 1)
    ensures var x := w + Pow2(t);
            IsValid(x) && Tz(x) == t && Parent(x, Level(c)) == c
  {
    var x := w + Pow2(t);
    FromShape(w, t);
    RangeEnds(c);
    Shape(c);
    FloorAligned(x, t + 3);
    AlignedUnique(c - Pow2(t + 2), Floor(x, t + 3), t + 3);
  }

  /** Where child `q` lies, in steps of its own lowest bit `s`. */
  function ChildAt(c: nat, s: nat, q: nat): int {
    c - 3 * s + if q == 0 then 0 else if q == 1 then 2 * s else if q == 2 then 4 * s else 6 * s
  }

  lemma ChildPlace(c: nat, s: nat, q: nat)
    requires Lsb(c) == 4 * s && q < 4
    ensures Child(c, q) == ChildAt(c, s, q)
  {
    assert Lsb(c) / 4 == s && Lsb(c) / 2 == 2 * s;
  }

  lemma ChildShape(c: nat, q: nat)
    requires IsValid(c) && Level(c) < 30 && q < 4
    ensures Child(c, q) > 0 && IsValid(Child(c, q)) && Parent(Child(c, q), Level(c)) == c
    ensures Level(Child(c, q)) == Level(c) + 1
    ensures Lsb(c) == 4 * Lsb(Child(c, q)) > 0 && Child(c, q) == ChildAt(c, Lsb(Child(c, q)), q)
  {
    LevelBits(c);
    ChildCell(c, Tz(c) - 2, q);
    LevelBits(Child(c, q));
  }

  lemma ChildCell(c: nat, t: nat, q: nat)
    requires IsValid(c) && Tz(c) == t + 2 && q < 4
    ensures Child(c, q) == ChildAt(c, Pow2(t), q) && Lsb(c) == 4 * Pow2(t)
    ensures Child(c, q) > 0 && IsValid(Child(c, q)) && Tz(Child(c, q)) == t && Parent(Child(c, q), Level(c)) == c
  {
    ChildBlock(c, t, q);
    ChildPlace(c, Pow2(t), q);
    SubBlock(c, t, ChildAt(c, Pow2(t), q) - Pow2(t));
  }

  lemma ChildBlock(c: nat, t: nat, q: nat)
    requires c > 0 && Tz(c) == t + 2 && q < 4
    ensures var w := ChildAt(c, Pow2(t), q) - Pow2(t);
            w >= 0 && Aligned(w, t + 1) && c - Pow2(t + 2) <= w <= c + Pow2(t + 1)
  {
    Shape(c);
    Quarters(c - LowBit(c), t + 1);
  }

  /** The four children tile their parent in Hilbert order. */
  lemma ChildrenTile(c: nat)
    requires IsValid(c) && Level(c) < 30
    ensures forall q :: 0 <= q < 4 ==>
              && Child(c, q) > 0 && IsValid(Child(c, q)) && Level(Child(c, q)) == Level(c) + 1
              && Parent(Child(c, q), Level(c)) == c && Within(Child(c, q), c)
    ensures RangeMin(Child(c, 0)) == RangeMin(c) && RangeMax(Child(c, 3)) == RangeMax(c)
    ensures RangeMin(Child(c, 1)) == RangeMax(Child(c, 0)) + 2
    ensures RangeMin(Child(c, 2)) == RangeMax(Child(c, 1)) + 2
    ensures RangeMin(Child(c, 3)) == RangeMax(Child(c, 2)) + 2
  {
    forall q | 0 <= q < 4
      ensures Child(c, q) > 0 && IsValid(Child(c, q)) && Level(Child(c, q)) == Level(c) + 1
      ensures Parent(Child(c, q), Level(c)) == c && Within(Child(c, q), c)
    {
      ChildShape(c, q);
    }
    ChildShape(c, 0);
    ChildShape(c, 1);
    ChildShape(c, 2);
    ChildShape(c, 3);
  }

  /** The parent of a non-face cell is a cell one level up. */
  lemma ParentShape(c: nat)
    requires IsValid(c) && Level(c) > 0
    ensures var p := Parent(c, Level(c) - 1);
            var t := Tz(c);
            p == Floor(c, t + 3) + Pow2(t + 2) && IsValid(p) && Tz(p) == t + 2
  {
    LevelBits(c);
    EndAligned(Tz(c) + 3);
    ParentBlock(c, Tz(c), ID_END);
  }

  lemma ParentBlock(c: nat, t: nat, end: nat)
    requires c < end && Aligned(end, t + 3)
    ensures Floor(c, t + 3) + 8 * Pow2(t) <= end && Tz(Floor(c, t + 3) + Pow2(t + 2)) == t + 2
  {
    var h := Floor(c, t + 3);
    FloorAligned(c, t + 3);
    FromShape(h, t + 2);
    AlignedStep(h, end, t + 3);
  }

  /** Every non-face cell is one of its parent's children. */
  lemma ParentStep(c: nat) returns (q: nat)
    requires IsValid(c) && Level(c) > 0
    ensures IsValid(Up(c)) && Level(Up(c)) == Level(c) - 1
    ensures q < 4 && Child(Up(c), q) == c
    ensures Within(c, Up(c))
  {
    ParentShape(c);
    LevelBits(c);
    LevelBits(Up(c));
    q := ParentQuarter(c, Tz(c));
    ChildrenTile(Up(c));
  }

  lemma ParentQuarter(c: nat, t: nat) returns (q: nat)
    requires c > 0 && Tz(c) == t && Tz(Floor(c, t + 3) + Pow2(t + 2)) == t + 2
    ensures q < 4 && Child(Floor(c, t + 3) + Pow2(t + 2), q) == c
  {
    var h := Floor(c, t + 3);
    FloorAligned(c, t + 3);
    Shape(c);
    q := QuarterOf(c - Pow2(t), h, t + 1);
    ChildPlace(h + Pow2(t + 2), Pow2(t), q);
  }

  /** Which quarter of a block an aligned sub-block is. */
  lemma QuarterOf(u: nat, h: nat, t: nat) returns (q: nat)
    requires Aligned(u, t) && Aligned(h, t + 2) && h < u + Pow2(t) && u < h + 4 * Pow2(t)
    ensures q < 4
    ensures u == if q == 0 then h else if q == 1 then h + Pow2(t) else if q == 2 then h + 2 * Pow2(t) else h + 3 * Pow2(t)
  {
    Quarters(h, t);
    if u < h { AlignedStep(u, h, t); }
    var s := Pow2(t);
    if u < h + s {
      q := 0;
      AlignedUnique(u, h, t);
    } else if u < h + 2 * s {
      q := 1;
      AlignedUnique(u, h + s, t);
    } else if u < h + 3 * s {
      q := 2;
      AlignedUnique(u, h + 2 * s, t);
    } else {
      q := 3;
      AlignedUnique(u, h + 3 * s, t);
    }
  }
}
