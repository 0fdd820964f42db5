/** What the leaf numbering is: a bijection, and every cell an aligned square. */
module HilbertCells {
  import opened Arith
  import opened Bits
  import opened Cells
  import opened Hilbert
  import opened LeafCells

  ghost predicate OnFace(face: nat, i: nat, j: nat) {
    face < 6 && i < Pow2(30) && j < Pow2(30)
  }

  /** `face * 2^60 + pos` with `pos < 2^60` determines both. */
  lemma FaceAndPos(f: nat, p: nat, g: nat, q: nat, size: nat)
    requires p < size && q < size && Times(f, size) + p == Times(g, size) + q
    ensures f == g && p == q
  {
    if f < g { ScaleStep(f, g, size); }
    if g < f { ScaleStep(g, f, size); }
  }

  lemma CurveBound(face: nat, i: nat, j: nat)
    ensures CurvePos(face, i, j) < Pow2(60)
  {
    hide Walk;
    WalkBound(30, i, j, face % 2);
    Pow4IsPow2(30);
  }

  lemma LeafIsLeaf(face: nat, i: nat, j: nat)
    requires OnFace(face, i, j)
    ensures IsLeaf(Leaf(face, i, j))
  {
    hide CurvePos;
    CurveBound(face, i, j);
    ScaleStep(face, 6, Pow2(60));
    Pow2Literals();
    OddLeaf(Times(face, Pow2(60)) + CurvePos(face, i, j));
  }

  lemma OddLeaf(n: nat)
    ensures (2 * n + 1) % 2 == 1
  {
  }

  lemma SameWalk(n: nat, i: nat, j: nat, k: nat, l: nat, o: nat)
    requires o < 4 && i < Pow2(n) && j < Pow2(n) && k < Pow2(n) && l < Pow2(n)
    requires Walk(n, i, j, o).pos == Walk(n, k, l, o).pos
    ensures i == k && j == l
  {
    UnWalkWalk(n, i, j, o);
    UnWalkWalk(n, k, l, o);
  }

  /** Distinct grid points have distinct leaves. */
  lemma LeafInjective(f: nat, i: nat, j: nat, g: nat, k: nat, l: nat)
    requires OnFace(f, i, j) && OnFace(g, k, l) && Leaf(f, i, j) == Leaf(g, k, l)
    ensures f == g && i == k && j == l
  {
    hide Walk, Pow2;
    CurveBound(f, i, j);
    CurveBound(g, k, l);
    FaceAndPos(f, CurvePos(f, i, j), g, CurvePos(g, k, l), Pow2(60));
    SameWalk(30, i, j, k, l, f % 2);
  }

  /** Every leaf id is the leaf of a grid point. */
  lemma LeafSurjective(x: nat) returns (face: nat, i: nat, j: nat)
    requires IsLeaf(x)
    ensures OnFace(face, i, j) && Leaf(face, i, j) == x
  {
    hide Walk, UnWalk;
    Pow2Literals();
    var size := Pow2(60);
    var n := x / 2;
    face := n / size;
    var pos := n % size;
    assert n == face * size + pos;
    if 6 <= face { ScaleMonotone(6, face, size); }
    Pow4IsPow2(30);
    var u := UnWalk(30, pos, face % 2);
    i, j := u.i, u.j;
    UnWalkBound(30, pos, face % 2);
    WalkUnWalk(30, pos, face % 2);
  }

  /** Leaves with consecutive numbers on a face are neighbours on its grid. */
  lemma NeighboursOnCurve(face: nat, i: nat, j: nat, k: nat, l: nat)
    requires OnFace(face, i, j) && OnFace(face, k, l) && Leaf(face, k, l) == Leaf(face, i, j) + 2
    ensures Adjacent(i, j, k, l)
  {
    hide Walk, UnWalk, Pow2, Pow4, Times;
    var o := face % 2;
    UnWalkWalk(30, i, j, o);
    UnWalkWalk(30, k, l, o);
    WalkBound(30, k, l, o);
    Continuous(30, CurvePos(face, i, j), o);
  }

  /** Each face's leaves start at (0, 0). On an even face they end at the far end of the
      i axis, on an odd face at the far end of the j axis. */
  lemma FaceEnds(face: nat)
    requires face < 6
    ensures Leaf(face, 0, 0) == 2 * (face * 0x1000_0000_0000_0000) + 1
    ensures face % 2 == 0 ==> Leaf(face, 0x3FFF_FFFF, 0) == 2 * ((face + 1) * 0x1000_0000_0000_0000) - 1
    ensures face % 2 == 1 ==> Leaf(face, 0, 0x3FFF_FFFF) == 2 * ((face + 1) * 0x1000_0000_0000_0000) - 1
  {
    GridSize();
    hide Walk, Pow2, Pow4;
    Pow2Literals();
    WalkStart(30, face % 2);
    WalkEndI(30);
    WalkEndJ(30);
  }

  lemma GridSize()
    ensures Pow2(30) == 0x4000_0000
  {
    Pow2Literals();
    assert Pow2(32) == 2 * Pow2(31) == 4 * Pow2(30);
  }

  // --- cells as aligned squares ---

  lemma {:induction false} ShrLow(n: nat, t: nat)
    ensures n == Times(Shr(n, t), Pow2(t)) + LowBits(n, t)
  {
    if t == 0 {
      assert Times(n, 1) == n;
    } else {
      hide Times;
      ShrLow(n / 2, t - 1);
      DoubleTimes(Shr(n / 2, t - 1), Pow2(t - 1));
    }
  }

  lemma ShrOf(q: nat, r: nat, t: nat)
    requires r < Pow2(t)
    ensures Shr(Times(q, Pow2(t)) + r, t) == q
  {
    hide Pow2, Shr, LowBits;
    var n := Times(q, Pow2(t)) + r;
    ShrLow(n, t);
    FaceAndPos(Shr(n, t), LowBits(n, t), q, r, Pow2(t));
  }

  /** A leaf's ancestor, in terms of the leaf's number on the curve. */
  lemma ParentOfLeaf(n: nat, m: nat)
    requires m <= 30
    ensures Parent(2 * n + 1, 30 - m) == 2 * Times(Shr(n, 2 * m), Pow2(2 * m)) + Pow2(2 * m)
  {
    ShrLow(n, 2 * m);
    LowBitsOdd(n, 2 * m);
  }

  lemma LowBitsOdd(n: nat, t: nat)
    ensures LowBits(2 * n + 1, t + 1) == 1 + 2 * LowBits(n, t)
  {
    HalvesOf(n, 1);
  }

  /** The curve position above `m` levels is the walk of the top bits. */
  lemma CurveTop(face: nat, i: nat, j: nat, m: nat)
    requires OnFace(face, i, j) && m <= 30
    ensures var p := Walk(30 - m, Shr(i, m), Shr(j, m), face % 2).pos;
            && p < Pow2(60 - 2 * m)
            && Shr(Times(face, Pow2(60)) + CurvePos(face, i, j), 2 * m) == Times(face, Pow2(60 - 2 * m)) + p
  {
    hide Walk, Shr, LowBits, Pow2, Pow4, Times;
    var w := Walk(30 - m, Shr(i, m), Shr(j, m), face % 2);
    var x := Walk(m, LowBits(i, m), LowBits(j, m), w.orient);
    Compose(30 - m, m, i, j, face % 2);
    WalkBound(30 - m, Shr(i, m), Shr(j, m), face % 2);
    WalkBound(m, LowBits(i, m), LowBits(j, m), w.orient);
    Pow4IsPow2(30 - m);
    Pow4IsPow2(m);
    Pow2Add(60 - 2 * m, 2 * m);
    ScaledSum(face, Pow2(60 - 2 * m), w.pos, Pow2(2 * m));
    ShrOf(Times(face, Pow2(60 - 2 * m)) + w.pos, x.pos, 2 * m);
  }

  /** Two leaves share their level-L ancestor exactly when they share the face and the top L bits of i and j. */
  lemma CellsAreSquares(f: nat, i: nat, j: nat, g: nat, k: nat, l: nat, level: nat)
    requires OnFace(f, i, j) && OnFace(g, k, l) && level <= 30
    ensures Parent(Leaf(f, i, j), level) == Parent(Leaf(g, k, l), level) <==>
            f == g && Shr(i, 30 - level) == Shr(k, 30 - level) && Shr(j, 30 - level) == Shr(l, 30 - level)
  {
    hide Walk, Shr, LowBits, Pow2, Times, CurvePos, Parent;
    var m := 30 - level;
    var x, y := Times(f, Pow2(60)) + CurvePos(f, i, j), Times(g, Pow2(60)) + CurvePos(g, k, l);
    ParentOfLeaf(x, m);
    ParentOfLeaf(y, m);
    SameQuotient(Shr(x, 2 * m), Shr(y, 2 * m), Pow2(2 * m));
    CurveTop(f, i, j, m);
    CurveTop(g, k, l, m);
    if Shr(x, 2 * m) == Shr(y, 2 * m) {
      FaceAndPos(f, Walk(level, Shr(i, m), Shr(j, m), f % 2).pos, g, Walk(level, Shr(k, m), Shr(l, m), g % 2).pos, Pow2(60 - 2 * m));
      TopBits(i, m);
      TopBits(j, m);
      TopBits(k, m);
      TopBits(l, m);
      SameWalk(level, Shr(i, m), Shr(j, m), Shr(k, m), Shr(l, m), f % 2);
    }
  }

  lemma SameQuotient(a: nat, b: nat, p: nat)
    requires p > 0
    ensures Times(a, p) == Times(b, p) <==> a == b
  {
    ScaleCompare(a, b, p);
  }

  lemma TopBits(n: nat, m: nat)
    requires m <= 30 && n < Pow2(30)
    ensures Shr(n, m) < Pow2(30 - m)
  {
    ShrSmall(n, m, 30 - m);
  }
}
