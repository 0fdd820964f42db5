/** The Hilbert curve of src/s2.rs: the plain one-bit-pair-per-level walk, its
    inverse, and how walks compose. */
module Hilbert {
  import opened Arith
  import opened Bits

  /** Which quadrant (`2 * i_bit + j_bit`) the curve visits at step `k`, by orientation. */
  function PosToIj(o: nat, k: nat): (ij: nat)
    requires o < 4 && k < 4
    ensures ij < 4
  {
    [[0, 1, 3, 2], [0, 2, 3, 1], [3, 2, 0, 1], [3, 1, 0, 2]][o][k]
  }

  /** How the orientation turns at step `k`: swap, none, none, invert and swap. */
  function Turn(k: nat): (t: nat)
    requires k < 4
    ensures t < 4
  {
    [1, 0, 0, 3][k]
  }

  /** `a ^ b` on two bits. */
  function Xor2(a: nat, b: nat): (c: nat)
    requires a < 4 && b < 4
    ensures c < 4
  {
    [[0, 1, 2, 3], [1, 0, 3, 2], [2, 3, 0, 1], [3, 2, 1, 0]][a][b]
  }

  /** The step at which the curve visits a quadrant. */
  function IjToPos(o: nat, ij: nat): (k: nat)
    requires o < 4 && ij < 4
    ensures k < 4 && PosToIj(o, k) == ij
  {
    if PosToIj(o, 0) == ij then 0 else if PosToIj(o, 1) == ij then 1 else if PosToIj(o, 2) == ij then 2 else 3
  }

  lemma QuadrantsDistinct(o: nat, k: nat)
    requires o < 4 && k < 4
    ensures IjToPos(o, PosToIj(o, k)) == k
  {
  }

  /** A position on the curve and the orientation reached. */
  datatype Step = Step(pos: nat, orient: nat)

  /** One level down, into the quadrant with i bit `a` and j bit `b`. */
  function Down(w: Step, a: nat, b: nat): (x: Step)
    requires w.orient < 4 && a < 2 && b < 2
    ensures x.orient < 4
  {
    var k := IjToPos(w.orient, 2 * a + b);
    Step(4 * w.pos + k, Xor2(w.orient, Turn(k)))
  }

  /** Walk down `n` levels from orientation `o`, one bit of i and of j per level. */
  function Walk(n: nat, i: nat, j: nat, o: nat): (w: Step)
    requires o < 4
    ensures w.orient < 4
  {
    if n == 0 then Step(0, o) else Down(Walk(n - 1, i / 2, j / 2, o), i % 2, j % 2)
  }

  /** Where the curve is after `p`: the cell's i and j and the orientation. */
  datatype Place = Place(i: nat, j: nat, orient: nat)

  /** One level down, at step `k` of the curve. */
  function Visit(w: Place, k: nat): (x: Place)
    requires w.orient < 4 && k < 4
    ensures x.orient < 4
  {
    var ij := PosToIj(w.orient, k);
    Place(2 * w.i + ij / 2, 2 * w.j + ij % 2, Xor2(w.orient, Turn(k)))
  }

  /** The inverse: the quadrants a position's base-4 digits name. */
  function UnWalk(n: nat, p: nat, o: nat): (w: Place)
    requires o < 4
    ensures w.orient < 4
  {
    if n == 0 then Place(0, 0, o) else Visit(UnWalk(n - 1, p / 4, o), p % 4)
  }

  // --- one level ---

  lemma DownDigit(w: Step, a: nat, b: nat)
    requires w.orient < 4 && a < 2 && b < 2
    ensures var p := Down(w, a, b).pos; p / 4 == w.pos && p % 4 < 4 && p == 4 * w.pos + p % 4
  {
  }

  lemma VisitDown(u: Place, w: Step, a: nat, b: nat)
    requires w.orient < 4 && a < 2 && b < 2 && u.orient == w.orient
    ensures Visit(u, Down(w, a, b).pos % 4) == Place(2 * u.i + a, 2 * u.j + b, Down(w, a, b).orient)
  {
    hide PosToIj, Turn, Xor2;
    var k := IjToPos(w.orient, 2 * a + b);
    assert (4 * w.pos + k) % 4 == k;
    assert (2 * a + b) / 2 == a && (2 * a + b) % 2 == b;
  }

  lemma DownVisit(w: Step, u: Place, k: nat)
    requires w.orient < 4 && u.orient == w.orient && k < 4
    ensures var x := Visit(u, k);
            && x.i / 2 == u.i && x.j / 2 == u.j
            && Down(w, x.i % 2, x.j % 2) == Step(4 * w.pos + k, x.orient)
  {
    hide PosToIj, Turn, Xor2, IjToPos;
    var ij := PosToIj(u.orient, k);
    QuadrantsDistinct(u.orient, k);
    HalvesOf(u.i, ij / 2);
    HalvesOf(u.j, ij % 2);
  }

  lemma HalvesOf(a: nat, b: nat)
    requires b < 2
    ensures (2 * a + b) / 2 == a && (2 * a + b) % 2 == b
  {
  }

  // --- the walk is a bijection at every depth ---

  lemma {:induction false} WalkBound(n: nat, i: nat, j: nat, o: nat)
    requires o < 4
    ensures Walk(n, i, j, o).pos < Pow4(n)
  {
    hide Down;
    if n > 0 {
      WalkBound(n - 1, i / 2, j / 2, o);
      DownDigit(Walk(n - 1, i / 2, j / 2, o), i % 2, j % 2);
    }
  }

  lemma {:induction false} UnWalkBound(n: nat, p: nat, o: nat)
    requires o < 4
    ensures UnWalk(n, p, o).i < Pow2(n) && UnWalk(n, p, o).j < Pow2(n)
  {
    hide PosToIj, Turn, Xor2;
    if n > 0 { UnWalkBound(n - 1, p / 4, o); }
  }

  lemma {:induction false} UnWalkWalk(n: nat, i: nat, j: nat, o: nat)
    requires o < 4 && i < Pow2(n) && j < Pow2(n)
    ensures UnWalk(n, Walk(n, i, j, o).pos, o) == Place(i, j, Walk(n, i, j, o).orient)
  {
    hide Down, Visit;
    if n > 0 {
      var w := Walk(n - 1, i / 2, j / 2, o);
      UnWalkWalk(n - 1, i / 2, j / 2, o);
      DownDigit(w, i % 2, j % 2);
      VisitDown(UnWalk(n - 1, w.pos, o), w, i % 2, j % 2);
    }
  }

  lemma {:induction false} WalkUnWalk(n: nat, p: nat, o: nat)
    requires o < 4 && p < Pow4(n)
    ensures var u := UnWalk(n, p, o); Walk(n, u.i, u.j, o) == Step(p, u.orient)
  {
    hide Down, Visit;
    if n > 0 {
      WalkUnWalk(n - 1, p / 4, o);
      var u := UnWalk(n - 1, p / 4, o);
      DownVisit(Step(p / 4, u.orient), u, p % 4);
    }
  }

  // --- walks compose level by level ---

  lemma DownShift(w: Step, base: nat, a: nat, b: nat)
    requires w.orient < 4 && a < 2 && b < 2
    ensures Down(Step(base + w.pos, w.orient), a, b) == Step(4 * base + Down(w, a, b).pos, Down(w, a, b).orient)
  {
  }

  lemma LowBitsHalves(n: nat, m: nat)
    requires m > 0
    ensures LowBits(n, m) / 2 == LowBits(n / 2, m - 1) && LowBits(n, m) % 2 == n % 2
  {
    HalvesOf(LowBits(n / 2, m - 1), n % 2);
  }

  /** A walk of `n + m` levels is a walk on the high bits, then one on the low `m` bits. */
  lemma {:induction false} Compose(n: nat, m: nat, i: nat, j: nat, o: nat)
    requires o < 4
    ensures var w := Walk(n, Shr(i, m), Shr(j, m), o);
            var x := Walk(m, LowBits(i, m), LowBits(j, m), w.orient);
            Walk(n + m, i, j, o) == Step(Times(w.pos, Pow4(m)) + x.pos, x.orient)
  {
    hide Down, LowBits;
    var w := Walk(n, Shr(i, m), Shr(j, m), o);
    if m > 0 {
      Compose(n, m - 1, i / 2, j / 2, o);
      LowBitsHalves(i, m);
      LowBitsHalves(j, m);
      var x := Walk(m - 1, LowBits(i / 2, m - 1), LowBits(j / 2, m - 1), w.orient);
      DownShift(x, Times(w.pos, Pow4(m - 1)), i % 2, j % 2);
      assert Times(w.pos, Pow4(m)) == 4 * Times(w.pos, Pow4(m - 1));
    }
  }

  /** Two leading zero levels contribute position 0 and restore a face's orientation. */
  lemma {:induction false} LeadingZeros(n: nat, i: nat, j: nat, o: nat)
    requires o < 2 && i < Pow2(n) && j < Pow2(n)
    ensures Walk(n + 2, i, j, o) == Walk(n, i, j, o)
  {
    hide Down;
    if n == 0 {
      TwoZeros(o);
      assert Walk(1, 0, 0, o) == Down(Step(0, o), 0, 0);
    } else {
      LeadingZeros(n - 1, i / 2, j / 2, o);
    }
  }

  lemma FirstQuadrant(o: nat)
    requires o < 2
    ensures IjToPos(o, 0) == 0 && Xor2(o, Turn(0)) == 1 - o
  {
    assert o == 0 || o == 1;
  }

  lemma DownZero(w: Step)
    requires w.orient < 2
    ensures Down(w, 0, 0) == Step(4 * w.pos, 1 - w.orient)
  {
    hide PosToIj, IjToPos, Xor2, Turn;
    FirstQuadrant(w.orient);
  }

  lemma TwoZeros(o: nat)
    requires o < 2
    ensures Down(Down(Step(0, o), 0, 0), 0, 0) == Step(0, o)
  {
    hide Down;
    DownZero(Step(0, o));
    DownZero(Step(0, 1 - o));
  }

  // --- where the curve starts and ends ---

  lemma DownStart(w: Step)
    requires w.orient < 2
    ensures Down(w, 0, 0).pos == 4 * w.pos && Down(w, 0, 0).orient < 2
  {
    DownZero(w);
  }

  /** From a face's orientation the curve starts at (0, 0), at every depth. */
  lemma {:induction false} WalkStart(n: nat, o: nat)
    requires o < 2
    ensures Walk(n, 0, 0, o).pos == 0 && Walk(n, 0, 0, o).orient < 2
  {
    hide Down;
    if n > 0 {
      WalkStart(n - 1, o);
      DownStart(Walk(n - 1, 0, 0, o));
    }
  }

  /** The far end of the first axis, reached in orientations 0 and 3. */
  lemma DownFarI(w: Step)
    requires w.orient == 0 || w.orient == 3
    ensures Down(w, 1, 0).pos == 4 * w.pos + 3 && Down(w, 1, 0).orient in {0, 3}
  {
    assert IjToPos(w.orient, 2) == 3;
  }

  /** And of the second, in orientations 1 and 2. */
  lemma DownFarJ(w: Step)
    requires w.orient == 1 || w.orient == 2
    ensures Down(w, 0, 1).pos == 4 * w.pos + 3 && Down(w, 0, 1).orient in {1, 2}
  {
    assert IjToPos(w.orient, 1) == 3;
  }

  lemma LastHalves(n: nat)
    requires n > 0
    ensures (Pow2(n) - 1) / 2 == Pow2(n - 1) - 1 && (Pow2(n) - 1) % 2 == 1
  {
    HalvesOf(Pow2(n - 1) - 1, 1);
  }

  /** Unswapped, the curve ends at the far end of the i axis. */
  lemma {:induction false} WalkEndI(n: nat)
    ensures Walk(n, Pow2(n) - 1, 0, 0).pos == Pow4(n) - 1 && Walk(n, Pow2(n) - 1, 0, 0).orient in {0, 3}
  {
    hide Down;
    if n > 0 {
      WalkEndI(n - 1);
      LastHalves(n);
      DownFarI(Walk(n - 1, Pow2(n - 1) - 1, 0, 0));
    }
  }

  /** Swapped, at the far end of the j axis. */
  lemma {:induction false} WalkEndJ(n: nat)
    ensures Walk(n, 0, Pow2(n) - 1, 1).pos == Pow4(n) - 1 && Walk(n, 0, Pow2(n) - 1, 1).orient in {1, 2}
  {
    hide Down;
    if n > 0 {
      WalkEndJ(n - 1);
      LastHalves(n);
      DownFarJ(Walk(n - 1, 0, Pow2(n - 1) - 1, 1));
    }
  }

  // --- the curve is continuous ---

  /** The corner quadrant where the curve enters a square, at every depth. */
  function EntryCorner(o: nat): (ij: nat)
    requires o < 4
    ensures ij < 4
  {
    PosToIj(o, 0)
  }

  /** And the corner where it leaves. */
  function ExitCorner(o: nat): (ij: nat)
    requires o < 4
    ensures ij < 4
  {
    PosToIj(o, 3)
  }

  predicate Adjacent(i: int, j: int, k: int, l: int) {
    (i == k && (j == l + 1 || l == j + 1)) || (j == l && (i == k + 1 || k == i + 1))
  }

  /** `v` is the square next to `u`, and the curve leaves `u` across their common
      side right where it enters `v`. */
  ghost predicate Joined(u: Place, v: Place) {
    && u.orient < 4 && v.orient < 4
    && Adjacent(u.i, u.j, v.i, v.j)
    && v.i - u.i == ExitCorner(u.orient) / 2 - EntryCorner(v.orient) / 2
    && v.j - u.j == ExitCorner(u.orient) % 2 - EntryCorner(v.orient) % 2
  }

  lemma CornersStay(o: nat)
    requires o < 4
    ensures EntryCorner(Xor2(o, Turn(0))) == EntryCorner(o) && ExitCorner(Xor2(o, Turn(3))) == ExitCorner(o)
  {
    assert o == 0 || o == 1 || o == 2 || o == 3;
  }

  /** One step of the curve inside a square. */
  lemma QuadrantsJoin(u: Place, k: nat)
    requires u.orient < 4 && k < 3
    ensures Joined(Visit(u, k), Visit(u, k + 1))
  {
    TableJoins(u.orient, k);
  }

  lemma TableJoins(o: nat, k: nat)
    requires o < 4 && k < 3
    ensures var (a, b) := (PosToIj(o, k), PosToIj(o, k + 1));
            var (e, f) := (ExitCorner(Xor2(o, Turn(k))), EntryCorner(Xor2(o, Turn(k + 1))));
            && Adjacent(a / 2, a % 2, b / 2, b % 2)
            && b / 2 + f / 2 == a / 2 + e / 2 && b % 2 + f % 2 == a % 2 + e % 2
  {
    assert o == 0 || o == 1 || o == 2 || o == 3;
    assert k == 0 || k == 1 || k == 2;
  }

  /** And from one square into the next, one level down. */
  lemma JoinedBelow(u: Place, v: Place)
    requires Joined(u, v)
    ensures Joined(Visit(u, 3), Visit(v, 0))
  {
    hide PosToIj, Xor2, Turn;
    CornersStay(u.orient);
    CornersStay(v.orient);
  }

  /** Consecutive positions on the curve are neighbouring squares, at every depth. */
  lemma {:induction false} Continuous(n: nat, p: nat, o: nat)
    requires o < 4 && p + 1 < Pow4(n)
    ensures Joined(UnWalk(n, p, o), UnWalk(n, p + 1, o))
  {
    hide Visit, Joined;
    if p % 4 < 3 {
      assert (p + 1) / 4 == p / 4 && (p + 1) % 4 == p % 4 + 1;
      QuadrantsJoin(UnWalk(n - 1, p / 4, o), p % 4);
    } else {
      assert (p + 1) / 4 == p / 4 + 1 && (p + 1) % 4 == 0;
      Continuous(n - 1, p / 4, o);
      JoinedBelow(UnWalk(n - 1, p / 4, o), UnWalk(n - 1, p / 4 + 1, o));
    }
  }
}
