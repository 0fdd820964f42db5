/** From (face, i, j) to a leaf id (src/s2.rs): the table of four-level walks, the
    table-driven loop, and what the resulting numbering is. */
module LeafCells {
  import opened Arith
  import opened Bits
  import opened Hilbert

  // --- the lookup table ---

  const LOOKUP_BITS: nat := 4

  /** `(((a << 4) + b) << 2) + o` */
  function Index(a: nat, b: nat, o: nat): (x: nat)
    requires a < 16 && b < 16 && o < 4
    ensures x < 1024
  {
    64 * a + 4 * b + o
  }

  /** A four-level walk packed as `(pos << 2) + orientation`. */
  function Entry(a: nat, b: nat, o: nat): nat
    requires o < 4
  {
    4 * Walk(4, a, b, o).pos + Walk(4, a, b, o).orient
  }

  /** Cell (a, b) of the 16 by 16 grid lies under (i, j) at `level`. */
  predicate Under(level: nat, i: nat, j: nat, a: nat, b: nat)
    requires level <= 4
  {
    Shr(a, 4 - level) == i && Shr(b, 4 - level) == j
  }

  /** The quadrant of the next level that (a, b) falls in. */
  function Quadrant(level: nat, a: nat, b: nat): (ij: nat)
    requires level < 4
    ensures ij < 4
  {
    2 * (Shr(a, 3 - level) % 2) + Shr(b, 3 - level) % 2
  }

  /** From `was` to `now`, exactly the entries under (i, j) were set. */
  ghost predicate Filled(now: seq<nat>, was: seq<nat>, level: nat, i: nat, j: nat, orig: nat) {
    && |now| == |was| == 1024 && level <= 4
    && forall a, b, o :: a < 16 && b < 16 && o < 4 ==>
                           now[Index(a, b, o)] == if o == orig && Under(level, i, j, a, b) then Entry(a, b, o) else was[Index(a, b, o)]
  }

  /** The same for the first `k` quadrants in curve order. */
  ghost predicate PartFilled(now: seq<nat>, was: seq<nat>, level: nat, i: nat, j: nat, orig: nat, orient: nat, k: nat) {
    && |now| == |was| == 1024 && level < 4 && orient < 4
    && forall a, b, o :: a < 16 && b < 16 && o < 4 ==>
                           now[Index(a, b, o)] ==
                           if o == orig && Under(level, i, j, a, b) && IjToPos(orient, Quadrant(level, a, b)) < k
                           then Entry(a, b, o) else was[Index(a, b, o)]
  }

  lemma {:induction false} ShrStep(n: nat, t: nat)
    ensures Shr(n, t + 1) == Shr(n, t) / 2
  {
    if t > 0 { ShrStep(n / 2, t - 1); }
  }

  /** The cells under a child are those under the parent in the child's quadrant. */
  lemma UnderChild(level: nat, i: nat, j: nat, orient: nat, k: nat, a: nat, b: nat)
    requires level < 4 && orient < 4 && k < 4
    ensures var r := PosToIj(orient, k);
            Under(level + 1, 2 * i + r / 2, 2 * j + r % 2, a, b) <==>
            Under(level, i, j, a, b) && IjToPos(orient, Quadrant(level, a, b)) == k
  {
    hide PosToIj, IjToPos;
    var r := PosToIj(orient, k);
    ShrStep(a, 3 - level);
    ShrStep(b, 3 - level);
    QuadrantsDistinct(orient, k);
    HalvesOf(i, r / 2);
    HalvesOf(j, r % 2);
    QuadrantBits(level, a, b, r);
  }

  lemma QuadrantBits(level: nat, a: nat, b: nat, r: nat)
    requires level < 4 && r < 4
    ensures Quadrant(level, a, b) == r <==> Shr(a, 3 - level) % 2 == r / 2 && Shr(b, 3 - level) % 2 == r % 2
  {
    hide Shr;
  }

  lemma PartStep(was: seq<nat>, mid: seq<nat>, now: seq<nat>, level: nat, i: nat, j: nat, orig: nat, orient: nat, k: nat)
    requires k < 4 && PartFilled(mid, was, level, i, j, orig, orient, k)
    requires var r := PosToIj(orient, k);
             Filled(now, mid, level + 1, 2 * i + r / 2, 2 * j + r % 2, orig)
    ensures PartFilled(now, was, level, i, j, orig, orient, k + 1)
  {
    hide PosToIj, IjToPos, Shr, Entry, Under, Quadrant, Index;
    forall a, b, o | a < 16 && b < 16 && o < 4
      ensures now[Index(a, b, o)] ==
              if o == orig && Under(level, i, j, a, b) && IjToPos(orient, Quadrant(level, a, b)) < k + 1
              then Entry(a, b, o) else was[Index(a, b, o)]
    {
      UnderChild(level, i, j, orient, k, a, b);
    }
  }

  lemma PartNone(was: seq<nat>, level: nat, i: nat, j: nat, orig: nat, orient: nat)
    requires |was| == 1024 && level < 4 && orient < 4
    ensures PartFilled(was, was, level, i, j, orig, orient, 0)
  {
  }

  lemma PartAll(now: seq<nat>, was: seq<nat>, level: nat, i: nat, j: nat, orig: nat, orient: nat)
    requires PartFilled(now, was, level, i, j, orig, orient, 4)
    ensures Filled(now, was, level, i, j, orig)
  {
    hide PosToIj, IjToPos, Shr, Entry, Under, Quadrant, Index;
  }

  lemma IndexInjective(a: nat, b: nat, o: nat, c: nat, d: nat, p: nat)
    requires a < 16 && b < 16 && o < 4 && c < 16 && d < 16 && p < 4
    ensures Index(a, b, o) == Index(c, d, p) <==> a == c && b == d && o == p
  {
    if a < c {
      assert Index(a, b, o) < 64 * a + 64 <= 64 * c;
    } else if c < a {
      assert Index(c, d, p) < 64 * c + 64 <= 64 * a;
    } else if b < d {
      assert 4 * b + o < 4 * d;
    } else if d < b {
      assert 4 * d + p < 4 * b;
    }
  }

  /** Setting one entry fills the subtree of a single cell. */
  lemma LeafFilled(was: seq<nat>, i: nat, j: nat, orig: nat)
    requires |was| == 1024 && i < 16 && j < 16 && orig < 4
    ensures Filled(was[Index(i, j, orig) := Entry(i, j, orig)], was, 4, i, j, orig)
  {
    hide Entry, Index;
    var now := was[Index(i, j, orig) := Entry(i, j, orig)];
    forall a, b, o | a < 16 && b < 16 && o < 4
      ensures now[Index(a, b, o)] == if o == orig && Under(4, i, j, a, b) then Entry(a, b, o) else was[Index(a, b, o)]
    {
      IndexInjective(a, b, o, i, j, orig);
    }
  }

  /** One more level of the walk that reached (i, j). */
  lemma WalkDown(level: nat, i: nat, j: nat, orig: nat, pos: nat, orient: nat, k: nat)
    requires orig < 4 && orient < 4 && k < 4 && Walk(level, i, j, orig) == Step(pos, orient)
    ensures var r := PosToIj(orient, k);
            Walk(level + 1, 2 * i + r / 2, 2 * j + r % 2, orig) == Step(4 * pos + k, Xor2(orient, Turn(k)))
  {
    hide PosToIj, IjToPos, Xor2, Turn, Down;
    DownVisit(Step(pos, orient), Place(i, j, orient), k);
  }

  method Fill(t: array<nat>, level: nat, i: nat, j: nat, orig: nat, pos: nat, orient: nat)
    requires t.Length == 1024 && level <= 4 && i < Pow2(level) && j < Pow2(level) && orig < 4 && orient < 4
    requires Walk(level, i, j, orig) == Step(pos, orient)
    modifies t
    ensures Filled(t[..], old(t[..]), level, i, j, orig)
    decreases 4 - level
  {
    hide Walk, Filled, PartFilled, PosToIj, Xor2, Turn, Entry, Index;
    if level == LOOKUP_BITS {
      FourLevels(i, j, orig, pos, orient);
      LeafFilled(t[..], i, j, orig);
      t[Index(i, j, orig)] := 4 * pos + orient;
      return;
    }
    ghost var was := t[..];
    PartNone(was, level, i, j, orig, orient);
    for k := 0 to 4
      invariant PartFilled(t[..], was, level, i, j, orig, orient, k)
    {
      ghost var mid := t[..];
      var r := PosToIj(orient, k);
      WalkDown(level, i, j, orig, pos, orient, k);
      BelowTwice(level, i, r / 2);
      BelowTwice(level, j, r % 2);
      Fill(t, level + 1, 2 * i + r / 2, 2 * j + r % 2, orig, 4 * pos + k, Xor2(orient, Turn(k)));
      PartStep(was, mid, t[..], level, i, j, orig, orient, k);
    }
    PartAll(t[..], was, level, i, j, orig, orient);
  }

  lemma BelowTwice(level: nat, i: nat, bit: nat)
    requires i < Pow2(level) && bit < 2
    ensures 2 * i + bit < Pow2(level + 1)
  {
  }

  lemma FourLevels(i: nat, j: nat, orig: nat, pos: nat, orient: nat)
    requires orig < 4 && i < Pow2(4) && j < Pow2(4) && Walk(4, i, j, orig) == Step(pos, orient)
    ensures i < 16 && j < 16 && Entry(i, j, orig) == 4 * pos + orient
  {
    hide Walk;
  }

  ghost predicate IsTable(t: seq<nat>) {
    |t| == 1024 && forall a, b, o :: a < 16 && b < 16 && o < 4 ==> t[Index(a, b, o)] == Entry(a, b, o)
  }

  /** The table holds, for each 4-bit i and j and each orientation, the four-level walk. */
  method LookupPos() returns (t: array<nat>)
    ensures fresh(t) && IsTable(t[..])
  {
    hide Walk, Entry, Index;
    t := new nat[1024](_ => 0);
    for o := 0 to 4
      invariant t.Length == 1024 && fresh(t)
      invariant forall a: nat, b: nat, p: nat :: a < 16 && b < 16 && p < o ==> t[..][Index(a, b, p)] == Entry(a, b, p)
    {
      WalkNone(o);
      Fill(t, 0, 0, 0, o, 0, o);
      AllUnderRoot();
    }
  }

  lemma WalkNone(o: nat)
    requires o < 4
    ensures Walk(0, 0, 0, o) == Step(0, o) && Pow2(0) == 1
  {
  }

  lemma AllUnderRoot()
    ensures forall a, b :: a < 16 && b < 16 ==> Under(0, 0, 0, a, b)
  {
    forall a: nat, b: nat | a < 16 && b < 16
      ensures Under(0, 0, 0, a, b)
    {
      NibbleGone(a);
      NibbleGone(b);
    }
  }

  lemma NibbleGone(a: nat)
    requires a < 16
    ensures Shr(a, 4) == 0
  {
    assert Shr(a, 4) == Shr(a / 2, 3) == Shr(a / 2 / 2, 2) == Shr(a / 2 / 2 / 2, 1) == a / 2 / 2 / 2 / 2;
  }

  // --- the table-driven walk ---

  /** The number of the leaf at (face, i, j): the face, then 30 levels of the curve. */
  function CurvePos(face: nat, i: nat, j: nat): nat {
    Walk(30, i, j, face % 2).pos
  }

  function Leaf(face: nat, i: nat, j: nat): nat {
    2 * (Times(face, Pow2(60)) + CurvePos(face, i, j)) + 1
  }

  lemma {:induction false} ShrShr(n: nat, s: nat, t: nat)
    ensures Shr(Shr(n, s), t) == Shr(n, s + t)
  {
    if s > 0 { ShrShr(n / 2, s - 1, t); }
  }

  lemma {:induction false} ShrSmall(n: nat, t: nat, s: nat)
    requires n < Pow2(s + t)
    ensures Shr(n, t) < Pow2(s)
  {
    if t > 0 { ShrSmall(n / 2, t - 1, s); }
  }

  /** Four more levels: what one table lookup adds. */
  lemma FourMore(i: nat, j: nat, o: nat, k: nat)
    requires o < 2 && k < 8
    ensures var w := Walk(28 - 4 * k, Shr(i, 4 * k + 4), Shr(j, 4 * k + 4), o);
            var x := Walk(4, LowBits(Shr(i, 4 * k), 4), LowBits(Shr(j, 4 * k), 4), w.orient);
            Walk(32 - 4 * k, Shr(i, 4 * k), Shr(j, 4 * k), o) == Step(256 * w.pos + x.pos, x.orient)
  {
    hide Walk, Shr, LowBits;
    Compose(28 - 4 * k, 4, Shr(i, 4 * k), Shr(j, 4 * k), o);
    ShrShr(i, 4 * k, 4);
    ShrShr(j, 4 * k, 4);
    Pow4Four();
  }

  lemma Pow4Four()
    ensures Pow4(4) == 256 && Pow2(4) == 16 && Pow2(8) == 256
  {
  }

  /** The first lookup sees two zero levels, so it stays clear of the face bits. */
  lemma FirstChunk(i: nat, j: nat, o: nat)
    requires o < 2 && i < Pow2(30) && j < Pow2(30)
    ensures Walk(4, Shr(i, 28), Shr(j, 28), o).pos < 16
  {
    hide Walk;
    ShrSmall(i, 28, 2);
    ShrSmall(j, 28, 2);
    LeadingZeros(2, Shr(i, 28), Shr(j, 28), o);
    WalkBound(2, Shr(i, 28), Shr(j, 28), o);
    assert Pow4(2) == 16;
  }

  lemma ChunkFits(x: nat, s: nat, d: nat)
    requires x < Pow2(d)
    ensures Times(x, Pow2(s)) < Pow2(s + d)
  {
    Pow2Add(s, d);
    ScaleStep(x, Pow2(d), Pow2(s));
  }

  /** Or-ing a chunk in at bit `s` when `n` has nothing below bit `t`. */
  lemma PlaceChunk(q: nat, t: nat, x: nat, s: nat, d: nat)
    requires t == s + d && x < Pow2(d)
    ensures BitOr(Times(q, Pow2(t)), Times(x, Pow2(s))) == Times(Times(q, Pow2(d)) + x, Pow2(s))
  {
    hide Pow2, Times, BitOr, LowBits;
    TimesLow(q, t);
    ChunkFits(x, s, d);
    OrDisjoint(Times(q, Pow2(t)), Times(x, Pow2(s)), t);
    Pow2Add(s, d);
    ScaledSum(q, Pow2(d), x, Pow2(s));
  }

  /** What `n` holds when chunks `k` and up are done. */
  ghost function Placed(face: nat, pos: nat, k: nat): nat
    requires k <= 8
  {
    if k == 8 then Times(face, Pow2(60)) else Times(Times(face, Pow2(60 - 8 * k)) + pos, Pow2(8 * k))
  }

  /** One pass of the loop updates the number and never touches bits already set. */
  lemma PlaceNext(face: nat, pos: nat, x: nat, k: nat)
    requires k < 8 && x < 256 && (k == 7 ==> x < 16 && pos == 0)
    ensures BitOr(Placed(face, pos, k + 1), Times(x, Pow2(8 * k))) == Placed(face, 256 * pos + x, k)
  {
    hide BitOr, Pow2, Times;
    Pow4Four();
    if k == 7 {
      PlaceChunk(face, 60, x, 56, 4);
    } else {
      var t := 8 * k + 8;
      PlaceChunk(Times(face, Pow2(60 - t)) + pos, t, x, 8 * k, 8);
      OneChunkMore(face, pos, 60 - t);
    }
  }

  /** The bits placed so far, seen from one chunk further down. */
  lemma OneChunkMore(face: nat, pos: nat, s: nat)
    ensures Times(Times(face, Pow2(s)) + pos, Pow2(8)) == Times(face, Pow2(s + 8)) + 256 * pos
  {
    assert Times(pos, 256) == 256 * pos;
    hide Times, Pow2;
    Pow4Four();
    Pow2Add(8, s);
    ScaledSum(face, Pow2(s), pos, 256);
  }

  /** The leaf id from the table, eight lookups of four levels each. */
  method FaceIjToLeaf(face: nat, i: nat, j: nat) returns (leaf: nat)
    requires face < 6 && i < Pow2(30) && j < Pow2(30)
    ensures leaf == Leaf(face, i, j)
  {
    hide Walk, BitOr, Pow2, Shr, LowBits, Times, Index, Entry;
    var table := LookupPos();
    var n := Times(face, Pow2(60));
    var bits := face % 2;
    ghost var w := Step(0, bits);
    AllShifted(i, j, bits);
    for k := 8 downto 0
      invariant w == Walk(32 - 4 * k, Shr(i, 4 * k), Shr(j, 4 * k), face % 2) && bits == w.orient
      invariant n == Placed(face, w.pos, k) && (k == 8 ==> w.pos == 0)
      invariant IsTable(table[..])
    {
      var a, b := LowBits(Shr(i, 4 * k), 4), LowBits(Shr(j, 4 * k), 4);
      Nibble(Shr(i, 4 * k));
      Nibble(Shr(j, 4 * k));
      var found := table[Index(a, b, bits)];
      assert found == table[..][Index(a, b, bits)];
      TableAt(table[..], a, b, bits);
      FourMore(i, j, face % 2, k);
      ghost var x := Walk(4, a, b, bits);
      Unpack(a, b, bits);
      ChunkBound(i, j, face % 2, k, w.pos, x.pos);
      PlaceNext(face, w.pos, x.pos, k);
      n := BitOr(n, Times(found / 4, Pow2(8 * k)));
      bits := found % 4;
      w := Step(256 * w.pos + x.pos, x.orient);
    }
    AllLevels(face, i, j, w);
    leaf := n * 2 + 1;
  }

  lemma TableAt(t: seq<nat>, a: nat, b: nat, o: nat)
    requires IsTable(t) && a < 16 && b < 16 && o < 4
    ensures t[Index(a, b, o)] == Entry(a, b, o)
  {
    hide Entry;
  }

  lemma AllShifted(i: nat, j: nat, o: nat)
    requires o < 4 && i < Pow2(30) && j < Pow2(30)
    ensures Walk(0, Shr(i, 32), Shr(j, 32), o) == Step(0, o)
  {
  }

  lemma Nibble(n: nat)
    ensures LowBits(n, 4) < 16
  {
    Pow4Four();
  }

  lemma Unpack(a: nat, b: nat, o: nat)
    requires o < 4
    ensures Entry(a, b, o) / 4 == Walk(4, a, b, o).pos && Entry(a, b, o) % 4 == Walk(4, a, b, o).orient
  {
    hide Walk;
    var w := Walk(4, a, b, o);
    assert (4 * w.pos + w.orient) / 4 == w.pos;
  }

  lemma ChunkBound(i: nat, j: nat, o: nat, k: nat, before: nat, x: nat)
    requires k < 8 && o < 2 && i < Pow2(30) && j < Pow2(30)
    requires var w := Walk(28 - 4 * k, Shr(i, 4 * k + 4), Shr(j, 4 * k + 4), o);
             before == w.pos && x == Walk(4, LowBits(Shr(i, 4 * k), 4), LowBits(Shr(j, 4 * k), 4), w.orient).pos
    ensures x < 256 && (k == 7 ==> x < 16 && before == 0)
  {
    hide Shr, LowBits, Walk;
    var w := Walk(28 - 4 * k, Shr(i, 4 * k + 4), Shr(j, 4 * k + 4), o);
    WalkBound(4, LowBits(Shr(i, 4 * k), 4), LowBits(Shr(j, 4 * k), 4), w.orient);
    Pow4Four();
    if k == 7 {
      WalkBound(0, Shr(i, 32), Shr(j, 32), o);
      FourMore(i, j, o, 7);
      FirstChunk(i, j, o);
    }
  }

  lemma AllLevels(face: nat, i: nat, j: nat, w: Step)
    requires face < 6 && i < Pow2(30) && j < Pow2(30) && w == Walk(32, Shr(i, 0), Shr(j, 0), face % 2)
    ensures 2 * Placed(face, w.pos, 0) + 1 == Leaf(face, i, j)
  {
    hide Walk, Shr, Pow2, Times;
    NothingShifted(i);
    NothingShifted(j);
    NothingShifted(Times(face, Pow2(60)) + w.pos);
    LeadingZeros(30, i, j, face % 2);
  }

  lemma NothingShifted(n: nat)
    ensures Shr(n, 0) == n && Times(n, Pow2(0)) == n
  {
  }
}
