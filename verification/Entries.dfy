/** One voxel entry (src/s2.rs): its bounds in zoom-32 bins, the coarsest-zoom
    spelling of an interval, and the bin a height falls into. */
module Entries {
  import opened Arith
  import opened Bytes
  import opened Heights
  import opened Options

  /** One S2 cell and one height interval in Spatial ID bins. */
  datatype Voxel = Voxel(cell: U64, zoom: U32, fMin: I64, fMax: I64)

  /** The bins named exist at this zoom, and are in order. */
  predicate BoundsOk(v: Voxel) {
    v.zoom <= MAX_ZOOM && 0 - Pow2(v.zoom) <= v.fMin <= v.fMax < Pow2(v.zoom)
  }

  /** `32 - zoom`; callers only pass zooms up to 32. */
  function Gap(zoom: nat): nat {
    if zoom <= MAX_ZOOM then MAX_ZOOM - zoom else 0
  }

  /** The first zoom-32 bin of the interval. */
  function Lo(v: Voxel): int {
    v.fMin * Pow2(Gap(v.zoom))
  }

  /** The zoom-32 bin after its last. */
  function Hi(v: Voxel): int {
    (v.fMax + 1) * Pow2(Gap(v.zoom))
  }

  function SpanOf(v: Voxel): Span {
    Span(Lo(v), Hi(v))
  }

  /** The checker's coarsest-zoom rule: the interval is not a union of wider bins. */
  predicate AtCoarsest(v: Voxel) {
    !(v.zoom > 0 && v.fMin % 2 == 0 && v.fMax % 2 == 1)
  }

  predicate IsFullHeight(v: Voxel) {
    SpanOf(v) == Span(-TOP, TOP)
  }

  /** The bounds in figures: zooms 0 to 32, and 2^zoom bins on either side of height 0. */
  lemma BoundsMean(v: Voxel)
    ensures BoundsOk(v) <==> 0 <= v.zoom <= 32 && v.fMin <= v.fMax && -(Pow2(v.zoom) as int) <= v.fMin && v.fMax <= Pow2(v.zoom) - 1
  {
  }

  // --- bins of different zooms ---

  lemma ScaleSplit(a: int, d: nat, p: nat)
    ensures a * (d * p) == (a * d) * p
  {
  }

  /** `2^32 = 2^zoom * 2^(32 - zoom)`. */
  lemma TopSplit(zoom: nat)
    requires zoom <= MAX_ZOOM
    ensures Pow2(zoom) * Pow2(MAX_ZOOM - zoom) == TOP
  {
    Pow2Add(zoom, MAX_ZOOM - zoom);
    Pow2Literals();
  }

  /** An in-bounds entry is a proper interval of zoom-32 bins. */
  lemma BoundsInBins(v: Voxel)
    requires v.zoom <= MAX_ZOOM
    ensures BoundsOk(v) <==> -TOP <= Lo(v) < Hi(v) <= TOP
  {
    hide Pow2;
    var n: int, p := Pow2(v.zoom), Pow2(MAX_ZOOM - v.zoom);
    TopSplit(v.zoom);
    assert -n * p == -(n * p);
    ScaleCompare(v.fMin, -n, p);
    ScaleCompare(v.fMin, v.fMax + 1, p);
    ScaleCompare(n, v.fMax + 1, p);
  }

  // --- the coarsest spelling is unique ---

  lemma CoarserIsEven(a: int, b: int, c: nat, d: nat)
    requires c < d && a * Pow2(c) == b * Pow2(d)
    ensures a % 2 == 0
  {
    Pow2Add(d - c - 1, c + 1);
    var e := Pow2(d - c - 1);
    assert Pow2(c + 1) == 2 * Pow2(c);
    calc {
      b * Pow2(d);
      b * (e * (2 * Pow2(c)));
      == { ScaleSplit(b, e, 2 * Pow2(c)); ScaleSplit(b * e, 2, Pow2(c)); }
      (b * e * 2) * Pow2(c);
    }
    ScaleCompare(a, b * e * 2, Pow2(c));
  }

  lemma SpanParts(v: Voxel, w: Voxel)
    requires v.zoom <= MAX_ZOOM && w.zoom <= MAX_ZOOM && SpanOf(v) == SpanOf(w)
    ensures v.fMin * Pow2(MAX_ZOOM - v.zoom) == w.fMin * Pow2(MAX_ZOOM - w.zoom)
    ensures (v.fMax + 1) * Pow2(MAX_ZOOM - v.zoom) == (w.fMax + 1) * Pow2(MAX_ZOOM - w.zoom)
  {
    hide Pow2;
  }

  lemma NoFinerSpelling(v: Voxel, w: Voxel)
    requires w.zoom < v.zoom <= MAX_ZOOM && SpanOf(v) == SpanOf(w)
    ensures !AtCoarsest(v)
  {
    hide Pow2, Lo, Hi;
    SpanParts(v, w);
    var c, d := MAX_ZOOM - v.zoom, MAX_ZOOM - w.zoom;
    CoarserIsEven(v.fMin, w.fMin, c, d);
    CoarserIsEven(v.fMax + 1, w.fMax + 1, c, d);
    OddBeforeEven(v.fMax);
  }

  lemma OddBeforeEven(x: int)
    requires (x + 1) % 2 == 0
    ensures x % 2 == 1
  {
  }

  /** An entry without its cell: how it spells its interval. */
  datatype Key = Key(zoom: nat, fMin: int, fMax: int)

  function KeyOf(v: Voxel): Key {
    Key(v.zoom, v.fMin, v.fMax)
  }

  /** One interval has one spelling the checker accepts as coarsest. */
  lemma OneEntry(v: Voxel, w: Voxel)
    requires BoundsOk(v) && BoundsOk(w) && AtCoarsest(v) && AtCoarsest(w)
    ensures SpanOf(v) == SpanOf(w) <==> KeyOf(v) == KeyOf(w)
  {
    if SpanOf(v) == SpanOf(w) { SameSpelling(v, w); }
  }

  lemma SameSpelling(v: Voxel, w: Voxel)
    requires BoundsOk(v) && BoundsOk(w) && AtCoarsest(v) && AtCoarsest(w) && SpanOf(v) == SpanOf(w)
    ensures KeyOf(v) == KeyOf(w)
  {
    if w.zoom < v.zoom { NoFinerSpelling(v, w); }
    if v.zoom < w.zoom { NoFinerSpelling(w, v); }
    var p := Pow2(MAX_ZOOM - v.zoom);
    ScaleCompare(v.fMin, w.fMin, p);
    ScaleCompare(v.fMax + 1, w.fMax + 1, p);
  }

  // --- writing an interval ---

  /** Truncating remainder and quotient of a signed machine word. */
  function Rem(a: int, b: nat): int
    requires b > 0
  {
    if a >= 0 then a % b else -(-a % b)
  }

  function Quot(a: int, b: nat): int
    requires b > 0
  {
    if a >= 0 then a / b else -(-a / b)
  }

  lemma QuotExact(q: int, b: nat)
    requires b > 0
    ensures Quot(q * b, b) == q
  {
    if q >= 0 {
      ScaleMonotone(0, q, b);
      DivModUnique(q * b, b, q, 0);
    } else {
      ScaleStep(q, 0, b);
      assert -(q * b) == -q * b;
      DivModUnique(-(q * b), b, -q, 0);
    }
  }

  /** Divisible by `2p` exactly when the multiple of `p` is even. */
  lemma RemEven(m: int, p: nat)
    requires p > 0
    ensures Rem(m * p, 2 * p) == 0 <==> m % 2 == 0
  {
    if m >= 0 {
      ScaleMonotone(0, m, p);
      HalfRem(m, p);
    } else {
      ScaleStep(m, 0, p);
      assert -(m * p) == -m * p;
      HalfRem(-m, p);
    }
  }

  lemma HalfRem(m: nat, p: nat)
    requires p > 0
    ensures m * p >= 0 && (m * p % (2 * p) == 0 <==> m % 2 == 0)
  {
    var q, r := m / 2, m % 2;
    assert m == 2 * q + r;
    assert m * p == q * (2 * p) + r * p;
    assert r * p == 0 || r * p == p;
    DivModUnique(m * p, 2 * p, q, r * p);
  }

  /** `x` is `m` bins of `2^d`. */
  ghost predicate Bins(x: int, m: int, d: nat) {
    x == m * Pow2(d)
  }

  lemma UnitBins(x: int)
    ensures Bins(x, x, 0)
  {
  }

  /** One step towards a coarser zoom. */
  lemma Coarsen(x: int, m: int, d: nat)
    requires Bins(x, m, d)
    ensures Rem(x, Pow2(d + 1)) == 0 <==> m % 2 == 0
    ensures m % 2 == 0 ==> Bins(x, m / 2, d + 1)
  {
    var p := Pow2(d);
    assert Pow2(d + 1) == 2 * p;
    RemEven(m, p);
    if m % 2 == 0 { Halve(m, p); }
  }

  lemma Halve(m: int, p: nat)
    requires m % 2 == 0
    ensures m * p == m / 2 * (2 * p)
  {
    var h := m / 2;
    assert m == 2 * h;
  }

  /** Halves the interval's ends while both stay whole, then divides. */
  method VoxelFromInterval(cell: U64, lo: int, hi: int) returns (v: Voxel)
    requires -TOP <= lo < hi <= TOP
    ensures v.cell == cell && BoundsOk(v) && AtCoarsest(v)
    ensures SpanOf(v) == Span(lo, hi)
  {
    hide Pow2, Rem, Quot, Bins, BoundsOk, AtCoarsest, SpanOf;
    var z: nat := MAX_ZOOM;
    ghost var m, n := lo, hi;
    UnitBins(lo);
    UnitBins(hi);
    while z > 0
      invariant z <= MAX_ZOOM && Bins(lo, m, MAX_ZOOM - z) && Bins(hi, n, MAX_ZOOM - z)
    {
      var b := Pow2(MAX_ZOOM - z + 1);
      Coarsen(lo, m, MAX_ZOOM - z);
      Coarsen(hi, n, MAX_ZOOM - z);
      if Rem(lo, b) != 0 || Rem(hi, b) != 0 {
        break;
      }
      z, m, n := z - 1, m / 2, n / 2;
    }
    var b := Pow2(MAX_ZOOM - z);
    Written(cell, lo, hi, m, n, z);
    v := Voxel(cell, z, Quot(lo, b), Quot(hi, b) - 1);
  }

  /** The quotients fit their fields and spell the interval; it is coarsest unless both ends are even. */
  lemma Written(cell: U64, lo: int, hi: int, m: int, n: int, z: nat)
    requires z <= MAX_ZOOM && -TOP <= lo < hi <= TOP && Bins(lo, m, MAX_ZOOM - z) && Bins(hi, n, MAX_ZOOM - z)
    ensures Quot(lo, Pow2(MAX_ZOOM - z)) == m && Quot(hi, Pow2(MAX_ZOOM - z)) == n
    ensures -TOP <= m <= TOP && -TOP <= n <= TOP
    ensures var v := Voxel(cell, z, m, n - 1);
            && BoundsOk(v) && SpanOf(v) == Span(lo, hi)
            && (z == 0 || m % 2 != 0 || n % 2 != 0 ==> AtCoarsest(v))
  {
    hide Pow2, Quot, BoundsOk, Lo, Hi, Gap, Bins;
    BinsExact(lo, m, MAX_ZOOM - z);
    BinsExact(hi, n, MAX_ZOOM - z);
    BinsSpan(cell, lo, hi, m, n, z);
    BoundsInBins(Voxel(cell, z, m, n - 1));
  }

  lemma BinsExact(x: int, m: int, d: nat)
    requires -TOP <= x <= TOP && Bins(x, m, d)
    ensures Quot(x, Pow2(d)) == m && -TOP <= m <= TOP
  {
    hide Quot;
    QuotExact(m, Pow2(d));
    QuotientFits(m, Pow2(d));
  }

  lemma BinsSpan(cell: U64, lo: int, hi: int, m: I64, n: int, z: nat)
    requires z <= MAX_ZOOM && Bins(lo, m, MAX_ZOOM - z) && Bins(hi, n, MAX_ZOOM - z) && -TOP <= n <= TOP
    ensures SpanOf(Voxel(cell, z, m, n - 1)) == Span(lo, hi)
    ensures Lo(Voxel(cell, z, m, n - 1)) == lo && Hi(Voxel(cell, z, m, n - 1)) == hi
  {
    hide Pow2;
  }

  /** No quotient leaves the range of the bins. */
  lemma QuotientFits(m: int, b: nat)
    requires b > 0 && -TOP <= m * b <= TOP
    ensures -TOP <= m <= TOP
  {
    if m < -TOP { ScaleStep(m, -TOP, b); }
    if TOP < m { ScaleStep(TOP, m, b); }
    ScaleMonotone(1, b, TOP);
  }

  // --- the bin of a height ---

  /** An ellipsoidal height as the verifier receives it. */
  datatype Height = NaN | Infinite | Metres(h: real)

  const HALF_RANGE: real := 33554432.0

  predicate InRange(h: Height) {
    h.Metres? && -HALF_RANGE < h.h < HALF_RANGE
  }

  /** `floor(h * 2^(zoom - 25))`, `None` for NaN and for `|h| >= 2^25`. */
  function FIndex(h: Height, zoom: nat): Option<int> {
    if !InRange(h) then None
    else Some(BinOf(h.h, Pow2(zoom)))
  }

  /** The bin of `h` when `[0, 2^25)` metres holds `n` bins. */
  function BinOf(h: real, n: nat): int {
    (h * (n as real) / HALF_RANGE).Floor
  }

  /** The heights that have a bin: within 2^25 metres of the ellipsoid. */
  lemma InRangeMeans(h: Height)
    ensures InRange(h) <==> h.Metres? && -33554432.0 < h.h < 33554432.0
    ensures forall zoom :: FIndex(h, zoom).Some? <==> InRange(h)
  {
  }

  /** Bin `f` holds `h`: bins are 2^(25 - zoom) metres high, counted from height 0. */
  predicate InBin(h: real, zoom: nat, f: int) {
    (f as real) * (Pow2(25) as real) <= h * (Pow2(zoom) as real) < ((f + 1) as real) * (Pow2(25) as real)
  }

  /** `h` lies in the height interval of the entry, bins `f_min` to `f_max` of its zoom. */
  predicate InHeights(v: Voxel, h: real) {
    (v.fMin as real) * (Pow2(25) as real) <= h * (Pow2(v.zoom) as real) < ((v.fMax + 1) as real) * (Pow2(25) as real)
  }

  lemma HalfRangePower()
    ensures Pow2(25) as real == HALF_RANGE == 33554432.0
  {
    Pow2Add(12, 13);
    assert Pow2(12) == 4096 && Pow2(13) == 8192;
  }

  /** A bin's lower end is at most `h` exactly when the bin is at most that of `h`. */
  lemma BinStarts(h: real, n: nat, f: int)
    ensures f <= BinOf(h, n) <==> (f as real) * HALF_RANGE <= h * (n as real)
  {
    var z := h * (n as real);
    assert z / HALF_RANGE * HALF_RANGE == z;
  }

  /** The bin of a height in range is the one bin that holds it, and is a bin of its zoom. */
  lemma BinHolds(h: real, zoom: nat, f: int)
    requires InRange(Metres(h))
    ensures FIndex(Metres(h), zoom) == Some(f) <==> InBin(h, zoom, f)
    ensures FIndex(Metres(h), zoom) == Some(f) ==> 0 - Pow2(zoom) <= f < Pow2(zoom)
  {
    hide Pow2, BinOf;
    HalfRangePower();
    BinStarts(h, Pow2(zoom), f);
    BinStarts(h, Pow2(zoom), f + 1);
    BinBounds(h, Pow2(zoom));
  }

  lemma BinBounds(h: real, n: nat)
    requires -HALF_RANGE < h < HALF_RANGE && n > 0
    ensures 0 - n <= BinOf(h, n) < n
  {
    UnitInterval(h, n as real);
  }

  /** At zoom 25 a bin is a metre. */
  lemma MetreBins(h: real)
    requires InRange(Metres(h))
    ensures FIndex(Metres(h), 25) == Some(h.Floor)
  {
    hide Pow2;
    HalfRangePower();
    assert h * HALF_RANGE / HALF_RANGE == h;
  }

  /** The bin test at an entry's own zoom is membership of its height interval. */
  lemma BinIsHeight(v: Voxel, h: real)
    requires InRange(Metres(h))
    ensures v.fMin <= FIndex(Metres(h), v.zoom).value <= v.fMax <==> InHeights(v, h)
  {
    hide Pow2, BinOf;
    HalfRangePower();
    BinStarts(h, Pow2(v.zoom), v.fMin);
    BinStarts(h, Pow2(v.zoom), v.fMax + 1);
  }

  lemma UnitInterval(x: real, n: real)
    requires -HALF_RANGE < x < HALF_RANGE && n > 0.0
    ensures -n <= x * n / HALF_RANGE < n
  {
    var u := x / HALF_RANGE;
    assert x == u * HALF_RANGE;
    assert x * n / HALF_RANGE == u * n;
    ScaleLess(u, 1.0, n);
    ScaleLess(-1.0, u, n);
    assert 1.0 * n == n;
    assert -1.0 * n == -n;
    assert -n < u * n < n;
    assert -n < x * n / HALF_RANGE;
    assert x * n / HALF_RANGE < n;
  }

  lemma ScaleLess(a: real, b: real, n: real)
    requires a < b && n > 0.0
    ensures a * n < b * n
  {
    assert (b - a) * n > 0.0;
  }

  /** `floor(y * p) >= f * p` exactly when `floor(y) >= f`. */
  lemma FloorScale(y: real, p: nat, f: int)
    requires p > 0
    ensures f * p <= (y * (p as real)).Floor <==> f <= y.Floor
  {
    var r := p as real;
    assert (f * p) as real == (f as real) * r;
    if f <= y.Floor {
      assert f as real <= y;
      assert (f as real) * r <= y * r;
    } else {
      assert y < f as real;
      assert y * r < (f as real) * r;
    }
  }

  /** The bin test at an entry's own zoom is membership of the zoom-32 bin. */
  lemma BinInEntry(v: Voxel, h: Height)
    requires v.zoom <= MAX_ZOOM && InRange(h)
    ensures FIndex(h, v.zoom).Some? && FIndex(h, MAX_ZOOM).Some?
    ensures v.fMin <= FIndex(h, v.zoom).value <= v.fMax <==> InSpan(SpanOf(v), FIndex(h, MAX_ZOOM).value)
  {
    hide Pow2, BinOf;
    var n, p := Pow2(v.zoom), Pow2(MAX_ZOOM - v.zoom);
    TopSplit(v.zoom);
    TopPower();
    BinScales(h.h, n, p, v.fMin);
    BinScales(h.h, n, p, v.fMax + 1);
  }

  lemma TopPower()
    ensures Pow2(MAX_ZOOM) == TOP
  {
    Pow2Literals();
  }

  lemma BinScales(h: real, n: nat, p: nat, f: int)
    requires n * p == TOP && p > 0
    ensures f * p <= BinOf(h, TOP) <==> f <= BinOf(h, n)
  {
    Rescale(h, n, p, TOP);
    FloorScale(h * (n as real) / HALF_RANGE, p, f);
  }

  lemma Rescale(h: real, n: nat, p: nat, top: nat)
    requires n * p == top
    ensures h * (top as real) / HALF_RANGE == h * (n as real) / HALF_RANGE * (p as real)
  {
    var a, b := n as real, p as real;
    assert top as real == a * b;
    calc {
      h * (a * b) / HALF_RANGE;
      (h * a) * b / HALF_RANGE;
      (h * a) / HALF_RANGE * b;
    }
  }
}
