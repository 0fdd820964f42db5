/** Splitting a cell around the cells listed inside it (`refine`, src/s2.rs): the
    parts tile the cell, each with the union of all heights above it. */
module Refinement {
  import opened Cells
  import opened Heights
  import opened Regions
  import opened Siblings
  import opened VoxelSets
  import Slices

  type Part = Piece<seq<Span>>

  /** The documented order: by range start, larger cells first. */
  predicate Before(a: nat, b: nat) {
    RangeMin(a) < RangeMin(b) || (RangeMin(a) == RangeMin(b) && RangeMax(b) < RangeMax(a))
  }

  /** Distinct cells in that order, each with a merged interval list. */
  ghost predicate Listing(inner: seq<Part>) {
    && (forall i :: 0 <= i < |inner| ==> IsValid(inner[i].cell))
    && GoodLabels(inner)
    && (forall i, j :: 0 <= i < j < |inner| ==> Before(inner[i].cell, inner[j].cell))
  }

  ghost predicate StrictlyInside(inner: seq<Part>, cell: nat) {
    forall i :: 0 <= i < |inner| ==> Within(inner[i].cell, cell) && inner[i].cell != cell
  }

  /** Every part lies in the leaf range `[lo, hi]`. */
  ghost predicate PartsIn(parts: seq<Part>, lo: int, hi: int) {
    forall i :: 0 <= i < |parts| ==> lo <= RangeMin(parts[i].cell) && RangeMax(parts[i].cell) <= hi
  }

  /** On `[lo, hi]` the parts have the heights given plus those of every listed cell above. */
  ghost predicate LitOn(parts: seq<Part>, lo: int, hi: int, heights: seq<Span>, inner: seq<Part>) {
    forall x: nat, b :: IsLeaf(x) && lo <= x <= hi ==> (Lit(parts, x, b) <==> InSpans(heights, b) || Lit(inner, x, b))
  }

  /** Ascending disjoint parts within `[lo, hi]`, with exactly the right heights. */
  ghost predicate Refines(parts: seq<Part>, lo: int, hi: int, heights: seq<Span>, inner: seq<Part>) {
    Sorted(parts) && GoodLabels(parts) && PartsIn(parts, lo, hi) && LitOn(parts, lo, hi, heights, inner)
  }

  /** Every leaf of the cell lies in a part. */
  ghost predicate Tiles(parts: seq<Part>, cell: nat) {
    forall x :: IsLeaf(x) && Contains(cell, x) ==> exists i :: 0 <= i < |parts| && Contains(parts[i].cell, x)
  }

  // --- putting neighbouring refinements together ---

  lemma LitConcat(p: seq<Part>, q: seq<Part>, x: nat, b: int)
    ensures Lit(p + q, x, b) <==> Lit(p, x, b) || Lit(q, x, b)
  {
    var r := p + q;
    if Lit(p, x, b) {
      var i :| 0 <= i < |p| && LitBy(p[i], x, b);
      assert LitBy(r[i], x, b);
    }
    if Lit(q, x, b) {
      var i :| 0 <= i < |q| && LitBy(q[i], x, b);
      assert LitBy(r[|p| + i], x, b);
    }
  }

  lemma NotLitOutside(p: seq<Part>, lo: int, hi: int, x: nat, b: int)
    requires PartsIn(p, lo, hi) && !(lo <= x <= hi)
    ensures !Lit(p, x, b)
  {
  }

  lemma SortedConcat(p: seq<Part>, q: seq<Part>, lo: int, m: int, n: int, hi: int)
    requires Sorted(p) && GoodLabels(p) && PartsIn(p, lo, m) && Sorted(q) && GoodLabels(q) && PartsIn(q, n, hi) && m < n
    requires lo <= n && m <= hi
    ensures Sorted(p + q) && GoodLabels(p + q) && PartsIn(p + q, lo, hi)
  {
    hide RangeMin, RangeMax, IsValid, GoodLabel;
  }

  lemma Concat(p: seq<Part>, q: seq<Part>, lo: int, m: int, hi: int, heights: seq<Span>, inner: seq<Part>)
    requires Refines(p, lo, m, heights, inner) && Refines(q, m + 2, hi, heights, inner)
    requires m % 2 == 1 && lo <= m <= hi
    ensures Refines(p + q, lo, hi, heights, inner)
  {
    hide Sorted, GoodLabels, PartsIn, Lit;
    SortedConcat(p, q, lo, m, m + 2, hi);
    forall x: nat, b | IsLeaf(x) && lo <= x <= hi
      ensures Lit(p + q, x, b) <==> InSpans(heights, b) || Lit(inner, x, b)
    {
      LitConcat(p, q, x, b);
      if x <= m {
        NotLitOutside(q, m + 2, hi, x, b);
      } else {
        OddGap(m, x);
        NotLitOutside(p, lo, m, x, b);
      }
    }
  }

  // --- the listed cells below one child ---

  /** A listed cell strictly inside meets a child only by lying within it. */
  lemma InOneChild(cell: nat, child: nat, d: nat, x: int)
    requires IsValid(cell) && IsValid(child) && IsValid(d)
    requires Level(child) == Level(cell) + 1 && Within(d, cell) && d != cell
    requires RangeMin(d) <= x <= RangeMax(d) && RangeMin(child) <= x <= RangeMax(child)
    ensures Within(d, child)
  {
    StrictlyWithin(d, cell);
    Meet(d, child, x);
    if !Within(d, child) {
      SameLevelWithin(child, d);
      WithinSelf(child);
    }
  }

  /** The slice of listed cells that start in the child holds all of them that reach it. */
  lemma ChildSlice(inner: seq<Part>, cell: nat, child: nat, s: nat, e: nat, x: nat, b: int)
    requires IsValid(cell) && IsValid(child) && Level(child) == Level(cell) + 1
    requires Listing(inner) && StrictlyInside(inner, cell) && s <= e <= |inner|
    requires forall i :: 0 <= i < s ==> RangeMin(inner[i].cell) < RangeMin(child)
    requires forall i :: e <= i < |inner| ==> RangeMin(inner[i].cell) > RangeMax(child)
    requires Contains(child, x)
    ensures Lit(inner, x, b) <==> Lit(inner[s..e], x, b)
  {
    var sub := inner[s..e];
    if Lit(inner, x, b) {
      var i :| 0 <= i < |inner| && LitBy(inner[i], x, b);
      InOneChild(cell, child, inner[i].cell, x);
      assert sub[i - s] == inner[i];
    }
    if Lit(sub, x, b) {
      var i :| 0 <= i < |sub| && LitBy(sub[i], x, b);
      assert LitBy(inner[s + i], x, b);
    }
  }

  /** What the slice looks like: a listing inside the child, whose own entry comes first. */
  lemma SliceShape(inner: seq<Part>, cell: nat, child: nat, s: nat, e: nat)
    requires IsValid(cell) && IsValid(child) && Level(child) == Level(cell) + 1
    requires Listing(inner) && StrictlyInside(inner, cell) && s <= e <= |inner|
    requires forall i :: s <= i < e ==> RangeMin(child) <= RangeMin(inner[i].cell) <= RangeMax(child)
    ensures Listing(inner[s..e])
    ensures forall i :: 0 <= i < e - s ==> Within(inner[s..e][i].cell, child)
    ensures s < e && inner[s].cell != child ==> StrictlyInside(inner[s..e], child)
    ensures s < e && inner[s].cell == child ==> Listing(inner[s..e][1..]) && StrictlyInside(inner[s..e][1..], child)
  {
    var sub := inner[s..e];
    assert forall i :: 0 <= i < |sub| ==> sub[i] == inner[s + i];
    ListingSlice(inner, s, e);
    forall i | 0 <= i < |sub|
      ensures Within(sub[i].cell, child)
    {
      RangeEnds(sub[i].cell);
      InOneChild(cell, child, sub[i].cell, RangeMin(sub[i].cell));
    }
    if s < e {
      forall i | 1 <= i < |sub|
        ensures sub[i].cell != child
      {
        assert Before(sub[0].cell, sub[i].cell);
      }
      ListingSlice(sub, 1, |sub|);
    }
  }

  lemma ListingSlice(inner: seq<Part>, s: nat, e: nat)
    requires Listing(inner) && s <= e <= |inner|
    ensures Listing(inner[s..e])
  {
    hide Before, IsValid, GoodLabel;
    var sub := inner[s..e];
    assert forall i :: 0 <= i < |sub| ==> sub[i] == inner[s + i];
  }

  // --- from a child's refinement to the cell's ---

  lemma RefinesFromSlice(parts: seq<Part>, inner: seq<Part>, cell: nat, child: nat, s: nat, e: nat, heights: seq<Span>)
    requires IsValid(cell) && IsValid(child) && Level(child) == Level(cell) + 1
    requires Listing(inner) && StrictlyInside(inner, cell) && s <= e <= |inner|
    requires forall i :: 0 <= i < s ==> RangeMin(inner[i].cell) < RangeMin(child)
    requires forall i :: e <= i < |inner| ==> RangeMin(inner[i].cell) > RangeMax(child)
    requires Refines(parts, RangeMin(child), RangeMax(child), heights, inner[s..e])
    ensures Refines(parts, RangeMin(child), RangeMax(child), heights, inner)
  {
    hide Lit, Sorted, GoodLabels, PartsIn, Listing, StrictlyInside;
    forall x: nat, b | IsLeaf(x) && RangeMin(child) <= x <= RangeMax(child)
      ensures Lit(parts, x, b) <==> InSpans(heights, b) || Lit(inner, x, b)
    {
      ChildSlice(inner, cell, child, s, e, x, b);
    }
  }

  /** A cell with nothing listed below it is one part. */
  lemma SinglePart(cell: nat, heights: seq<Span>)
    requires IsValid(cell) && GoodLabel(heights)
    ensures Refines([Piece(cell, heights)], RangeMin(cell), RangeMax(cell), heights, [])
  {
    var parts: seq<Part> := [Piece(cell, heights)];
    forall x: nat, b | IsLeaf(x) && RangeMin(cell) <= x <= RangeMax(cell)
      ensures Lit(parts, x, b) <==> InSpans(heights, b)
    {
      if InSpans(heights, b) { assert LitBy(parts[0], x, b); }
    }
  }

  /** The child's own entry joins its heights. */
  lemma RefinesJoined(parts: seq<Part>, child: nat, heights: seq<Span>, joined: seq<Span>, sub: seq<Part>)
    requires sub != [] && sub[0].cell == child
    requires SameBins(joined, heights + sub[0].value)
    requires Refines(parts, RangeMin(child), RangeMax(child), joined, sub[1..])
    ensures Refines(parts, RangeMin(child), RangeMax(child), heights, sub)
  {
    forall x: nat, b | IsLeaf(x) && RangeMin(child) <= x <= RangeMax(child)
      ensures Lit(parts, x, b) <==> InSpans(heights, b) || Lit(sub, x, b)
    {
      assert [sub[0]] + sub[1..] == sub;
      LitConcat([sub[0]], sub[1..], x, b);
      LitSingle(sub[0], x, b);
      SpansConcat(heights, sub[0].value, b);
      assert InSpans(joined, b) <==> InSpans(heights + sub[0].value, b);
    }
  }

  lemma LitSingle(p: Part, x: nat, b: int)
    ensures Lit([p], x, b) <==> LitBy(p, x, b)
  {
    if LitBy(p, x, b) { assert LitBy([p][0], x, b); }
  }

  lemma SpansConcat(s: seq<Span>, t: seq<Span>, b: int)
    ensures InSpans(s + t, b) <==> InSpans(s, b) || InSpans(t, b)
  {
    var r := s + t;
    if InSpans(s, b) {
      var i :| 0 <= i < |s| && InSpan(s[i], b);
      assert InSpan(r[i], b);
    }
    if InSpans(t, b) {
      var i :| 0 <= i < |t| && InSpan(t[i], b);
      assert InSpan(r[|s| + i], b);
    }
  }

  lemma SpansProper(s: seq<Span>, t: seq<Span>)
    requires Proper(s) && Proper(t)
    ensures Proper(s + t)
  {
  }

  // --- refine ---

  lemma StartsAscend(inner: seq<Part>, bound: int)
    requires Listing(inner)
    ensures Slices.Partitioned(inner, (d: Part) => RangeMin(d.cell) < bound)
    ensures Slices.Partitioned(inner, (d: Part) => RangeMin(d.cell) <= bound)
  {
    forall i, j | 0 <= i < j < |inner|
      ensures RangeMin(inner[i].cell) <= RangeMin(inner[j].cell)
    {
      assert Before(inner[i].cell, inner[j].cell);
    }
  }

  /** One child's share: its own heights joined, the rest split further. */
  method RefineChild(cell: nat, child: nat, heights: seq<Span>, inner: seq<Part>, out: seq<Part>) returns (res: seq<Part>)
    requires IsValid(cell) && IsValid(child) && Level(child) == Level(cell) + 1 <= 30
    requires GoodLabel(heights) && Listing(inner) && StrictlyInside(inner, cell)
    ensures out <= res
    ensures Refines(res[|out|..], RangeMin(child), RangeMax(child), heights, inner)
    decreases 30 - Level(child), 3
  {
    hide RangeMin, RangeMax, Listing, StrictlyInside, IsValid, Level, Refines, Within;
    StartsAscend(inner, RangeMin(child));
    StartsAscend(inner, RangeMax(child));
    var s := Slices.PartitionPoint(inner, (d: Part) => RangeMin(d.cell) < RangeMin(child));
    var e := Slices.PartitionPoint(inner, (d: Part) => RangeMin(d.cell) <= RangeMax(child));
    SliceOrder(inner, child, s, e);
    var sub := inner[s..e];
    SliceShape(inner, cell, child, s, e);
    if |sub| == 0 {
      res := out + [Piece(child, heights)];
      SinglePart(child, heights);
      assert res[|out|..] == [Piece(child, heights)];
      assert sub == [];
    } else if sub[0].cell == child {
      GoodFirst(sub);
      SpansProper(heights, sub[0].value);
      var joined := MergeIntervals(heights + sub[0].value);
      res := Refine(child, joined, sub[1..], out);
      RefinesJoined(res[|out|..], child, heights, joined, sub);
    } else {
      res := Refine(child, heights, sub, out);
    }
    RefinesFromSlice(res[|out|..], inner, cell, child, s, e, heights);
  }

  lemma SliceOrder(inner: seq<Part>, child: nat, s: nat, e: nat)
    requires IsValid(child) && s <= |inner| && e <= |inner|
    requires forall i :: 0 <= i < s ==> RangeMin(inner[i].cell) < RangeMin(child)
    requires forall i :: e <= i < |inner| ==> !(RangeMin(inner[i].cell) <= RangeMax(child))
    ensures s <= e
  {
    RangeEnds(child);
    assert e < |inner| ==> RangeMin(inner[e].cell) > RangeMax(child);
  }

  lemma GoodFirst(sub: seq<Part>)
    requires Listing(sub) && sub != []
    ensures GoodLabel(sub[0].value)
  {
  }

  /** Appends the parts of `cell`: the whole cell when nothing is listed in it, else those of its children. */
  method Refine(cell: nat, heights: seq<Span>, inner: seq<Part>, out: seq<Part>) returns (res: seq<Part>)
    requires IsValid(cell) && GoodLabel(heights) && Listing(inner) && StrictlyInside(inner, cell)
    ensures out <= res
    ensures Refines(res[|out|..], RangeMin(cell), RangeMax(cell), heights, inner)
    decreases 30 - Level(cell), 2
  {
    hide RangeMin, RangeMax, Listing, StrictlyInside, IsValid, Level, Refines, Child;
    if |inner| == 0 {
      res := out + [Piece(cell, heights)];
      SinglePart(cell, heights);
      assert res[|out|..] == [Piece(cell, heights)];
      return;
    }
    NotALeaf(inner, cell);
    ChildrenTile(cell);
    res := out;
    for q := 0 to 4
      invariant out <= res && (q == 0 ==> res == out)
      invariant q > 0 ==> Refines(res[|out|..], RangeMin(cell), RangeMax(Child(cell, q - 1)), heights, inner)
    {
      var next := RefineChild(cell, Child(cell, q), heights, inner, res);
      if q > 0 {
        ChildEnds(cell, q);
        Concat(res[|out|..], next[|res|..], RangeMin(cell), RangeMax(Child(cell, q - 1)), RangeMax(Child(cell, q)), heights, inner);
        assert next[|out|..] == res[|out|..] + next[|res|..];
      }
      res := next;
    }
  }

  /** A cell with another strictly inside it is not a leaf, so it has children. */
  lemma NotALeaf(inner: seq<Part>, cell: nat)
    requires IsValid(cell) && Listing(inner) && StrictlyInside(inner, cell) && inner != []
    ensures 0 <= Level(cell) < 30
  {
    StrictlyWithin(inner[0].cell, cell);
    LevelBits(inner[0].cell);
    LevelBits(cell);
  }

  lemma ChildEnds(cell: nat, q: nat)
    requires IsValid(cell) && Level(cell) < 30 && 1 <= q < 4
    ensures Child(cell, q - 1) > 0 && Child(cell, q) > 0
    ensures RangeMin(Child(cell, q)) == RangeMax(Child(cell, q - 1)) + 2
    ensures RangeMax(Child(cell, q - 1)) % 2 == 1
    ensures RangeMin(cell) <= RangeMax(Child(cell, q - 1)) <= RangeMax(Child(cell, q))
  {
    hide Child, RangeMin, RangeMax, IsValid, Level, Parent;
    ChildrenTile(cell);
    RangeEnds(Child(cell, q - 1));
    RangeEnds(Child(cell, q));
    assert q == 1 || q == 2 || q == 3;
  }

  /** The parts of a refinement tile the cell. */
  lemma RefinementTiles(parts: seq<Part>, cell: nat, heights: seq<Span>, inner: seq<Part>)
    requires GoodLabel(heights) && Refines(parts, RangeMin(cell), RangeMax(cell), heights, inner)
    ensures Tiles(parts, cell)
  {
    var b := heights[0].lo;
    assert InSpan(heights[0], b);
    forall x | IsLeaf(x) && Contains(cell, x)
      ensures exists i :: 0 <= i < |parts| && Contains(parts[i].cell, x)
    {
      assert Lit(parts, x, b);
      var i :| 0 <= i < |parts| && LitBy(parts[i], x, b);
    }
  }
}
