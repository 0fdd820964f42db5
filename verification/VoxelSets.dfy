/** Voxel sets (region tag 9): the points a list of entries covers, its canonical
    form, the checker, the containment search and the digest (src/s2.rs). */
module VoxelSets {
  import opened Cells
  import opened Entries
  import opened Heights
  import opened Regions

  // --- the region of a list of entries: (leaf, zoom-32 bin) points ---

  ghost predicate InEntry(v: Voxel, x: nat, b: int) {
    Contains(v.cell, x) && InSpan(SpanOf(v), b)
  }

  ghost predicate Covers(vs: seq<Voxel>, x: nat, b: int) {
    exists i :: 0 <= i < |vs| && InEntry(vs[i], x, b)
  }

  /** Both lists cover the same points. */
  ghost predicate SamePoints(v: seq<Voxel>, w: seq<Voxel>) {
    forall x, b :: IsLeaf(x) ==> (Covers(v, x, b) <==> Covers(w, x, b))
  }

  predicate EntryOk(v: Voxel) {
    IsValid(v.cell) && BoundsOk(v)
  }

  ghost predicate AllOk(vs: seq<Voxel>) {
    forall i :: 0 <= i < |vs| ==> EntryOk(vs[i])
  }

  ghost predicate AllCoarsest(vs: seq<Voxel>) {
    forall i :: 0 <= i < |vs| ==> EntryOk(vs[i]) && AtCoarsest(vs[i])
  }

  /** Within one cell the intervals are apart; distinct cells are disjoint. */
  predicate InOrder(v: Voxel, w: Voxel) {
    if v.cell == w.cell then Hi(v) < Lo(w) else RangeMax(v.cell) < RangeMin(w.cell)
  }

  /** Over every pair of entries and not only neighbours. */
  ghost predicate Ordered(vs: seq<Voxel>) {
    forall i, j :: 0 <= i < j < |vs| ==> InOrder(vs[i], vs[j])
  }

  // --- entries grouped by cell ---

  /** Maximal runs of neighbouring entries with one cell. */
  function Chunks(vs: seq<Voxel>): (g: seq<seq<Voxel>>)
    ensures (g == []) == (vs == [])
    ensures forall i :: 0 <= i < |g| ==> g[i] != []
  {
    if vs == [] then []
    else
      var n := |vs| - 1;
      var g := Chunks(vs[..n]);
      if n > 0 && vs[n - 1].cell == vs[n].cell
      then g[..|g| - 1] + [g[|g| - 1] + [vs[n]]]
      else g + [[vs[n]]]
  }

  ghost function Spans(g: seq<Voxel>): (s: seq<Span>)
    ensures |s| == |g|
    ensures forall i :: 0 <= i < |g| ==> s[i] == SpanOf(g[i])
  {
    seq(|g|, i requires 0 <= i < |g| => SpanOf(g[i]))
  }

  /** Each listed cell with its intervals. */
  ghost function Group(vs: seq<Voxel>): (ps: seq<Piece<seq<Span>>>)
    ensures |ps| == |Chunks(vs)|
    ensures forall i :: 0 <= i < |ps| ==> ps[i] == Piece(Chunks(vs)[i][0].cell, Spans(Chunks(vs)[i]))
  {
    var g := Chunks(vs);
    seq(|g|, i requires 0 <= i < |g| => Piece(g[i][0].cell, Spans(g[i])))
  }

  ghost predicate GoodLabel(s: seq<Span>) {
    s != [] && Separated(s)
  }

  ghost predicate GoodLabels(ps: seq<Piece<seq<Span>>>) {
    forall i :: 0 <= i < |ps| ==> GoodLabel(ps[i].value)
  }

  /** The points of a list of cells with intervals. */
  ghost predicate Lit(ps: seq<Piece<seq<Span>>>, x: nat, b: int) {
    exists i :: 0 <= i < |ps| && LitBy(ps[i], x, b)
  }

  ghost predicate LitBy(p: Piece<seq<Span>>, x: nat, b: int) {
    Contains(p.cell, x) && InSpans(p.value, b)
  }

  /** Coarsest spelling, ordered, and no four siblings with identical intervals. */
  ghost predicate IsCanonical(vs: seq<Voxel>) {
    AllCoarsest(vs) && Ordered(vs) && forall p, t :: !SiblingsListed(Group(vs), p, t)
  }

  /** Canonical, non-empty, within the cap, and bounded in height somewhere. */
  ghost predicate IsAccepted(vs: seq<Voxel>) {
    && 0 < |vs| <= MAX_ENTRIES
    && IsCanonical(vs)
    && exists i :: 0 <= i < |vs| && !IsFullHeight(vs[i])
  }

  // --- how grouping grows by one entry ---

  ghost predicate Joins(vs: seq<Voxel>, v: Voxel) {
    vs != [] && vs[|vs| - 1].cell == v.cell
  }

  lemma SpansAppend(g: seq<Voxel>, v: Voxel)
    ensures Spans(g + [v]) == Spans(g) + [SpanOf(v)]
  {
  }

  lemma ChunksAppend(vs: seq<Voxel>, v: Voxel)
    ensures var g := Chunks(vs);
            var m := |g| - 1;
            Chunks(vs + [v]) == if Joins(vs, v) then g[..m] + [g[m] + [v]] else g + [[v]]
  {
    assert (vs + [v])[..|vs|] == vs;
  }

  lemma GroupAppend(vs: seq<Voxel>, v: Voxel)
    ensures var ps := Group(vs);
            var m := |ps| - 1;
            Group(vs + [v]) ==
              if Joins(vs, v) then ps[..m] + [Piece(ps[m].cell, ps[m].value + [SpanOf(v)])]
              else ps + [Piece(v.cell, [SpanOf(v)])]
  {
    var g := Chunks(vs);
    assert (vs + [v])[..|vs|] == vs;
    if Joins(vs, v) {
      SpansAppend(g[|g| - 1], v);
    } else {
      assert Spans([v]) == [SpanOf(v)];
    }
  }

  /** The last group ends with the last entry. */
  lemma {:induction false} LastGroup(vs: seq<Voxel>)
    requires vs != []
    ensures var ps := Group(vs);
            var last := ps[|ps| - 1];
            && last.cell == vs[|vs| - 1].cell
            && last.value != [] && last.value[|last.value| - 1] == SpanOf(vs[|vs| - 1])
  {
    var n := |vs| - 1;
    assert vs == vs[..n] + [vs[n]];
    GroupAppend(vs[..n], vs[n]);
    if n > 0 { LastGroup(vs[..n]); }
  }

  // --- order of entries is order of groups ---

  lemma InOrderTrans(u: Voxel, v: Voxel, w: Voxel)
    requires EntryOk(v) && EntryOk(u) && InOrder(u, v) && InOrder(v, w)
    ensures InOrder(u, w)
  {
    RangeEnds(u.cell);
    RangeEnds(v.cell);
    BoundsInBins(v);
  }

  lemma OrderedAppend(vs: seq<Voxel>, v: Voxel)
    requires AllOk(vs) && EntryOk(v)
    ensures Ordered(vs + [v]) <==> Ordered(vs) && (vs != [] ==> InOrder(vs[|vs| - 1], v))
  {
    var s := vs + [v];
    if Ordered(s) {
      forall i, j | 0 <= i < j < |vs|
        ensures InOrder(vs[i], vs[j])
      {
        assert InOrder(s[i], s[j]);
      }
      if vs != [] { assert InOrder(s[|vs| - 1], s[|vs|]); }
    } else if Ordered(vs) && (vs != [] ==> InOrder(vs[|vs| - 1], v)) {
      forall i, j | 0 <= i < j < |s|
        ensures InOrder(s[i], s[j])
      {
        if j == |vs| && i < |vs| - 1 { InOrderTrans(vs[i], vs[|vs| - 1], v); }
      }
    }
  }

  lemma GrowLast(ps: seq<Piece<seq<Span>>>, x: Span)
    requires Sorted(ps) && GoodLabels(ps) && ps != [] && Proper([x])
    requires var s := ps[|ps| - 1].value; s[|s| - 1].hi < x.lo
    ensures var m := |ps| - 1;
            var qs := ps[..m] + [Piece(ps[m].cell, ps[m].value + [x])];
            Sorted(qs) && GoodLabels(qs)
  {
    var m := |ps| - 1;
    SeparatedAppend(ps[m].value, x);
    var qs := ps[..m] + [Piece(ps[m].cell, ps[m].value + [x])];
    assert forall i :: 0 <= i < |qs| ==> qs[i].cell == ps[i].cell;
  }

  lemma GrowNew(ps: seq<Piece<seq<Span>>>, p: Piece<seq<Span>>)
    requires Sorted(ps) && GoodLabels(ps) && IsValid(p.cell) && GoodLabel(p.value)
    requires ps != [] ==> RangeMax(ps[|ps| - 1].cell) < RangeMin(p.cell)
    ensures Sorted(ps + [p]) && GoodLabels(ps + [p])
  {
    if ps != [] {
      var m := |ps| - 1;
      RangeEnds(ps[m].cell);
      assert forall i :: 0 <= i < m ==> RangeMax(ps[i].cell) < RangeMin(ps[m].cell);
    }
  }

  /** Growing the last group by one interval, or the list by one group. */
  lemma GroupsGrow(vs: seq<Voxel>, v: Voxel)
    requires AllOk(vs) && EntryOk(v)
    requires Sorted(Group(vs)) && GoodLabels(Group(vs)) && (vs != [] ==> InOrder(vs[|vs| - 1], v))
    ensures Sorted(Group(vs + [v])) && GoodLabels(Group(vs + [v]))
  {
    hide Sorted, GoodLabels, RangeMin, RangeMax, IsValid;
    GroupAppend(vs, v);
    BoundsInBins(v);
    SingleSpan(SpanOf(v));
    if vs != [] { LastGroup(vs); }
    if Joins(vs, v) {
      GrowLast(Group(vs), SpanOf(v));
    } else {
      GrowNew(Group(vs), Piece(v.cell, [SpanOf(v)]));
    }
  }

  lemma SeparatedAppend(s: seq<Span>, x: Span)
    requires Proper([x]) && s != []
    ensures Separated(s + [x]) <==> Separated(s) && s[|s| - 1].hi < x.lo
  {
    var r := s + [x];
    assert [x][0] == x;
    if Separated(r) {
      assert forall i :: 0 <= i < |s| ==> r[i] == s[i];
      assert r[|s| - 1].hi < r[|s|].lo;
    } else if Separated(s) && s[|s| - 1].hi < x.lo {
      PushSeparated(s, x);
    }
  }

  lemma SingleSpan(x: Span)
    requires -TOP <= x.lo < x.hi <= TOP
    ensures Proper([x]) && Separated([x])
  {
  }

  /** Ordered entries are exactly sorted cells with separated intervals. */
  lemma {:induction false} OrderedIsGrouped(vs: seq<Voxel>)
    requires AllOk(vs)
    ensures Ordered(vs) <==> Sorted(Group(vs)) && GoodLabels(Group(vs))
  {
    if vs != [] {
      var n := |vs| - 1;
      var w, v := vs[..n], vs[n];
      assert vs == w + [v];
      assert EntryOk(v);
      OrderedIsGrouped(w);
      OrderedAppend(w, v);
      if Ordered(vs) {
        GroupsGrow(w, v);
      } else if Sorted(Group(vs)) && GoodLabels(Group(vs)) {
        GroupsShrink(w, v);
      }
    }
  }

  lemma ShrinkLast(ps: seq<Piece<seq<Span>>>, x: Span)
    requires ps != [] && ps[|ps| - 1].value != [] && Proper([x])
    requires var m := |ps| - 1;
             var qs := ps[..m] + [Piece(ps[m].cell, ps[m].value + [x])];
             Sorted(qs) && GoodLabels(qs)
    ensures Sorted(ps) && GoodLabels(ps)
    ensures var s := ps[|ps| - 1].value; s[|s| - 1].hi < x.lo
  {
    var m := |ps| - 1;
    var qs := ps[..m] + [Piece(ps[m].cell, ps[m].value + [x])];
    assert GoodLabel(qs[m].value);
    SeparatedAppend(ps[m].value, x);
    SameCellsSorted(ps, qs);
    assert forall i :: 0 <= i < m ==> GoodLabel(ps[i].value) by {
      assert forall i :: 0 <= i < m ==> qs[i] == ps[i];
    }
  }

  lemma SameCellsSorted(ps: seq<Piece<seq<Span>>>, qs: seq<Piece<seq<Span>>>)
    requires Sorted(qs) && |ps| == |qs| && forall i :: 0 <= i < |ps| ==> qs[i].cell == ps[i].cell
    ensures Sorted(ps)
  {
  }

  lemma ShrinkNew(ps: seq<Piece<seq<Span>>>, p: Piece<seq<Span>>)
    requires Sorted(ps + [p]) && GoodLabels(ps + [p])
    ensures Sorted(ps) && GoodLabels(ps)
    ensures ps != [] ==> RangeMax(ps[|ps| - 1].cell) < RangeMin(p.cell)
  {
    var qs := ps + [p];
    assert forall i :: 0 <= i < |ps| ==> qs[i] == ps[i];
    assert qs[|ps|] == p;
  }

  lemma GroupsShrink(vs: seq<Voxel>, v: Voxel)
    requires AllOk(vs) && EntryOk(v) && Sorted(Group(vs + [v])) && GoodLabels(Group(vs + [v]))
    ensures Sorted(Group(vs)) && GoodLabels(Group(vs)) && (vs != [] ==> InOrder(vs[|vs| - 1], v))
  {
    hide Sorted, GoodLabels, RangeMin, RangeMax, IsValid;
    GroupAppend(vs, v);
    BoundsInBins(v);
    SingleSpan(SpanOf(v));
    if vs != [] { LastGroup(vs); }
    if Joins(vs, v) {
      ShrinkLast(Group(vs), SpanOf(v));
    } else {
      ShrinkNew(Group(vs), Piece(v.cell, [SpanOf(v)]));
    }
  }

  // --- grouping keeps the points, and is reversible ---

  lemma LitAppend(ps: seq<Piece<seq<Span>>>, p: Piece<seq<Span>>, x: nat, b: int)
    ensures Lit(ps + [p], x, b) <==> Lit(ps, x, b) || LitBy(p, x, b)
  {
    var r := ps + [p];
    if Lit(ps, x, b) {
      var i :| 0 <= i < |ps| && LitBy(ps[i], x, b);
      assert LitBy(r[i], x, b);
    }
    if LitBy(p, x, b) { assert LitBy(r[|ps|], x, b); }
  }

  lemma CoversAppend(vs: seq<Voxel>, v: Voxel, x: nat, b: int)
    ensures Covers(vs + [v], x, b) <==> Covers(vs, x, b) || InEntry(v, x, b)
  {
    var r := vs + [v];
    if Covers(vs, x, b) {
      var i :| 0 <= i < |vs| && InEntry(vs[i], x, b);
      assert InEntry(r[i], x, b);
    }
    if InEntry(v, x, b) { assert InEntry(r[|vs|], x, b); }
  }

  lemma {:induction false} GroupLit(vs: seq<Voxel>, x: nat, b: int)
    ensures Lit(Group(vs), x, b) <==> Covers(vs, x, b)
  {
    if vs != [] {
      var n := |vs| - 1;
      var w, v := vs[..n], vs[n];
      assert vs == w + [v];
      GroupLit(w, x, b);
      GroupAppend(w, v);
      CoversAppend(w, v, x, b);
      var ps := Group(w);
      if Joins(w, v) {
        LastGroup(w);
        var m := |ps| - 1;
        LitAppend(ps[..m], ps[m], x, b);
        assert ps[..m] + [ps[m]] == ps;
        LitAppend(ps[..m], Piece(ps[m].cell, ps[m].value + [SpanOf(v)]), x, b);
        InAppend(ps[m].value, SpanOf(v), b);
      } else {
        LitAppend(ps, Piece(v.cell, [SpanOf(v)]), x, b);
        InAppend([], SpanOf(v), b);
        assert [] + [SpanOf(v)] == [SpanOf(v)];
      }
    }
  }

  lemma {:induction false} GroupInjective(v: seq<Voxel>, w: seq<Voxel>)
    requires AllCoarsest(v) && AllCoarsest(w) && Group(v) == Group(w)
    ensures v == w
  {
    hide EntryOk, AtCoarsest, Group, WithoutLast;
    SameEmpty(v, w);
    if v != [] && w != [] {
      var m, n := |v| - 1, |w| - 1;
      SameLast(v, w);
      assert v == v[..m] + [v[m]] && w == w[..n] + [w[n]];
      GroupBefore(v[..m], v[m]);
      GroupBefore(w[..n], w[n]);
      GroupInjective(v[..m], w[..n]);
    }
  }

  lemma SameEmpty(v: seq<Voxel>, w: seq<Voxel>)
    requires Group(v) == Group(w)
    ensures v == [] <==> w == []
  {
    assert |Chunks(v)| == |Chunks(w)|;
  }

  lemma SameLast(v: seq<Voxel>, w: seq<Voxel>)
    requires AllCoarsest(v) && AllCoarsest(w) && Group(v) == Group(w) && v != [] && w != []
    ensures v[|v| - 1] == w[|w| - 1]
  {
    LastGroup(v);
    LastGroup(w);
    OneEntry(v[|v| - 1], w[|w| - 1]);
  }

  ghost function WithoutLast(ps: seq<Piece<seq<Span>>>): seq<Piece<seq<Span>>>
    requires ps != []
  {
    var m := |ps| - 1;
    var s := ps[m].value;
    if |s| <= 1 then ps[..m] else ps[..m] + [Piece(ps[m].cell, s[..|s| - 1])]
  }

  lemma GroupBefore(vs: seq<Voxel>, v: Voxel)
    ensures Group(vs + [v]) != []
    ensures WithoutLast(Group(vs + [v])) == Group(vs)
  {
    GroupAppend(vs, v);
    if vs != [] { LastGroup(vs); }
  }

  // --- one region, one voxel set ---

  lemma LabelIsPoints(ps: seq<Piece<seq<Span>>>, x: nat, t: seq<Span>, b: int)
    requires Sorted(ps) && At(ps, x, t)
    ensures Lit(ps, x, b) <==> InSpans(t, b)
  {
    var i :| 0 <= i < |ps| && Contains(ps[i].cell, x) && ps[i].value == t;
    if InSpans(t, b) { assert LitBy(ps[i], x, b); }
    if Lit(ps, x, b) {
      var j :| 0 <= j < |ps| && LitBy(ps[j], x, b);
      SameEntry(ps, i, j, x);
    }
  }

  ghost predicate SameLit(ps: seq<Piece<seq<Span>>>, qs: seq<Piece<seq<Span>>>) {
    forall x, b :: IsLeaf(x) ==> (Lit(ps, x, b) <==> Lit(qs, x, b))
  }

  lemma LabelCarries(ps: seq<Piece<seq<Span>>>, qs: seq<Piece<seq<Span>>>, x: nat, t: seq<Span>)
    requires Sorted(ps) && GoodLabels(ps) && Sorted(qs) && GoodLabels(qs) && SameLit(ps, qs)
    requires IsLeaf(x) && At(ps, x, t)
    ensures At(qs, x, t)
  {
    var i :| 0 <= i < |ps| && Contains(ps[i].cell, x) && ps[i].value == t;
    assert GoodLabel(t);
    var b0 := t[0].lo;
    assert InSpan(t[0], b0);
    LabelIsPoints(ps, x, t, b0);
    assert Lit(qs, x, b0);
    var j :| 0 <= j < |qs| && LitBy(qs[j], x, b0);
    var u := qs[j].value;
    assert At(qs, x, u);
    assert GoodLabel(u);
    forall b
      ensures InSpans(u, b) <==> InSpans(t, b)
    {
      LabelIsPoints(ps, x, t, b);
      LabelIsPoints(qs, x, u, b);
    }
    OneSpelling(u, t);
  }

  lemma PointsAreRegion(ps: seq<Piece<seq<Span>>>, qs: seq<Piece<seq<Span>>>)
    requires Sorted(ps) && GoodLabels(ps) && Sorted(qs) && GoodLabels(qs) && SameLit(ps, qs)
    ensures SameRegion(ps, qs)
  {
    forall x, t | IsLeaf(x)
      ensures At(ps, x, t) <==> At(qs, x, t)
    {
      if At(ps, x, t) { LabelCarries(ps, qs, x, t); }
      if At(qs, x, t) { LabelCarries(qs, ps, x, t); }
    }
  }

  /** One region has one canonical voxel set. */
  lemma OneEncoding(v: seq<Voxel>, w: seq<Voxel>)
    requires IsCanonical(v) && IsCanonical(w)
    ensures v == w <==> SamePoints(v, w)
  {
    if SamePoints(v, w) {
      var ps, qs := Group(v), Group(w);
      OrderedIsGrouped(v);
      OrderedIsGrouped(w);
      forall x, b | IsLeaf(x)
        ensures Lit(ps, x, b) <==> Lit(qs, x, b)
      {
        GroupLit(v, x, b);
        GroupLit(w, x, b);
      }
      PointsAreRegion(ps, qs);
      Unique(ps, qs);
      GroupInjective(v, w);
    }
  }
}
