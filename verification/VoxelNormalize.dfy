/** Normalising a voxel set (`normalize_voxels`, src/s2.rs) in its five steps, and what
    normal forms say about equality and acceptance. */
module VoxelNormalize {
  import opened Cells
  import opened Entries
  import opened Heights
  import opened Refinement
  import opened Regions
  import opened Siblings
  import opened VoxelChecks
  import opened VoxelSets
  import Slices

  // --- step 1: the listed cells, each after those it lies in ---

  /** The sort key: range start ascending, range end descending. */
  predicate KeyLe(v: Voxel, w: Voxel) {
    RangeMin(v.cell) < RangeMin(w.cell) || (RangeMin(v.cell) == RangeMin(w.cell) && RangeMax(w.cell) <= RangeMax(v.cell))
  }

  ghost predicate SameAsEntries(cells: seq<Part>, vs: seq<Voxel>) {
    forall x, b :: IsLeaf(x) ==> (Lit(cells, x, b) <==> Covers(vs, x, b))
  }

  lemma KeyIsOrder()
    ensures Slices.TotalPreorder(KeyLe)
  {
    hide RangeMin, RangeMax;
  }

  /** Sorting keeps the points. */
  lemma SortedEntries(vs: seq<Voxel>, sorted: seq<Voxel>)
    requires AllOk(vs) && multiset(sorted) == multiset(vs)
    ensures AllOk(sorted) && SamePoints(sorted, vs)
  {
    forall i | 0 <= i < |sorted|
      ensures EntryOk(sorted[i])
    {
      assert sorted[i] in multiset(vs);
      assert sorted[i] in vs;
    }
    forall x, b | IsLeaf(x)
      ensures Covers(sorted, x, b) <==> Covers(vs, x, b)
    {
      if Covers(sorted, x, b) {
        var i :| 0 <= i < |sorted| && InEntry(sorted[i], x, b);
        assert sorted[i] in multiset(vs);
        var j :| 0 <= j < |vs| && vs[j] == sorted[i];
      }
      if Covers(vs, x, b) {
        var i :| 0 <= i < |vs| && InEntry(vs[i], x, b);
        assert vs[i] in multiset(sorted);
        var j :| 0 <= j < |sorted| && sorted[j] == vs[i];
      }
    }
  }

  /** Distinct cells in order, each with some proper intervals, not yet merged. */
  ghost predicate RawListing(ps: seq<Part>) {
    && (forall i :: 0 <= i < |ps| ==> IsValid(ps[i].cell) && ps[i].value != [] && Proper(ps[i].value))
    && (forall i, j :: 0 <= i < j < |ps| ==> Before(ps[i].cell, ps[j].cell))
  }

  lemma BeforeTrans(a: nat, b: nat, c: nat)
    requires Before(a, b) && Before(b, c)
    ensures Before(a, c)
  {
  }

  lemma RawAppend(ps: seq<Part>, p: Part)
    requires RawListing(ps) && IsValid(p.cell) && p.value != [] && Proper(p.value)
    requires ps != [] ==> Before(ps[|ps| - 1].cell, p.cell)
    ensures RawListing(ps + [p])
  {
    hide Before, IsValid;
    forall i | 0 <= i < |ps|
      ensures Before(ps[i].cell, p.cell)
    {
      if i < |ps| - 1 { BeforeTrans(ps[i].cell, ps[|ps| - 1].cell, p.cell); }
    }
  }

  lemma RawExtend(ps: seq<Part>, x: Span)
    requires RawListing(ps) && ps != [] && Proper([x])
    ensures var m := |ps| - 1;
            RawListing(ps[..m] + [Piece(ps[m].cell, ps[m].value + [x])])
  {
    hide Before, IsValid;
    var m := |ps| - 1;
    SpansProper(ps[m].value, [x]);
  }

  lemma GroupsListedStep(vs: seq<Voxel>, v: Voxel)
    requires RawListing(Group(vs)) && EntryOk(v) && (vs != [] ==> KeyLe(vs[|vs| - 1], v))
    ensures RawListing(Group(vs + [v]))
  {
    hide EntryOk, RawListing, SpanOf, Before, KeyLe, Group;
    GroupAppend(vs, v);
    EntrySpan(v);
    if vs != [] {
      LastGroup(vs);
      if vs[|vs| - 1].cell != v.cell { KeyBefore(vs[|vs| - 1], v); }
    }
    if Joins(vs, v) {
      RawExtend(Group(vs), SpanOf(v));
    } else {
      RawAppend(Group(vs), Piece(v.cell, [SpanOf(v)]));
    }
  }

  /** Sorted entries group into distinct cells, ancestors before descendants. */
  lemma {:induction false} GroupsListed(vs: seq<Voxel>)
    requires AllOk(vs) && Slices.Ordered(vs, KeyLe)
    ensures RawListing(Group(vs))
  {
    assert RawListing(Group([]));
    hide EntryOk, RawListing, KeyLe, Group;
    if vs != [] {
      var n := |vs| - 1;
      var w := vs[..n];
      assert vs == w + [vs[n]];
      assert n > 0 ==> w[n - 1] == vs[n - 1];
      GroupsListed(w);
      GroupsListedStep(w, vs[n]);
    }
  }

  lemma EntrySpan(v: Voxel)
    requires EntryOk(v)
    ensures Proper([SpanOf(v)]) && IsValid(v.cell)
  {
    BoundsInBins(v);
    SingleSpan(SpanOf(v));
  }

  lemma KeyBefore(v: Voxel, w: Voxel)
    requires KeyLe(v, w) && v.cell != w.cell
    ensures Before(v.cell, w.cell)
  {
    hide Lsb;
  }

  // --- step 2: merge each cell's intervals ---

  /** The bins of one cell's entries, as listed. */
  method SpansOf(g: seq<Voxel>) returns (s: seq<Span>)
    ensures s == Spans(g)
  {
    s := [];
    for k := 0 to |g|
      invariant s == Spans(g[..k])
    {
      SpansAppend(g[..k], g[k]);
      assert g[..k + 1] == g[..k] + [g[k]];
      s := s + [Span(Lo(g[k]), Hi(g[k]))];
    }
    assert g[..|g|] == g;
  }

  /** The same cells with the same height sets, cell by cell. */
  ghost predicate SameByCell(cells: seq<Part>, ps: seq<Part>) {
    && |cells| <= |ps|
    && forall i :: 0 <= i < |cells| ==>
                     cells[i].cell == ps[i].cell && SameBins(cells[i].value, ps[i].value) && GoodLabel(cells[i].value)
  }

  lemma SameByCellLit(cells: seq<Part>, ps: seq<Part>, x: nat, b: int)
    requires SameByCell(cells, ps) && |cells| == |ps|
    ensures Lit(cells, x, b) <==> Lit(ps, x, b)
  {
    if Lit(cells, x, b) {
      var i :| 0 <= i < |cells| && LitBy(cells[i], x, b);
      assert LitBy(ps[i], x, b);
    }
    if Lit(ps, x, b) {
      var i :| 0 <= i < |ps| && LitBy(ps[i], x, b);
      assert LitBy(cells[i], x, b);
    }
  }

  lemma ListingOf(cells: seq<Part>, ps: seq<Part>)
    requires SameByCell(cells, ps) && |cells| == |ps| && RawListing(ps)
    ensures Listing(cells)
  {
    hide Before, IsValid, GoodLabel;
  }

  /** Each listed cell once, ancestors before descendants, with merged intervals. */
  method ListCells(vs: seq<Voxel>) returns (cells: seq<Part>)
    requires AllOk(vs)
    ensures Listing(cells) && SameAsEntries(cells, vs)
    ensures cells == [] <==> vs == []
  {
    hide KeyLe, EntryOk, Before, RawListing, SameByCell, Lo, Hi, SpanOf;
    KeyIsOrder();
    var sorted := Slices.Sort(vs, KeyLe);
    SortedEntries(vs, sorted);
    GroupsListed(sorted);
    ghost var ps := Group(sorted);
    var g := ChunkByCell(sorted);
    cells := [];
    SameNone(ps);
    for k := 0 to |g|
      invariant |cells| == k && SameByCell(cells, ps)
    {
      var s := SpansOf(g[k]);
      assert s == ps[k].value;
      RawProper(ps, k);
      var merged := MergeIntervals(s);
      SameOneMore(cells, ps, Piece(g[k][0].cell, merged));
      cells := cells + [Piece(g[k][0].cell, merged)];
    }
    ListingOf(cells, ps);
    forall x, b | IsLeaf(x)
      ensures Lit(cells, x, b) <==> Covers(vs, x, b)
    {
      SameByCellLit(cells, ps, x, b);
      GroupLit(sorted, x, b);
    }
  }

  lemma SameNone(ps: seq<Part>)
    ensures SameByCell([], ps)
  {
  }

  lemma RawProper(ps: seq<Part>, k: nat)
    requires RawListing(ps) && k < |ps|
    ensures Proper(ps[k].value) && ps[k].value != []
  {
  }

  lemma SameOneMore(cells: seq<Part>, ps: seq<Part>, p: Part)
    requires SameByCell(cells, ps) && |cells| < |ps|
    requires p.cell == ps[|cells|].cell && SameBins(p.value, ps[|cells|].value) && GoodLabel(p.value)
    ensures SameByCell(cells + [p], ps)
  {
  }

  // --- step 3: split every cell around the cells listed inside it ---

  /** Everything done so far lies before the cells still to do. */
  ghost predicate DoneBefore(parts: seq<Part>, cells: seq<Part>, k: nat)
    requires k <= |cells|
  {
    forall i, j :: 0 <= i < |parts| && k <= j < |cells| ==> RangeMax(parts[i].cell) < RangeMin(cells[j].cell)
  }

  ghost predicate SplitSoFar(parts: seq<Part>, cells: seq<Part>, k: nat)
    requires k <= |cells|
  {
    Sorted(parts) && GoodLabels(parts) && DoneBefore(parts, cells, k) && SameLit(parts, cells[..k])
  }

  /** The cells that start inside `top` are strictly inside it; the rest lie after it. */
  lemma TopGroup(cells: seq<Part>, k: nat, end: nat)
    requires Listing(cells) && k < end <= |cells|
    requires forall j :: k < j < end ==> RangeMin(cells[j].cell) <= RangeMax(cells[k].cell)
    ensures Listing(cells[k + 1..end]) && StrictlyInside(cells[k + 1..end], cells[k].cell)
  {
    var inner, top := cells[k + 1..end], cells[k].cell;
    ListingSlice(cells, k + 1, end);
    forall i | 0 <= i < |inner|
      ensures Within(inner[i].cell, top) && inner[i].cell != top
    {
      assert inner[i] == cells[k + 1 + i];
      assert Before(top, inner[i].cell);
      InsideTop(top, inner[i].cell);
    }
  }

  lemma InsideTop(top: nat, d: nat)
    requires IsValid(top) && IsValid(d) && Before(top, d) && RangeMin(d) <= RangeMax(top)
    ensures Within(d, top) && d != top
  {
    hide Lsb, Level;
    RangeEnds(d);
    Meet(top, d, RangeMin(d));
  }

  /** Adding the refinement of the next top cell. */
  lemma SplitStep(parts: seq<Part>, cells: seq<Part>, k: nat, end: nat, added: seq<Part>)
    requires Listing(cells) && k < end <= |cells| && SplitSoFar(parts, cells, k)
    requires forall j :: end <= j < |cells| ==> RangeMax(cells[k].cell) < RangeMin(cells[j].cell)
    requires StrictlyInside(cells[k + 1..end], cells[k].cell)
    requires Refines(added, RangeMin(cells[k].cell), RangeMax(cells[k].cell), cells[k].value, cells[k + 1..end])
    ensures SplitSoFar(parts + added, cells, end)
  {
    var all := parts + added;
    SplitOrder(parts, cells, k, added);
    forall i, j | 0 <= i < |all| && end <= j < |cells|
      ensures RangeMax(all[i].cell) < RangeMin(cells[j].cell)
    {
      if i >= |parts| { assert all[i] == added[i - |parts|]; }
    }
    forall x, b | IsLeaf(x)
      ensures Lit(all, x, b) <==> Lit(cells[..end], x, b)
    {
      SplitPoint(parts, cells, k, end, added, x, b);
    }
  }

  lemma SplitOrder(parts: seq<Part>, cells: seq<Part>, k: nat, added: seq<Part>)
    requires k < |cells| && Sorted(parts) && GoodLabels(parts) && DoneBefore(parts, cells, k)
    requires Sorted(added) && GoodLabels(added) && PartsIn(added, RangeMin(cells[k].cell), RangeMax(cells[k].cell))
    ensures Sorted(parts + added) && GoodLabels(parts + added)
  {
    hide RangeMin, RangeMax, IsValid, GoodLabel;
  }

  lemma SplitPoint(parts: seq<Part>, cells: seq<Part>, k: nat, end: nat, added: seq<Part>, x: nat, b: int)
    requires k < end <= |cells| && SameLit(parts, cells[..k]) && IsLeaf(x)
    requires StrictlyInside(cells[k + 1..end], cells[k].cell)
    requires PartsIn(added, RangeMin(cells[k].cell), RangeMax(cells[k].cell))
    requires LitOn(added, RangeMin(cells[k].cell), RangeMax(cells[k].cell), cells[k].value, cells[k + 1..end])
    ensures Lit(parts + added, x, b) <==> Lit(cells[..end], x, b)
  {
    hide RangeMin, RangeMax, Lit;
    var top, inner := cells[k], cells[k + 1..end];
    LitConcat(parts, added, x, b);
    assert cells[..end] == cells[..k] + ([top] + inner);
    LitConcat(cells[..k], [top] + inner, x, b);
    LitConcat([top], inner, x, b);
    LitSingle(top, x, b);
    if !(RangeMin(top.cell) <= x <= RangeMax(top.cell)) {
      NotLitOutside(added, RangeMin(top.cell), RangeMax(top.cell), x, b);
      InsideIsPartsIn(inner, top.cell);
      NotLitOutside(inner, RangeMin(top.cell), RangeMax(top.cell), x, b);
    }
  }

  lemma InsideIsPartsIn(inner: seq<Part>, top: nat)
    requires StrictlyInside(inner, top)
    ensures PartsIn(inner, RangeMin(top), RangeMax(top))
  {
  }

  method SplitAll(cells: seq<Part>) returns (parts: seq<Part>)
    requires Listing(cells)
    ensures Sorted(parts) && GoodLabels(parts) && SameLit(parts, cells)
  {
    assert SplitSoFar([], cells, 0);
    hide RangeMin, RangeMax, SplitSoFar, Refines, Listing, StrictlyInside, Before;
    parts := [];
    var k := 0;
    while k < |cells|
      invariant 0 <= k <= |cells| && SplitSoFar(parts, cells, k)
    {
      var top := cells[k].cell;
      ListingSlice(cells, k + 1, |cells|);
      assert cells[k + 1..|cells|] == cells[k + 1..];
      StartsAscend(cells[k + 1..], RangeMax(top));
      var n := Slices.PartitionPoint(cells[k + 1..], (d: Part) => RangeMin(d.cell) <= RangeMax(top));
      var end := k + 1 + n;
      assert forall j :: k < j < |cells| ==> cells[j] == cells[k + 1..][j - (k + 1)];
      TopGroup(cells, k, end);
      ListedOk(cells, k);
      var next := Refine(top, cells[k].value, cells[k + 1..end], parts);
      assert next == parts + next[|parts|..];
      SplitStep(parts, cells, k, end, next[|parts|..]);
      parts, k := next, end;
    }
    SplitDone(parts, cells);
  }

  lemma SplitDone(parts: seq<Part>, cells: seq<Part>)
    requires SplitSoFar(parts, cells, |cells|)
    ensures Sorted(parts) && GoodLabels(parts) && SameLit(parts, cells)
  {
    assert cells[..|cells|] == cells;
  }

  lemma ListedOk(cells: seq<Part>, k: nat)
    requires Listing(cells) && k < |cells|
    ensures IsValid(cells[k].cell) && GoodLabel(cells[k].value)
  {
  }

  // --- step 4: merge sibling parts with equal heights ---

  ghost predicate MergedSoFar(merged: seq<Part>, parts: seq<Part>, k: nat)
    requires k <= |parts|
  {
    && Sorted(merged) && NoWindow(merged) && GoodLabels(merged)
    && SameRegion(merged, parts[..k])
    && (merged == [] <==> k == 0)
    && (k > 0 ==> RangeMax(merged[|merged| - 1].cell) == RangeMax(parts[k - 1].cell))
  }

  /** The part being placed: it ends where the next input part ends. */
  ghost predicate Placing(merged: seq<Part>, id: nat, ivs: seq<Span>, parts: seq<Part>, k: nat)
    requires k < |parts|
  {
    && Sorted(merged + [Piece(id, ivs)]) && NoWindow(merged) && GoodLabels(merged) && GoodLabel(ivs)
    && SameRegion(merged + [Piece(id, ivs)], parts[..k + 1])
    && RangeMax(id) == RangeMax(parts[k].cell)
  }

  /** The guard of the merge loop. */
  predicate TopMerges(merged: seq<Part>, id: nat, ivs: seq<Span>) {
    var n := |merged|;
    && n >= 3
    && AreSiblings(merged[n - 3].cell, merged[n - 2].cell, merged[n - 1].cell, id)
    && merged[n - 3].value == ivs && merged[n - 2].value == ivs && merged[n - 1].value == ivs
  }

  lemma GuardIsWindow(merged: seq<Part>, id: nat, ivs: seq<Span>)
    ensures TopMerges(merged, id, ivs) <==> |merged| >= 3 && MergeableAt(merged + [Piece(id, ivs)], |merged| - 3)
  {
    hide AreSiblings;
  }

  lemma AtAppend(ps: seq<Part>, p: Part, x: nat, t: seq<Span>)
    ensures At(ps + [p], x, t) <==> At(ps, x, t) || (Contains(p.cell, x) && p.value == t)
  {
    var r := ps + [p];
    if At(ps, x, t) {
      var i :| 0 <= i < |ps| && Contains(ps[i].cell, x) && ps[i].value == t;
      assert r[i] == ps[i];
    }
    if Contains(p.cell, x) && p.value == t { assert r[|ps|] == p; }
  }

  lemma StartPlacing(merged: seq<Part>, parts: seq<Part>, k: nat)
    requires k < |parts| && Sorted(parts) && GoodLabels(parts) && MergedSoFar(merged, parts, k)
    ensures Placing(merged, parts[k].cell, parts[k].value, parts, k)
  {
    var p := parts[k];
    assert parts[..k + 1] == parts[..k] + [p];
    assert Piece(p.cell, p.value) == p;
    if k > 0 { AfterLast(merged, parts, k); }
    forall x, t | IsLeaf(x)
      ensures At(merged + [p], x, t) <==> At(parts[..k + 1], x, t)
    {
      AtAppend(merged, p, x, t);
      AtAppend(parts[..k], p, x, t);
    }
  }

  lemma AfterLast(merged: seq<Part>, parts: seq<Part>, k: nat)
    requires 0 < k < |parts| && Sorted(parts) && Sorted(merged) && merged != []
    requires RangeMax(merged[|merged| - 1].cell) == RangeMax(parts[k - 1].cell)
    ensures forall i :: 0 <= i < |merged| ==> RangeMax(merged[i].cell) < RangeMin(parts[k].cell)
  {
    hide RangeMin, RangeMax, IsValid;
    var last := merged[|merged| - 1].cell;
    RangeOrder(last);
    assert RangeMax(parts[k - 1].cell) < RangeMin(parts[k].cell);
    assert forall i :: 0 <= i < |merged| - 1 ==> RangeMax(merged[i].cell) < RangeMin(last);
  }

  lemma MergeTop(merged: seq<Part>, id: nat, ivs: seq<Span>, parts: seq<Part>, k: nat)
    requires k < |parts| && Placing(merged, id, ivs, parts, k) && TopMerges(merged, id, ivs)
    ensures Level(id) > 0
    ensures Placing(merged[..|merged| - 3], Up(id), ivs, parts, k)
  {
    hide RangeMin, RangeMax, AreSiblings, IsValid, Up, Level;
    GuardIsWindow(merged, id, ivs);
    MergeStep(merged, id, ivs);
    PrefixKeeps(merged, |merged| - 3);
  }

  lemma PrefixKeeps(merged: seq<Part>, n: nat)
    requires n <= |merged| && NoWindow(merged) && GoodLabels(merged)
    ensures NoWindow(merged[..n]) && GoodLabels(merged[..n])
  {
    hide AreSiblings;
    forall k | 0 <= k && k + 3 < n
      ensures !MergeableAt(merged[..n], k)
    {
      assert !MergeableAt(merged, k);
    }
  }

  lemma Placed(merged: seq<Part>, id: nat, ivs: seq<Span>, parts: seq<Part>, k: nat)
    requires k < |parts| && Placing(merged, id, ivs, parts, k) && !TopMerges(merged, id, ivs)
    ensures MergedSoFar(merged + [Piece(id, ivs)], parts, k + 1)
  {
    hide RangeMin, RangeMax, AreSiblings, IsValid;
    GuardIsWindow(merged, id, ivs);
    PushNoWindow(merged, id, ivs);
  }

  method MergeParts(parts: seq<Part>) returns (merged: seq<Part>)
    requires Sorted(parts) && GoodLabels(parts)
    ensures Sorted(merged) && Canonical(merged) && GoodLabels(merged) && SameRegion(merged, parts)
  {
    assert MergedSoFar([], parts, 0);
    hide Sorted, GoodLabels, NoWindow, SameRegion, MergedSoFar, Placing, TopMerges, Up, Level;
    merged := [];
    for k := 0 to |parts|
      invariant MergedSoFar(merged, parts, k)
    {
      var id, ivs := parts[k].cell, parts[k].value;
      StartPlacing(merged, parts, k);
      while TopMerges(merged, id, ivs)
        invariant Placing(merged, id, ivs, parts, k)
        decreases |merged|
      {
        MergeTop(merged, id, ivs, parts, k);
        TopIsThree(merged, id, ivs);
        merged, id := merged[..|merged| - 3], Up(id);
      }
      Placed(merged, id, ivs, parts, k);
      merged := merged + [Piece(id, ivs)];
    }
    MergedDone(merged, parts);
  }

  lemma TopIsThree(merged: seq<Part>, id: nat, ivs: seq<Span>)
    requires TopMerges(merged, id, ivs)
    ensures |merged| >= 3
  {
  }

  lemma MergedDone(merged: seq<Part>, parts: seq<Part>)
    requires MergedSoFar(merged, parts, |parts|)
    ensures Sorted(merged) && Canonical(merged) && GoodLabels(merged) && SameRegion(merged, parts)
  {
    assert parts[..|parts|] == parts;
    WindowsSuffice(merged);
  }

  // --- step 5: write every interval at its coarsest zoom ---

  /** `out` spells the first `k` parts and the first `j` intervals of the next. */
  ghost predicate Spelled(out: seq<Voxel>, merged: seq<Part>, k: nat, j: nat)
    requires k <= |merged| && (j > 0 ==> k < |merged| && j <= |merged[k].value|)
  {
    && AllCoarsest(out)
    && Group(out) == merged[..k] + if j == 0 then [] else [Piece(merged[k].cell, merged[k].value[..j])]
  }

  lemma SpellOne(out: seq<Voxel>, merged: seq<Part>, k: nat, j: nat, v: Voxel)
    requires k < |merged| && Sorted(merged) && j < |merged[k].value| && Spelled(out, merged, k, j)
    requires EntryOk(v) && AtCoarsest(v) && v.cell == merged[k].cell && SpanOf(v) == merged[k].value[j]
    ensures Spelled(out + [v], merged, k, j + 1)
  {
    hide Group;
    GroupAppend(out, v);
    if out != [] { LastGroup(out); }
    if j == 0 {
      SpelledNone(out, merged, k);
      if k > 0 { DistinctCells(merged, k); }
      SpellFirst(out, merged, k, v);
    } else {
      SpellNext(out, merged, k, j, v);
    }
  }

  lemma SpellFirst(out: seq<Voxel>, merged: seq<Part>, k: nat, v: Voxel)
    requires k < |merged| && merged[k].value != [] && AllCoarsest(out) && Group(out) == merged[..k]
    requires EntryOk(v) && AtCoarsest(v) && v.cell == merged[k].cell && SpanOf(v) == merged[k].value[0]
    requires Group(out + [v]) == Group(out) + [Piece(v.cell, [SpanOf(v)])]
    ensures Spelled(out + [v], merged, k, 1)
  {
    hide SpanOf, EntryOk, AtCoarsest, Group;
    assert merged[k].value[..1] == [merged[k].value[0]];
  }

  lemma SpellNext(out: seq<Voxel>, merged: seq<Part>, k: nat, j: nat, v: Voxel)
    requires k < |merged| && 0 < j < |merged[k].value| && Spelled(out, merged, k, j)
    requires EntryOk(v) && AtCoarsest(v) && v.cell == merged[k].cell && SpanOf(v) == merged[k].value[j]
    requires var ps := Group(out);
             ps != [] && Group(out + [v]) == ps[..|ps| - 1] + [Piece(ps[|ps| - 1].cell, ps[|ps| - 1].value + [SpanOf(v)])]
    ensures Spelled(out + [v], merged, k, j + 1)
  {
    hide SpanOf, EntryOk, AtCoarsest, Group;
    var s := merged[k].value;
    assert s[..j + 1] == s[..j] + [s[j]];
  }

  lemma SpelledNone(out: seq<Voxel>, merged: seq<Part>, k: nat)
    requires k <= |merged| && Spelled(out, merged, k, 0)
    ensures Group(out) == merged[..k] && (out == [] <==> k == 0)
  {
    assert |Group(out)| == |Chunks(out)|;
  }

  lemma DistinctCells(merged: seq<Part>, k: nat)
    requires 0 < k < |merged| && Sorted(merged)
    ensures merged[k - 1].cell != merged[k].cell
  {
    RangeEnds(merged[k].cell);
  }

  method Spell(merged: seq<Part>) returns (out: seq<Voxel>)
    requires Sorted(merged) && GoodLabels(merged)
    ensures AllCoarsest(out) && Group(out) == merged
  {
    assert Spelled([], merged, 0, 0);
    hide SpanOf, EntryOk, AtCoarsest, RangeMin, RangeMax, IsValid, Group, Sorted, Spelled, BoundsOk, GoodLabels;
    out := [];
    for k := 0 to |merged|
      invariant Spelled(out, merged, k, 0)
    {
      var id, ivs := merged[k].cell, merged[k].value;
      for j := 0 to |ivs|
        invariant Spelled(out, merged, k, j)
      {
        SpanFits(merged, k, j);
        var v := VoxelFromInterval(id, ivs[j].lo, ivs[j].hi);
        EntryFits(v);
        SpellOne(out, merged, k, j, v);
        out := out + [v];
      }
      SpelledPart(out, merged, k);
    }
    SpelledAll(out, merged);
  }

  lemma SpelledPart(out: seq<Voxel>, merged: seq<Part>, k: nat)
    requires k < |merged| && GoodLabels(merged) && Spelled(out, merged, k, |merged[k].value|)
    ensures Spelled(out, merged, k + 1, 0)
  {
    hide AllCoarsest, Group;
    var p := merged[k];
    assert p.value[..|p.value|] == p.value;
    assert merged[..k + 1] == merged[..k] + [Piece(p.cell, p.value)];
  }

  lemma SpelledAll(out: seq<Voxel>, merged: seq<Part>)
    requires Spelled(out, merged, |merged|, 0)
    ensures AllCoarsest(out) && Group(out) == merged
  {
    assert merged[..|merged|] == merged;
  }

  lemma SpanFits(merged: seq<Part>, k: nat, j: nat)
    requires Sorted(merged) && GoodLabels(merged) && k < |merged| && j < |merged[k].value|
    ensures IsValid(merged[k].cell) && -TOP <= merged[k].value[j].lo < merged[k].value[j].hi <= TOP
  {
  }

  lemma EntryFits(v: Voxel)
    requires IsValid(v.cell) && BoundsOk(v)
    ensures EntryOk(v)
  {
  }

  // --- the whole normalisation ---

  datatype Normalized = Done(entries: seq<Voxel>) | NoEntries | BadEntry(k: nat)

  /** `out` is canonical and covers the points of `vs`. */
  ghost predicate IsNormalForm(vs: seq<Voxel>, out: seq<Voxel>) {
    IsCanonical(out) && SamePoints(out, vs)
  }

  method NormalizeVoxels(vs: seq<Voxel>) returns (r: Normalized)
    ensures r.NoEntries? <==> vs == []
    ensures r.BadEntry? ==> r.k < |vs| && !EntryOk(vs[r.k]) && forall i :: 0 <= i < r.k ==> EntryOk(vs[i])
    ensures r.Done? <==> vs != [] && AllOk(vs)
    ensures r.Done? ==> IsNormalForm(vs, r.entries)
    ensures r.Done? ==> (r.entries == vs <==> IsCanonical(vs))
  {
    hide EntryOk, Sorted, GoodLabels, Canonical, Listing, SameRegion;
    if |vs| == 0 { return NoEntries; }
    for k := 0 to |vs|
      invariant forall i :: 0 <= i < k ==> EntryOk(vs[i])
    {
      if !EntryOk(vs[k]) { return BadEntry(k); }
    }
    var cells := ListCells(vs);
    var parts := SplitAll(cells);
    var merged := MergeParts(parts);
    var out := Spell(merged);
    SpelledRegion(out, merged, parts, cells, vs);
    if IsCanonical(vs) { OneEncoding(out, vs); }
    return Done(out);
  }

  lemma SameRegionLit(ps: seq<Part>, qs: seq<Part>, x: nat, b: int)
    requires SameRegion(ps, qs) && IsLeaf(x) && Lit(ps, x, b)
    ensures Lit(qs, x, b)
  {
    var i :| 0 <= i < |ps| && LitBy(ps[i], x, b);
    assert At(ps, x, ps[i].value);
    assert At(qs, x, ps[i].value);
    var j :| 0 <= j < |qs| && Contains(qs[j].cell, x) && qs[j].value == ps[i].value;
    assert LitBy(qs[j], x, b);
  }

  lemma SpelledRegion(out: seq<Voxel>, merged: seq<Part>, parts: seq<Part>, cells: seq<Part>, vs: seq<Voxel>)
    requires AllCoarsest(out) && Group(out) == merged && Canonical(merged) && GoodLabels(merged)
    requires SameRegion(merged, parts) && SameLit(parts, cells) && SameAsEntries(cells, vs)
    ensures IsNormalForm(vs, out)
  {
    OrderedIsGrouped(out);
    forall x, b | IsLeaf(x)
      ensures Covers(out, x, b) <==> Covers(vs, x, b)
    {
      GroupLit(out, x, b);
      if Lit(merged, x, b) { SameRegionLit(merged, parts, x, b); }
      if Lit(parts, x, b) { SameRegionLit(parts, merged, x, b); }
    }
  }

  /** Two lists normalise alike exactly when they cover the same region. */
  lemma NormalFormsDecideRegion(v: seq<Voxel>, w: seq<Voxel>, nv: seq<Voxel>, nw: seq<Voxel>)
    requires IsNormalForm(v, nv) && IsNormalForm(w, nw)
    ensures nv == nw <==> SamePoints(v, w)
  {
    OneEncoding(nv, nw);
    if SamePoints(v, w) {
      forall x, b | IsLeaf(x)
        ensures Covers(nv, x, b) <==> Covers(nw, x, b)
      {
        assert Covers(nv, x, b) <==> Covers(v, x, b);
        assert Covers(nw, x, b) <==> Covers(w, x, b);
      }
    }
    if nv == nw {
      forall x, b | IsLeaf(x)
        ensures Covers(v, x, b) <==> Covers(w, x, b)
      {
        assert Covers(nv, x, b) <==> Covers(v, x, b);
        assert Covers(nw, x, b) <==> Covers(w, x, b);
      }
    }
  }

  /** The checker accepts exactly the lists that are their own normal form, within the
      cap and somewhere bounded in height: the definition the Go generator checks by. */
  lemma AcceptedIsOwnNormalForm(vs: seq<Voxel>, nv: seq<Voxel>)
    requires IsNormalForm(vs, nv)
    ensures IsAccepted(vs) <==>
            nv == vs && 0 < |vs| <= MAX_ENTRIES && exists i :: 0 <= i < |vs| && !IsFullHeight(vs[i])
  {
    if IsCanonical(vs) { OneEncoding(nv, vs); }
  }
}
