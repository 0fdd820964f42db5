/** The voxel-set checker, containment search and digest (src/s2.rs), against the
    region and canonical form of VoxelSets. */
module VoxelChecks {
  import opened Arith
  import opened Bytes
  import opened Cells
  import opened Entries
  import opened Heights
  import opened Options
  import opened Regions
  import opened Siblings
  import opened VoxelSets
  import Slices

  // --- the canonical-form check ---

  datatype Check =
    | Ok | Empty | TooMany(n: nat)
    | InvalidCell(k: nat) | OutOfBounds(k: nat) | NotCoarsest(k: nat) | OutOfOrder(k: nat)
    | Unmerged(k: nat) | AllFullHeight

  function Keys(g: seq<Voxel>): (s: seq<Key>)
    ensures |s| == |g|
    ensures forall i :: 0 <= i < |g| ==> s[i] == KeyOf(g[i])
  {
    seq(|g|, i requires 0 <= i < |g| => KeyOf(g[i]))
  }

  /** Four neighbouring cells carry identical entries and are siblings. */
  predicate Window(g: seq<seq<Voxel>>, k: nat)
    requires k + 3 < |g| && forall i :: 0 <= i < |g| ==> g[i] != []
  {
    && Keys(g[k]) == Keys(g[k + 1]) == Keys(g[k + 2]) == Keys(g[k + 3])
    && AreSiblings(g[k][0].cell, g[k + 1][0].cell, g[k + 2][0].cell, g[k + 3][0].cell)
  }

  /** The list cut where the cell changes, and only there. */
  ghost predicate AreRuns(g: seq<seq<Voxel>>, vs: seq<Voxel>) {
    && Slices.Flat(g) == vs
    && (forall i :: 0 <= i < |g| ==> g[i] != [] && forall j :: 0 <= j < |g[i]| ==> g[i][j].cell == g[i][0].cell)
    && (forall i :: 0 < i < |g| ==> g[i - 1][0].cell != g[i][0].cell)
  }

  lemma RunsJoin(g: seq<seq<Voxel>>, vs: seq<Voxel>, v: Voxel)
    requires AreRuns(g, vs) && g != [] && g[|g| - 1] != [] && g[|g| - 1][0].cell == v.cell
    ensures AreRuns(g[..|g| - 1] + [g[|g| - 1] + [v]], vs + [v])
  {
    var m := |g| - 1;
    var h := g[..m] + [g[m] + [v]];
    assert h[..m] == g[..m] && Slices.Flat(h) == Slices.Flat(g[..m]) + (g[m] + [v]);
    assert Slices.Flat(h) == Slices.Flat(g) + [v];
    assert forall i :: 0 <= i < m ==> h[i] == g[i];
    assert h[m][0] == g[m][0];
  }

  lemma RunsNew(g: seq<seq<Voxel>>, vs: seq<Voxel>, v: Voxel)
    requires AreRuns(g, vs) && (g != [] ==> g[|g| - 1] != [] && g[|g| - 1][0].cell != v.cell)
    ensures AreRuns(g + [[v]], vs + [v])
  {
    var h := g + [[v]];
    assert h[..|g|] == g;
    assert forall i :: 0 <= i < |g| ==> h[i] == g[i];
  }

  lemma {:induction false} ChunksAreRuns(vs: seq<Voxel>)
    ensures AreRuns(Chunks(vs), vs)
  {
    hide AreRuns, Chunks, Group;
    if vs == [] {
      NoRuns();
    } else {
      var n := |vs| - 1;
      var w, v := vs[..n], vs[n];
      assert vs == w + [v];
      ChunksAreRuns(w);
      ChunksAppend(w, v);
      if w != [] { LastGroup(w); }
      if Joins(w, v) {
        RunsJoin(Chunks(w), w, v);
      } else {
        RunsNew(Chunks(w), w, v);
      }
    }
  }

  lemma NoRuns()
    ensures AreRuns(Chunks([]), [])
  {
  }

  /** `chunk_by` on the cell id. */
  method ChunkByCell(vs: seq<Voxel>) returns (g: seq<seq<Voxel>>)
    ensures g == Chunks(vs) && AreRuns(g, vs)
  {
    ChunksAreRuns(vs);
    g := [];
    for k := 0 to |vs|
      invariant g == Chunks(vs[..k])
    {
      assert vs[..k + 1][..k] == vs[..k];
      if k > 0 && vs[k - 1].cell == vs[k].cell {
        g := g[..|g| - 1] + [g[|g| - 1] + [vs[k]]];
      } else {
        g := g + [[vs[k]]];
      }
    }
    assert vs[..|vs|] == vs;
  }

  /** Entries of a chunk are entries of the list. */
  lemma {:induction false} ChunkEntries(vs: seq<Voxel>)
    requires AllCoarsest(vs)
    ensures forall i :: 0 <= i < |Chunks(vs)| ==> AllCoarsest(Chunks(vs)[i])
  {
    if vs != [] {
      var n := |vs| - 1;
      ChunkEntries(vs[..n]);
      var g, h := Chunks(vs[..n]), Chunks(vs);
      forall i | 0 <= i < |h|
        ensures AllCoarsest(h[i])
      {
        if i < |g| && h[i] == g[i] {
        } else if n > 0 && vs[n - 1].cell == vs[n].cell {
          assert h[i] == g[|g| - 1] + [vs[n]];
        } else {
          assert h[i] == [vs[n]];
        }
      }
    }
  }

  /** Comparing entries is comparing intervals. */
  lemma KeysAreSpans(g: seq<Voxel>, h: seq<Voxel>)
    requires AllCoarsest(g) && AllCoarsest(h)
    ensures Keys(g) == Keys(h) <==> Spans(g) == Spans(h)
  {
    if |g| == |h| {
      forall i | 0 <= i < |g|
        ensures Keys(g)[i] == Keys(h)[i] <==> Spans(g)[i] == Spans(h)[i]
      {
        assert EntryOk(g[i]) && AtCoarsest(g[i]) && EntryOk(h[i]) && AtCoarsest(h[i]);
        OneEntry(g[i], h[i]);
      }
    }
  }

  lemma WindowIsMergeable(vs: seq<Voxel>, k: nat)
    requires AllCoarsest(vs) && k + 3 < |Chunks(vs)|
    ensures Window(Chunks(vs), k) <==> MergeableAt(Group(vs), k)
  {
    var g, ps := Chunks(vs), Group(vs);
    ChunkEntries(vs);
    KeysAreSpans(g[k], g[k + 1]);
    KeysAreSpans(g[k + 1], g[k + 2]);
    KeysAreSpans(g[k + 2], g[k + 3]);
    assert ps[k].value == Spans(g[k]) && ps[k + 1].value == Spans(g[k + 1]);
    assert ps[k + 2].value == Spans(g[k + 2]) && ps[k + 3].value == Spans(g[k + 3]);
  }

  /** On ordered entries the windows of four find every mergeable sibling group. */
  lemma WindowsFindSiblings(vs: seq<Voxel>)
    requires AllCoarsest(vs) && Ordered(vs)
    ensures (forall k :: 0 <= k && k + 3 < |Chunks(vs)| ==> !Window(Chunks(vs), k)) <==> IsCanonical(vs)
  {
    hide Window, MergeableAt, EntryOk, AtCoarsest, InOrder, Chunks, GoodLabels;
    OrderedIsGrouped(vs);
    WindowsSuffice(Group(vs));
    assert Canonical(Group(vs)) <==> IsCanonical(vs);
    forall k | 0 <= k && k + 3 < |Chunks(vs)|
      ensures Window(Chunks(vs), k) <==> MergeableAt(Group(vs), k)
    {
      WindowIsMergeable(vs, k);
    }
    if NoWindow(Group(vs)) {
      forall k | 0 <= k && k + 3 < |Chunks(vs)|
        ensures !Window(Chunks(vs), k)
      {
        assert !MergeableAt(Group(vs), k);
      }
    } else {
      var k :| 0 <= k && k + 3 < |Group(vs)| && MergeableAt(Group(vs), k);
      assert Window(Chunks(vs), k);
    }
  }

  ghost predicate PrefixOk(vs: seq<Voxel>, k: nat)
    requires k <= |vs|
  {
    AllCoarsest(vs[..k]) && Ordered(vs[..k])
  }

  lemma PrefixStep(vs: seq<Voxel>, k: nat)
    requires k < |vs| && PrefixOk(vs, k)
    ensures PrefixOk(vs, k + 1) <==> EntryOk(vs[k]) && AtCoarsest(vs[k]) && (k > 0 ==> InOrder(vs[k - 1], vs[k]))
  {
    hide EntryOk, AtCoarsest, InOrder, Ordered;
    var w, v := vs[..k], vs[k];
    assert vs[..k + 1] == w + [v];
    assert forall i :: 0 <= i < k ==> EntryOk(w[i]);
    if EntryOk(v) { OrderedAppend(w, v); }
    if PrefixOk(vs, k + 1) { assert vs[..k + 1][k] == v; }
  }

  lemma WholePrefix(vs: seq<Voxel>, k: nat)
    requires k <= |vs|
    ensures IsCanonical(vs) ==> PrefixOk(vs, k)
  {
    if IsCanonical(vs) {
      var w := vs[..k];
      assert forall i :: 0 <= i < k ==> w[i] == vs[i];
    }
  }

  ghost predicate SomeSiblings(vs: seq<Voxel>) {
    exists p, t :: SiblingsListed(Group(vs), p, t)
  }

  /** Window `k` is the first that must be merged. */
  ghost predicate FirstWindow(g: seq<seq<Voxel>>, k: nat)
    requires forall i :: 0 <= i < |g| ==> g[i] != []
  {
    k + 3 < |g| && Window(g, k) && forall j :: 0 <= j < k ==> !Window(g, j)
  }

  /** What each refusal says about the list. */
  ghost predicate Reason(vs: seq<Voxel>, r: Check) {
    match r
    case Ok => IsAccepted(vs)
    case Empty => vs == []
    case TooMany(n) => n == |vs| > 16_384
    case InvalidCell(k) => k < |vs| && PrefixOk(vs, k) && !IsValid(vs[k].cell)
    case OutOfBounds(k) => k < |vs| && PrefixOk(vs, k) && IsValid(vs[k].cell) && !BoundsOk(vs[k])
    case NotCoarsest(k) => k < |vs| && PrefixOk(vs, k) && EntryOk(vs[k]) && !AtCoarsest(vs[k])
    case OutOfOrder(k) => 0 < k < |vs| && PrefixOk(vs, k) && EntryOk(vs[k]) && !InOrder(vs[k - 1], vs[k])
    case Unmerged(k) => AllCoarsest(vs) && Ordered(vs) && SomeSiblings(vs) && FirstWindow(Chunks(vs), k)
    case AllFullHeight => IsCanonical(vs) && forall i :: 0 <= i < |vs| ==> IsFullHeight(vs[i])
  }

  method CheckVoxelCanonical(vs: seq<Voxel>) returns (r: Check)
    ensures r.Ok? <==> IsAccepted(vs)
    ensures Reason(vs, r)
  {
    hide IsValid, BoundsOk, AtCoarsest, InOrder, AllCoarsest, Ordered, Window, IsFullHeight, AreRuns;
    if |vs| == 0 { return Empty; }
    if |vs| > MAX_ENTRIES { return TooMany(|vs|); }
    PrefixNone(vs);
    for k := 0 to |vs|
      invariant PrefixOk(vs, k)
    {
      var v := vs[k];
      PrefixStep(vs, k);
      WholePrefix(vs, k + 1);
      if !IsValid(v.cell) { return InvalidCell(k); }
      if !BoundsOk(v) { return OutOfBounds(k); }
      if !AtCoarsest(v) { return NotCoarsest(k); }
      if k > 0 && !InOrder(vs[k - 1], v) { return OutOfOrder(k); }
    }
    assert vs[..|vs|] == vs;
    var groups := ChunkByCell(vs);
    WindowsFindSiblings(vs);
    for k := 0 to |groups| - (if |groups| < 3 then |groups| else 3)
      invariant forall j :: 0 <= j < k ==> !Window(groups, j)
    {
      if Window(groups, k) { return Unmerged(k); }
    }
    var full := AllFull(vs);
    return if full then AllFullHeight else Ok;
  }

  lemma PrefixNone(vs: seq<Voxel>)
    ensures PrefixOk(vs, 0)
  {
  }

  method AllFull(vs: seq<Voxel>) returns (full: bool)
    ensures full <==> forall i :: 0 <= i < |vs| ==> IsFullHeight(vs[i])
  {
    for k := 0 to |vs|
      invariant forall i :: 0 <= i < k ==> IsFullHeight(vs[i])
    {
      if !IsFullHeight(vs[k]) { return false; }
    }
    return true;
  }

  // --- containment ---

  lemma CellsAscend(vs: seq<Voxel>, leaf: nat)
    requires AllOk(vs) && Ordered(vs)
    ensures Slices.Partitioned(vs, (v: Voxel) => RangeMax(v.cell) < leaf)
  {
    forall i, j | 0 <= i < j < |vs| && RangeMax(vs[j].cell) < leaf
      ensures RangeMax(vs[i].cell) < leaf
    {
      assert InOrder(vs[i], vs[j]);
      RangeEnds(vs[j].cell);
    }
  }

  /** Entries covering the leaf form one run that starts at the first cell reaching it. */
  lemma CoveringRun(vs: seq<Voxel>, leaf: nat, k: nat, i: nat)
    requires AllOk(vs) && Ordered(vs) && k <= |vs| && i < |vs| && Contains(vs[i].cell, leaf)
    requires forall j :: 0 <= j < k ==> RangeMax(vs[j].cell) < leaf
    requires forall j :: k <= j < |vs| ==> RangeMax(vs[j].cell) >= leaf
    ensures k <= i && RangeMin(vs[k].cell) <= leaf
    ensures forall j :: k <= j <= i ==> vs[j].cell == vs[k].cell
  {
    forall j | k <= j <= i
      ensures vs[j].cell == vs[i].cell
    {
      if j < i { assert InOrder(vs[j], vs[i]); }
    }
  }

  /** Some listed cell contains the leaf and lists a height interval that includes `h`. */
  ghost predicate Holds(vs: seq<Voxel>, leaf: nat, h: real) {
    exists i :: 0 <= i < |vs| && Contains(vs[i].cell, leaf) && InHeights(vs[i], h)
  }

  /** The search over cells and then one cell's entries decides membership of the point. */
  method VoxelSetContains(vs: seq<Voxel>, leaf: nat, h: Height) returns (r: Option<bool>)
    requires AllOk(vs) && Ordered(vs) && IsLeaf(leaf)
    ensures r == if InRange(h) then Some(Covers(vs, leaf, FIndex(h, MAX_ZOOM).value)) else None
    ensures r.Some? <==> h.Metres? && -33554432.0 < h.h < 33554432.0
    ensures r.Some? ==> (r.value <==> Holds(vs, leaf, h.h))
  {
    InRangeMeans(h);
    if InRange(h) { CoversIsHeights(vs, leaf, h.h); }
    hide RangeMin, RangeMax, Ordered, SpanOf, FIndex, InSpan, Pow2, Holds, InRange;
    if FIndex(h, 0).None? { return None; }
    CellsAscend(vs, leaf);
    var k := Slices.PartitionPoint(vs, (v: Voxel) => RangeMax(v.cell) < leaf);
    ghost var b := FIndex(h, MAX_ZOOM).value;
    forall i | 0 <= i < |vs| && InEntry(vs[i], leaf, b)
      ensures k <= i && RangeMin(vs[k].cell) <= leaf
      ensures forall j :: k <= j <= i ==> vs[j].cell == vs[k].cell
    {
      CoveringRun(vs, leaf, k, i);
    }
    if k == |vs| || RangeMin(vs[k].cell) > leaf { return Some(false); }
    var cell := vs[k].cell;
    var j := k;
    while j < |vs| && vs[j].cell == cell
      invariant k <= j <= |vs|
      invariant forall i :: k <= i < j ==> vs[i].cell == cell && !InEntry(vs[i], leaf, b)
    {
      assert EntryOk(vs[j]);
      BinInEntry(vs[j], h);
      var f := FIndex(h, vs[j].zoom).value;
      if vs[j].fMin <= f <= vs[j].fMax {
        CellReaches(vs[k].cell, leaf);
        assert InEntry(vs[j], leaf, b);
        return Some(true);
      }
      j := j + 1;
    }
    return Some(false);
  }

  /** Covering the zoom-32 bin of a height is having an entry whose heights include it. */
  lemma CoversIsHeights(vs: seq<Voxel>, leaf: nat, h: real)
    requires AllOk(vs) && InRange(Metres(h))
    ensures Covers(vs, leaf, FIndex(Metres(h), MAX_ZOOM).value) <==>
            Holds(vs, leaf, h)
  {
    hide FIndex, InHeights, Contains, SpanOf, InSpan, InRange, Pow2;
    InRangeMeans(Metres(h));
    forall i | 0 <= i < |vs|
      ensures InSpan(SpanOf(vs[i]), FIndex(Metres(h), MAX_ZOOM).value) <==> InHeights(vs[i], h)
    {
      assert EntryOk(vs[i]);
      BinInEntry(vs[i], Metres(h));
      BinIsHeight(vs[i], h);
    }
    if Covers(vs, leaf, FIndex(Metres(h), MAX_ZOOM).value) {
      var i :| 0 <= i < |vs| && InEntry(vs[i], leaf, FIndex(Metres(h), MAX_ZOOM).value);
      assert Contains(vs[i].cell, leaf) && InHeights(vs[i], h);
    }
    if Holds(vs, leaf, h) {
      var i :| 0 <= i < |vs| && Contains(vs[i].cell, leaf) && InHeights(vs[i], h);
      assert InEntry(vs[i], leaf, FIndex(Metres(h), MAX_ZOOM).value);
    }
  }

  lemma CellReaches(c: nat, leaf: nat)
    requires RangeMin(c) <= leaf && RangeMax(c) >= leaf
    ensures Contains(c, leaf)
  {
  }

  // --- digest ---

  /** `octet-region-voxelset-v1` */
  const DOMAIN: seq<Byte> := Ascii("octet-region-voxelset-v1")

  function Record(v: Voxel): (m: seq<Byte>)
    ensures |m| == 28
  {
    U64be(v.cell) + U32be(v.zoom) + I64be(v.fMin) + I64be(v.fMax)
  }

  function Records(vs: seq<Voxel>): (m: seq<Byte>)
    ensures |m| == 28 * |vs|
  {
    if vs == [] then [] else Records(vs[..|vs| - 1]) + Record(vs[|vs| - 1])
  }

  /** The bytes the tag 9 digest hashes. */
  function Message(vs: seq<Voxel>): seq<Byte> {
    DOMAIN + U32be(Count32(|vs|)) + Records(vs)
  }

  method Digest(vs: seq<Voxel>, sha: Hash) returns (d: seq<Byte>)
    ensures d == sha(Message(vs))
  {
    var m := DOMAIN + U32be(Count32(|vs|));
    for k := 0 to |vs|
      invariant m == DOMAIN + U32be(Count32(|vs|)) + Records(vs[..k])
    {
      m := m + (U64be(vs[k].cell) + U32be(vs[k].zoom) + I64be(vs[k].fMin) + I64be(vs[k].fMax));
      assert vs[..k + 1][..k] == vs[..k];
    }
    assert vs[..|vs|] == vs;
    d := sha(m);
  }

  /** The four fields of entry `k`, at their offsets in its 28 bytes. */
  ghost predicate EntryAt(m: seq<Byte>, at: nat, v: Voxel) {
    && NumberAt(m, at, 8, v.cell) && NumberAt(m, at + 8, 4, v.zoom)
    && NumberAt(m, at + 12, 8, Cast64(v.fMin)) && NumberAt(m, at + 20, 8, Cast64(v.fMax))
  }

  lemma RecordAt(m: seq<Byte>, at: nat, v: Voxel)
    requires BytesAt(m, at, Record(v))
    ensures EntryAt(m, at, v)
  {
    hide U64be, U32be, I64be;
    var r := Record(v);
    assert r[0..8] == U64be(v.cell) && r[8..12] == U32be(v.zoom) && r[12..20] == I64be(v.fMin) && r[20..28] == I64be(v.fMax);
    assert m[at..at + 8] == r[0..8] && m[at + 8..at + 12] == r[8..12];
    assert m[at + 12..at + 20] == r[12..20] && m[at + 20..at + 28] == r[20..28];
    U64At(m, at, v.cell);
    U32At(m, at + 8, v.zoom);
    I64At(m, at + 12, v.fMin);
    I64At(m, at + 20, v.fMax);
  }

  lemma {:induction false} RecordsAt(vs: seq<Voxel>, k: nat)
    requires k < |vs|
    ensures BytesAt(Records(vs), 28 * k, Record(vs[k]))
  {
    hide Record;
    var n := |vs| - 1;
    if k < n {
      RecordsAt(vs[..n], k);
      Before(Records(vs[..n]), Record(vs[n]), 28 * k, Record(vs[k]));
    } else {
      After(Records(vs[..n]), Record(vs[n]), 0, Record(vs[n]));
    }
  }

  /** A reader finds the label, the count in 4 bytes and then each entry in 28, in order. */
  lemma MessageLayout(vs: seq<Voxel>)
    requires |vs| < 0x1_0000_0000
    ensures |Message(vs)| == 28 + 28 * |vs| && BytesAt(Message(vs), 0, Ascii("octet-region-voxelset-v1"))
    ensures NumberAt(Message(vs), 24, 4, |vs|)
    ensures forall k :: 0 <= k < |vs| ==> EntryAt(Message(vs), 28 + 28 * k, vs[k])
  {
    hide Records, Record, U32be, Count32, Ascii, NumberAt, EntryAt;
    SmallCount(|vs|);
    var m, head := Message(vs), DOMAIN + U32be(|vs|);
    After(DOMAIN, U32be(|vs|), 0, U32be(|vs|));
    Before(head, Records(vs), 24, U32be(|vs|));
    U32At(m, 24, |vs|);
    forall k | 0 <= k < |vs|
      ensures EntryAt(m, 28 + 28 * k, vs[k])
    {
      RecordsAt(vs, k);
      After(head, Records(vs), 28 * k, Record(vs[k]));
      RecordAt(m, 28 + 28 * k, vs[k]);
    }
  }

  lemma RecordInjective(v: Voxel, w: Voxel)
    requires Record(v) == Record(w)
    ensures v == w
  {
    hide Be;
    SplitEqualRight(U64be(v.cell) + U32be(v.zoom) + I64be(v.fMin), I64be(v.fMax), U64be(w.cell) + U32be(w.zoom) + I64be(w.fMin), I64be(w.fMax));
    SplitEqualRight(U64be(v.cell) + U32be(v.zoom), I64be(v.fMin), U64be(w.cell) + U32be(w.zoom), I64be(w.fMin));
    SplitEqualRight(U64be(v.cell), U32be(v.zoom), U64be(w.cell), U32be(w.zoom));
    U64beInjective(v.cell, w.cell);
    U32beInjective(v.zoom, w.zoom);
    I64beInjective(v.fMin, w.fMin);
    I64beInjective(v.fMax, w.fMax);
  }

  lemma {:induction false} RecordsInjective(v: seq<Voxel>, w: seq<Voxel>)
    requires |v| == |w| && Records(v) == Records(w)
    ensures v == w
  {
    hide Record;
    if v != [] {
      var n := |v| - 1;
      SplitEqualRight(Records(v[..n]), Record(v[n]), Records(w[..n]), Record(w[n]));
      RecordInjective(v[n], w[n]);
      RecordsInjective(v[..n], w[..n]);
      assert v == v[..n] + [v[n]] && w == w[..n] + [w[n]];
    }
  }

  lemma MessageInjective(v: seq<Voxel>, w: seq<Voxel>)
    requires |v| < 0x1_0000_0000 && |w| < 0x1_0000_0000
    requires Message(v) == Message(w)
    ensures v == w
  {
    CountedSplit(DOMAIN, |v|, Records(v), |w|, Records(w));
    RecordsInjective(v, w);
  }

  /** Two accepted voxel sets have one digest exactly when they are one region, short of a collision. */
  lemma DigestIsRegion(v: seq<Voxel>, w: seq<Voxel>, sha: Hash)
    requires IsAccepted(v) && IsAccepted(w)
    ensures sha(Message(v)) == sha(Message(w)) && !Collision(sha, Message(v), Message(w)) <==> SamePoints(v, w)
  {
    OneEncoding(v, w);
    if Message(v) == Message(w) { MessageInjective(v, w); }
  }
}
