/** Why a voxel set may not cover all heights everywhere (src/s2.rs): such a region
    already has an encoding, the cell set of the same cells. */
module FullHeight {
  import opened Cells
  import opened Entries
  import opened Heights
  import opened Regions
  import opened VoxelSets
  import CellSets

  function CellsOf(vs: seq<Voxel>): (ids: seq<nat>)
    ensures |ids| == |vs|
    ensures forall i :: 0 <= i < |vs| ==> ids[i] == vs[i].cell
  {
    seq(|vs|, i requires 0 <= i < |vs| => vs[i].cell)
  }

  const WHOLE := Span(-TOP, TOP)

  ghost predicate AllFull(vs: seq<Voxel>) {
    forall i :: 0 <= i < |vs| ==> IsFullHeight(vs[i])
  }

  /** Full-height entries in order are in distinct cells, one group each. */
  lemma {:induction false} OneGroupEach(vs: seq<Voxel>)
    requires Ordered(vs) && AllFull(vs)
    ensures |Group(vs)| == |vs|
    ensures forall i :: 0 <= i < |vs| ==> Group(vs)[i] == Piece(vs[i].cell, [WHOLE])
  {
    hide RangeMin, RangeMax, Group;
    if vs == [] {
      NoGroups();
    } else {
      var n := |vs| - 1;
      var w := vs[..n];
      assert vs == w + [vs[n]];
      assert forall i :: 0 <= i < n ==> w[i] == vs[i];
      OneGroupEach(w);
      GroupAppend(w, vs[n]);
      assert n > 0 ==> InOrder(vs[n - 1], vs[n]);
      assert !Joins(w, vs[n]);
    }
  }

  lemma NoGroups()
    ensures Group([]) == []
  {
  }

  /** An in-bounds entry is full exactly when it has every bin there is. */
  lemma FullIsEveryBin(v: Voxel)
    requires BoundsOk(v)
    ensures IsFullHeight(v) <==> forall b :: -TOP <= b < TOP ==> InSpan(SpanOf(v), b)
  {
    hide Lo, Hi;
    BoundsInBins(v);
    assert InSpan(SpanOf(v), Lo(v));
    if !IsFullHeight(v) {
      assert !InSpan(SpanOf(v), if Lo(v) != -TOP then -TOP else TOP - 1);
    }
  }

  /** At every leaf of the cell, every bin is covered. */
  ghost predicate EveryBinOver(vs: seq<Voxel>, c: nat) {
    forall x, b :: IsLeaf(x) && Contains(c, x) && -TOP <= b < TOP ==> Covers(vs, x, b)
  }

  /** In order, only a full entry covers every bin over its cell: the bin after or before
      an interval is in no other entry. */
  lemma OnlyFullCoversAll(vs: seq<Voxel>, i: nat)
    requires AllOk(vs) && Ordered(vs) && i < |vs| && EveryBinOver(vs, vs[i].cell)
    ensures IsFullHeight(vs[i])
  {
    hide Lo, Hi;
    var v := vs[i];
    assert EntryOk(v);
    BoundsInBins(v);
    RangeEnds(v.cell);
    var x := RangeMin(v.cell);
    if Hi(v) < TOP { NotBeside(vs, i, x, Hi(v)); }
    if -TOP < Lo(v) { NotBeside(vs, i, x, Lo(v) - 1); }
  }

  lemma NotBeside(vs: seq<Voxel>, i: nat, x: nat, b: int)
    requires AllOk(vs) && Ordered(vs) && i < |vs| && Contains(vs[i].cell, x)
    requires b == Hi(vs[i]) || b == Lo(vs[i]) - 1
    ensures !Covers(vs, x, b)
  {
    hide Lo, Hi, IsValid;
    assert EntryOk(vs[i]);
    BoundsInBins(vs[i]);
    forall j | 0 <= j < |vs|
      ensures !InEntry(vs[j], x, b)
    {
      assert EntryOk(vs[j]);
      BoundsInBins(vs[j]);
      assert i < j ==> InOrder(vs[i], vs[j]);
      assert j < i ==> InOrder(vs[j], vs[i]);
    }
  }

  /** So a canonical set is all full height exactly when it covers every bin of each of its
      cells, and such a set is not accepted. */
  lemma FullHeightRefused(vs: seq<Voxel>)
    requires IsCanonical(vs)
    ensures AllFull(vs) <==> forall i :: 0 <= i < |vs| ==> EveryBinOver(vs, vs[i].cell)
    ensures AllFull(vs) ==> !IsAccepted(vs)
  {
    hide Ordered, EntryOk, AtCoarsest, SiblingsListed;
    assert AllOk(vs) by { assert forall i :: 0 <= i < |vs| ==> EntryOk(vs[i]); }
    forall i | 0 <= i < |vs|
      ensures IsFullHeight(vs[i]) <==> EveryBinOver(vs, vs[i].cell)
    {
      if EveryBinOver(vs, vs[i].cell) { OnlyFullCoversAll(vs, i); }
      if IsFullHeight(vs[i]) { FullCovers(vs, i); }
    }
  }

  lemma FullCovers(vs: seq<Voxel>, i: nat)
    requires i < |vs| && IsFullHeight(vs[i])
    ensures EveryBinOver(vs, vs[i].cell)
  {
    forall x, b | IsLeaf(x) && Contains(vs[i].cell, x) && -TOP <= b < TOP
      ensures Covers(vs, x, b)
    {
      assert InEntry(vs[i], x, b);
    }
  }

  lemma FullGroupMerges(vs: seq<Voxel>, p: nat)
    requires Ordered(vs) && AllFull(vs) && CellSets.ChildrenListed(CellsOf(vs), p)
    ensures SiblingsListed(Group(vs), p, [WHOLE])
  {
    hide Child, IsValid, Level, Ordered, IsFullHeight;
    OneGroupEach(vs);
    forall q | 0 <= q < 4
      ensures Piece(Child(p, q), [WHOLE]) in Group(vs)
    {
      var i :| 0 <= i < |vs| && CellsOf(vs)[i] == Child(p, q);
      assert Group(vs)[i] in Group(vs);
    }
  }

  /** An all-heights canonical voxel set is the canonical cell set of its cells. */
  lemma FullHeightIsCellSet(vs: seq<Voxel>)
    requires IsCanonical(vs) && AllFull(vs)
    ensures CellSets.IsCanonical(CellsOf(vs))
    ensures forall x, b :: Covers(vs, x, b) <==> CellSets.Covers(CellsOf(vs), x) && -TOP <= b < TOP
  {
    hide Contains, Lo, Hi, Child, Level;
    var ids := CellsOf(vs);
    assert CellSets.AllValid(ids) by {
      assert forall i :: 0 <= i < |vs| ==> EntryOk(vs[i]);
    }
    assert CellSets.Disjoint(ids) by {
      forall i, j | 0 <= i < j < |ids|
        ensures RangeMax(ids[i]) < RangeMin(ids[j])
      {
        assert InOrder(vs[i], vs[j]);
      }
    }
    if CellSets.HasFullGroup(ids) {
      var p :| CellSets.ChildrenListed(ids, p);
      FullGroupMerges(vs, p);
    }
    forall x, b
      ensures Covers(vs, x, b) <==> CellSets.Covers(ids, x) && -TOP <= b < TOP
    {
      if Covers(vs, x, b) {
        var i :| 0 <= i < |vs| && InEntry(vs[i], x, b);
        assert Contains(ids[i], x);
      }
      if CellSets.Covers(ids, x) && -TOP <= b < TOP {
        var i :| 0 <= i < |ids| && Contains(ids[i], x);
        assert InEntry(vs[i], x, b);
      }
    }
  }
}
