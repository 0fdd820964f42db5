/** The sibling test of src/s2.rs, the merge step built on it, and why looking
    only at four neighbouring entries finds every mergeable sibling group. */
module Siblings {
  import opened Cells
  import opened Regions

  /** One level below the faces or deeper, and one parent: for ordered cells, all its children. */
  predicate AreSiblings(a: nat, b: nat, c: nat, d: nat) {
    && Level(a) > 0
    && Level(b) == Level(a) && Up(b) == Up(a)
    && Level(c) == Level(a) && Up(c) == Up(a)
    && Level(d) == Level(a) && Up(d) == Up(a)
  }

  /** Entries `k` to `k + 3` carry one value and are four siblings. */
  ghost predicate MergeableAt<T>(ps: seq<Piece<T>>, k: int)
    requires 0 <= k && k + 3 < |ps|
  {
    && ps[k].value == ps[k + 1].value == ps[k + 2].value == ps[k + 3].value
    && AreSiblings(ps[k].cell, ps[k + 1].cell, ps[k + 2].cell, ps[k + 3].cell)
  }

  ghost predicate NoWindow<T>(ps: seq<Piece<T>>) {
    forall k :: 0 <= k && k + 3 < |ps| ==> !MergeableAt(ps, k)
  }

  /** Four ordered siblings are the children of their parent, in order. */
  lemma SiblingsAreChildren(a: nat, b: nat, c: nat, d: nat)
    requires AreSiblings(a, b, c, d) && IsValid(a) && IsValid(b) && IsValid(c) && IsValid(d)
    requires RangeMax(a) < RangeMin(b) && RangeMax(b) < RangeMin(c) && RangeMax(c) < RangeMin(d)
    ensures IsValid(Up(d)) && Level(Up(d)) == Level(d) - 1
    ensures a == Child(Up(d), 0) && b == Child(Up(d), 1) && c == Child(Up(d), 2) && d == Child(Up(d), 3)
  {
    var q0 := ParentStep(a);
    var q1 := ParentStep(b);
    var q2 := ParentStep(c);
    var q3 := ParentStep(d);
    LevelBits(d);
    ChildOrder(Up(d), q0, q1);
    ChildOrder(Up(d), q1, q2);
    ChildOrder(Up(d), q2, q3);
  }

  lemma ChildOrder(p: nat, q: nat, r: nat)
    requires IsValid(p) && Level(p) < 30 && q < 4 && r < 4
    requires Child(p, q) > 0 && Child(p, r) > 0 && RangeMax(Child(p, q)) < RangeMin(Child(p, r))
    ensures q < r
  {
    ChildrenTile(p);
    RangeEnds(Child(p, q));
    RangeEnds(Child(p, r));
    if r <= q { ChildRangesAscend(p, r, q); }
  }

  lemma ChildRangesAscend(p: nat, q: nat, r: nat)
    requires IsValid(p) && Level(p) < 30 && q <= r < 4
    ensures Child(p, q) > 0 && Child(p, r) > 0 && RangeMin(Child(p, q)) <= RangeMax(Child(p, r))
    ensures q < r ==> RangeMax(Child(p, q)) < RangeMin(Child(p, r))
  {
    ChildrenTile(p);
    RangeEnds(Child(p, 0));
    RangeEnds(Child(p, 1));
    RangeEnds(Child(p, 2));
    RangeEnds(Child(p, 3));
  }

  lemma ChildrenAreSiblings(p: nat)
    requires IsValid(p) && Level(p) < 30
    ensures forall q :: 0 <= q < 4 ==> Child(p, q) > 0
    ensures AreSiblings(Child(p, 0), Child(p, 1), Child(p, 2), Child(p, 3))
  {
    ChildrenTile(p);
    LevelBits(p);
  }

  // --- the windows of four see every sibling group ---

  lemma NextEntry<T>(ps: seq<Piece<T>>, i: nat, j: nat)
    requires Sorted(ps) && i < |ps| && j < |ps|
    requires RangeMin(ps[j].cell) == RangeMax(ps[i].cell) + 2
    ensures j == i + 1
  {
    RangeEnds(ps[i].cell);
    RangeEnds(ps[j].cell);
    if i + 1 < j {
      var m := ps[i + 1].cell;
      RangeEnds(m);
      OddGap(RangeMax(ps[i].cell), RangeMin(m));
    }
  }

  lemma OddGap(a: int, b: int)
    requires a % 2 == 1 && b % 2 == 1 && a < b
    ensures a + 2 <= b
  {
  }

  lemma Find<T>(ps: seq<Piece<T>>, e: Piece<T>) returns (i: nat)
    requires e in ps
    ensures i < |ps| && ps[i] == e
  {
    i :| 0 <= i < |ps| && ps[i] == e;
  }

  /** Listed siblings are neighbours. */
  lemma SiblingsAdjacent<T>(ps: seq<Piece<T>>, p: nat, t: T) returns (k: nat)
    requires Sorted(ps) && SiblingsListed(ps, p, t)
    ensures k + 3 < |ps| && MergeableAt(ps, k)
  {
    hide Child, RangeMin, RangeMax, Level, Parent, Up, AreSiblings;
    ChildrenTile(p);
    ChildrenAreSiblings(p);
    var i0 := Find(ps, Piece(Child(p, 0), t));
    var i1 := Find(ps, Piece(Child(p, 1), t));
    var i2 := Find(ps, Piece(Child(p, 2), t));
    var i3 := Find(ps, Piece(Child(p, 3), t));
    NextEntry(ps, i0, i1);
    NextEntry(ps, i1, i2);
    NextEntry(ps, i2, i3);
    k := i0;
  }

  lemma WindowIsSiblings<T>(ps: seq<Piece<T>>, k: nat)
    requires Sorted(ps) && k + 3 < |ps| && MergeableAt(ps, k)
    ensures Level(ps[k + 3].cell) > 0
    ensures var p := Up(ps[k + 3].cell);
            && SiblingsListed(ps, p, ps[k].value) && Level(p) == Level(ps[k + 3].cell) - 1
            && ps[k] == Piece(Child(p, 0), ps[k].value) && ps[k + 1] == Piece(Child(p, 1), ps[k].value)
            && ps[k + 2] == Piece(Child(p, 2), ps[k].value) && ps[k + 3] == Piece(Child(p, 3), ps[k].value)
  {
    SiblingsAreChildren(ps[k].cell, ps[k + 1].cell, ps[k + 2].cell, ps[k + 3].cell);
    LevelBits(ps[k + 3].cell);
    assert ps[k] in ps && ps[k + 1] in ps && ps[k + 2] in ps && ps[k + 3] in ps;
  }

  /** On a sorted list, the neighbour test is the whole sibling rule. */
  lemma WindowsSuffice<T(!new)>(ps: seq<Piece<T>>)
    requires Sorted(ps)
    ensures NoWindow(ps) <==> Canonical(ps)
  {
    if NoWindow(ps) {
      forall p, t
        ensures !SiblingsListed(ps, p, t)
      {
        if SiblingsListed(ps, p, t) { var k := SiblingsAdjacent(ps, p, t); }
      }
    }
    if Canonical(ps) {
      forall k | 0 <= k && k + 3 < |ps|
        ensures !MergeableAt(ps, k)
      {
        if MergeableAt(ps, k) { WindowIsSiblings(ps, k); }
      }
    }
  }

  /** Pushing an entry that does not complete four siblings. */
  lemma PushNoWindow<T>(out: seq<Piece<T>>, id: nat, t: T)
    requires NoWindow(out)
    requires |out| >= 3 ==> !MergeableAt(out + [Piece(id, t)], |out| - 3)
    ensures NoWindow(out + [Piece(id, t)])
  {
    hide AreSiblings;
    var ps := out + [Piece(id, t)];
    forall k | 0 <= k && k + 3 < |ps|
      ensures !MergeableAt(ps, k)
    {
      if k + 3 < |out| { assert !MergeableAt(out, k); }
    }
  }

  // --- merging the last three entries with the next cell ---

  /** What merging four siblings at the top of the stack keeps. */
  lemma MergeStep<T(!new)>(out: seq<Piece<T>>, id: nat, t: T)
    requires |out| >= 3 && Sorted(out + [Piece(id, t)]) && MergeableAt(out + [Piece(id, t)], |out| - 3)
    ensures Level(id) > 0
    ensures var p := Up(id);
            && IsValid(p) && Level(p) == Level(id) - 1
            && RangeMax(p) == RangeMax(id) && p < id
            && Sorted(out[..|out| - 3] + [Piece(p, t)])
            && SameRegion(out + [Piece(id, t)], out[..|out| - 3] + [Piece(p, t)])
  {
    var ps, n := out + [Piece(id, t)], |out| - 3;
    WindowIsSiblings(ps, n);
    var p := Up(id);
    ParentAfterChildren(p);
    assert ps[..n] == out[..n];
    MergedSorted(ps, n, p, t);
    forall x, u | IsLeaf(x)
      ensures At(ps, x, u) <==> At(out[..n] + [Piece(p, t)], x, u)
    {
      MergedAt(ps, n, p, t, x, u);
    }
  }

  lemma ParentAfterChildren(p: nat)
    requires IsValid(p) && Level(p) < 30
    ensures p < Child(p, 3)
  {
    ChildShape(p, 3);
  }

  /** The last four entries are the four children of `p`, all with value `t`. */
  ghost predicate EndsInChildren<T>(ps: seq<Piece<T>>, n: nat, p: nat, t: T) {
    && |ps| == n + 4 && IsValid(p) && Level(p) < 30
    && (forall q :: 0 <= q < 4 ==> Child(p, q) > 0)
    && ps[n] == Piece(Child(p, 0), t) && ps[n + 1] == Piece(Child(p, 1), t)
    && ps[n + 2] == Piece(Child(p, 2), t) && ps[n + 3] == Piece(Child(p, 3), t)
  }

  lemma MergedSorted<T>(ps: seq<Piece<T>>, n: nat, p: nat, t: T)
    requires Sorted(ps) && EndsInChildren(ps, n, p, t)
    ensures Sorted(ps[..n] + [Piece(p, t)]) && RangeMax(p) == RangeMax(ps[n + 3].cell)
  {
    ChildrenTile(p);
  }

  lemma MergedAt<T>(ps: seq<Piece<T>>, n: nat, p: nat, t: T, x: nat, u: T)
    requires EndsInChildren(ps, n, p, t) && IsLeaf(x)
    ensures At(ps, x, u) <==> At(ps[..n] + [Piece(p, t)], x, u)
  {
    hide Child, RangeMin, RangeMax, Level, Contains;
    var merged := ps[..n] + [Piece(p, t)];
    if At(ps, x, u) {
      var i :| 0 <= i < |ps| && Contains(ps[i].cell, x) && ps[i].value == u;
      if i < n {
        assert merged[i] == ps[i];
      } else {
        ChildInParent(p, i - n, x);
        assert merged[n] == Piece(p, t);
      }
    }
    if At(merged, x, u) {
      var i :| 0 <= i < |merged| && Contains(merged[i].cell, x) && merged[i].value == u;
      if i < n {
        assert merged[i] == ps[i];
      } else {
        var q := ChildHolding(p, x);
        assert ps[n + q] == Piece(Child(p, q), t);
      }
    }
  }

  lemma ChildInParent(p: nat, q: nat, x: nat)
    requires IsValid(p) && Level(p) < 30 && q < 4 && Child(p, q) > 0 && Contains(Child(p, q), x)
    ensures Contains(p, x)
  {
    ChildrenTile(p);
  }

  /** Each leaf of a cell lies in one of its children. */
  lemma ChildHolding(p: nat, x: nat) returns (q: nat)
    requires IsValid(p) && Level(p) < 30 && IsLeaf(x) && Contains(p, x)
    ensures q < 4 && Child(p, q) > 0 && Contains(Child(p, q), x)
  {
    ChildrenTile(p);
    if x <= RangeMax(Child(p, 0)) {
      q := 0;
    } else if x <= RangeMax(Child(p, 1)) {
      q := 1;
      OddStep(Child(p, 0), x);
    } else if x <= RangeMax(Child(p, 2)) {
      q := 2;
      OddStep(Child(p, 1), x);
    } else {
      q := 3;
      OddStep(Child(p, 2), x);
    }
  }

  lemma OddStep(c: int, x: nat)
    requires c > 0 && IsValid(c) && IsLeaf(x) && RangeMax(c) < x
    ensures RangeMax(c) + 2 <= x
  {
    RangeEnds(c);
    OddGap(RangeMax(c), x);
  }
}
