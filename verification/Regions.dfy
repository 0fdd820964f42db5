/** Lists of labelled cells and the region they denote: a partial function from
    leaves to labels. A list in canonical form is determined by its region. A
    cell set carries no labels; a voxel set labels each cell with its heights. */
module Regions {
  import opened Cells

  /** The most entries a region of either kind may list. */
  const MAX_ENTRIES: nat := 16384

  datatype Piece<T> = Piece(cell: nat, value: T)

  /** Valid cells in ascending order, pairwise disjoint. */
  ghost predicate Sorted<T>(ps: seq<Piece<T>>) {
    && (forall i :: 0 <= i < |ps| ==> IsValid(ps[i].cell))
    && (forall i, j :: 0 <= i < j < |ps| ==> RangeMax(ps[i].cell) < RangeMin(ps[j].cell))
  }

  /** The region gives leaf `x` the label `t`. */
  ghost predicate At<T>(ps: seq<Piece<T>>, x: nat, t: T) {
    exists i :: 0 <= i < |ps| && Contains(ps[i].cell, x) && ps[i].value == t
  }

  ghost predicate SameRegion<T(!new)>(a: seq<Piece<T>>, b: seq<Piece<T>>) {
    forall x, t :: IsLeaf(x) ==> (At(a, x, t) <==> At(b, x, t))
  }

  /** All four children of `p` are listed with label `t`. */
  ghost predicate SiblingsListed<T>(ps: seq<Piece<T>>, p: nat, t: T) {
    && IsValid(p) && Level(p) < 30
    && forall q :: 0 <= q < 4 ==> Child(p, q) > 0 && Piece(Child(p, q), t) in ps
  }

  /** Sorted, disjoint, and no four equally labelled siblings left unmerged. */
  ghost predicate Canonical<T(!new)>(ps: seq<Piece<T>>) {
    && Sorted(ps)
    && (forall p, t :: !SiblingsListed(ps, p, t))
  }

  /** The region gives every leaf of `c` the label `t`. */
  ghost predicate ConstantOn<T>(ps: seq<Piece<T>>, c: nat, t: T) {
    forall x :: IsLeaf(x) && Contains(c, x) ==> At(ps, x, t)
  }

  /** `c` is a largest cell on which the region is constantly `t`. */
  ghost predicate Maximal<T>(ps: seq<Piece<T>>, c: nat, t: T) {
    && IsValid(c)
    && ConstantOn(ps, c, t)
    && (Level(c) > 0 ==> !ConstantOn(ps, Up(c), t))
  }

  // --- one entry per leaf ---

  lemma WithinSelf(c: nat)
    requires IsValid(c)
    ensures Within(c, c)
  {
    RangeEnds(c);
  }

  /** Entries of a sorted list that share an id are the same entry. */
  lemma SameEntry<T>(ps: seq<Piece<T>>, i: nat, j: nat, x: int)
    requires Sorted(ps) && i < |ps| && j < |ps|
    requires RangeMin(ps[i].cell) <= x <= RangeMax(ps[i].cell)
    requires RangeMin(ps[j].cell) <= x <= RangeMax(ps[j].cell)
    ensures i == j
  {
  }

  /** The entry covering a leaf of `c` meets `c`. */
  lemma EntryOver<T>(ps: seq<Piece<T>>, c: nat, t: T) returns (i: nat)
    requires Sorted(ps) && IsValid(c) && ConstantOn(ps, c, t)
    ensures i < |ps| && ps[i].value == t
    ensures Within(c, ps[i].cell) || Within(ps[i].cell, c)
    ensures RangeMin(ps[i].cell) <= RangeMin(c) <= RangeMax(ps[i].cell)
  {
    RangeEnds(c);
    var x := RangeMin(c);
    assert At(ps, x, t);
    i :| 0 <= i < |ps| && Contains(ps[i].cell, x) && ps[i].value == t;
    Meet(c, ps[i].cell, x);
  }

  lemma Meet(a: nat, b: nat, x: int)
    requires IsValid(a) && IsValid(b)
    requires RangeMin(a) <= x <= RangeMax(a) && RangeMin(b) <= x <= RangeMax(b)
    ensures Within(a, b) || Within(b, a)
  {
    Laminar(a, b);
  }

  // --- a constant, unlisted cell hides four mergeable siblings ---

  lemma {:induction false} FindSiblings<T>(ps: seq<Piece<T>>, p: nat, t: T) returns (w: nat)
    requires Sorted(ps) && IsValid(p) && ConstantOn(ps, p, t)
    requires forall i :: 0 <= i < |ps| ==> !Within(p, ps[i].cell)
    ensures SiblingsListed(ps, w, t)
    decreases 30 - Level(p)
  {
    var i := EntryOver(ps, p, t);
    if Level(p) == 30 {
      LevelBits(ps[i].cell);
      SameLevelWithin(ps[i].cell, p);
      WithinSelf(p);
      assert false;
    }
    LevelBits(p);
    ChildrenTile(p);
    if forall q :: 0 <= q < 4 ==> Piece(Child(p, q), t) in ps {
      w := p;
    } else {
      var q :| 0 <= q < 4 && Piece(Child(p, q), t) !in ps;
      var c := Child(p, q);
      ConstantBelow(ps, c, p, t);
      forall j | 0 <= j < |ps|
        ensures !Within(c, ps[j].cell)
      {
        if Within(c, ps[j].cell) { ChildNotCovered(ps, p, c, t, j); }
      }
      w := FindSiblings(ps, c, t);
    }
  }

  lemma ConstantBelow<T>(ps: seq<Piece<T>>, c: nat, p: nat, t: T)
    requires Within(c, p) && ConstantOn(ps, p, t)
    ensures ConstantOn(ps, c, t)
  {
  }

  lemma ChildNotCovered<T>(ps: seq<Piece<T>>, p: nat, c: nat, t: T, j: nat)
    requires Sorted(ps) && IsValid(p) && IsValid(c) && Within(c, p) && Level(c) == Level(p) + 1
    requires ConstantOn(ps, c, t) && Piece(c, t) !in ps
    requires j < |ps| && Within(c, ps[j].cell)
    ensures Within(p, ps[j].cell)
  {
    var d := ps[j].cell;
    RangeEnds(c);
    var i := EntryOver(ps, c, t);
    SameEntry(ps, i, j, RangeMin(c));
    assert ps[j] == Piece(d, t);
    StrictlyWithin(c, d);
    Meet(p, d, RangeMin(c));
    if !Within(p, d) {
      SameLevelWithin(d, p);
      WithinSelf(p);
    }
  }

  // --- entries of a canonical list are exactly the maximal constant cells ---

  lemma EntryIsMaximal<T(!new)>(ps: seq<Piece<T>>, i: nat)
    requires Canonical(ps) && i < |ps|
    ensures Maximal(ps, ps[i].cell, ps[i].value)
  {
    var c, t := ps[i].cell, ps[i].value;
    if Level(c) > 0 && ConstantOn(ps, Up(c), t) {
      var q := ParentStep(c);
      var p := Up(c);
      RangeEnds(c);
      forall j | 0 <= j < |ps|
        ensures !Within(p, ps[j].cell)
      {
      }
      var w := FindSiblings(ps, p, t);
      assert false;
    }
  }

  lemma MaximalIsEntry<T(!new)>(ps: seq<Piece<T>>, c: nat, t: T)
    requires Canonical(ps) && Maximal(ps, c, t)
    ensures Piece(c, t) in ps
  {
    var i := EntryOver(ps, c, t);
    var d := ps[i].cell;
    EntryIsMaximal(ps, i);
    if d != c {
      if Within(c, d) {
        ParentWithin(c, d);
        ConstantBelow(ps, Up(c), d, t);
      } else {
        ParentWithin(d, c);
        ConstantBelow(ps, Up(d), c, t);
      }
      assert false;
    }
    assert ps[i] == Piece(c, t);
  }

  /** A cell strictly inside another has its parent inside it too. */
  lemma ParentWithin(c: nat, d: nat)
    requires IsValid(c) && IsValid(d) && Within(c, d) && c != d
    ensures Level(c) > 0 && Within(Up(c), d)
  {
    StrictlyWithin(c, d);
    LevelBits(d);
    var q := ParentStep(c);
    var p := Up(c);
    RangeEnds(c);
    Meet(p, d, RangeMin(c));
    if !Within(p, d) {
      SameLevelWithin(d, p);
      WithinSelf(d);
    }
  }

  lemma SameMaximal<T(!new)>(a: seq<Piece<T>>, b: seq<Piece<T>>, c: nat, t: T)
    requires SameRegion(a, b) && Maximal(a, c, t)
    ensures Maximal(b, c, t)
  {
    assert ConstantOn(b, c, t);
    if Level(c) > 0 {
      var p := Up(c);
      var x :| IsLeaf(x) && Contains(p, x) && !At(a, x, t);
      assert !At(b, x, t);
    }
  }

  // --- uniqueness ---

  /** One region has one canonical list. */
  lemma Unique<T(!new)>(a: seq<Piece<T>>, b: seq<Piece<T>>)
    requires Canonical(a) && Canonical(b)
    ensures a == b <==> SameRegion(a, b)
  {
    if SameRegion(a, b) {
      forall e | e in a
        ensures e in b
      {
        var i :| 0 <= i < |a| && a[i] == e;
        EntryIsMaximal(a, i);
        SameMaximal(a, b, e.cell, e.value);
        MaximalIsEntry(b, e.cell, e.value);
      }
      forall e | e in b
        ensures e in a
      {
        var i :| 0 <= i < |b| && b[i] == e;
        EntryIsMaximal(b, i);
        SameMaximal(b, a, e.cell, e.value);
        MaximalIsEntry(a, e.cell, e.value);
      }
      SortedUnique(a, b);
    }
  }

  /** A sorted list is determined by its set of entries. */
  lemma {:induction false} SortedUnique<T>(a: seq<Piece<T>>, b: seq<Piece<T>>)
    requires Sorted(a) && Sorted(b)
    requires forall e :: e in a <==> e in b
    ensures a == b
  {
    if a == [] {
      if b != [] { SameFirst(b, a); }
    } else {
      SameFirst(a, b);
      forall e | e in a[1..]
        ensures e in b[1..]
      {
        RestOnly(a, e);
        assert e in b;
      }
      forall e | e in b[1..]
        ensures e in a[1..]
      {
        RestOnly(b, e);
        assert e in a;
      }
      SortedUnique(a[1..], b[1..]);
      assert a == [a[0]] + a[1..] && b == [b[0]] + b[1..];
    }
  }

  lemma RestOnly<T>(a: seq<Piece<T>>, e: Piece<T>)
    requires Sorted(a) && a != [] && e in a[1..]
    ensures e in a && e != a[0]
  {
    var i :| 0 <= i < |a[1..]| && a[1..][i] == e;
    assert a[i + 1] == e;
    RangeEnds(a[0].cell);
  }

  lemma SameFirst<T>(a: seq<Piece<T>>, b: seq<Piece<T>>)
    requires Sorted(a) && Sorted(b) && a != []
    requires forall e :: e in a <==> e in b
    ensures b != [] && a[0] == b[0]
  {
    assert a[0] in b;
    var j :| 0 <= j < |b| && b[j] == a[0];
    assert b[0] in a;
    var k :| 0 <= k < |a| && a[k] == b[0];
    RangeEnds(a[0].cell);
    RangeEnds(b[0].cell);
  }
}
