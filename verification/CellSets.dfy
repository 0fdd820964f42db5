/** Cell sets (region tag 8): the canonical-form check, normalisation, the
    containment search and the digest (src/s2.rs). */
module CellSets {
  import opened Bytes
  import opened Cells
  import opened Regions
  import opened Siblings
  import Slices

  // --- the region of a list of ids ---

  ghost predicate Covers(ids: seq<nat>, x: nat) {
    exists i :: 0 <= i < |ids| && Contains(ids[i], x)
  }

  /** Both lists cover the same leaves. */
  ghost predicate SameLeaves(a: seq<nat>, b: seq<nat>) {
    forall x :: IsLeaf(x) ==> (Covers(a, x) <==> Covers(b, x))
  }

  ghost predicate AllValid(ids: seq<nat>) {
    forall i :: 0 <= i < |ids| ==> IsValid(ids[i])
  }

  /** Ascending and pairwise disjoint, over every pair and not only neighbours. */
  ghost predicate Disjoint(ids: seq<nat>) {
    forall i, j :: 0 <= i < j < |ids| ==> RangeMax(ids[i]) < RangeMin(ids[j])
  }

  ghost predicate ChildrenListed(ids: seq<nat>, p: nat) {
    && IsValid(p) && Level(p) < 30
    && forall q :: 0 <= q < 4 ==> Child(p, q) > 0 && Child(p, q) in ids
  }

  ghost predicate HasFullGroup(ids: seq<nat>) {
    exists p :: ChildrenListed(ids, p)
  }

  /** Valid, ascending, disjoint, and no cell whose four children are all listed. */
  ghost predicate IsCanonical(ids: seq<nat>) {
    AllValid(ids) && Disjoint(ids) && !HasFullGroup(ids)
  }

  // --- cell sets as regions with a single label ---

  datatype Listed = Listed

  ghost function Pieces(ids: seq<nat>): (ps: seq<Piece<Listed>>)
    ensures |ps| == |ids|
    ensures forall i :: 0 <= i < |ids| ==> ps[i] == Piece(ids[i], Listed)
  {
    seq(|ids|, i requires 0 <= i < |ids| => Piece(ids[i], Listed))
  }

  lemma PiecesAt(ids: seq<nat>, x: nat)
    ensures At(Pieces(ids), x, Listed) <==> Covers(ids, x)
  {
    var ps := Pieces(ids);
    assert forall i :: 0 <= i < |ids| ==> ps[i].cell == ids[i];
  }

  lemma PiecesSame(a: seq<nat>, b: seq<nat>)
    ensures SameRegion(Pieces(a), Pieces(b)) <==> SameLeaves(a, b)
  {
    forall x: nat, t: Listed | IsLeaf(x)
      ensures At(Pieces(a), x, t) <==> Covers(a, x)
      ensures At(Pieces(b), x, t) <==> Covers(b, x)
    {
      assert t.Listed?;
      PiecesAt(a, x);
      PiecesAt(b, x);
    }
    if SameRegion(Pieces(a), Pieces(b)) {
      forall x | IsLeaf(x)
        ensures Covers(a, x) <==> Covers(b, x)
      {
        assert At(Pieces(a), x, Listed) <==> At(Pieces(b), x, Listed);
      }
    }
  }

  lemma PiecesIn(ids: seq<nat>, c: nat)
    ensures Piece(c, Listed) in Pieces(ids) <==> c in ids
  {
    if c in ids {
      var i :| 0 <= i < |ids| && ids[i] == c;
      assert Pieces(ids)[i] == Piece(c, Listed);
    }
  }

  lemma PiecesCanonical(ids: seq<nat>)
    ensures Canonical(Pieces(ids)) <==> IsCanonical(ids)
    ensures Sorted(Pieces(ids)) <==> AllValid(ids) && Disjoint(ids)
  {
    var ps := Pieces(ids);
    forall p, t: Listed
      ensures SiblingsListed(ps, p, t) <==> ChildrenListed(ids, p)
    {
      forall q | 0 <= q < 4 && Child(p, q) > 0
        ensures Piece(Child(p, q), t) in ps <==> Child(p, q) in ids
      {
        assert t.Listed?;
        PiecesIn(ids, Child(p, q));
      }
    }
    if !HasFullGroup(ids) {
      assert forall p, t :: SiblingsListed(ps, p, t) ==> ChildrenListed(ids, p);
    } else {
      var p :| ChildrenListed(ids, p);
      assert SiblingsListed(ps, p, Listed);
    }
    SortedAgrees(ids);
  }

  lemma SortedAgrees(ids: seq<nat>)
    ensures Sorted(Pieces(ids)) <==> AllValid(ids) && Disjoint(ids)
  {
    var ps := Pieces(ids);
    assert forall i :: 0 <= i < |ids| ==> ps[i].cell == ids[i];
    if Sorted(ps) {
      forall i, j | 0 <= i < j < |ids|
        ensures RangeMax(ids[i]) < RangeMin(ids[j])
      {
        assert RangeMax(ps[i].cell) < RangeMin(ps[j].cell);
      }
    }
  }

  /** One region has one canonical cell set. */
  lemma OneEncoding(a: seq<nat>, b: seq<nat>)
    requires IsCanonical(a) && IsCanonical(b)
    ensures a == b <==> SameLeaves(a, b)
  {
    PiecesCanonical(a);
    PiecesCanonical(b);
    PiecesSame(a, b);
    Unique(Pieces(a), Pieces(b));
    if Pieces(a) == Pieces(b) {
      forall i | 0 <= i < |a|
        ensures a[i] == b[i]
      {
        assert Pieces(a)[i] == Pieces(b)[i];
      }
    }
  }

  // --- the checker ---

  datatype Check = Ok | Empty | TooMany(n: nat) | Invalid(k: nat) | OutOfOrder(k: nat) | Unmerged(k: nat)

  predicate Window(ids: seq<nat>, k: nat)
    requires 3 <= k < |ids|
  {
    AreSiblings(ids[k - 3], ids[k - 2], ids[k - 1], ids[k])
  }

  /** What the neighbour tests have established about the first `k` entries. */
  ghost predicate Passed(ids: seq<nat>, k: nat)
    requires k <= |ids|
  {
    && (forall j :: 0 <= j < k ==> IsValid(ids[j]))
    && (forall j :: 0 < j < k ==> RangeMax(ids[j - 1]) < RangeMin(ids[j]))
    && (forall j :: 3 <= j < k ==> !Window(ids, j))
  }

  /** Neighbour tests suffice: they hold exactly of canonical prefixes. */
  lemma PassedIsCanonical(ids: seq<nat>, k: nat)
    requires k <= |ids|
    ensures Passed(ids, k) <==> IsCanonical(ids[..k])
  {
    var s := ids[..k];
    if Passed(ids, k) || IsCanonical(s) {
      assert AllValid(s) by { assert forall j :: 0 <= j < k ==> s[j] == ids[j]; }
      assert Disjoint(s) by {
        forall i, j | 0 <= i < j < k
          ensures RangeMax(s[i]) < RangeMin(s[j])
        {
          if Passed(ids, k) { Ascending(ids, k, i, j); }
        }
      }
      PiecesCanonical(s);
      WindowsSuffice(Pieces(s));
      WindowsAgree(ids, k);
      if IsCanonical(s) {
        forall j | 0 < j < k
          ensures RangeMax(ids[j - 1]) < RangeMin(ids[j])
        {
          assert RangeMax(s[j - 1]) < RangeMin(s[j]);
        }
        assert forall j :: 0 <= j < k ==> ids[j] == s[j];
      }
    }
  }

  lemma {:induction false} Ascending(ids: seq<nat>, k: nat, i: nat, j: nat)
    requires i < j < k <= |ids|
    requires forall j :: 0 <= j < k ==> IsValid(ids[j])
    requires forall j :: 0 < j < k ==> RangeMax(ids[j - 1]) < RangeMin(ids[j])
    ensures RangeMax(ids[i]) < RangeMin(ids[j])
    decreases j
  {
    if i + 1 < j {
      Ascending(ids, k, i, j - 1);
      RangeEnds(ids[j - 1]);
    }
  }

  lemma WindowsAgree(ids: seq<nat>, k: nat)
    requires k <= |ids|
    ensures NoWindow(Pieces(ids[..k])) <==> forall j :: 3 <= j < k ==> !Window(ids, j)
  {
    var ps := Pieces(ids[..k]);
    forall i | 0 <= i && i + 3 < k
      ensures MergeableAt(ps, i) <==> Window(ids, i + 3)
    {
      assert ps[i].cell == ids[i] && ps[i + 1].cell == ids[i + 1] && ps[i + 2].cell == ids[i + 2] && ps[i + 3].cell == ids[i + 3];
    }
    if NoWindow(ps) {
      forall j | 3 <= j < k
        ensures !Window(ids, j)
      {
        assert !MergeableAt(ps, j - 3);
      }
    }
  }

  /** The verdict on entry `k`, the first one some test refuses. */
  ghost predicate FirstFailure(ids: seq<nat>, r: Check) {
    match r
    case Invalid(k) => k < |ids| && IsCanonical(ids[..k]) && !IsValid(ids[k])
    case OutOfOrder(k) => 0 < k < |ids| && IsCanonical(ids[..k]) && IsValid(ids[k]) && !Disjoint([ids[k - 1], ids[k]])
    case Unmerged(k) => 3 <= k < |ids| && IsCanonical(ids[..k]) && HasFullGroup(ids[k - 3..k + 1])
    case _ => true
  }

  method CheckCanonical(ids: seq<nat>) returns (r: Check)
    ensures r.Ok? <==> 0 < |ids| <= MAX_ENTRIES && IsCanonical(ids)
    ensures r.Empty? <==> ids == []
    ensures r.TooMany? <==> |ids| > 16_384
    ensures FirstFailure(ids, r)
  {
    assert Passed(ids, 0);
    hide RangeMin, RangeMax, AreSiblings, IsValid, Passed, Disjoint, AllValid, HasFullGroup;
    if |ids| == 0 { return Empty; }
    if |ids| > MAX_ENTRIES { return TooMany(|ids|); }
    for k := 0 to |ids|
      invariant Passed(ids, k)
    {
      var id := ids[k];
      PassedIsCanonical(ids, k);
      PassedStep(ids, k);
      FailsWhole(ids, k);
      if !IsValid(id) {
        return Invalid(k);
      }
      if k == 0 { continue; }
      var prev := ids[k - 1];
      if RangeMax(prev) >= RangeMin(id) {
        return OutOfOrder(k);
      }
      if k >= 3 && AreSiblings(ids[k - 3], ids[k - 2], ids[k - 1], ids[k]) {
        WindowChildren(ids, k);
        return Unmerged(k);
      }
    }
    PassedIsCanonical(ids, |ids|);
    assert ids[..|ids|] == ids;
    return Ok;
  }

  /** One more entry passes exactly when its own tests do. */
  lemma PassedStep(ids: seq<nat>, k: nat)
    requires k < |ids| && Passed(ids, k)
    ensures Passed(ids, k + 1) <==>
            && IsValid(ids[k])
            && (k > 0 ==> RangeMax(ids[k - 1]) < RangeMin(ids[k]))
            && (k >= 3 ==> !Window(ids, k))
    ensures k > 0 && RangeMax(ids[k - 1]) >= RangeMin(ids[k]) ==> !Disjoint([ids[k - 1], ids[k]])
  {
    if k > 0 && RangeMax(ids[k - 1]) >= RangeMin(ids[k]) {
      var two := [ids[k - 1], ids[k]];
      assert two[0] == ids[k - 1] && two[1] == ids[k];
    }
  }

  lemma FailsWhole(ids: seq<nat>, k: nat)
    requires k < |ids|
    ensures IsCanonical(ids) ==> Passed(ids, k + 1)
  {
    if IsCanonical(ids) {
      assert ids[..|ids|] == ids;
      PassedIsCanonical(ids, |ids|);
    }
  }

  lemma WindowChildren(ids: seq<nat>, k: nat)
    requires 3 <= k < |ids| && Window(ids, k) && Passed(ids, k)
    requires IsValid(ids[k]) && RangeMax(ids[k - 1]) < RangeMin(ids[k])
    ensures HasFullGroup(ids[k - 3..k + 1])
  {
    var four := ids[k - 3..k + 1];
    SiblingsAreChildren(four[0], four[1], four[2], four[3]);
    LevelBits(four[3]);
    assert four[0] in four && four[1] in four && four[2] in four && four[3] in four;
    assert ChildrenListed(four, Up(four[3]));
  }

  // --- normalisation ---

  /** The loop invariant of the stack: canonical so far, and nothing on it exceeds `bound`. */
  ghost predicate Stack(out: seq<nat>, bound: nat) {
    && AllValid(out) && Disjoint(out) && NoWindow(Pieces(out))
    && (forall i :: 0 <= i < |out| ==> out[i] <= bound)
  }

  lemma CoversAppend(ids: seq<nat>, c: nat, x: nat)
    ensures Covers(ids + [c], x) <==> Covers(ids, x) || Contains(c, x)
  {
    var s := ids + [c];
    if Covers(ids, x) {
      var i :| 0 <= i < |ids| && Contains(ids[i], x);
      assert s[i] == ids[i];
    }
    if Contains(c, x) { assert s[|ids|] == c; }
  }

  /** The code compares ids: an id inside a cell means the whole cell lies inside. */
  lemma ContainsIsWithin(a: nat, b: nat)
    requires IsValid(a) && IsValid(b)
    ensures Contains(a, b) <==> Within(b, a)
  {
    if Contains(a, b) {
      RangeEnds(b);
      Meet(a, b, b);
      if Within(a, b) && a != b { IdOutsideDescendants(a, b); }
    }
  }

  /** A cell's id sits between its children, in the range of no descendant. */
  lemma IdOutsideDescendants(a: nat, b: nat)
    requires IsValid(a) && IsValid(b) && Within(a, b) && a != b
    ensures !Contains(a, b)
  {
    hide IsValid, Level, Child, Parent;
    StrictlyWithin(a, b);
    LevelBits(a);
    RangeEnds(a);
    var q := ChildHolding(b, RangeMin(a));
    ChildrenTile(b);
    Meet(a, Child(b, q), RangeMin(a));
    if !Within(a, Child(b, q)) { SameLevelWithin(Child(b, q), a); }
    IdBetweenChildren(b, q);
  }

  lemma IdBetweenChildren(b: nat, q: nat)
    requires IsValid(b) && Level(b) < 30 && q < 4
    ensures Child(b, q) > 0 && !Contains(Child(b, q), b)
  {
    ChildShape(b, q);
  }

  /** The id comes after everything on the stack, so only the top could contain it. */
  lemma OnlyTopContains(out: seq<nat>, id: nat)
    requires Stack(out, id) && IsValid(id)
    requires |out| > 0 ==> !Contains(out[|out| - 1], id)
    ensures NoneContains(out, id)
  {
    forall i | 0 <= i < |out|
      ensures !Contains(out[i], id)
    {
      if i < |out| - 1 { RangeEnds(out[|out| - 1]); }
    }
  }

  ghost predicate NoneContains(out: seq<nat>, id: nat) {
    forall i :: 0 <= i < |out| ==> !Contains(out[i], id)
  }

  /** Dropping a covered top keeps the stack and, with `id`, the region. */
  lemma PopKeeps(out: seq<nat>, id: nat)
    requires |out| > 0 && Stack(out, id) && IsValid(id) && Contains(id, out[|out| - 1]) && NoneContains(out, id)
    ensures var rest := out[..|out| - 1];
            && Stack(rest, id) && NoneContains(rest, id) && SameLeaves(rest + [id], out + [id])
  {
    hide IsValid, Contains, Within, NoWindow, SameLeaves;
    var n := |out| - 1;
    StackPrefix(out, id, n);
    ContainsIsWithin(id, out[n]);
    PopLeaves(out[..n], out[n], id);
    assert out[..n] + [out[n]] == out;
  }

  lemma WithinContains(a: nat, b: nat, x: nat)
    requires Within(a, b) && Contains(a, x)
    ensures Contains(b, x)
  {
  }

  lemma PopLeaves(rest: seq<nat>, top: nat, id: nat)
    requires Within(top, id)
    ensures SameLeaves(rest + [id], rest + [top] + [id])
  {
    hide Within, Contains, Covers;
    forall x | IsLeaf(x)
      ensures Covers(rest + [id], x) <==> Covers(rest + [top] + [id], x)
    {
      CoversAppend(rest, id, x);
      CoversAppend(rest, top, x);
      CoversAppend(rest + [top], id, x);
      if Contains(top, x) { WithinContains(top, id, x); }
    }
  }

  lemma StackPrefix(out: seq<nat>, bound: nat, n: nat)
    requires Stack(out, bound) && n <= |out|
    ensures Stack(out[..n], bound)
  {
    var rest := out[..n];
    assert forall i :: 0 <= i < n ==> rest[i] == out[i] && Pieces(rest)[i] == Pieces(out)[i];
    forall k | 0 <= k && k + 3 < n
      ensures !MergeableAt(Pieces(rest), k)
    {
      assert !MergeableAt(Pieces(out), k);
    }
  }

  /** With nothing nested left, the next id goes after the stack. */
  lemma ReadyToPush(out: seq<nat>, id: nat)
    requires Stack(out, id) && IsValid(id) && NoneContains(out, id)
    requires |out| > 0 ==> !Contains(id, out[|out| - 1])
    ensures AllValid(out + [id]) && Disjoint(out + [id])
  {
    hide RangeMin, RangeMax, Contains, IsValid, NoWindow;
    if |out| > 0 {
      var n := |out| - 1;
      LastBefore(out[n], id);
      RangeOrder(out[n]);
      assert forall i :: 0 <= i < n ==> RangeMax(out[i]) < RangeMin(out[n]);
    }
  }

  lemma LastBefore(last: nat, id: nat)
    requires IsValid(last) && IsValid(id) && last <= id && !Contains(last, id) && !Contains(id, last)
    ensures RangeMax(last) < RangeMin(id)
  {
    Laminar(last, id);
    RangeEnds(last);
    RangeEnds(id);
  }

  /** Replacing four siblings at the top by their parent. */
  lemma MergeKeeps(out: seq<nat>, id: nat, bound: nat)
    requires |out| >= 3 && Stack(out, bound) && AllValid(out + [id]) && Disjoint(out + [id]) && id <= bound
    requires AreSiblings(out[|out| - 3], out[|out| - 2], out[|out| - 1], id)
    ensures Level(id) > 0
    ensures var rest := out[..|out| - 3];
            && Stack(rest, bound) && IsValid(Up(id)) && Up(id) <= bound
            && AllValid(rest + [Up(id)]) && Disjoint(rest + [Up(id)])
            && SameLeaves(rest + [Up(id)], out + [id])
  {
    var n := |out| - 3;
    var rest := out[..n];
    StackPrefix(out, bound, n);
    PiecesAppend(out, id);
    PiecesCanonical(out + [id]);
    MergeStep(Pieces(out), id, Listed);
    assert Pieces(rest) == Pieces(out)[..n];
    PiecesAppend(rest, Up(id));
    PiecesCanonical(rest + [Up(id)]);
    PiecesSame(out + [id], rest + [Up(id)]);
  }

  lemma PiecesAppend(ids: seq<nat>, c: nat)
    ensures Pieces(ids + [c]) == Pieces(ids) + [Piece(c, Listed)]
  {
  }

  /** Pushing when the last three and `id` are not four siblings. */
  lemma PushKeeps(out: seq<nat>, id: nat, bound: nat)
    requires Stack(out, bound) && AllValid(out + [id]) && Disjoint(out + [id]) && id <= bound
    requires |out| >= 3 ==> !AreSiblings(out[|out| - 3], out[|out| - 2], out[|out| - 1], id)
    ensures Stack(out + [id], bound)
  {
    hide AreSiblings, IsValid, RangeMin, RangeMax;
    PiecesAppend(out, id);
    PushNoWindow(Pieces(out), id, Listed);
  }

  lemma SameLeavesTrans(a: seq<nat>, b: seq<nat>, c: seq<nat>)
    requires SameLeaves(a, b) && SameLeaves(b, c)
    ensures SameLeaves(a, c)
  {
  }

  /** One more input id, given what it became on the stack. */
  lemma RegionGrows(out: seq<nat>, seen: seq<nat>, id: nat)
    requires SameLeaves(out, seen)
    ensures SameLeaves(out + [id], seen + [id])
  {
    forall x | IsLeaf(x)
      ensures Covers(out + [id], x) <==> Covers(seen + [id], x)
    {
      CoversAppend(out, id, x);
      CoversAppend(seen, id, x);
    }
  }

  /** A covered id adds nothing. */
  lemma SkipKeeps(out: seq<nat>, id: nat)
    requires |out| > 0 && AllValid(out) && IsValid(id) && Contains(out[|out| - 1], id)
    ensures SameLeaves(out, out + [id])
  {
    ContainsIsWithin(out[|out| - 1], id);
    forall x | IsLeaf(x)
      ensures Covers(out, x) <==> Covers(out + [id], x)
    {
      CoversAppend(out, id, x);
    }
  }

  /** The S2 normalisation: the canonical list covering the same leaves. */
  method Normalize(ids: seq<nat>) returns (out: seq<nat>)
    requires AllValid(ids)
    ensures IsCanonical(out)
    ensures SameLeaves(out, ids)
    ensures out == ids <==> IsCanonical(ids)
  {
    hide RangeMin, RangeMax, AreSiblings, IsValid, Disjoint, Covers, Stack, NoneContains, Contains, SameLeaves, Up, Level;
    var sorted := Slices.Sort(ids, (a: nat, b: nat) => a <= b);
    SortedInput(ids, sorted);
    out := [];
    StackEmpty();
    for k := 0 to |sorted|
      invariant Stack(out, if k == 0 then 0 else sorted[k - 1])
      invariant SameLeaves(out, sorted[..k])
    {
      var id := sorted[k];
      StackRaise(out, if k == 0 then 0 else sorted[k - 1], id);
      RegionGrows(out, sorted[..k], id);
      assert sorted[..k] + [id] == sorted[..k + 1];
      if |out| > 0 && Contains(out[|out| - 1], id) {
        SkipKeeps(out, id);
        SameLeavesTrans(out, out + [id], sorted[..k + 1]);
        continue;
      }
      OnlyTopContains(out, id);
      while |out| > 0 && Contains(id, out[|out| - 1])
        invariant Stack(out, id) && NoneContains(out, id)
        invariant SameLeaves(out + [id], sorted[..k + 1])
      {
        PopKeeps(out, id);
        SameLeavesTrans(out[..|out| - 1] + [id], out + [id], sorted[..k + 1]);
        out := out[..|out| - 1];
      }
      ReadyToPush(out, id);
      while |out| >= 3 && AreSiblings(out[|out| - 3], out[|out| - 2], out[|out| - 1], id)
        invariant Stack(out, sorted[k]) && id <= sorted[k] && AllValid(out + [id]) && Disjoint(out + [id])
        invariant SameLeaves(out + [id], sorted[..k + 1])
        decreases |out|
      {
        MergeKeeps(out, id, sorted[k]);
        SameLeavesTrans(out[..|out| - 3] + [Up(id)], out + [id], sorted[..k + 1]);
        out, id := out[..|out| - 3], Up(id);
      }
      PushKeeps(out, id, sorted[k]);
      out := out + [id];
    }
    assert sorted[..|sorted|] == sorted;
    SameLeavesTrans(out, sorted, ids);
    StackIsCanonical(out, if |sorted| == 0 then 0 else sorted[|sorted| - 1]);
    if IsCanonical(ids) { OneEncoding(out, ids); }
  }

  lemma StackEmpty()
    ensures Stack([], 0) && SameLeaves([], [])
  {
  }

  lemma StackRaise(out: seq<nat>, low: nat, high: nat)
    requires Stack(out, low) && (out == [] || low <= high)
    ensures Stack(out, high)
  {
  }

  lemma StackIsCanonical(out: seq<nat>, bound: nat)
    requires Stack(out, bound)
    ensures IsCanonical(out)
  {
    PiecesCanonical(out);
    WindowsSuffice(Pieces(out));
  }

  lemma SortedInput(ids: seq<nat>, sorted: seq<nat>)
    requires AllValid(ids) && multiset(sorted) == multiset(ids)
    ensures AllValid(sorted) && SameLeaves(sorted, ids)
  {
    forall i | 0 <= i < |sorted|
      ensures IsValid(sorted[i])
    {
      assert sorted[i] in multiset(sorted);
      assert sorted[i] in ids;
    }
    forall x | IsLeaf(x)
      ensures Covers(sorted, x) <==> Covers(ids, x)
    {
      if Covers(sorted, x) {
        var i :| 0 <= i < |sorted| && Contains(sorted[i], x);
        assert sorted[i] in multiset(ids);
        var j :| 0 <= j < |ids| && ids[j] == sorted[i];
      }
      if Covers(ids, x) {
        var i :| 0 <= i < |ids| && Contains(ids[i], x);
        assert ids[i] in multiset(sorted);
        var j :| 0 <= j < |sorted| && sorted[j] == ids[i];
      }
    }
  }

  // --- containment ---

  /** A search over the sorted leaf ranges finds a cell exactly when one contains the leaf. */
  method ContainsLeaf(ids: seq<nat>, leaf: nat) returns (r: bool)
    requires AllValid(ids) && Disjoint(ids) && IsLeaf(leaf)
    ensures r <==> Covers(ids, leaf)
  {
    RangesAscend(ids, leaf);
    var k := Slices.PartitionPoint(ids, c => RangeMax(c) < leaf);
    r := k < |ids| && RangeMin(ids[k]) <= leaf;
  }

  lemma RangesAscend(ids: seq<nat>, leaf: nat)
    requires AllValid(ids) && Disjoint(ids)
    ensures Slices.Partitioned(ids, c => RangeMax(c) < leaf)
  {
    forall i, j | 0 <= i < j < |ids| && RangeMax(ids[j]) < leaf
      ensures RangeMax(ids[i]) < leaf
    {
      RangeEnds(ids[j]);
    }
  }

  // --- digest ---

  /** `octet-region-cellset-v1` */
  const DOMAIN: seq<Byte> := Ascii("octet-region-cellset-v1")

  /** The bytes the tag 8 digest hashes. */
  function Message(ids: seq<nat>): seq<Byte> {
    DOMAIN + U32be(Count32(|ids|)) + U64s(ids)
  }

  method Digest(ids: seq<nat>, sha: Hash) returns (d: seq<Byte>)
    ensures d == sha(Message(ids))
  {
    var m := DOMAIN + U32be(Count32(|ids|));
    for k := 0 to |ids|
      invariant m == DOMAIN + U32be(Count32(|ids|)) + U64s(ids[..k])
    {
      m := m + U64be(ids[k]);
      assert ids[..k + 1][..k] == ids[..k];
    }
    assert ids[..|ids|] == ids;
    d := sha(m);
  }

  /** Word-sized ids, which valid ids are. */
  ghost predicate AllWords(ids: seq<nat>) {
    forall i :: 0 <= i < |ids| ==> ids[i] < 0x1_0000_0000_0000_0000
  }

  /** A reader finds the label, the count in 4 bytes and then each id in 8, in order. */
  lemma MessageLayout(ids: seq<nat>)
    requires AllWords(ids) && |ids| < 0x1_0000_0000
    ensures |Message(ids)| == 27 + 8 * |ids| && BytesAt(Message(ids), 0, Ascii("octet-region-cellset-v1"))
    ensures NumberAt(Message(ids), 23, 4, |ids|)
    ensures forall k :: 0 <= k < |ids| ==> NumberAt(Message(ids), 27 + 8 * k, 8, ids[k])
  {
    hide U64s, U32be, U64be, Count32, Ascii, NumberAt;
    SmallCount(|ids|);
    var m, head := Message(ids), DOMAIN + U32be(|ids|);
    After(DOMAIN, U32be(|ids|), 0, U32be(|ids|));
    Before(head, U64s(ids), 23, U32be(|ids|));
    U32At(m, 23, |ids|);
    forall k | 0 <= k < |ids|
      ensures NumberAt(m, 27 + 8 * k, 8, ids[k])
    {
      U64sAt(ids, k);
      After(head, U64s(ids), 8 * k, U64be(ids[k]));
      U64At(m, 27 + 8 * k, ids[k]);
    }
  }

  lemma MessageInjective(a: seq<nat>, b: seq<nat>)
    requires AllWords(a) && AllWords(b) && |a| < 0x1_0000_0000 && |b| < 0x1_0000_0000
    requires Message(a) == Message(b)
    ensures a == b
  {
    CountedSplit(DOMAIN, |a|, U64s(a), |b|, U64s(b));
    U64sInjective(a, b);
  }

  /** Two accepted cell sets have one digest exactly when they are one region, short of a collision. */
  lemma DigestIsRegion(a: seq<nat>, b: seq<nat>, sha: Hash)
    requires IsCanonical(a) && IsCanonical(b) && |a| <= MAX_ENTRIES && |b| <= MAX_ENTRIES
    ensures sha(Message(a)) == sha(Message(b)) && !Collision(sha, Message(a), Message(b)) <==> SameLeaves(a, b)
  {
    OneEncoding(a, b);
    assert forall i :: 0 <= i < |a| ==> IsValid(a[i]);
    assert forall i :: 0 <= i < |b| ==> IsValid(b[i]);
    if Message(a) == Message(b) { MessageInjective(a, b); }
  }
}
