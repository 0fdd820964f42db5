/** What the code asks of the library on slices: an unstable sort, chunks, and the
    partition-point search. */
module Slices {

  ghost predicate TotalPreorder<T(!new)>(le: (T, T) -> bool) {
    && (forall x, y :: le(x, y) || le(y, x))
    && (forall x, y, z :: le(x, y) && le(y, z) ==> le(x, z))
  }

  ghost predicate Ordered<T>(s: seq<T>, le: (T, T) -> bool) {
    forall i, j :: 0 <= i < j < |s| ==> le(s[i], s[j])
  }

  // --- sorting ---

  function Insert<T>(x: T, s: seq<T>, le: (T, T) -> bool): seq<T> {
    if s == [] || le(x, s[0]) then [x] + s else [s[0]] + Insert(x, s[1..], le)
  }

  function Sorted<T>(s: seq<T>, le: (T, T) -> bool): seq<T> {
    if s == [] then [] else Insert(s[0], Sorted(s[1..], le), le)
  }

  lemma {:induction false} InsertKeeps<T>(x: T, s: seq<T>, le: (T, T) -> bool)
    ensures multiset(Insert(x, s, le)) == multiset(s) + multiset{x}
  {
    if s != [] && !le(x, s[0]) {
      InsertKeeps(x, s[1..], le);
      assert s == [s[0]] + s[1..];
    }
  }

  lemma {:induction false} SortKeeps<T>(s: seq<T>, le: (T, T) -> bool)
    ensures multiset(Sorted(s, le)) == multiset(s)
  {
    if s != [] {
      SortKeeps(s[1..], le);
      InsertKeeps(s[0], Sorted(s[1..], le), le);
      assert s == [s[0]] + s[1..];
    }
  }

  lemma {:induction false} InsertOrders<T(!new)>(x: T, s: seq<T>, le: (T, T) -> bool)
    requires TotalPreorder(le) && Ordered(s, le)
    ensures Ordered(Insert(x, s, le), le)
  {
    if s != [] && !le(x, s[0]) {
      InsertOrders(x, s[1..], le);
      InsertKeeps(x, s[1..], le);
      var r := Insert(x, s[1..], le);
      forall j | 0 <= j < |r|
        ensures le(s[0], r[j])
      {
        assert r[j] in multiset(s[1..]) + multiset{x};
      }
    }
  }

  lemma {:induction false} SortOrders<T(!new)>(s: seq<T>, le: (T, T) -> bool)
    requires TotalPreorder(le)
    ensures Ordered(Sorted(s, le), le)
  {
    if s != [] {
      SortOrders(s[1..], le);
      InsertOrders(s[0], Sorted(s[1..], le), le);
    }
  }

  /** Some ascending arrangement of `s`; the order of equivalent elements is not promised. */
  method Sort<T(!new)>(s: seq<T>, le: (T, T) -> bool) returns (r: seq<T>)
    requires TotalPreorder(le)
    ensures multiset(r) == multiset(s) && |r| == |s|
    ensures Ordered(r, le)
  {
    r := Sorted(s, le);
    SortKeeps(s, le);
    SortOrders(s, le);
    assert |multiset(r)| == |r| && |multiset(s)| == |s|;
  }

  // --- when the arrangement is unique ---

  ghost predicate Antisymmetric<T(!new)>(le: (T, T) -> bool) {
    forall x, y :: le(x, y) && le(y, x) ==> x == y
  }

  lemma LeastFirst<T(!new)>(s: seq<T>, y: T, le: (T, T) -> bool)
    requires TotalPreorder(le) && Ordered(s, le) && y in multiset(s)
    ensures s != [] && le(s[0], y)
  {
    var i :| 0 <= i < |s| && s[i] == y;
  }

  lemma RestOf<T>(s: seq<T>)
    requires s != []
    ensures multiset(s[1..]) == multiset(s) - multiset{s[0]} && s[0] in multiset(s)
  {
    assert s == [s[0]] + s[1..];
  }

  lemma SameRest<T(!new)>(s: seq<T>, t: seq<T>, le: (T, T) -> bool)
    requires TotalPreorder(le) && Antisymmetric(le) && Ordered(s, le) && Ordered(t, le)
    requires multiset(s) == multiset(t) && s != [] && t != []
    ensures s[0] == t[0] && multiset(s[1..]) == multiset(t[1..]) && Ordered(s[1..], le) && Ordered(t[1..], le)
  {
    RestOf(s);
    RestOf(t);
    LeastFirst(s, t[0], le);
    LeastFirst(t, s[0], le);
  }

  lemma NoneLeft<T>(s: seq<T>)
    ensures multiset(s) == multiset{} <==> s == []
  {
    if s != [] { assert s[0] in multiset(s); }
  }

  /** Under a total order an ascending list is determined by its elements. */
  lemma {:induction false} OrderedUnique<T(!new)>(s: seq<T>, t: seq<T>, le: (T, T) -> bool)
    requires TotalPreorder(le) && Antisymmetric(le) && Ordered(s, le) && Ordered(t, le)
    requires multiset(s) == multiset(t)
    ensures s == t
  {
    hide Ordered;
    NoneLeft(s);
    NoneLeft(t);
    if s != [] {
      SameRest(s, t, le);
      OrderedUnique(s[1..], t[1..], le);
      assert s == [s[0]] + s[1..] && t == [t[0]] + t[1..];
    }
  }

  /** So sorting forgets exactly the order. */
  lemma SortForgetsOrder<T(!new)>(s: seq<T>, t: seq<T>, le: (T, T) -> bool)
    requires TotalPreorder(le) && Antisymmetric(le)
    ensures Sorted(s, le) == Sorted(t, le) <==> multiset(s) == multiset(t)
  {
    SortKeeps(s, le);
    SortKeeps(t, le);
    SortOrders(s, le);
    SortOrders(t, le);
    if multiset(s) == multiset(t) { OrderedUnique(Sorted(s, le), Sorted(t, le), le); }
  }

  // --- chunks ---

  /** All chunks, one after the other. */
  function Flat<T>(chunks: seq<seq<T>>): seq<T> {
    if chunks == [] then [] else Flat(chunks[..|chunks| - 1]) + chunks[|chunks| - 1]
  }

  // --- partition point ---

  /** The elements satisfying `pred` come first. */
  ghost predicate Partitioned<T>(s: seq<T>, pred: T -> bool) {
    forall i, j :: 0 <= i < j < |s| && pred(s[j]) ==> pred(s[i])
  }

  /** The index of the first element that fails `pred`. */
  method PartitionPoint<T>(s: seq<T>, pred: T -> bool) returns (k: nat)
    requires Partitioned(s, pred)
    ensures k <= |s|
    ensures forall i :: 0 <= i < k ==> pred(s[i])
    ensures forall i :: k <= i < |s| ==> !pred(s[i])
  {
    k := 0;
    var hi := |s|;
    while k < hi
      invariant 0 <= k <= hi <= |s|
      invariant forall i :: 0 <= i < k ==> pred(s[i])
      invariant forall i :: hi <= i < |s| ==> !pred(s[i])
    {
      var mid := (k + hi) / 2;
      if pred(s[mid]) {
        k := mid + 1;
      } else {
        hi := mid;
      }
    }
  }
}
