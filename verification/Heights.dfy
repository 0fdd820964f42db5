/** Heights of a voxel set (src/s2.rs): intervals of zoom-32 bins, their merged
    form, and the coarsest-zoom entry that writes one interval. */
module Heights {
  import opened Arith
  import Slices

  const MAX_ZOOM: nat := 32

  /** Zoom-32 bins run over `[-2^32, 2^32)`. */
  const TOP: int := 0x1_0000_0000

  /** A half-open interval of zoom-32 bins. */
  datatype Span = Span(lo: int, hi: int)

  ghost predicate Proper(s: seq<Span>) {
    forall i :: 0 <= i < |s| ==> -TOP <= s[i].lo < s[i].hi <= TOP
  }

  predicate InSpan(s: Span, b: int) {
    s.lo <= b < s.hi
  }

  /** The height set of a list of intervals. */
  ghost predicate InSpans(s: seq<Span>, b: int) {
    exists i :: 0 <= i < |s| && InSpan(s[i], b)
  }

  ghost predicate SameBins(s: seq<Span>, t: seq<Span>) {
    forall b :: InSpans(s, b) <==> InSpans(t, b)
  }

  /** Ascending, and no two intervals overlap or touch. */
  ghost predicate Separated(s: seq<Span>) {
    && Proper(s)
    && forall i, j :: 0 <= i < j < |s| ==> s[i].hi < s[j].lo
  }

  // --- merged interval lists are determined by their height set ---

  lemma {:induction false} OneSpelling(s: seq<Span>, t: seq<Span>)
    requires Separated(s) && Separated(t) && SameBins(s, t)
    ensures s == t
  {
    if s == [] || t == [] {
      if s != [] { assert InSpans(s, s[0].lo); }
      if t != [] { assert InSpans(t, t[0].lo); }
    } else {
      SameFirstSpan(s, t);
      forall b
        ensures InSpans(s[1..], b) <==> InSpans(t[1..], b)
      {
        DropFirst(s, b);
        DropFirst(t, b);
      }
      OneSpelling(s[1..], t[1..]);
      assert s == [s[0]] + s[1..] && t == [t[0]] + t[1..];
    }
  }

  lemma DropFirst(s: seq<Span>, b: int)
    requires Separated(s) && s != []
    ensures InSpans(s[1..], b) <==> InSpans(s, b) && !InSpan(s[0], b)
  {
    if InSpans(s[1..], b) {
      var i :| 0 <= i < |s[1..]| && InSpan(s[1..][i], b);
      assert InSpan(s[i + 1], b);
    }
    if InSpans(s, b) && !InSpan(s[0], b) {
      var i :| 0 <= i < |s| && InSpan(s[i], b);
      assert s[1..][i - 1] == s[i];
    }
  }

  lemma SameFirstSpan(s: seq<Span>, t: seq<Span>)
    requires Separated(s) && Separated(t) && SameBins(s, t) && s != [] && t != []
    ensures s[0] == t[0]
  {
    FirstStarts(s, t);
    FirstStarts(t, s);
    FirstEnds(s, t);
    FirstEnds(t, s);
  }

  lemma FirstStarts(s: seq<Span>, t: seq<Span>)
    requires Separated(s) && Separated(t) && SameBins(s, t) && s != [] && t != []
    ensures t[0].lo <= s[0].lo
  {
    assert InSpan(s[0], s[0].lo);
    assert InSpans(t, s[0].lo);
    var i :| 0 <= i < |t| && InSpan(t[i], s[0].lo);
    assert i == 0 || t[0].hi < t[i].lo;
  }

  lemma FirstEnds(s: seq<Span>, t: seq<Span>)
    requires Separated(s) && Separated(t) && SameBins(s, t) && s != [] && t != [] && s[0].lo == t[0].lo
    ensures t[0].hi <= s[0].hi
  {
    NotAtEnd(s);
    assert !InSpans(t, s[0].hi);
    assert !InSpan(t[0], s[0].hi);
  }

  lemma NotAtEnd(s: seq<Span>)
    requires Separated(s) && s != []
    ensures !InSpans(s, s[0].hi)
  {
  }

  // --- merging ---

  predicate SpanLe(a: Span, b: Span) {
    a.lo < b.lo || (a.lo == b.lo && a.hi <= b.hi)
  }

  /** The stack so far: separated, and nothing on it starts after `low`. */
  ghost predicate Merged(out: seq<Span>, low: int) {
    Separated(out) && (out != [] ==> out[|out| - 1].lo <= low)
  }

  lemma InAppend(s: seq<Span>, x: Span, b: int)
    ensures InSpans(s + [x], b) <==> InSpans(s, b) || InSpan(x, b)
  {
    var r := s + [x];
    if InSpans(s, b) {
      var i :| 0 <= i < |s| && InSpan(s[i], b);
      assert InSpan(r[i], b);
    }
    if InSpan(x, b) { assert InSpan(r[|s|], b); }
  }

  /** An interval that starts inside or right after the last one extends it. */
  lemma Extend(out: seq<Span>, x: Span)
    requires out != [] && Merged(out, x.lo) && Proper([x]) && x.lo <= out[|out| - 1].hi
    ensures var n := |out| - 1;
            var joined := out[..n] + [Span(out[n].lo, Max(out[n].hi, x.hi))];
            Merged(joined, x.lo) && SameBins(joined, out + [x])
  {
    var n := |out| - 1;
    assert [x][0] == x;
    var last := Span(out[n].lo, Max(out[n].hi, x.hi));
    var joined := out[..n] + [last];
    forall b
      ensures InSpans(joined, b) <==> InSpans(out + [x], b)
    {
      InAppend(out, x, b);
      InAppend(out[..n], last, b);
      InAppend(out[..n], out[n], b);
      assert out[..n] + [out[n]] == out;
    }
  }

  /** Sorted and merged: overlapping or touching intervals join. */
  method MergeIntervals(ivs: seq<Span>) returns (out: seq<Span>)
    requires Proper(ivs)
    ensures Separated(out) && SameBins(out, ivs)
    ensures out == [] <==> ivs == []
  {
    var sorted := Slices.Sort(ivs, SpanLe);
    SortedSpans(ivs, sorted);
    out := [];
    for k := 0 to |sorted|
      invariant Merged(out, if k == 0 then 0 else sorted[k - 1].lo)
      invariant SameBins(out, sorted[..k])
      invariant out == [] <==> k == 0
    {
      var x := sorted[k];
      assert sorted[..k + 1] == sorted[..k] + [x];
      assert k > 0 ==> SpanLe(sorted[k - 1], x);
      SameAppend(out, sorted[..k], x);
      if |out| > 0 && x.lo <= out[|out| - 1].hi {
        Extend(out, x);
        var last := out[|out| - 1];
        out := out[..|out| - 1] + [Span(last.lo, Max(last.hi, x.hi))];
      } else {
        PushSeparated(out, x);
        out := out + [x];
      }
    }
    assert sorted[..|sorted|] == sorted;
  }

  lemma PushSeparated(out: seq<Span>, x: Span)
    requires Separated(out) && Proper([x]) && (out != [] ==> out[|out| - 1].hi < x.lo)
    ensures Separated(out + [x])
  {
    assert [x][0] == x;
    var r := out + [x];
    forall i | 0 <= i < |out|
      ensures r[i].hi < x.lo
    {
      assert i == |out| - 1 || out[i].hi < out[|out| - 1].lo;
    }
  }

  lemma SameAppend(s: seq<Span>, t: seq<Span>, x: Span)
    requires SameBins(s, t)
    ensures SameBins(s + [x], t + [x])
  {
    forall b
      ensures InSpans(s + [x], b) <==> InSpans(t + [x], b)
    {
      InAppend(s, x, b);
      InAppend(t, x, b);
    }
  }

  lemma SortedSpans(ivs: seq<Span>, sorted: seq<Span>)
    requires Proper(ivs) && multiset(sorted) == multiset(ivs)
    ensures Proper(sorted) && SameBins(sorted, ivs)
    ensures forall i :: 0 <= i < |sorted| ==> Proper([sorted[i]])
  {
    forall i | 0 <= i < |sorted|
      ensures sorted[i] in ivs
    {
      assert sorted[i] in multiset(ivs);
    }
    forall b
      ensures InSpans(sorted, b) <==> InSpans(ivs, b)
    {
      if InSpans(sorted, b) {
        var i :| 0 <= i < |sorted| && InSpan(sorted[i], b);
        var j :| 0 <= j < |ivs| && ivs[j] == sorted[i];
      }
      if InSpans(ivs, b) {
        var i :| 0 <= i < |ivs| && InSpan(ivs[i], b);
        assert ivs[i] in multiset(sorted);
        var j :| 0 <= j < |sorted| && sorted[j] == ivs[i];
      }
    }
  }
}
