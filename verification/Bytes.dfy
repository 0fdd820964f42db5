/** Byte strings and fixed-width big-endian integers. */
module Bytes {

  /** The range of a 64-bit word. */
  const WORD: nat := 0x1_0000_0000_0000_0000

  type Byte = b: nat | b < 256 witness 0

  type U32 = n: nat | n < 0x1_0000_0000 witness 0

  type U64 = n: nat | n < 0x1_0000_0000_0000_0000 witness 0

  type I32 = n: int | -0x8000_0000 <= n < 0x8000_0000

  type I64 = n: int | -0x8000_0000_0000_0000 <= n < 0x8000_0000_0000_0000

  type Hash = seq<Byte> -> seq<Byte>

  /** Two different messages with one hash: what a collision-free hash rules out. */
  ghost predicate Collision(sha: Hash, x: seq<Byte>, y: seq<Byte>) {
    x != y && sha(x) == sha(y)
  }

  /** The bytes of an ASCII literal. */
  function Ascii(s: string): (b: seq<Byte>)
    ensures |b| == |s|
    ensures forall i :: 0 <= i < |s| && s[i] < 128 as char ==> b[i] == s[i] as int
  {
    seq(|s|, i requires 0 <= i < |s| => (s[i] as int) % 256)
  }

  function Pow256(w: nat): (p: nat)
    ensures p > 0
  {
    if w == 0 then 1 else 256 * Pow256(w - 1)
  }

  /** The low `w` bytes of `n`, most significant first. */
  function Be(n: nat, w: nat): (s: seq<Byte>)
    ensures |s| == w
  {
    if w == 0 then [] else Be(n / 256, w - 1) + [n % 256]
  }

  function U32be(n: nat): (s: seq<Byte>)
    ensures |s| == 4
  {
    Be(n, 4)
  }

  function U64be(n: nat): (s: seq<Byte>)
    ensures |s| == 8
  {
    Be(n, 8)
  }

  /** A signed 64-bit value in two's complement. */
  function I64be(n: I64): (s: seq<Byte>)
    ensures |s| == 8
  {
    Be(if n < 0 then n + 0x1_0000_0000_0000_0000 else n, 8)
  }

  /** A signed 32-bit value cast to u32. */
  function I32be(n: I32): (s: seq<Byte>)
    ensures |s| == 4
  {
    Be(if n < 0 then n + 0x1_0000_0000 else n, 4)
  }

  // --- reading a number back ---

  /** The value of a byte string, most significant byte first. */
  function Value(s: seq<Byte>): nat {
    if s == [] then 0 else s[0] * Pow256(|s| - 1) + Value(s[1..])
  }

  lemma {:induction false} ValueAppend(s: seq<Byte>, b: Byte)
    ensures Value(s + [b]) == 256 * Value(s) + b
  {
    if s == [] {
      assert [b][1..] == [] && Pow256(0) == 1;
    } else {
      assert (s + [b])[1..] == s[1..] + [b];
      ValueAppend(s[1..], b);
      Shift(s[0], Pow256(|s| - 1));
    }
  }

  lemma Shift(a: nat, p: nat)
    ensures a * (256 * p) == 256 * (a * p)
  {
  }

  /** Written in enough bytes, a number is read back. */
  lemma {:induction false} BeValue(n: nat, w: nat)
    requires n < Pow256(w)
    ensures Value(Be(n, w)) == n
  {
    if w > 0 {
      BeValue(n / 256, w - 1);
      ValueAppend(Be(n / 256, w - 1), n % 256);
    }
  }

  lemma U32beValue(n: nat)
    requires n < 0x1_0000_0000
    ensures Value(U32be(n)) == n
  {
    Pow256Literals();
    BeValue(n, 4);
  }

  lemma U64beValue(n: nat)
    requires n < 0x1_0000_0000_0000_0000
    ensures Value(U64be(n)) == n
  {
    Pow256Literals();
    BeValue(n, 8);
  }

  /** Two's complement: negative values count down from 2^32. */
  lemma I32beValue(n: I32)
    ensures Value(I32be(n)) == if n < 0 then 0x1_0000_0000 + n else n
  {
    Pow256Literals();
    BeValue(if n < 0 then n + 0x1_0000_0000 else n, 4);
  }

  lemma I64beValue(n: I64)
    ensures Value(I64be(n)) == if n < 0 then 0x1_0000_0000_0000_0000 + n else n
  {
    Pow256Literals();
    BeValue(if n < 0 then n + 0x1_0000_0000_0000_0000 else n, 8);
  }

  lemma BeInjective(n: nat, m: nat, w: nat)
    requires n < Pow256(w) && m < Pow256(w) && Be(n, w) == Be(m, w)
    ensures n == m
  {
    BeValue(n, w);
    BeValue(m, w);
  }

  lemma Pow256Literals()
    ensures Pow256(4) == 0x1_0000_0000 && Pow256(8) == 0x1_0000_0000_0000_0000
  {
  }

  lemma U32beInjective(n: nat, m: nat)
    requires n < 0x1_0000_0000 && m < 0x1_0000_0000 && U32be(n) == U32be(m)
    ensures n == m
  {
    Pow256Literals();
    BeInjective(n, m, 4);
  }

  lemma U64beInjective(n: nat, m: nat)
    requires n < 0x1_0000_0000_0000_0000 && m < 0x1_0000_0000_0000_0000 && U64be(n) == U64be(m)
    ensures n == m
  {
    Pow256Literals();
    BeInjective(n, m, 8);
  }

  lemma I64beInjective(n: I64, m: I64)
    requires I64be(n) == I64be(m)
    ensures n == m
  {
    Pow256Literals();
    BeInjective(if n < 0 then n + 0x1_0000_0000_0000_0000 else n, if m < 0 then m + 0x1_0000_0000_0000_0000 else m, 8);
  }

  lemma I32beInjective(n: I32, m: I32)
    requires I32be(n) == I32be(m)
    ensures n == m
  {
    Pow256Literals();
    BeInjective(if n < 0 then n + 0x1_0000_0000 else n, if m < 0 then m + 0x1_0000_0000 else m, 4);
  }

  /** Equal concatenations whose first parts have equal lengths agree part by part. */
  lemma SplitEqual(a: seq<Byte>, b: seq<Byte>, c: seq<Byte>, d: seq<Byte>)
    requires a + b == c + d && |a| == |c|
    ensures a == c && b == d
  {
    assert (a + b)[..|a|] == a && (c + d)[..|c|] == c;
    assert (a + b)[|a|..] == b && (c + d)[|c|..] == d;
  }

  /** The same from the right. */
  lemma SplitEqualRight(a: seq<Byte>, b: seq<Byte>, c: seq<Byte>, d: seq<Byte>)
    requires a + b == c + d && |b| == |d|
    ensures a == c && b == d
  {
    assert |a + b| == |c + d|;
    SplitEqual(a, b, c, d);
  }

  /** The cast of a count to u32. */
  function Count32(n: nat): nat {
    n % 0x1_0000_0000
  }

  lemma SmallCount(n: nat)
    requires n < 0x1_0000_0000
    ensures Count32(n) == n
  {
  }

  /** A `u32be(len)` prefix and the bytes. */
  function Prefixed(s: seq<Byte>): (m: seq<Byte>)
    ensures |m| == 4 + |s|
  {
    U32be(Count32(|s|)) + s
  }

  lemma PrefixedSplit(s: seq<Byte>, t: seq<Byte>, x: seq<Byte>, y: seq<Byte>)
    requires |s| < 0x1_0000_0000 && |t| < 0x1_0000_0000 && Prefixed(s) + x == Prefixed(t) + y
    ensures s == t && x == y
  {
    hide Be, U32be, Count32;
    SmallCount(|s|);
    SmallCount(|t|);
    assert Prefixed(s) + x == U32be(|s|) + (s + x) && Prefixed(t) + y == U32be(|t|) + (t + y);
    SplitEqual(U32be(|s|), s + x, U32be(|t|), t + y);
    U32beInjective(|s|, |t|);
    SplitEqual(s, x, t, y);
  }

  /** A fixed label, a 32-bit count and the rest have one reading. */
  lemma CountedSplit(domain: seq<Byte>, n: nat, x: seq<Byte>, m: nat, y: seq<Byte>)
    requires n < 0x1_0000_0000 && m < 0x1_0000_0000
    requires domain + U32be(Count32(n)) + x == domain + U32be(Count32(m)) + y
    ensures n == m && x == y
  {
    hide Be, U32be, Count32;
    SmallCount(n);
    SmallCount(m);
    SplitEqual(domain + U32be(n), x, domain + U32be(m), y);
    SplitEqual(domain, U32be(n), domain, U32be(m));
    U32beInjective(n, m);
  }

  // --- what lies where in a message ---

  /** The message has these bytes at this offset. */
  predicate BytesAt(m: seq<Byte>, at: nat, s: seq<Byte>) {
    at + |s| <= |m| && m[at..at + |s|] == s
  }

  /** It has this number there, most significant byte first. */
  predicate NumberAt(m: seq<Byte>, at: nat, width: nat, n: nat) {
    at + width <= |m| && Value(m[at..at + width]) == n
  }

  /** A signed 32-bit value as the u32 it is cast to. */
  function Cast32(n: I32): U32 {
    if n < 0 then 0x1_0000_0000 + n else n
  }

  function Cast64(n: I64): U64 {
    if n < 0 then 0x1_0000_0000_0000_0000 + n else n
  }

  lemma U32At(m: seq<Byte>, at: nat, n: nat)
    requires n < 0x1_0000_0000 && BytesAt(m, at, U32be(n))
    ensures NumberAt(m, at, 4, n)
  {
    U32beValue(n);
  }

  lemma U64At(m: seq<Byte>, at: nat, n: nat)
    requires n < 0x1_0000_0000_0000_0000 && BytesAt(m, at, U64be(n))
    ensures NumberAt(m, at, 8, n)
  {
    U64beValue(n);
  }

  lemma I32At(m: seq<Byte>, at: nat, n: I32)
    requires BytesAt(m, at, I32be(n))
    ensures NumberAt(m, at, 4, Cast32(n))
  {
    I32beValue(n);
  }

  lemma I64At(m: seq<Byte>, at: nat, n: I64)
    requires BytesAt(m, at, I64be(n))
    ensures NumberAt(m, at, 8, Cast64(n))
  {
    I64beValue(n);
  }

  /** A length prefix and the bytes it announces. */
  lemma PrefixedAt(m: seq<Byte>, at: nat, s: seq<Byte>)
    requires |s| < 0x1_0000_0000 && BytesAt(m, at, Prefixed(s))
    ensures NumberAt(m, at, 4, |s|) && BytesAt(m, at + 4, s)
  {
    hide Be, U32be, Count32;
    SmallCount(|s|);
    var p := Prefixed(s);
    assert p[..4] == U32be(|s|) && p[4..] == s;
    assert m[at..at + 4] == p[..4] && m[at + 4..at + 4 + |s|] == p[4..];
    U32At(m, at, |s|);
  }

  /** What lies in the second part lies in the whole, that much further on. */
  lemma After(x: seq<Byte>, rest: seq<Byte>, at: nat, s: seq<Byte>)
    requires BytesAt(rest, at, s)
    ensures BytesAt(x + rest, |x| + at, s)
  {
    assert (x + rest)[|x| + at..|x| + at + |s|] == rest[at..at + |s|];
  }

  /** And what lies in the first part lies in the whole. */
  lemma Before(x: seq<Byte>, rest: seq<Byte>, at: nat, s: seq<Byte>)
    requires BytesAt(x, at, s)
    ensures BytesAt(x + rest, at, s)
  {
    assert (x + rest)[at..at + |s|] == x[at..at + |s|];
  }

  /** Five parts run together. */
  lemma FiveParts(a: seq<Byte>, b: seq<Byte>, c: seq<Byte>, d: seq<Byte>, e: seq<Byte>)
    ensures var m := a + b + c + d + e;
            && BytesAt(m, 0, a) && BytesAt(m, |a|, b) && BytesAt(m, |a| + |b|, c)
            && BytesAt(m, |a| + |b| + |c|, d) && BytesAt(m, |a| + |b| + |c| + |d|, e)
  {
    var m := a + b + c + d + e;
    assert m[0..|a|] == a && m[|a|..|a| + |b|] == b;
    assert m[|a| + |b|..|a| + |b| + |c|] == c;
    assert m[|a| + |b| + |c|..|a| + |b| + |c| + |d|] == d;
  }

  /** A part of a part. */
  lemma Nested(m: seq<Byte>, at: nat, b: seq<Byte>, x: nat, s: seq<Byte>)
    requires BytesAt(m, at, b) && BytesAt(b, x, s)
    ensures BytesAt(m, at + x, s)
  {
    var n := |s|;
    assert x + n <= |b| && m[at..at + |b|] == b;
    forall i | 0 <= i < n
      ensures m[at + x + i] == s[i]
    {
      assert b[x + i] == b[x..x + n][i] && m[at + (x + i)] == m[at..at + |b|][x + i];
    }
    assert m[at + x..at + x + n] == s;
  }

  // --- lists of 64-bit words ---

  function U64s(ns: seq<nat>): (m: seq<Byte>)
    ensures |m| == 8 * |ns|
  {
    if ns == [] then [] else U64s(ns[..|ns| - 1]) + U64be(ns[|ns| - 1])
  }

  /** Word `k` is at byte `8k`. */
  lemma {:induction false} U64sAt(ns: seq<nat>, k: nat)
    requires k < |ns|
    ensures BytesAt(U64s(ns), 8 * k, U64be(ns[k]))
  {
    hide U64be;
    var n := |ns| - 1;
    if k < n {
      U64sAt(ns[..n], k);
      Before(U64s(ns[..n]), U64be(ns[n]), 8 * k, U64be(ns[k]));
    } else {
      After(U64s(ns[..n]), U64be(ns[n]), 0, U64be(ns[n]));
    }
  }

  lemma U64sInjective(a: seq<nat>, b: seq<nat>)
    requires U64s(a) == U64s(b)
    requires forall i :: 0 <= i < |a| ==> a[i] < 0x1_0000_0000_0000_0000
    requires forall i :: 0 <= i < |b| ==> b[i] < 0x1_0000_0000_0000_0000
    ensures a == b
  {
    hide U64s, U64be;
    assert |U64s(a)| == |U64s(b)|;
    forall i | 0 <= i < |a|
      ensures a[i] == b[i]
    {
      U64sAt(a, i);
      U64sAt(b, i);
      U64beInjective(a[i], b[i]);
    }
  }
}
