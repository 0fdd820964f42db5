/** The duplicate-field guard (src/wire.rs): a top-level walk over a serialized
    proof that counts field numbers and reports those on its list counted more than
    once. What that catches of the schema's non-repeated fields is in WireFields. */
module Wire {
  import opened Arith
  import opened Bits
  import opened Bytes
  import opened Options

  /** The fields the guard watches. 10 is repeated, 9, 14 and 15 are reserved; 20 is
      non-repeated too, and missing here as in the source. */
  const SINGULAR_FIELDS: seq<nat> := [1, 2, 3, 4, 5, 6, 7, 8, 11, 12, 13, 16, 17, 18, 19]

  const COUNT_LIMIT: nat := 0x1_0000_0000

  /** A decoded number and the bytes it took. */
  datatype Read = Read(value: nat, len: nat)

  // --- base-128 varints ---

  /** The varint at the start of `s`, its first byte being byte `k` of at most ten.
      The tenth byte contributes its lowest bit only: the rest is shifted out. */
  function Varint(s: seq<Byte>, k: nat): (r: Option<Read>)
    requires k < 10
    ensures r.Some? ==> 1 <= r.value.len <= |s|
    decreases 10 - k
  {
    if s == [] then None
    else if s[0] < 128 then Some(Read(if k == 9 then s[0] % 2 else s[0], 1))
    else if k == 9 then None
    else
      match Varint(s[1..], k + 1)
      case None => None
      case Some(r) => Some(Read(s[0] - 128 + 128 * r.value, r.len + 1))
  }

  function EncodeVarint(n: nat): (s: seq<Byte>)
    ensures |s| >= 1
  {
    if n < 128 then [n] else [n % 128 + 128] + EncodeVarint(n / 128)
  }

  /** What fits in the bytes from number `k` on. */
  function Cap(k: nat): nat
    requires k < 10
    decreases 10 - k
  {
    if k == 9 then 2 else 128 * Cap(k + 1)
  }

  lemma CapWord()
    ensures Cap(0) == WORD
  {
    assert Cap(9) == 2 && Cap(8) == 0x100 && Cap(7) == 0x8000 && Cap(6) == 0x40_0000 && Cap(5) == 0x2000_0000;
    assert Cap(4) == 0x10_0000_0000 && Cap(3) == 0x800_0000_0000 && Cap(2) == 0x4_0000_0000_0000;
    assert Cap(1) == 0x200_0000_0000_0000;
  }

  lemma {:induction false} VarintInverse(n: nat, k: nat, rest: seq<Byte>)
    requires k < 10 && n < Cap(k)
    ensures Varint(EncodeVarint(n) + rest, k) == Some(Read(n, |EncodeVarint(n)|))
    decreases 10 - k
  {
    var s := EncodeVarint(n) + rest;
    if n >= 128 {
      VarintInverse(n / 128, k + 1, rest);
      assert s[1..] == EncodeVarint(n / 128) + rest;
    }
  }

  /** `read_varint` inverts base-128 encoding for every u64, whatever follows. */
  lemma ReadsBackEveryU64(n: nat, rest: seq<Byte>)
    requires n < WORD
    ensures Varint(EncodeVarint(n) + rest, 0) == Some(Read(n, |EncodeVarint(n)|))
  {
    CapWord();
    VarintInverse(n, 0, rest);
  }

  /** Bytes after a complete varint do not change it. */
  lemma {:induction false} VarintStable(s: seq<Byte>, t: seq<Byte>, k: nat)
    requires k < 10 && Varint(s, k).Some?
    ensures Varint(s + t, k) == Varint(s, k)
    decreases 10 - k
  {
    if s[0] >= 128 {
      VarintStable(s[1..], t, k + 1);
      assert (s + t)[1..] == s[1..] + t;
    }
  }

  // --- the loop of read_varint ---

  /** `(x << shift)` in a 64-bit word, for a 7-bit `x`. */
  function ShlWord(x: nat, shift: nat): nat {
    Times(x, Pow2(shift)) % WORD
  }

  lemma ChunkInWord(x: nat, k: nat)
    requires x < 128 && k < 10
    ensures ShlWord(x, 7 * k) == Times(if k == 9 then x % 2 else x, Pow2(7 * k))
  {
    var p := Pow2(7 * k);
    Pow2Literals();
    if k == 9 {
      Pow2Add(1, 63);
      TopBit(x, Pow2(63));
    } else {
      Pow2Monotone(7 * k + 7, 64);
      Pow2Add(7, 7 * k);
      ScaleStep(x, 128, p);
    }
  }

  lemma TopBit(x: nat, half: nat)
    requires 2 * half == WORD
    ensures Times(x, half) % WORD == Times(x % 2, half)
  {
    var q, r := x / 2, x % 2;
    assert x * half == q * WORD + r * half;
    DivModUnique(x * half, WORD, q, r * half);
  }

  /** How the rest of a varint completes what has been read of it. */
  ghost predicate Completes(whole: Option<Read>, rest: Option<Read>, result: nat, k: nat) {
    && (whole.None? <==> rest.None?)
    && (whole.Some? ==> whole.value == Read(result + Times(rest.value.value, Pow2(7 * k)), k + rest.value.len))
  }

  /** Or-ing in the next seven bits. */
  lemma NextBits(result: nat, x: nat, k: nat)
    requires result < Pow2(7 * k) && x < 128 && k < 10
    ensures BitOr(result, ShlWord(x, 7 * k)) == result + Times(if k == 9 then x % 2 else x, Pow2(7 * k))
    ensures k < 9 ==> result + Times(x, Pow2(7 * k)) < Pow2(7 * k + 7)
  {
    hide BitOr, Times, Pow2, LowBits, ShlWord;
    var y := if k == 9 then x % 2 else x;
    ChunkInWord(x, k);
    TimesLow(y, 7 * k);
    OrCommutes(result, Times(y, Pow2(7 * k)));
    OrDisjoint(Times(y, Pow2(7 * k)), result, 7 * k);
    NextFits(x, k);
  }

  lemma NextFits(x: nat, k: nat)
    requires x < 128
    ensures Times(x, Pow2(7 * k)) + Pow2(7 * k) <= Pow2(7 * k + 7)
  {
    Pow2Add(7, 7 * k);
    ScaleStep(x, 128, Pow2(7 * k));
  }

  /** One byte more of the varint. */
  lemma OneByteMore(s: seq<Byte>, whole: Option<Read>, result: nat, k: nat)
    requires k < 9 && s != [] && s[0] >= 128 && Completes(whole, Varint(s, k), result, k)
    ensures Completes(whole, Varint(s[1..], k + 1), result + Times(s[0] - 128, Pow2(7 * k)), k + 1)
  {
    var rest := Varint(s[1..], k + 1);
    if rest.Some? {
      assert Times(rest.value.value, 128) == 128 * rest.value.value;
      hide Pow2, Times;
      SevenBits();
      Pow2Add(7, 7 * k);
      ScaledSum(rest.value.value, 128, s[0] - 128, Pow2(7 * k));
    }
  }

  lemma SevenBits()
    ensures Pow2(7) == 128
  {
  }

  lemma WholeVarint(s: seq<Byte>)
    ensures Completes(Varint(s, 0), Varint(s, 0), 0, 0)
  {
    assert Pow2(0) == 1;
  }

  /** `read_varint`: the number and the new position; `None` when truncated or overlong. */
  method ReadVarint(buf: seq<Byte>, pos: nat) returns (r: Option<nat>, end: nat)
    requires pos <= |buf|
    ensures pos <= end <= |buf|
    ensures r.None? <==> Varint(buf[pos..], 0).None?
    ensures r.Some? ==> Varint(buf[pos..], 0) == Some(Read(r.value, end - pos))
  {
    hide BitOr, Times, Pow2, ShlWord, Completes, Varint;
    var result: nat, shift: nat := 0, 0;
    end := pos;
    ghost var k: nat := 0;
    ghost var whole := Varint(buf[pos..], 0);
    WholeVarint(buf[pos..]);
    UnitPower();
    assert buf[end..] == buf[pos..];
    while true
      invariant k < 10 && shift == 7 * k && end == pos + k <= |buf|
      invariant result < Pow2(7 * k) && Completes(whole, Varint(buf[end..], k), result, k)
      decreases 10 - k
    {
      if end >= |buf| {
        NothingLeft(buf[end..], whole, result, k);
        return None, end;
      }
      var b := buf[end];
      ghost var s, before := buf[end..], result;
      NextBits(result, b % 128, k);
      result := BitOr(result, ShlWord(b % 128, shift));
      end := end + 1;
      assert s[1..] == buf[end..];
      if b < 128 {
        LastByte(s, whole, before, k);
        return Some(result), end;
      }
      shift := shift + 7;
      if shift >= 64 {
        NothingLeft(s, whole, before, k);
        return None, end;
      }
      OneByteMore(s, whole, before, k);
      k := k + 1;
    }
  }

  lemma NothingLeft(s: seq<Byte>, whole: Option<Read>, result: nat, k: nat)
    requires k < 10 && Completes(whole, Varint(s, k), result, k)
    requires s == [] || (k == 9 && s[0] >= 128)
    ensures whole.None?
  {
  }

  lemma LastByte(s: seq<Byte>, whole: Option<Read>, result: nat, k: nat)
    requires k < 10 && s != [] && s[0] < 128 && Completes(whole, Varint(s, k), result, k)
    ensures whole == Some(Read(result + Times(if k == 9 then s[0] % 2 else s[0], Pow2(7 * k)), k + 1))
  {
    hide Times, Pow2;
  }

  lemma UnitPower()
    ensures Pow2(0) == 1
  {
  }

  // --- payloads ---

  /** How many bytes a payload of this wire type takes; `None` stops the walk. */
  function Skip(s: seq<Byte>, wireType: nat): (n: Option<nat>)
    ensures n.Some? ==> n.value <= |s|
  {
    match wireType
    case 0 => (match Varint(s, 0) case None => None case Some(r) => Some(r.len))
    case 1 => if 8 <= |s| then Some(8) else None
    case 5 => if 4 <= |s| then Some(4) else None
    case 2 =>
      (match Varint(s, 0)
       case None => None
       case Some(r) => if r.len + r.value <= |s| then Some(r.len + r.value) else None)
    case _ => None
  }

  method Advance(buf: seq<Byte>, pos: nat, n: nat) returns (ok: bool, end: nat)
    requires pos <= |buf|
    ensures ok <==> pos + n <= |buf|
    ensures end == if ok then pos + n else pos
  {
    ok := pos + n <= |buf|;
    end := if ok then pos + n else pos;
  }

  method SkipPayload(buf: seq<Byte>, pos: nat, wireType: nat) returns (ok: bool, end: nat)
    requires pos <= |buf|
    ensures pos <= end <= |buf|
    ensures ok <==> Skip(buf[pos..], wireType).Some?
    ensures ok ==> end == pos + Skip(buf[pos..], wireType).value
  {
    hide Varint;
    match wireType {
      case 0 =>
        var r, e := ReadVarint(buf, pos);
        ok, end := r.Some?, e;
      case 1 => ok, end := Advance(buf, pos, 8);
      case 5 => ok, end := Advance(buf, pos, 4);
      case 2 =>
        var r, e := ReadVarint(buf, pos);
        if r.Some? {
          ok, end := Advance(buf, e, r.value);
        } else {
          ok, end := false, e;
        }
      case _ => ok, end := false, pos;
    }
  }

  // --- the walk ---

  /** The field number of a tag, truncated to 32 bits as the code casts it. */
  function FieldOf(tag: nat): (f: nat)
    ensures f < 0x1_0000_0000 && (tag / 8 - f) % 0x1_0000_0000 == 0
  {
    tag / 8 % COUNT_LIMIT
  }

  /** The field numbers the walk counts, in wire order, up to where it stops. */
  function Fields(s: seq<Byte>): seq<nat>
    decreases |s|
  {
    if s == [] then []
    else
      match Varint(s, 0)
      case None => []
      case Some(tag) =>
        var f := FieldOf(tag.value);
        if f == 0 then []
        else
          match Skip(s[tag.len..], tag.value % 8)
          case None => [f]
          case Some(n) => [f] + Fields(s[tag.len + n..])
  }

  function Occurrences(s: seq<Byte>, f: nat): nat {
    multiset(Fields(s))[f]
  }

  /** The guard reports `f`: it is on the list and its 32-bit counter ends above one. */
  predicate Reported(s: seq<Byte>, f: nat) {
    f in SINGULAR_FIELDS && Occurrences(s, f) % 0x1_0000_0000 > 1
  }

  function CountOf(counts: map<nat, nat>, f: nat): nat {
    if f in counts then counts[f] else 0
  }

  /** The 32-bit counters after counting `seen`. */
  ghost predicate Counted(counts: map<nat, nat>, seen: seq<nat>) {
    forall f :: CountOf(counts, f) == multiset(seen)[f] % COUNT_LIMIT
  }

  lemma CountOne(counts: map<nat, nat>, seen: seq<nat>, f: nat)
    requires Counted(counts, seen)
    ensures Counted(counts[f := (CountOf(counts, f) + 1) % COUNT_LIMIT], seen + [f])
  {
    var next := counts[f := (CountOf(counts, f) + 1) % COUNT_LIMIT];
    forall g
      ensures CountOf(next, g) == multiset(seen + [f])[g] % COUNT_LIMIT
    {
      assert multiset(seen + [f]) == multiset(seen) + multiset{f};
      if g == f { WrapNext(multiset(seen)[f]); }
    }
  }

  lemma WrapNext(n: nat)
    ensures (n % COUNT_LIMIT + 1) % COUNT_LIMIT == (n + 1) % COUNT_LIMIT
  {
  }

  /** The singular fields whose 32-bit counter ends above one, in ascending order. */
  method DuplicateSingularFields(buf: seq<Byte>) returns (dups: seq<nat>)
    ensures forall f :: f in dups <==> Reported(buf, f)
    ensures forall i, j :: 0 <= i < j < |dups| ==> dups[i] < dups[j]
  {
    hide Varint, Skip, FieldOf, Fields, Counted, CountOf;
    var counts: map<nat, nat> := map[];
    var pos := 0;
    ghost var seen: seq<nat> := [];
    NothingCounted();
    assert buf[0..] == buf;
    while pos < |buf|
      invariant pos <= |buf| && Counted(counts, seen)
      invariant Fields(buf) == seen + Fields(buf[pos..])
      decreases |buf| - pos
    {
      ghost var rest := buf[pos..];
      FieldsUnfold(rest);
      var tag, e := ReadVarint(buf, pos);
      if tag.None? {
        assert Fields(buf) == seen;
        break;
      }
      var field := FieldOf(tag.value);
      if field == 0 {
        assert Fields(buf) == seen;
        break;
      }
      CountOne(counts, seen, field);
      counts := counts[field := (CountOf(counts, field) + 1) % COUNT_LIMIT];
      assert rest[e - pos..] == buf[e..];
      var ok, end := SkipPayload(buf, e, tag.value % 8);
      seen := seen + [field];
      if !ok {
        assert Fields(buf) == seen;
        break;
      }
      assert buf[end..] == rest[end - pos..];
      pos := end;
    }
    if pos == |buf| { FieldsUnfold(buf[pos..]); }
    assert Fields(buf) == seen;
    dups := Keep(counts);
    AllCounted(counts, seen);
  }

  lemma NothingCounted()
    ensures Counted(map[], [])
  {
  }

  lemma AllCounted(counts: map<nat, nat>, seen: seq<nat>)
    requires Counted(counts, seen)
    ensures forall f :: CountOf(counts, f) == multiset(seen)[f] % COUNT_LIMIT
  {
  }

  /** One step of the walk. */
  lemma FieldsUnfold(s: seq<Byte>)
    ensures s == [] || Varint(s, 0).None? ==> Fields(s) == []
    ensures s != [] && Varint(s, 0).Some? ==>
              var tag := Varint(s, 0).value;
              var f := FieldOf(tag.value);
              if f == 0 then Fields(s) == []
              else
                match Skip(s[tag.len..], tag.value % 8)
                case None => Fields(s) == [f]
                case Some(n) => Fields(s) == [f] + Fields(s[tag.len + n..])
  {
    hide Varint, Skip, FieldOf;
  }

  lemma SingularAscending()
    ensures forall i, j :: 0 <= i < j < |SINGULAR_FIELDS| ==> SINGULAR_FIELDS[i] < SINGULAR_FIELDS[j]
  {
  }

  /** The singular fields filtered by their counters. The list is ascending, so the
      sort that follows in the source changes nothing. */
  method Keep(counts: map<nat, nat>) returns (dups: seq<nat>)
    ensures forall f :: f in dups <==> f in SINGULAR_FIELDS && CountOf(counts, f) > 1
    ensures forall i, j :: 0 <= i < j < |dups| ==> dups[i] < dups[j]
  {
    SingularAscending();
    var kept: seq<nat> := [];
    for k := 0 to |SINGULAR_FIELDS|
      invariant forall f :: f in kept <==> f in SINGULAR_FIELDS[..k] && CountOf(counts, f) > 1
      invariant forall i, j :: 0 <= i < j < |kept| ==> kept[i] < kept[j]
      invariant k < |SINGULAR_FIELDS| ==> forall i :: 0 <= i < |kept| ==> kept[i] < SINGULAR_FIELDS[k]
    {
      assert SINGULAR_FIELDS[..k + 1] == SINGULAR_FIELDS[..k] + [SINGULAR_FIELDS[k]];
      if CountOf(counts, SINGULAR_FIELDS[k]) > 1 {
        kept := kept + [SINGULAR_FIELDS[k]];
      }
    }
    dups := kept;
  }
}
