/** What the duplicate-field walk sees of a message, of a message with a group in it, and
    of a message with bytes appended; and exactly when it does what the schema asks
    (src/wire.rs, proto/octet/proof/proof.proto). */
module WireFields {
  import opened Bytes
  import opened Options
  import opened Wire

  /** The fields of a `LocationProof` that the schema does not repeat. */
  const NON_REPEATED: seq<nat> := [1, 2, 3, 4, 5, 6, 7, 8, 11, 12, 13, 16, 17, 18, 19, 20]

  const UNCERTAINTY: nat := 20

  // --- messages ---

  /** A field with its payload; every varint is given as it is spelled, minimal or not.
      A group holds fields between its own start and end tags. */
  datatype Field = Field(number: nat, tag: seq<Byte>, payload: Payload)

  datatype Payload =
    | Number(spelling: seq<Byte>)
    | Fixed64(bits: seq<Byte>)
    | Delimited(length: seq<Byte>, data: seq<Byte>)
    | Group(fields: seq<Field>, end: seq<Byte>)
    | Fixed32(half: seq<Byte>)

  function WireType(p: Payload): (t: nat)
    ensures t < 8
  {
    match p
    case Number(_) => 0
    case Fixed64(_) => 1
    case Delimited(_, _) => 2
    case Group(_, _) => 3
    case Fixed32(_) => 5
  }

  predicate Spells(s: seq<Byte>, n: nat) {
    Varint(s, 0) == Some(Read(n, |s|))
  }

  /** Field numbers are 1 to 2^29 - 1. */
  predicate WellFormed(f: Field) {
    && 1 <= f.number < 0x2000_0000
    && Spells(f.tag, 8 * f.number + WireType(f.payload))
    && match f.payload
       case Number(s) => Varint(s, 0).Some? && Varint(s, 0).value.len == |s|
       case Fixed64(b) => |b| == 8
       case Delimited(l, d) => Spells(l, |d|)
       case Group(fs, e) => (forall g :: g in fs ==> WellFormed(g)) && Spells(e, 8 * f.number + 4)
       case Fixed32(b) => |b| == 4
  }

  ghost predicate AllWellFormed(fs: seq<Field>) {
    forall i :: 0 <= i < |fs| ==> WellFormed(fs[i])
  }

  function EncodePayload(p: Payload): seq<Byte> {
    match p
    case Number(s) => s
    case Fixed64(b) => b
    case Delimited(l, d) => l + d
    case Group(fs, e) => EncodeAll(fs) + e
    case Fixed32(b) => b
  }

  function Encode(f: Field): seq<Byte> {
    f.tag + EncodePayload(f.payload)
  }

  function EncodeAll(fs: seq<Field>): seq<Byte> {
    if fs == [] then [] else Encode(fs[0]) + EncodeAll(fs[1..])
  }

  function Numbers(fs: seq<Field>): (ns: seq<nat>)
    ensures |ns| == |fs|
    ensures forall i :: 0 <= i < |fs| ==> ns[i] == fs[i].number
  {
    seq(|fs|, i requires 0 <= i < |fs| => fs[i].number)
  }

  ghost function TimesListed(fs: seq<Field>, number: nat): nat {
    multiset(Numbers(fs))[number]
  }

  /** The field occurs at least twice although the schema does not repeat it. */
  ghost predicate IsDuplicate(fs: seq<Field>, number: nat) {
    number in NON_REPEATED && TimesListed(fs, number) >= 2
  }

  /** Every number has its minimal spelling. */
  lemma MinimalSpells(n: nat)
    requires n < WORD
    ensures Spells(EncodeVarint(n), n)
  {
    ReadsBackEveryU64(n, []);
    assert EncodeVarint(n) + [] == EncodeVarint(n);
  }

  // --- the walk over a message ---

  lemma SpellingReads(s: seq<Byte>, n: nat, rest: seq<Byte>)
    requires Spells(s, n)
    ensures Varint(s + rest, 0) == Some(Read(n, |s|))
  {
    VarintStable(s, rest, 0);
  }

  lemma SkipsPayload(f: Field, rest: seq<Byte>)
    requires WellFormed(f) && !f.payload.Group?
    ensures Skip(EncodePayload(f.payload) + rest, WireType(f.payload)) == Some(|EncodePayload(f.payload)|)
  {
    hide Varint;
    match f.payload {
      case Number(s) => VarintStable(s, rest, 0);
      case Delimited(l, d) =>
        SpellingReads(l, |d|, d + rest);
        assert EncodePayload(f.payload) + rest == l + (d + rest);
      case _ =>
    }
  }

  lemma TagParts(number: nat, wireType: nat)
    requires number < 0x2000_0000 && wireType < 8
    ensures FieldOf(8 * number + wireType) == number && (8 * number + wireType) % 8 == wireType
  {
    assert (8 * number + wireType) / 8 == number;
  }

  /** The tag of a field is read and counted. */
  lemma WalkTag(f: Field, rest: seq<Byte>)
    requires WellFormed(f)
    ensures var s := Encode(f) + rest;
            var t := WireType(f.payload);
            match Skip(EncodePayload(f.payload) + rest, t)
            case None => Fields(s) == [f.number]
            case Some(n) => Fields(s) == [f.number] + Fields((EncodePayload(f.payload) + rest)[n..])
  {
    hide Varint, Skip, FieldOf, Fields, EncodePayload;
    var body := EncodePayload(f.payload) + rest;
    var s := Encode(f) + rest;
    assert s == f.tag + body;
    SpellingReads(f.tag, 8 * f.number + WireType(f.payload), body);
    TagParts(f.number, WireType(f.payload));
    assert s[|f.tag|..] == body;
    assert forall n :: 0 <= n <= |body| ==> s[|f.tag| + n..] == body[n..];
    FieldsUnfold(s);
  }

  lemma WalkOne(f: Field, rest: seq<Byte>)
    requires WellFormed(f) && !f.payload.Group?
    ensures Fields(Encode(f) + rest) == [f.number] + Fields(rest)
  {
    hide Skip, Fields, EncodePayload;
    WalkTag(f, rest);
    SkipsPayload(f, rest);
    assert (EncodePayload(f.payload) + rest)[|EncodePayload(f.payload)|..] == rest;
  }

  /** A group's own number is counted, and there the walk stops. */
  lemma WalkGroup(f: Field, rest: seq<Byte>)
    requires WellFormed(f) && f.payload.Group?
    ensures Fields(Encode(f) + rest) == [f.number]
  {
    hide Fields, EncodePayload, Varint;
    WalkTag(f, rest);
  }

  /** The fields up to and including the first group. */
  function Scanned(fs: seq<Field>): (p: seq<Field>)
    ensures p <= fs
    ensures (forall i :: 0 <= i < |fs| ==> !fs[i].payload.Group?) ==> p == fs
  {
    if fs == [] then [] else if fs[0].payload.Group? then [fs[0]] else [fs[0]] + Scanned(fs[1..])
  }

  lemma NumbersFirst(f: Field, fs: seq<Field>)
    ensures Numbers([f] + fs) == [f.number] + Numbers(fs)
  {
  }

  /** The walk reads the field numbers in order, up to and including the first group. */
  lemma {:induction false} WalkReadsScanned(fs: seq<Field>)
    requires AllWellFormed(fs)
    ensures Fields(EncodeAll(fs)) == Numbers(Scanned(fs))
  {
    hide Encode, Fields, WellFormed, Numbers;
    if fs == [] {
      FieldsUnfold([]);
    } else if fs[0].payload.Group? {
      WalkGroup(fs[0], EncodeAll(fs[1..]));
      NumbersFirst(fs[0], []);
      assert Scanned(fs) == [fs[0]] + [] && Numbers([]) == [];
    } else {
      WalkReadsScanned(fs[1..]);
      WalkOne(fs[0], EncodeAll(fs[1..]));
      NumbersFirst(fs[0], Scanned(fs[1..]));
    }
  }

  /** Without a group the walk reads back every field number. */
  lemma WalkReadsAll(fs: seq<Field>)
    requires AllWellFormed(fs) && forall i :: 0 <= i < |fs| ==> !fs[i].payload.Group?
    ensures Fields(EncodeAll(fs)) == Numbers(fs)
  {
    WalkReadsScanned(fs);
  }

  // --- what is reported ---

  lemma PrefixCounts(s: seq<nat>, t: seq<nat>, f: nat)
    requires s <= t
    ensures multiset(s)[f] <= multiset(t)[f]
  {
    assert t == s + t[|s|..];
    assert multiset(t) == multiset(s) + multiset(t[|s|..]);
  }

  lemma ScannedCounts(fs: seq<Field>, number: nat)
    ensures TimesListed(Scanned(fs), number) <= TimesListed(fs, number)
  {
    PrefixCounts(Numbers(Scanned(fs)), Numbers(fs), number);
  }

  lemma Schema()
    ensures forall f :: f in NON_REPEATED <==> f in SINGULAR_FIELDS || f == UNCERTAINTY
    ensures UNCERTAINTY !in SINGULAR_FIELDS
  {
  }

  /** For every message: what is reported is on the list and was counted more than once
      before the walk stopped, in 32 bits. So nothing is reported that is no duplicate. */
  lemma ReportsExactly(fs: seq<Field>, number: nat)
    requires AllWellFormed(fs)
    ensures Reported(EncodeAll(fs), number) <==>
            number in SINGULAR_FIELDS && TimesListed(Scanned(fs), number) % COUNT_LIMIT > 1
    ensures Reported(EncodeAll(fs), number) ==> IsDuplicate(fs, number)
  {
    hide EncodeAll, Fields, WellFormed;
    WalkReadsScanned(fs);
    ScannedCounts(fs, number);
    Schema();
    AtMost(TimesListed(Scanned(fs), number));
  }

  lemma AtMost(n: nat)
    ensures n % COUNT_LIMIT <= n
  {
  }

  lemma NoWrap(n: nat)
    requires n < COUNT_LIMIT
    ensures n % COUNT_LIMIT == n
  {
  }

  /** For every message and every non-repeated field that occurs at least twice: it is
      reported exactly when it is on the list and the occurrences up to the first group,
      counted in 32 bits, exceed one. */
  lemma CatchesExactly(fs: seq<Field>, number: nat)
    requires AllWellFormed(fs) && IsDuplicate(fs, number)
    ensures Reported(EncodeAll(fs), number) <==>
            number in SINGULAR_FIELDS && TimesListed(Scanned(fs), number) % COUNT_LIMIT > 1
    ensures number !in SINGULAR_FIELDS <==> number == UNCERTAINTY
  {
    ReportsExactly(fs, number);
    Schema();
  }

  /** So the guard does what the schema asks of a whole message exactly when field 20
      occurs at most once and no group and no wrapped counter hides a second occurrence. */
  lemma MeetsSchemaExactly(fs: seq<Field>)
    requires AllWellFormed(fs)
    ensures (forall n :: Reported(EncodeAll(fs), n) <==> IsDuplicate(fs, n)) <==>
            && TimesListed(fs, UNCERTAINTY) < 2
            && forall n :: n in SINGULAR_FIELDS && TimesListed(fs, n) >= 2 ==>
                             TimesListed(Scanned(fs), n) % COUNT_LIMIT > 1
  {
    hide EncodeAll, Reported, Scanned, WellFormed, TimesListed;
    forall n
      ensures Reported(EncodeAll(fs), n) <==> n in SINGULAR_FIELDS && TimesListed(Scanned(fs), n) % COUNT_LIMIT > 1
      ensures Reported(EncodeAll(fs), n) ==> IsDuplicate(fs, n)
    {
      ReportsExactly(fs, n);
    }
    Schema();
    assert IsDuplicate(fs, UNCERTAINTY) <==> TimesListed(fs, UNCERTAINTY) >= 2;
  }

  /** Without a group, and within the counter's range, a listed field is reported exactly
      when it occurs at least twice. */
  lemma ReportsExactlyDuplicates(fs: seq<Field>, number: nat)
    requires AllWellFormed(fs) && forall i :: 0 <= i < |fs| ==> !fs[i].payload.Group?
    requires TimesListed(fs, number) < COUNT_LIMIT
    ensures Reported(EncodeAll(fs), number) <==> number in SINGULAR_FIELDS && TimesListed(fs, number) >= 2
  {
    hide EncodeAll, WellFormed;
    ReportsExactly(fs, number);
    NoWrap(TimesListed(fs, number));
  }

  lemma {:induction false} FieldsBounded(s: seq<Byte>)
    ensures |Fields(s)| <= |s|
    decreases |s|
  {
    hide Varint, Skip, FieldOf, Fields;
    FieldsUnfold(s);
    if s != [] && Varint(s, 0).Some? {
      var tag := Varint(s, 0).value;
      if FieldOf(tag.value) != 0 && Skip(s[tag.len..], tag.value % 8).Some? {
        FieldsBounded(s[tag.len + Skip(s[tag.len..], tag.value % 8).value..]);
      }
    }
  }

  /** No counter wraps on fewer than 2^32 bytes. */
  lemma CountersSuffice(s: seq<Byte>, f: nat)
    requires |s| < COUNT_LIMIT
    ensures Occurrences(s, f) < COUNT_LIMIT
  {
    hide Fields;
    FieldsBounded(s);
    assert multiset(Fields(s))[f] <= |multiset(Fields(s))|;
  }

  /** A message of fewer than 2^32 bytes, then, is served as the schema asks exactly when
      field 20 occurs at most once and the second occurrence of every other duplicate
      comes before the first group, or is it. */
  lemma MeetsSchemaInRange(fs: seq<Field>)
    requires AllWellFormed(fs) && |EncodeAll(fs)| < COUNT_LIMIT
    ensures (forall n :: Reported(EncodeAll(fs), n) <==> IsDuplicate(fs, n)) <==>
            && TimesListed(fs, UNCERTAINTY) < 2
            && forall n :: n in SINGULAR_FIELDS && TimesListed(fs, n) >= 2 ==> TimesListed(Scanned(fs), n) >= 2
  {
    hide EncodeAll, Reported, Scanned, WellFormed, IsDuplicate, Fields;
    MeetsSchemaExactly(fs);
    WalkReadsScanned(fs);
    forall n
      ensures TimesListed(Scanned(fs), n) % COUNT_LIMIT == TimesListed(Scanned(fs), n)
    {
      CountersSuffice(EncodeAll(fs), n);
      NoWrap(TimesListed(Scanned(fs), n));
    }
  }

  // --- messages it misses ---

  lemma SmallTags()
    ensures Spells([163, 6], 803) && Spells([164, 6], 804) && Spells([162, 1], 162)
    ensures Spells([56], 56) && Spells([0], 0) && Spells([1], 1) && Spells([2], 2)
  {
    assert [163, 6][1..] == [6] && [164, 6][1..] == [6] && [162, 1][1..] == [1];
    assert Varint([6], 1) == Some(Read(6, 1)) && Varint([1], 1) == Some(Read(1, 1));
  }

  /** An unknown group, empty, then field 7 twice. */
  const GROUP_FIRST: seq<Field> := [
    Field(100, [163, 6], Group([], [164, 6])), Field(7, [56], Number([1])), Field(7, [56], Number([2]))]

  lemma GroupFirstBytes()
    ensures EncodeAll(GROUP_FIRST) == [163, 6, 164, 6, 56, 1, 56, 2]
  {
    var a, b := GROUP_FIRST[1], GROUP_FIRST[2];
    assert GROUP_FIRST[1..] == [a, b] && [a, b][1..] == [b];
    assert EncodeAll([b]) == Encode(b) + EncodeAll([b][1..]) == [56, 2];
    assert EncodeAll([a, b]) == Encode(a) + EncodeAll([b]) == [56, 1, 56, 2];
    assert Encode(GROUP_FIRST[0]) == [163, 6, 164, 6];
  }

  lemma GroupFirstWellFormed()
    ensures AllWellFormed(GROUP_FIRST)
  {
    SmallTags();
    hide Varint;
    assert WellFormed(GROUP_FIRST[0]) && WellFormed(GROUP_FIRST[1]) && WellFormed(GROUP_FIRST[2]);
  }

  /** Eight bytes in which the group hides the duplicate. */
  lemma HiddenByGroup()
    ensures AllWellFormed(GROUP_FIRST) && EncodeAll(GROUP_FIRST) == [163, 6, 164, 6, 56, 1, 56, 2]
    ensures IsDuplicate(GROUP_FIRST, 7) && 7 in SINGULAR_FIELDS && !Reported(EncodeAll(GROUP_FIRST), 7)
  {
    hide EncodeAll, WellFormed, Reported, AllWellFormed;
    GroupFirstBytes();
    GroupFirstWellFormed();
    assert Numbers(GROUP_FIRST) == [100, 7, 7];
    assert Numbers(Scanned(GROUP_FIRST)) == [100];
    ReportsExactly(GROUP_FIRST, 7);
  }

  /** Field 20 twice, both empty. */
  const TWO_UNCERTAINTIES: seq<Field> := [
    Field(UNCERTAINTY, [162, 1], Delimited([0], [])), Field(UNCERTAINTY, [162, 1], Delimited([0], []))]

  lemma TwoUncertaintiesBytes()
    ensures AllWellFormed(TWO_UNCERTAINTIES) && EncodeAll(TWO_UNCERTAINTIES) == [162, 1, 0, 162, 1, 0]
  {
    SmallTags();
    hide Varint;
    var u := TWO_UNCERTAINTIES[0];
    assert TWO_UNCERTAINTIES[1..] == [u] && [u][1..] == [];
    assert EncodeAll([u]) == Encode(u) + EncodeAll([u][1..]) == [162, 1, 0];
    assert WellFormed(u);
  }

  /** Six bytes of which nothing at all is reported. */
  lemma SecondUncertaintyIsMissed()
    ensures AllWellFormed(TWO_UNCERTAINTIES) && EncodeAll(TWO_UNCERTAINTIES) == [162, 1, 0, 162, 1, 0]
    ensures IsDuplicate(TWO_UNCERTAINTIES, UNCERTAINTY)
    ensures forall n :: !Reported(EncodeAll(TWO_UNCERTAINTIES), n)
  {
    hide EncodeAll, WellFormed, Reported;
    TwoUncertaintiesBytes();
    assert Numbers(TWO_UNCERTAINTIES) == [20, 20];
    forall n
      ensures !Reported(EncodeAll(TWO_UNCERTAINTIES), n)
    {
      ReportsExactly(TWO_UNCERTAINTIES, n);
    }
  }

  function Copies(f: Field, n: nat): (fs: seq<Field>)
    ensures |fs| == n
    ensures forall i :: 0 <= i < n ==> fs[i] == f
  {
    seq(n, i => f)
  }

  lemma {:induction false} CopiesListed(f: Field, n: nat)
    ensures TimesListed(Copies(f, n), f.number) == n
  {
    if n > 0 {
      CopiesListed(f, n - 1);
      assert Numbers(Copies(f, n)) == Numbers(Copies(f, n - 1)) + [f.number];
    }
  }

  /** And beyond what a protobuf message can hold: 2^32 copies of a field bring its counter back to 0. */
  lemma WrappedIsMissed(f: Field)
    requires WellFormed(f) && !f.payload.Group?
    ensures TimesListed(Copies(f, COUNT_LIMIT), f.number) >= 2
    ensures Occurrences(EncodeAll(Copies(f, COUNT_LIMIT)), f.number) % COUNT_LIMIT == 0
    ensures !Reported(EncodeAll(Copies(f, COUNT_LIMIT)), f.number)
  {
    hide EncodeAll, Fields, WellFormed;
    CopiesListed(f, COUNT_LIMIT);
    WalkReadsAll(Copies(f, COUNT_LIMIT));
  }

  // --- appending bytes ---

  lemma SkipStable(s: seq<Byte>, t: seq<Byte>, wireType: nat)
    requires Skip(s, wireType).Some?
    ensures Skip(s + t, wireType) == Skip(s, wireType)
  {
    if wireType == 0 || wireType == 2 { VarintStable(s, t, 0); }
  }

  /** Appending bytes only lengthens what the walk counts. */
  lemma {:induction false} WalkGrows(s: seq<Byte>, t: seq<Byte>)
    ensures Fields(s) <= Fields(s + t)
    decreases |s|
  {
    hide Varint, Skip, FieldOf, Fields;
    FieldsUnfold(s);
    FieldsUnfold(s + t);
    if s != [] && Varint(s, 0).Some? {
      var tag := Varint(s, 0).value;
      VarintStable(s, t, 0);
      var body := s[tag.len..];
      assert (s + t)[tag.len..] == body + t;
      if FieldOf(tag.value) != 0 && Skip(body, tag.value % 8).Some? {
        var n := Skip(body, tag.value % 8).value;
        SkipStable(body, t, tag.value % 8);
        assert (s + t)[tag.len + n..] == s[tag.len + n..] + t;
        WalkGrows(s[tag.len + n..], t);
      }
    }
  }

  /** As long as the counter does not wrap, appending bytes never removes a reported duplicate. */
  lemma AppendKeepsDuplicates(s: seq<Byte>, t: seq<Byte>, f: nat)
    requires Occurrences(s + t, f) < COUNT_LIMIT && Reported(s, f)
    ensures Reported(s + t, f)
  {
    hide Fields;
    WalkGrows(s, t);
    PrefixCounts(Fields(s), Fields(s + t), f);
    NoWrap(Occurrences(s, f));
    NoWrap(Occurrences(s + t, f));
  }
}
