/** The presenter's manifest of caller content (src/caller_metadata.rs): its limits,
    the preimage its stage hashes, and why that preimage has one reading. */
module CallerManifests {
  import opened Bytes

  const MAX_ENTRIES: nat := 16
  const MAX_KEY_LEN: nat := 64
  const MAX_CONTENT_TYPE_LEN: nat := 127
  const MAX_PREIMAGE_LEN: nat := 16384

  type Digest = d: seq<Byte> | |d| == 32 witness seq(32, _ => 0)

  /** One committed entry; keys and content types as UTF-8 bytes. */
  datatype Entry = Entry(key: seq<Byte>, contentType: seq<Byte>, size: U64, salt: seq<Byte>, digest: Digest)

  // --- limits ---

  predicate Alphanumeric(b: Byte) {
    48 <= b <= 57 || 65 <= b <= 90 || 97 <= b <= 122
  }

  /** A restricted name's characters: letters, digits and `!#$&-^_.+`. */
  predicate NameByte(b: Byte) {
    Alphanumeric(b) || b == 33 || b == 35 || b == 36 || b == 38 || b == 45 || b == 94 || b == 95 || b == 46 || b == 43
  }

  predicate RestrictedName(s: seq<Byte>) {
    s != [] && Alphanumeric(s[0]) && forall i :: 0 <= i < |s| ==> NameByte(s[i])
  }

  const SLASH: Byte := 47

  /** The first slash, or the length. */
  function FirstSlash(s: seq<Byte>): (k: nat)
    ensures k <= |s| && (k < |s| ==> s[k] == SLASH)
    ensures forall i :: 0 <= i < k ==> s[i] != SLASH
  {
    if s == [] || s[0] == SLASH then 0 else 1 + FirstSlash(s[1..])
  }

  /** `type/subtype`, each a restricted name, split at the first slash. */
  predicate IsMediaType(s: seq<Byte>) {
    var k := FirstSlash(s);
    k < |s| && RestrictedName(s[..k]) && RestrictedName(s[k + 1..])
  }

  /** A media type has exactly one way to split: there is a single slash. */
  lemma OneSlash(s: seq<Byte>, i: nat, j: nat)
    requires IsMediaType(s) && i < |s| && j < |s| && s[i] == SLASH && s[j] == SLASH
    ensures i == j
  {
    var k := FirstSlash(s);
    assert forall x :: k < x < |s| ==> s[x] == s[k + 1..][x - (k + 1)];
    assert !NameByte(SLASH);
  }

  /** A slash at `k` with a name on each side: a letter or digit, then bytes of a name. */
  predicate NamesAround(s: seq<Byte>, k: nat) {
    && 0 < k < |s| - 1 && s[k] == '/' as int && Alphanumeric(s[0]) && Alphanumeric(s[k + 1])
    && forall i :: 0 <= i < |s| && i != k ==> NameByte(s[i])
  }

  lemma MediaTypeMeans(s: seq<Byte>)
    ensures IsMediaType(s) <==> exists k: nat :: NamesAround(s, k)
  {
    var k := FirstSlash(s);
    if IsMediaType(s) {
      assert s[..k][0] == s[0] && s[k + 1..][0] == s[k + 1];
      assert forall i :: k < i < |s| ==> s[i] == s[k + 1..][i - k - 1];
      assert forall i :: 0 <= i < k ==> s[i] == s[..k][i];
      assert NamesAround(s, k);
    }
    assert !NameByte(SLASH);
  }

  predicate SaltLengthOk(n: nat) {
    n == 0 || n == 16 || n == 32
  }

  predicate EntryOk(e: Entry) {
    && 1 <= |e.key| <= MAX_KEY_LEN
    && 1 <= |e.contentType| <= MAX_CONTENT_TYPE_LEN
    && IsMediaType(e.contentType)
    && SaltLengthOk(|e.salt|)
  }

  ghost predicate DistinctKeys(es: seq<Entry>) {
    forall i, j :: 0 <= i < j < |es| ==> es[i].key != es[j].key
  }

  ghost predicate IsValid(es: seq<Entry>) {
    1 <= |es| <= MAX_ENTRIES && (forall i :: 0 <= i < |es| ==> EntryOk(es[i])) && DistinctKeys(es)
  }

  datatype Validation = Valid | BadCount(n: nat) | BadEntry(i: nat) | DuplicateKey(i: nat)

  /** Checks the limits entry by entry, stopping at the first one broken. */
  method Validate(es: seq<Entry>) returns (r: Validation)
    ensures r.Valid? <==> IsValid(es)
    ensures r.BadCount? <==> !(1 <= |es| <= MAX_ENTRIES)
    ensures r.BadEntry? ==> r.i < |es| && !EntryOk(es[r.i])
    ensures r.DuplicateKey? ==> r.i < |es| && exists j :: 0 <= j < r.i && es[j].key == es[r.i].key
  {
    if !(1 <= |es| <= MAX_ENTRIES) { return BadCount(|es|); }
    for i := 0 to |es|
      invariant forall j :: 0 <= j < i ==> EntryOk(es[j])
      invariant forall j, k :: 0 <= j < k < i ==> es[j].key != es[k].key
    {
      if !EntryOk(es[i]) { return BadEntry(i); }
      for j := 0 to i
        invariant forall k :: 0 <= k < j ==> es[k].key != es[i].key
      {
        if es[j].key == es[i].key { return DuplicateKey(i); }
      }
    }
    return Valid;
  }

  // --- the preimage ---

  /** `octet-caller-metadata-v1` */
  const DOMAIN: seq<Byte> := Ascii("octet-caller-metadata-v1")

  function EntryBytes(e: Entry): (m: seq<Byte>)
    ensures |m| == 52 + |e.key| + |e.contentType|
  {
    Prefixed(e.key) + Prefixed(e.contentType) + U64be(e.size) + U32be(32) + e.digest
  }

  /** Where each committed field of an entry lies, the lengths included. */
  ghost predicate EntryAt(m: seq<Byte>, at: nat, e: Entry) {
    var k, c := |e.key|, |e.contentType|;
    && NumberAt(m, at, 4, k) && BytesAt(m, at + 4, e.key)
    && NumberAt(m, at + 4 + k, 4, c) && BytesAt(m, at + 8 + k, e.contentType)
    && NumberAt(m, at + 8 + k + c, 8, e.size)
    && NumberAt(m, at + 16 + k + c, 4, 32) && BytesAt(m, at + 20 + k + c, e.digest)
  }

  lemma EntryLayout(m: seq<Byte>, at: nat, e: Entry)
    requires EntryOk(e) && BytesAt(m, at, EntryBytes(e))
    ensures EntryAt(m, at, e)
  {
    hide U32be, U64be, Prefixed, NumberAt, BytesAt, IsMediaType;
    var k, c := |e.key|, |e.contentType|;
    var b := EntryBytes(e);
    FiveParts(Prefixed(e.key), Prefixed(e.contentType), U64be(e.size), U32be(32), e.digest);
    Nested(m, at, b, 0, Prefixed(e.key));
    Nested(m, at, b, 4 + k, Prefixed(e.contentType));
    Nested(m, at, b, 8 + k + c, U64be(e.size));
    Nested(m, at, b, 16 + k + c, U32be(32));
    Nested(m, at, b, 20 + k + c, e.digest);
    PrefixedAt(m, at, e.key);
    PrefixedAt(m, at + 4 + k, e.contentType);
    U64At(m, at + 8 + k + c, e.size);
    U32At(m, at + 16 + k + c, 32);
  }

  function EntriesBytes(es: seq<Entry>): seq<Byte> {
    if es == [] then [] else EntriesBytes(es[..|es| - 1]) + EntryBytes(es[|es| - 1])
  }

  /** The domain, the number of entries, and each entry with its lengths. */
  function PreimageBytes(es: seq<Entry>): seq<Byte> {
    DOMAIN + U32be(Count32(|es|)) + EntriesBytes(es)
  }

  lemma {:induction false} EntriesAt(es: seq<Entry>, k: nat)
    requires k < |es|
    ensures BytesAt(EntriesBytes(es), |EntriesBytes(es[..k])|, EntryBytes(es[k]))
  {
    hide EntryBytes;
    var n := |es| - 1;
    if k < n {
      EntriesAt(es[..n], k);
      assert es[..n][..k] == es[..k];
      Before(EntriesBytes(es[..n]), EntryBytes(es[n]), |EntriesBytes(es[..k])|, EntryBytes(es[k]));
    } else {
      After(EntriesBytes(es[..n]), EntryBytes(es[n]), 0, EntryBytes(es[n]));
    }
  }

  /** A reader finds the label, the count in 4 bytes, and the entries one after the other. */
  lemma PreimageLayout(es: seq<Entry>)
    requires IsValid(es)
    ensures BytesAt(PreimageBytes(es), 0, Ascii("octet-caller-metadata-v1")) && NumberAt(PreimageBytes(es), 24, 4, |es|)
    ensures forall k :: 0 <= k < |es| ==> EntryAt(PreimageBytes(es), 28 + |EntriesBytes(es[..k])|, es[k])
  {
    hide EntriesBytes, EntryBytes, EntryOk, U32be, Count32, Ascii, NumberAt, EntryAt;
    SmallCount(|es|);
    var m, head := PreimageBytes(es), DOMAIN + U32be(|es|);
    After(DOMAIN, U32be(|es|), 0, U32be(|es|));
    Before(head, EntriesBytes(es), 24, U32be(|es|));
    U32At(m, 24, |es|);
    forall k | 0 <= k < |es|
      ensures EntryAt(m, 28 + |EntriesBytes(es[..k])|, es[k])
    {
      EntriesAt(es, k);
      After(head, EntriesBytes(es), |EntriesBytes(es[..k])|, EntryBytes(es[k]));
      EntryLayout(m, 28 + |EntriesBytes(es[..k])|, es[k]);
    }
  }

  /** The limits in figures, and the characters of a media type. */
  lemma LimitsAre(es: seq<Entry>)
    ensures IsValid(es) <==>
            && 1 <= |es| <= 16 && DistinctKeys(es)
            && forall i :: 0 <= i < |es| ==>
                 && 1 <= |es[i].key| <= 64 && 1 <= |es[i].contentType| <= 127
                 && IsMediaType(es[i].contentType) && |es[i].salt| in {0, 16, 32}
  {
    hide IsMediaType;
  }

  lemma NameBytesAre(b: Byte)
    ensures Alphanumeric(b) <==> 'a' as int <= b <= 'z' as int || 'A' as int <= b <= 'Z' as int || '0' as int <= b <= '9' as int
    ensures NameByte(b) <==>
            || 'a' as int <= b <= 'z' as int || 'A' as int <= b <= 'Z' as int || '0' as int <= b <= '9' as int
            || b in Ascii("!#$&-^_.+")
  {
    var s := Ascii("!#$&-^_.+");
    assert s == [33, 35, 36, 38, 45, 94, 95, 46, 43];
  }

  lemma {:induction false} EntriesFit(es: seq<Entry>)
    requires forall i :: 0 <= i < |es| ==> EntryOk(es[i])
    ensures |EntriesBytes(es)| <= 243 * |es|
  {
    if es != [] {
      var n := |es| - 1;
      EntriesFit(es[..n]);
      assert EntryOk(es[n]);
    }
  }

  lemma PreimageFits(es: seq<Entry>)
    requires IsValid(es)
    ensures |PreimageBytes(es)| <= MAX_PREIMAGE_LEN
  {
    EntriesFit(es);
  }

  datatype PreimageResult = Preimage(bytes: seq<Byte>) | Refused(why: Validation) | TooLong

  /** Validates first. The 16 KiB bound can never be what refuses a manifest. */
  method BuildPreimage(es: seq<Entry>) returns (r: PreimageResult)
    ensures r.Preimage? <==> IsValid(es)
    ensures r.Preimage? ==> r.bytes == PreimageBytes(es)
    ensures !r.TooLong?
  {
    var v := Validate(es);
    if !v.Valid? { return Refused(v); }
    var head := DOMAIN + U32be(Count32(|es|));
    var m := AppendEntries(es, head);
    PreimageFits(es);
    if |m| > MAX_PREIMAGE_LEN { return TooLong; }
    return Preimage(m);
  }

  method AppendEntries(es: seq<Entry>, head: seq<Byte>) returns (m: seq<Byte>)
    ensures m == head + EntriesBytes(es)
  {
    hide EntryBytes;
    m := head;
    for i := 0 to |es|
      invariant m == head + EntriesBytes(es[..i])
    {
      m := m + EntryBytes(es[i]);
      assert es[..i + 1][..i] == es[..i];
    }
    assert es[..|es|] == es;
  }

  // --- one preimage, one list of entries ---

  /** What the stage commits of an entry: everything but the salt. */
  predicate SameCommitted(a: Entry, b: Entry) {
    a.key == b.key && a.contentType == b.contentType && a.size == b.size && a.digest == b.digest
  }

  ghost predicate SameEntries(a: seq<Entry>, b: seq<Entry>) {
    |a| == |b| && forall i :: 0 <= i < |a| ==> SameCommitted(a[i], b[i])
  }

  lemma EntrySplit(a: Entry, b: Entry, x: seq<Byte>, y: seq<Byte>)
    requires EntryOk(a) && EntryOk(b) && EntryBytes(a) + x == EntryBytes(b) + y
    ensures SameCommitted(a, b) && x == y
  {
    hide Be, U32be, U64be, Prefixed, IsMediaType;
    var c, d := U32be(32) + (a.digest + x), U32be(32) + (b.digest + y);
    var e, f := U64be(a.size) + c, U64be(b.size) + d;
    var g, h := Prefixed(a.contentType) + e, Prefixed(b.contentType) + f;
    assert EntryBytes(a) + x == Prefixed(a.key) + g;
    assert EntryBytes(b) + y == Prefixed(b.key) + h;
    PrefixedSplit(a.key, b.key, g, h);
    PrefixedSplit(a.contentType, b.contentType, e, f);
    SplitEqual(U64be(a.size), c, U64be(b.size), d);
    U64beInjective(a.size, b.size);
    SplitEqual(U32be(32), a.digest + x, U32be(32), b.digest + y);
    SplitEqual(a.digest, x, b.digest, y);
  }

  lemma {:induction false} EntriesFirst(es: seq<Entry>)
    requires es != []
    ensures EntriesBytes(es) == EntryBytes(es[0]) + EntriesBytes(es[1..])
  {
    hide EntryBytes;
    var n := |es| - 1;
    if n > 0 {
      EntriesFirst(es[..n]);
      assert es[..n][1..] == es[1..][..n - 1];
      assert es[1..][|es[1..]| - 1] == es[n];
    } else {
      assert es[..0] == [] && es[1..] == [];
    }
  }

  lemma {:induction false} EntriesDetermined(a: seq<Entry>, b: seq<Entry>)
    requires |a| == |b| && EntriesBytes(a) == EntriesBytes(b)
    requires forall i :: 0 <= i < |a| ==> EntryOk(a[i]) && EntryOk(b[i])
    ensures SameEntries(a, b)
  {
    hide EntryBytes, EntryOk, SameCommitted;
    if a != [] {
      EntriesFirst(a);
      EntriesFirst(b);
      EntrySplit(a[0], b[0], EntriesBytes(a[1..]), EntriesBytes(b[1..]));
      EntriesDetermined(a[1..], b[1..]);
      forall i | 0 <= i < |a|
        ensures SameCommitted(a[i], b[i])
      {
        if i > 0 { assert a[i] == a[1..][i - 1] && b[i] == b[1..][i - 1]; }
      }
    }
  }

  lemma PreimageSplit(a: seq<Entry>, b: seq<Entry>)
    requires |a| <= MAX_ENTRIES && |b| <= MAX_ENTRIES && PreimageBytes(a) == PreimageBytes(b)
    ensures |a| == |b| && EntriesBytes(a) == EntriesBytes(b)
  {
    hide EntriesBytes, Be, U32be, Ascii, Count32;
    CountedSplit(DOMAIN, |a|, EntriesBytes(a), |b|, EntriesBytes(b));
  }

  /** Two valid manifests with one preimage list the same entries in the same order. */
  lemma PreimageDetermines(a: seq<Entry>, b: seq<Entry>)
    requires IsValid(a) && IsValid(b) && PreimageBytes(a) == PreimageBytes(b)
    ensures SameEntries(a, b)
  {
    hide EntryOk, EntriesBytes, PreimageBytes;
    PreimageSplit(a, b);
    EntriesDetermined(a, b);
  }

  /** And the same entries have one preimage: the salt is not part of it. */
  lemma {:induction false} SameEntriesSameBytes(a: seq<Entry>, b: seq<Entry>)
    requires SameEntries(a, b)
    ensures EntriesBytes(a) == EntriesBytes(b) && PreimageBytes(a) == PreimageBytes(b)
  {
    if a != [] {
      var n := |a| - 1;
      SameEntriesSameBytes(a[..n], b[..n]);
      assert SameCommitted(a[n], b[n]);
    }
  }
}
