/** Checking presented content and manifests against the signed `callerMetadata`
    stage and the proof's own readable manifest (src/caller_metadata.rs). */
module CallerMetadata {
  import opened Bytes
  import opened CallerManifests
  import opened EntryHashing
  import opened Options

  // --- inputs ---

  /** Content for one key. A file that cannot be opened holds no reads. */
  datatype Content =
    | InMemory(bytes: seq<Byte>)
    | File(source: Option<seq<Read>>)
    | Hashed(digest: seq<Byte>, size: U64)
    | Unavailable

  datatype Supplied = Supplied(key: seq<Byte>, content: Content)

  datatype RequireContent = Nothing | Keys(keys: seq<seq<Byte>>) | All

  datatype Presented = NoManifest | Unparsed | Manifest(entries: seq<Entry>)

  datatype Inputs = Inputs(manifest: Presented, content: seq<Supplied>, require: RequireContent, requireStage: bool)

  /** An entry of field 19: no salt, a digest of any length, an unsigned hint. */
  datatype FieldEntry =
    FieldEntry(key: seq<Byte>, contentType: seq<Byte>, size: U64, sha256: seq<Byte>, locator: seq<Byte>)

  /** What the check reads of a proof: the stage's hash, if it has the stage, and field 19. */
  datatype Proof = Proof(stage: Option<seq<Byte>>, field19: Option<seq<FieldEntry>>)

  // --- field 19 ---

  /** Field 19 as a manifest without salts; `None` when a digest is not 32 bytes. */
  function ManifestFromProof(field: seq<FieldEntry>): (r: Option<seq<Entry>>)
    ensures r.Some? <==> forall i :: 0 <= i < |field| ==> |field[i].sha256| == 32
    ensures r.Some? ==> |r.value| == |field| && forall i :: 0 <= i < |field| ==>
      && r.value[i].key == field[i].key && r.value[i].contentType == field[i].contentType
      && r.value[i].size == field[i].size && r.value[i].digest == field[i].sha256
      && r.value[i].salt == []
  {
    if field == [] then Some([]) else
    var f := field[0];
    var rest := ManifestFromProof(field[1..]);
    assert forall i :: 1 <= i < |field| ==> field[i] == field[1..][i - 1];
    if |f.sha256| != 32 || rest.None? then None
    else Some([Entry(f.key, f.contentType, f.size, [], f.sha256)] + rest.value)
  }

  datatype Field = Key | ContentType | Size | Sha256

  datatype Difference = Counts | At(index: nat, field: Field)

  function FieldDifference(a: Entry, b: Entry): (f: Option<Field>)
    ensures f.None? <==> SameCommitted(a, b)
  {
    if a.key != b.key then Some(Key)
    else if a.contentType != b.contentType then Some(ContentType)
    else if a.size != b.size then Some(Size)
    else if a.digest != b.digest then Some(Sha256)
    else None
  }

  /** The first place and field in which two lists of committed entries disagree. */
  function FirstDifference(a: seq<Entry>, b: seq<Entry>): (d: Option<Difference>)
    ensures d.None? <==> SameEntries(a, b)
    ensures d == Some(Counts) <==> |a| != |b|
    ensures d.Some? && d.value.At? ==>
      && d.value.index < |a| && SameEntries(a[..d.value.index], b[..d.value.index])
      && FieldDifference(a[d.value.index], b[d.value.index]) == Some(d.value.field)
  {
    if |a| != |b| then Some(Counts) else FirstFrom(a, b, 0)
  }

  function FirstFrom(a: seq<Entry>, b: seq<Entry>, i: nat): (d: Option<Difference>)
    requires |a| == |b| && i <= |a| && SameEntries(a[..i], b[..i])
    ensures d.None? <==> SameEntries(a, b)
    ensures d.Some? ==>
      && d.value.At? && d.value.index < |a| && SameEntries(a[..d.value.index], b[..d.value.index])
      && FieldDifference(a[d.value.index], b[d.value.index]) == Some(d.value.field)
    decreases |a| - i
  {
    if i == |a| then assert a[..i] == a && b[..i] == b; None
    else match FieldDifference(a[i], b[i])
      case Some(f) => Some(At(i, f))
      case None => FirstFrom(a, b, i + 1)
  }

  /** Field 19, when there is one, lists what the presenter's manifest lists. */
  ghost predicate FieldAgrees(field19: Option<seq<FieldEntry>>, es: seq<Entry>) {
    field19.None?
    || (ManifestFromProof(field19.value).Some? && SameEntries(es, ManifestFromProof(field19.value).value))
  }

  // --- one entry ---

  /** The content supplied for a key: the first listed. */
  function Lookup(content: seq<Supplied>, key: seq<Byte>): (c: Option<Content>)
    ensures c.None? <==> forall i :: 0 <= i < |content| ==> content[i].key != key
    ensures c.Some? ==> exists i :: 0 <= i < |content| && content[i] == Supplied(key, c.value)
  {
    if content == [] then None
    else if content[0].key == key then assert content[0] == Supplied(key, content[0].content); Some(content[0].content)
    else
      var c := Lookup(content[1..], key);
      assert forall i :: 0 < i < |content| ==> content[i] == content[1..][i - 1];
      assert forall i :: 0 <= i < |content| - 1 ==> content[1..][i] == content[i + 1];
      c
  }

  predicate Required(require: RequireContent, key: seq<Byte>) {
    match require
    case Nothing => false
    case All => true
    case Keys(keys) => key in keys
  }

  /** The digest and length of presented content; `None` when it cannot be had. */
  function Got(e: Entry, c: Content, sha: Hash): Option<Digested> {
    match c
    case InMemory(b) => Some(Digested(sha(e.salt + b), |b|))
    case Hashed(d, n) => Some(Digested(d, n))
    case Unavailable => None
    case File(source) =>
      if source.None? then None else
      match Streamed(source.value, [], e.size)
      case None => None
      case Some(v) => Some(Digested(sha(e.salt + v), |v| % WORD))
  }

  datatype Verdict = ByContent | ByDigest | Mismatched | Unresolved

  function VerdictOn(e: Entry, inputs: Inputs, sha: Hash): Verdict {
    match Lookup(inputs.content, e.key)
    case None => if Required(inputs.require, e.key) then Unresolved else ByDigest
    case Some(c) =>
      match Got(e, c, sha)
      case None => Unresolved
      case Some(g) => if g.size == e.size && g.digest == e.digest then ByContent else Mismatched
  }

  method JudgeEntry(e: Entry, inputs: Inputs, sha: Hash) returns (v: Verdict)
    ensures v == VerdictOn(e, inputs, sha)
  {
    var got: Option<Digested>;
    match Lookup(inputs.content, e.key) {
      case None => return if Required(inputs.require, e.key) then Unresolved else ByDigest;
      case Some(Unavailable) => return Unresolved;
      case Some(InMemory(b)) => got := Some(Digested(sha(e.salt + b), |b|));
      case Some(Hashed(d, n)) => got := Some(Digested(d, n));
      case Some(File(None)) => got := None;
      case Some(File(Some(source))) => got := EntryDigestReader(e.salt, source, e.size, sha);
    }
    match got {
      case None => v := Unresolved;
      case Some(g) =>
        if g.size > e.size { v := Mismatched; }
        else if g.size != e.size { v := Mismatched; }
        else if g.digest != e.digest { v := Mismatched; }
        else { v := ByContent; }
    }
  }

  // --- the verdicts, case by case ---

  /** Without content an entry counts by its digest, unless its key's content is required;
      then it is unresolved. With content it never counts by digest. */
  lemma DigestOnly(e: Entry, inputs: Inputs, sha: Hash)
    ensures var named := exists i :: 0 <= i < |inputs.content| && inputs.content[i].key == e.key;
            var required := inputs.require.All? || (inputs.require.Keys? && e.key in inputs.require.keys);
            && (VerdictOn(e, inputs, sha) == ByDigest <==> !named && !required)
            && (!named && required ==> VerdictOn(e, inputs, sha) == Unresolved)
  {
    hide Got;
  }

  /** Content that cannot be had leaves the entry unresolved, whatever is required; a digest
      the caller computed is compared like content. */
  lemma ContentOnly(e: Entry, inputs: Inputs, sha: Hash, c: Content)
    requires Lookup(inputs.content, e.key) == Some(c)
    ensures c == Unavailable || c == File(None) ==> VerdictOn(e, inputs, sha) == Unresolved
    ensures c.InMemory? ==>
              VerdictOn(e, inputs, sha) == if |c.bytes| == e.size && sha(e.salt + c.bytes) == e.digest then ByContent else Mismatched
    ensures c.Hashed? ==>
              VerdictOn(e, inputs, sha) == if c.size == e.size && c.digest == e.digest then ByContent else Mismatched
    ensures c.File? && c.source.Some? && |AllBytes(c.source.value)| < WORD ==>
              (VerdictOn(e, inputs, sha) == Unresolved <==> FailsWithin(c.source.value, e.size))
  {
    if c.File? && c.source.Some? && |AllBytes(c.source.value)| < WORD { StreamedFails(c.source.value, [], e.size); }
  }

  /** The content looked at is the first listed for the key; a checked presentation lists no other. */
  lemma ContentIsListed(es: seq<Entry>, inputs: Inputs, i: nat)
    requires ContentFits(inputs.content, es) && i < |inputs.content|
    ensures Lookup(inputs.content, inputs.content[i].key) == Some(inputs.content[i].content)
  {
  }

  /** How many entries get a verdict. */
  function Tally(es: seq<Entry>, inputs: Inputs, sha: Hash, v: Verdict): (n: nat)
    ensures n <= |es|
    ensures n == 0 <==> forall i :: 0 <= i < |es| ==> VerdictOn(es[i], inputs, sha) != v
    ensures n == |es| <==> forall i :: 0 <= i < |es| ==> VerdictOn(es[i], inputs, sha) == v
  {
    if es == [] then 0
    else var k := |es| - 1; Tally(es[..k], inputs, sha, v) + if VerdictOn(es[k], inputs, sha) == v then 1 else 0
  }

  lemma TallyStep(es: seq<Entry>, i: nat, inputs: Inputs, sha: Hash)
    requires i < |es|
    ensures forall v :: Tally(es[..i + 1], inputs, sha, v)
                        == Tally(es[..i], inputs, sha, v) + (if VerdictOn(es[i], inputs, sha) == v then 1 else 0)
  {
    assert es[..i + 1][..i] == es[..i];
  }

  lemma {:induction false} TalliesCover(es: seq<Entry>, inputs: Inputs, sha: Hash)
    ensures Tally(es, inputs, sha, ByContent) + Tally(es, inputs, sha, ByDigest)
         + Tally(es, inputs, sha, Mismatched) + Tally(es, inputs, sha, Unresolved) == |es|
  {
    if es != [] { TalliesCover(es[..|es| - 1], inputs, sha); }
  }

  // --- the check ---

  datatype Outcome =
    | Verified
    | NotChecked
    | StageMissing
    | ContentMismatch
    | ManifestInvalid
    | ManifestMismatch
    | ContentUnresolved

  predicate Lists(es: seq<Entry>, key: seq<Byte>) {
    exists i :: 0 <= i < |es| && es[i].key == key
  }

  /** Content is supplied once per key, for keys the manifest lists. */
  ghost predicate ContentFits(content: seq<Supplied>, es: seq<Entry>) {
    && (forall i :: 0 <= i < |content| ==> Lists(es, content[i].key))
    && (forall i, j :: 0 <= i < j < |content| ==> content[i].key != content[j].key)
  }

  /** Every key whose content is required is committed. */
  ghost predicate RequiredCommitted(require: RequireContent, es: seq<Entry>) {
    require.Keys? ==> forall k :: k in require.keys ==> Lists(es, k)
  }

  /** Everything is in order except, perhaps, the content itself. */
  ghost predicate ManifestHolds(proof: Proof, inputs: Inputs, sha: Hash) {
    && proof.stage.Some? && inputs.manifest.Manifest?
    && var es := inputs.manifest.entries;
    && IsValid(es) && ContentFits(inputs.content, es) && FieldAgrees(proof.field19, es)
    && sha(PreimageBytes(es)) == proof.stage.value
    && RequiredCommitted(inputs.require, es)
  }

  ghost predicate SomeEntry(inputs: Inputs, sha: Hash, v: Verdict)
    requires inputs.manifest.Manifest?
  {
    var es := inputs.manifest.entries;
    exists i :: 0 <= i < |es| && VerdictOn(es[i], inputs, sha) == v
  }

  ghost predicate ManifestUnusable(inputs: Inputs) {
    || inputs.manifest.Unparsed?
    || (inputs.manifest.Manifest?
        && (!IsValid(inputs.manifest.entries) || !ContentFits(inputs.content, inputs.manifest.entries)))
  }

  /** The condition of each outcome. */
  ghost predicate Deserves(proof: Proof, inputs: Inputs, sha: Hash, o: Outcome) {
    match o
    case Verified =>
      ManifestHolds(proof, inputs, sha) && !SomeEntry(inputs, sha, Mismatched) && !SomeEntry(inputs, sha, Unresolved)
    case ContentUnresolved =>
      || (ManifestHolds(proof, inputs, sha)
          && !SomeEntry(inputs, sha, Mismatched) && SomeEntry(inputs, sha, Unresolved))
      || (proof.stage.Some? && inputs.manifest.NoManifest? && (inputs.content != [] || inputs.require != Nothing))
    case StageMissing => proof.stage.None? && (inputs.requireStage || inputs.require != Nothing)
    case NotChecked =>
      && inputs.manifest.NoManifest? && inputs.content == [] && inputs.require == Nothing
      && (proof.stage.None? ==> !inputs.requireStage)
    case ManifestInvalid => proof.stage.Some? && ManifestUnusable(inputs)
    case ManifestMismatch =>
      && proof.stage.Some? && inputs.manifest.Manifest? && !ManifestUnusable(inputs)
      && !FieldAgrees(proof.field19, inputs.manifest.entries)
    case ContentMismatch =>
      || (ManifestHolds(proof, inputs, sha) && SomeEntry(inputs, sha, Mismatched))
      || (&& proof.stage.None? && !inputs.requireStage && inputs.require == Nothing
          && (!inputs.manifest.NoManifest? || inputs.content != []))
      || (&& proof.stage.Some? && inputs.manifest.Manifest? && !ManifestUnusable(inputs)
          && FieldAgrees(proof.field19, inputs.manifest.entries)
          && !ManifestHolds(proof, inputs, sha))
  }

  method CheckContentKeys(content: seq<Supplied>, es: seq<Entry>) returns (ok: bool)
    ensures ok <==> ContentFits(content, es)
  {
    for i := 0 to |content|
      invariant forall j :: 0 <= j < i ==> Lists(es, content[j].key)
      invariant forall j, k :: 0 <= j < k < i ==> content[j].key != content[k].key
    {
      if !Lists(es, content[i].key) { return false; }
      if exists j :: 0 <= j < i && content[j].key == content[i].key { return false; }
    }
    return true;
  }

  method JudgeEntries(es: seq<Entry>, inputs: Inputs, sha: Hash)
    returns (byContent: nat, byDigest: nat, mismatched: nat, unresolved: nat)
    ensures byContent == Tally(es, inputs, sha, ByContent) && byDigest == Tally(es, inputs, sha, ByDigest)
    ensures mismatched == Tally(es, inputs, sha, Mismatched) && unresolved == Tally(es, inputs, sha, Unresolved)
  {
    assert forall v :: Tally(es[..0], inputs, sha, v) == 0;
    hide VerdictOn, Tally;
    byContent, byDigest, mismatched, unresolved := 0, 0, 0, 0;
    for i := 0 to |es|
      invariant byContent == Tally(es[..i], inputs, sha, ByContent)
      invariant byDigest == Tally(es[..i], inputs, sha, ByDigest)
      invariant mismatched == Tally(es[..i], inputs, sha, Mismatched)
      invariant unresolved == Tally(es[..i], inputs, sha, Unresolved)
    {
      TallyStep(es, i, inputs, sha);
      var v := JudgeEntry(es[i], inputs, sha);
      match v {
        case ByContent => byContent := byContent + 1;
        case ByDigest => byDigest := byDigest + 1;
        case Mismatched => mismatched := mismatched + 1;
        case Unresolved => unresolved := unresolved + 1;
      }
    }
    assert es[..|es|] == es;
  }

  /** The typed outcome and the two counts; the worst state wins. */
  method CheckCallerMetadata(proof: Proof, inputs: Inputs, sha: Hash)
    returns (outcome: Outcome, byContent: nat, byDigest: nat)
    ensures forall o :: o == outcome <==> Deserves(proof, inputs, sha, o)
    ensures ManifestHolds(proof, inputs, sha) && inputs.content == [] && inputs.require == Nothing ==>
      outcome == Verified && byContent == 0 && byDigest == |inputs.manifest.entries|
    ensures proof.stage.None? ==>
      outcome == if inputs.requireStage || inputs.require != Nothing then StageMissing
                 else if inputs.manifest.NoManifest? && inputs.content == [] then NotChecked
                 else ContentMismatch
    ensures proof.stage.Some? && inputs.manifest.NoManifest? ==>
      outcome == if inputs.content == [] && inputs.require == Nothing then NotChecked else ContentUnresolved
    ensures proof.stage.Some? && inputs.manifest.Unparsed? ==> outcome == ManifestInvalid
    ensures proof.stage.Some? && inputs.manifest.Manifest? ==>
      outcome == if ManifestUnusable(inputs) then ManifestInvalid
                 else if !FieldAgrees(proof.field19, inputs.manifest.entries) then ManifestMismatch
                 else if !ManifestHolds(proof, inputs, sha) then ContentMismatch
                 else if SomeEntry(inputs, sha, Mismatched) then ContentMismatch
                 else if SomeEntry(inputs, sha, Unresolved) then ContentUnresolved
                 else Verified
    ensures outcome.Verified? ==>
      inputs.manifest.Manifest? && byContent + byDigest == |inputs.manifest.entries|
    ensures byContent + byDigest > 0 ==> ManifestHolds(proof, inputs, sha)
    ensures ManifestHolds(proof, inputs, sha) ==>
      && byContent == Tally(inputs.manifest.entries, inputs, sha, ByContent)
      && byDigest == Tally(inputs.manifest.entries, inputs, sha, ByDigest)
  {
    hide Deserves, Tally;
    byContent, byDigest := 0, 0;
    if proof.stage.None? || inputs.manifest.NoManifest? {
      outcome := OutcomeWithout(proof, inputs, sha);
      return;
    }
    if inputs.manifest.Unparsed? {
      outcome := ManifestInvalid;
      UnparsedIsInvalid(proof, inputs, sha);
      return;
    }
    outcome, byContent, byDigest := CheckAgainstStage(proof, inputs, sha);
    WorstFirst(proof, inputs, sha, outcome);
    if inputs.content == [] && inputs.require == Nothing { NothingPresented(proof, inputs, sha); }
  }

  /** The default presentation, a manifest alone, is verified by digest throughout. */
  lemma NothingPresented(proof: Proof, inputs: Inputs, sha: Hash)
    requires inputs.manifest.Manifest? && inputs.content == [] && inputs.require == Nothing
    ensures ManifestHolds(proof, inputs, sha) ==> Deserves(proof, inputs, sha, Verified)
    ensures Tally(inputs.manifest.entries, inputs, sha, ByContent) == 0
    ensures Tally(inputs.manifest.entries, inputs, sha, ByDigest) == |inputs.manifest.entries|
  {
    hide VerdictOn, Tally, ManifestHolds;
    forall i | 0 <= i < |inputs.manifest.entries|
      ensures VerdictOn(inputs.manifest.entries[i], inputs, sha) == ByDigest
    {
      DigestOnly(inputs.manifest.entries[i], inputs, sha);
    }
  }

  /** The outcomes in the order in which they win. */
  lemma WorstFirst(proof: Proof, inputs: Inputs, sha: Hash, o: Outcome)
    requires proof.stage.Some? && inputs.manifest.Manifest? && Deserves(proof, inputs, sha, o)
    ensures o == if ManifestUnusable(inputs) then ManifestInvalid
                 else if !FieldAgrees(proof.field19, inputs.manifest.entries) then ManifestMismatch
                 else if !ManifestHolds(proof, inputs, sha) then ContentMismatch
                 else if SomeEntry(inputs, sha, Mismatched) then ContentMismatch
                 else if SomeEntry(inputs, sha, Unresolved) then ContentUnresolved
                 else Verified
  {
    hide IsValid, ContentFits, FieldAgrees, VerdictOn, PreimageBytes, RequiredCommitted, SomeEntry;
  }

  lemma UnparsedIsInvalid(proof: Proof, inputs: Inputs, sha: Hash)
    requires proof.stage.Some? && inputs.manifest.Unparsed?
    ensures forall o :: o == ManifestInvalid <==> Deserves(proof, inputs, sha, o)
  {
  }

  /** Without the stage or without a manifest nothing is hashed. */
  method OutcomeWithout(proof: Proof, inputs: Inputs, sha: Hash) returns (outcome: Outcome)
    requires proof.stage.None? || inputs.manifest.NoManifest?
    ensures forall o :: o == outcome <==> Deserves(proof, inputs, sha, o)
    ensures proof.stage.None? ==>
      outcome == if inputs.requireStage || inputs.require != Nothing then StageMissing
                 else if inputs.manifest.NoManifest? && inputs.content == [] then NotChecked
                 else ContentMismatch
    ensures proof.stage.Some? ==>
      outcome == if inputs.content == [] && inputs.require == Nothing then NotChecked else ContentUnresolved
  {
    if proof.stage.None? {
      return if inputs.requireStage || inputs.require != Nothing then StageMissing
        else if !inputs.manifest.NoManifest? || inputs.content != [] then ContentMismatch
        else NotChecked;
    }
    return if inputs.content != [] then ContentUnresolved
      else if inputs.require != Nothing then ContentUnresolved
      else NotChecked;
  }

  /** The manifest against the stage, then each entry's content. */
  method CheckAgainstStage(proof: Proof, inputs: Inputs, sha: Hash)
    returns (outcome: Outcome, byContent: nat, byDigest: nat)
    requires proof.stage.Some? && inputs.manifest.Manifest?
    ensures forall o :: o == outcome <==> Deserves(proof, inputs, sha, o)
    ensures outcome.Verified? ==> byContent + byDigest == |inputs.manifest.entries|
    ensures byContent + byDigest > 0 ==> ManifestHolds(proof, inputs, sha)
    ensures ManifestHolds(proof, inputs, sha) ==>
      && byContent == Tally(inputs.manifest.entries, inputs, sha, ByContent)
      && byDigest == Tally(inputs.manifest.entries, inputs, sha, ByDigest)
  {
    hide IsValid, ContentFits, FieldAgrees, VerdictOn, PreimageBytes, RequiredCommitted, Tally;
    byContent, byDigest := 0, 0;
    var es := inputs.manifest.entries;
    var m := BuildPreimage(es);
    if !m.Preimage? { outcome := ManifestInvalid; return; }
    var fits := CheckContentKeys(inputs.content, es);
    if !fits { outcome := ManifestInvalid; return; }
    var agrees := CompareField(proof.field19, es);
    if !agrees { outcome := ManifestMismatch; return; }
    if sha(m.bytes) != proof.stage.value { outcome := ContentMismatch; return; }
    var committed := CheckRequired(inputs.require, es);
    if !committed { outcome := ContentMismatch; return; }
    var mismatched, unresolved;
    byContent, byDigest, mismatched, unresolved := JudgeEntries(es, inputs, sha);
    TalliesCover(es, inputs, sha);
    outcome := if mismatched > 0 then ContentMismatch else if unresolved > 0 then ContentUnresolved else Verified;
  }

  method CompareField(field19: Option<seq<FieldEntry>>, es: seq<Entry>) returns (agrees: bool)
    ensures agrees <==> FieldAgrees(field19, es)
  {
    if field19.None? { return true; }
    var own := ManifestFromProof(field19.value);
    return own.Some? && FirstDifference(es, own.value).None?;
  }

  method CheckRequired(require: RequireContent, es: seq<Entry>) returns (committed: bool)
    ensures committed <==> RequiredCommitted(require, es)
  {
    if require.Keys? {
      for i := 0 to |require.keys|
        invariant forall j :: 0 <= j < i ==> Lists(es, require.keys[j])
      {
        if !Lists(es, require.keys[i]) { return false; }
      }
    }
    return true;
  }

  // --- field 19 against the stage ---

  datatype FieldOutcome = Absent | FieldInvalid | FieldMismatch | Listed

  /** Field 19 passes: valid, hashing to the stage, and agreeing with the presenter. */
  ghost predicate FieldLists(proof: Proof, presenter: Option<seq<Entry>>, sha: Hash) {
    && proof.field19.Some? && proof.stage.Some? && ManifestFromProof(proof.field19.value).Some?
    && var own := ManifestFromProof(proof.field19.value).value;
    && IsValid(own) && sha(PreimageBytes(own)) == proof.stage.value
    && (presenter.Some? ==> SameEntries(presenter.value, own))
  }

  method CheckCallerManifest(proof: Proof, presenter: Option<seq<Entry>>, sha: Hash) returns (outcome: FieldOutcome)
    ensures outcome.Listed? <==> FieldLists(proof, presenter, sha)
    ensures outcome.Absent? <==> proof.field19.None?
    ensures outcome.FieldInvalid? <==>
      && proof.field19.Some?
      && (ManifestFromProof(proof.field19.value).None? || !IsValid(ManifestFromProof(proof.field19.value).value))
  {
    hide IsValid, PreimageBytes;
    if proof.field19.None? { return Absent; }
    var own := ManifestFromProof(proof.field19.value);
    if own.None? { return FieldInvalid; }
    var m := BuildPreimage(own.value);
    if !m.Preimage? { return FieldInvalid; }
    if proof.stage.None? { return FieldMismatch; }
    if proof.stage.value != sha(m.bytes) { return FieldMismatch; }
    if presenter.Some? && FirstDifference(presenter.value, own.value).Some? { return FieldMismatch; }
    return Listed;
  }

  /** The limits read nothing of a salt but its length, so dropping the salts keeps a manifest valid. */
  lemma UnsaltedIsValid(es: seq<Entry>, own: seq<Entry>)
    requires IsValid(es) && SameEntries(es, own) && forall i :: 0 <= i < |own| ==> own[i].salt == []
    ensures IsValid(own)
  {
    forall i | 0 <= i < |own|
      ensures EntryOk(own[i])
    {
      assert EntryOk(es[i]) && SameCommitted(es[i], own[i]);
    }
    forall i, j | 0 <= i < j < |own|
      ensures own[i].key != own[j].key
    {
      assert SameCommitted(es[i], own[i]) && SameCommitted(es[j], own[j]);
    }
  }

  /** The two checks agree: a verified presentation of a proof with field 19 makes its line pass. */
  lemma VerifiedIsListed(proof: Proof, inputs: Inputs, sha: Hash)
    requires Deserves(proof, inputs, sha, Verified) && proof.field19.Some?
    ensures FieldLists(proof, Some(inputs.manifest.entries), sha)
  {
    var es, own := inputs.manifest.entries, ManifestFromProof(proof.field19.value).value;
    UnsaltedIsValid(es, own);
    SameEntriesSameBytes(es, own);
  }

  /** Conversely, once field 19 passes, only a manifest of another stage can disagree with it. */
  lemma ListedNeverMismatches(proof: Proof, inputs: Inputs, sha: Hash)
    requires FieldLists(proof, None, sha) && inputs.manifest.Manifest? && IsValid(inputs.manifest.entries)
    requires sha(PreimageBytes(inputs.manifest.entries)) == proof.stage.value
    ensures || !Deserves(proof, inputs, sha, ManifestMismatch)
            || Collision(sha, PreimageBytes(inputs.manifest.entries),
                         PreimageBytes(ManifestFromProof(proof.field19.value).value))
  {
    var es, own := inputs.manifest.entries, ManifestFromProof(proof.field19.value).value;
    if PreimageBytes(es) == PreimageBytes(own) { PreimageDetermines(es, own); }
  }

  // --- what a verified presentation pins down ---

  /** A file system's files have fewer than 2^64 bytes. */
  ghost predicate FileFits(c: Content) {
    c.File? && c.source.Some? && StreamValue(c.source.value).Some? ==> |StreamValue(c.source.value).value| < WORD
  }

  /** The bytes of a value supplied in memory or in a file that can be read to its end. */
  ghost function ValueOf(c: Content): Option<seq<Byte>> {
    match c
    case InMemory(b) => Some(b)
    case File(source) => if source.None? then None else StreamValue(source.value)
    case _ => None
  }

  /** The verdict on a value does not depend on how it was delivered. */
  lemma DeliveryIsIrrelevant(e: Entry, v: seq<Byte>, c: Content, inputs: Inputs, other: Inputs, sha: Hash)
    requires Lookup(inputs.content, e.key) == Some(InMemory(v)) && |v| < WORD
    requires Lookup(other.content, e.key) == Some(c)
    requires ValueOf(c) == Some(v) || c == Hashed(sha(e.salt + v), |v|)
    ensures VerdictOn(e, inputs, sha) == VerdictOn(e, other, sha)
  {
    if c.File? {
      StreamedIsValue(c.source.value, [], e.size);
      assert [] + v == v;
      var w := Streamed(c.source.value, [], e.size).value;
      assert w <= v;
    }
  }

  /** A matched entry's value is as long as the manifest says and has the entry's digest. */
  lemma MatchedValue(e: Entry, inputs: Inputs, sha: Hash, v: seq<Byte>)
    requires Lookup(inputs.content, e.key).Some? && ValueOf(Lookup(inputs.content, e.key).value) == Some(v)
    requires FileFits(Lookup(inputs.content, e.key).value)
    ensures VerdictOn(e, inputs, sha) == ByContent <==> |v| == e.size && sha(e.salt + v) == e.digest
    ensures VerdictOn(e, inputs, sha) in {ByContent, Mismatched}
  {
    var c := Lookup(inputs.content, e.key).value;
    if c.File? {
      StreamedIsValue(c.source.value, [], e.size);
      assert [] + v == v;
      var w := Streamed(c.source.value, [], e.size).value;
      assert w <= v;
    }
  }

  /** When all content is required, a verified presentation showed all of it. */
  lemma AllIsAll(proof: Proof, inputs: Inputs, sha: Hash)
    requires Deserves(proof, inputs, sha, Verified) && inputs.require == All
    ensures Tally(inputs.manifest.entries, inputs, sha, ByContent) == |inputs.manifest.entries|
  {
    forall i | 0 <= i < |inputs.manifest.entries|
      ensures VerdictOn(inputs.manifest.entries[i], inputs, sha) == ByContent
    {
      RequiredIsSeen(proof, inputs, sha, i);
    }
  }

  /** Every required key of a verified presentation was matched by its content. */
  lemma RequiredIsSeen(proof: Proof, inputs: Inputs, sha: Hash, i: nat)
    requires Deserves(proof, inputs, sha, Verified) && i < |inputs.manifest.entries|
    requires Required(inputs.require, inputs.manifest.entries[i].key)
    ensures VerdictOn(inputs.manifest.entries[i], inputs, sha) == ByContent
    ensures Lookup(inputs.content, inputs.manifest.entries[i].key).Some?
  {
    assert VerdictOn(inputs.manifest.entries[i], inputs, sha) !in {Mismatched, Unresolved};
  }

  /** Two verified presentations against one stage hash list the same entries in the same order. */
  lemma SameStageSameEntries(p: Proof, q: Proof, a: Inputs, b: Inputs, sha: Hash)
    requires Deserves(p, a, sha, Verified) && Deserves(q, b, sha, Verified) && p.stage == q.stage
    ensures || SameEntries(a.manifest.entries, b.manifest.entries)
            || Collision(sha, PreimageBytes(a.manifest.entries), PreimageBytes(b.manifest.entries))
  {
    var x, y := a.manifest.entries, b.manifest.entries;
    if PreimageBytes(x) == PreimageBytes(y) { PreimageDetermines(x, y); }
  }

  /** And content both supply for one entry is the same, salt and value: no byte
      can move from one to the other, since both values have the signed length. */
  lemma SameStageSameContent(p: Proof, q: Proof, a: Inputs, b: Inputs, sha: Hash, i: nat, v: seq<Byte>, w: seq<Byte>)
    requires Deserves(p, a, sha, Verified) && Deserves(q, b, sha, Verified) && p.stage == q.stage
    requires SameEntries(a.manifest.entries, b.manifest.entries) && i < |a.manifest.entries|
    requires var c := Lookup(a.content, a.manifest.entries[i].key); c.Some? && FileFits(c.value) && ValueOf(c.value) == Some(v)
    requires var c := Lookup(b.content, b.manifest.entries[i].key); c.Some? && FileFits(c.value) && ValueOf(c.value) == Some(w)
    ensures || (a.manifest.entries[i].salt == b.manifest.entries[i].salt && v == w)
            || Collision(sha, a.manifest.entries[i].salt + v, b.manifest.entries[i].salt + w)
  {
    hide VerdictOn, Lookup, ValueOf, FileFits;
    var e, f := a.manifest.entries[i], b.manifest.entries[i];
    assert SameCommitted(e, f);
    MatchedValue(e, a, sha, v);
    MatchedValue(f, b, sha, w);
    if e.salt + v == f.salt + w { SplitEqualRight(e.salt, v, f.salt, w); }
  }
}
