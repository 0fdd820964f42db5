/** Semantic-field binding (src/verify.rs): the three preimage versions, the check
    that picks one, and what a passing report pins down. */
module SemanticBinding {
  import opened Bytes
  import opened Entries
  import opened Options
  import opened StageChain
  import CellSets
  import Slices
  import VoxelChecks
  import VoxelSets

  /** The bits of an IEEE-754 double, as hashed. */
  type F64 = U64

  datatype Region =
    | NoRegion
    | Earth(maxAltitude: F64)
    | Country(iso: seq<Byte>)
    | City(name: seq<Byte>, lat: F64, lon: F64, radius: F64)
    | Ellipse(center: Option<(F64, F64)>, major: F64, minor: F64, heading: F64)
    | H3Set(cells: seq<U64>)
    | BoundingBox(sides: seq<F64>)
    | Subdivision(code: seq<Byte>)
    | CellSet(ids: seq<U64>)
    | VoxelSet(voxels: seq<Voxel>)

  datatype Query = Query(kind: U32, id: seq<Byte>)

  /** The parts of a `LocationProof` the binding reads. Enums are wire values. */
  datatype Proof = Proof(
    spoofing: I32, level: I32, integrity: Option<I32>, region: Region, commitment: seq<Byte>,
    location: I32, query: Option<Query>, stages: seq<Stage>)

  // --- region references ---

  /** Cell ids in ascending unsigned order. */
  function SortedIds(xs: seq<U64>): seq<U64> {
    Slices.Sorted(xs, (x: U64, y: U64) => x <= y)
  }

  function EllipseDigest(r: Region, sha: Hash): seq<Byte>
    requires r.Ellipse?
  {
    var c := match r.center case None => (0, 0) case Some(c) => c;
    sha(U64s([c.0, c.1, r.major, r.minor, r.heading]))
  }

  /** A region's oneof tag and its id bytes. */
  datatype RegionRef = RegionRef(tag: U32, id: seq<Byte>)

  /** Version 1: the identity of a named region, a digest of a geometric one. */
  function RefV1(r: Region, sha: Hash): RegionRef {
    match r
    case NoRegion => RegionRef(0, [])
    case Earth(_) => RegionRef(1, [])
    case Country(iso) => RegionRef(2, iso)
    case City(name, _, _, _) => RegionRef(3, name)
    case Ellipse(_, _, _, _) => RegionRef(4, EllipseDigest(r, sha))
    case H3Set(cells) => RegionRef(5, sha(U64s(SortedIds(cells))))
    case BoundingBox(sides) => RegionRef(6, sha(U64s(sides)))
    case Subdivision(code) => RegionRef(7, code)
    case CellSet(ids) => RegionRef(8, sha(CellSets.Message(ids)))
    case VoxelSet(vs) => RegionRef(9, sha(VoxelChecks.Message(vs)))
  }

  /** The bytes of a city's version 2 digest: the length-prefixed name, then the geometry. */
  function CityMessage(r: Region): seq<Byte>
    requires r.City?
  {
    U32be(Count32(|r.name|)) + r.name + U64be(r.lat) + U64be(r.lon) + U64be(r.radius)
  }

  /** Versions 2 and 3: the same, with city and earth geometry folded in. */
  function RefV2(r: Region, sha: Hash): RegionRef {
    match r
    case City(_, _, _, _) => RegionRef(3, sha(CityMessage(r)))
    case Earth(alt) => RegionRef(1, U64be(alt))
    case _ => RefV1(r, sha)
  }

  // --- the preimages ---

  datatype Version = V1 | V2 | V3

  const DOMAIN_V1: seq<Byte> := Ascii("octet-semantic-binding-v1")
  const DOMAIN_V2: seq<Byte> := Ascii("octet-semantic-binding-v2")
  const DOMAIN_V3: seq<Byte> := Ascii("octet-semantic-binding-v3")

  function Domain(v: Version): (d: seq<Byte>)
    ensures |d| == 25
  {
    match v case V1 => DOMAIN_V1 case V2 => DOMAIN_V2 case V3 => DOMAIN_V3
  }

  function Ref(v: Version, p: Proof, sha: Hash): RegionRef {
    if v.V1? then RefV1(p.region, sha) else RefV2(p.region, sha)
  }

  function Integrity(p: Proof): I32 {
    match p.integrity case None => 0 case Some(s) => s
  }

  /** Spoofing verdict to commitment: what every version signs. */
  function Common(p: Proof, r: RegionRef): seq<Byte> {
    I32be(p.spoofing) + I32be(p.level) + I32be(Integrity(p)) + U32be(r.tag) + Prefixed(r.id) + Prefixed(p.commitment)
  }

  /** An absent query is signed as type 0 with an empty id. */
  function QueryRef(p: Proof): Query {
    match p.query case None => Query(0, []) case Some(q) => q
  }

  function Preimage(v: Version, p: Proof, sha: Hash): seq<Byte> {
    var head := Domain(v) + Common(p, Ref(v, p, sha));
    match v
    case V1 => head
    case V2 => head + I32be(p.location)
    case V3 => head + I32be(p.location) + (U32be(QueryRef(p).kind) + Prefixed(QueryRef(p).id))
  }

  // --- the report ---

  datatype Status = Pass | Fail | Warn | NotChecked

  datatype CheckName = SemanticBindingCheck | QueryRegionCheck

  datatype Check = Check(name: CheckName, status: Status)

  datatype Verdict = Inside | Outside | Indeterminate

  function SignedVerdict(v: I32): Option<Verdict> {
    if v == 1 then Some(Inside) else if v == 2 then Some(Outside) else if v == 3 then Some(Indeterminate) else None
  }

  const DASH: Byte := 45

  /** Does a present query's id have the shape its type implies? */
  predicate QueryShapeOk(q: Query) {
    match q.kind
    case 1 => |q.id| == 8
    case 2 => |q.id| == 2
    case 4 => |q.id| == 32
    case 5 => |q.id| == 32
    case 6 => |q.id| == 32
    case 8 => |q.id| == 32
    case 9 => |q.id| == 32
    case 7 => q.id != [] && (forall i :: 0 <= i < |q.id| ==> q.id[i] < 128) && DASH in q.id
    case _ => false
  }

  /** Under version 1 a city's and an earth region's geometry is not signed. */
  predicate GeometryBoundV1(p: Proof) {
    !p.region.Earth? && !p.region.City?
  }

  /** `semanticFields` */
  const STAGE_NAME: seq<Byte> := Ascii("semanticFields")

  /** The first stage of that name. */
  function StageByName(stages: seq<Stage>, name: seq<Byte>): (st: Option<Stage>)
    ensures st.None? <==> forall i :: 0 <= i < |stages| ==> stages[i].name != name
    ensures st.Some? ==> st.value.name == name && exists i ::
              0 <= i < |stages| && stages[i] == st.value && forall j :: 0 <= j < i ==> stages[j].name != name
  {
    if stages == [] then None
    else if stages[0].name == name then assert stages[0] == Some(stages[0]).value; Some(stages[0])
    else
      var st := StageByName(stages[1..], name);
      assert forall i :: 0 < i < |stages| ==> stages[i] == stages[1..][i - 1];
      assert forall i :: 0 <= i < |stages| - 1 ==> stages[1..][i] == stages[i + 1];
      st
  }

  predicate Matches(v: Version, p: Proof, sha: Hash) {
    var st := StageByName(p.stages, STAGE_NAME);
    st.Some? && sha(Preimage(v, p, sha)) == st.value.dataHash
  }

  /** The newest version whose preimage recomputes the stage, if any. */
  function MatchedVersion(p: Proof, sha: Hash): Option<Version> {
    if Matches(V3, p, sha) then Some(V3)
    else if Matches(V2, p, sha) then Some(V2)
    else if Matches(V1, p, sha) then Some(V1)
    else None
  }

  /** What the binding adds to a report. */
  datatype Outcome = Outcome(checks: seq<Check>, location: Option<Verdict>, query: Option<Query>)

  function Only(status: Status): Outcome {
    Outcome([Check(SemanticBindingCheck, status)], None, None)
  }

  /** The version 3 query rules, on top of a passing binding. */
  function QueryOutcome(p: Proof): Outcome {
    var location := SignedVerdict(p.location);
    var bound := Check(SemanticBindingCheck, Pass);
    match p.query
    case None => Outcome([bound, Check(QueryRegionCheck, Pass)], location, None)
    case Some(q) =>
      if !QueryShapeOk(q) || location.None? then Outcome([bound, Check(QueryRegionCheck, Fail)], location, None)
      else Outcome([bound, Check(QueryRegionCheck, Pass)], location, Some(q))
  }

  function BindingOutcome(p: Proof, requireV2: bool, sha: Hash): Outcome {
    if StageByName(p.stages, STAGE_NAME).None? then Only(if requireV2 then Fail else NotChecked)
    else
      match MatchedVersion(p, sha)
      case None => Only(Fail)
      case Some(v) =>
        if v.V3? then QueryOutcome(p)
        else if p.query.Some? then Only(Fail)
        else if v.V2? then Outcome([Check(SemanticBindingCheck, Pass)], SignedVerdict(p.location), None)
        else Only(if GeometryBoundV1(p) then Pass else Warn)
  }

  class Report {
    var checks: seq<Check>
    var locationVerdict: Option<Verdict>
    var queryRegion: Option<Query>

    constructor ()
      ensures checks == [] && locationVerdict == None && queryRegion == None
    {
      checks, locationVerdict, queryRegion := [], None, None;
    }

    method Add(name: CheckName, status: Status)
      modifies this`checks
      ensures checks == old(checks) + [Check(name, status)]
    {
      checks := checks + [Check(name, status)];
    }

    /** The checks and the exposed query that version 3 adds to a passing binding. */
    method AddQueryRegionV3(p: Proof)
      modifies this`checks, this`queryRegion
      requires locationVerdict == SignedVerdict(p.location)
      ensures checks == old(checks) + QueryOutcome(p).checks[1..]
      ensures queryRegion == if QueryOutcome(p).query.Some? then QueryOutcome(p).query else old(queryRegion)
    {
      match p.query {
        case None => Add(QueryRegionCheck, Pass);
        case Some(q) =>
          if !QueryShapeOk(q) {
            Add(QueryRegionCheck, Fail);
          } else if locationVerdict.None? {
            Add(QueryRegionCheck, Fail);
          } else {
            queryRegion := Some(q);
            Add(QueryRegionCheck, Pass);
          }
      }
    }

    /** Re-derive each version's preimage, newest first, and record what matched. */
    method AddSemanticBinding(p: Proof, requireV2: bool, sha: Hash)
      requires locationVerdict == None && queryRegion == None
      modifies this
      ensures checks == old(checks) + BindingOutcome(p, requireV2, sha).checks
      ensures locationVerdict == BindingOutcome(p, requireV2, sha).location
      ensures queryRegion == BindingOutcome(p, requireV2, sha).query
    {
      hide Preimage;
      var st := StageByName(p.stages, STAGE_NAME);
      if st.None? {
        Add(SemanticBindingCheck, if requireV2 then Fail else NotChecked);
      } else if sha(Preimage(V3, p, sha)) == st.value.dataHash {
        locationVerdict := SignedVerdict(p.location);
        Add(SemanticBindingCheck, Pass);
        AddQueryRegionV3(p);
      } else if sha(Preimage(V2, p, sha)) == st.value.dataHash {
        if p.query.Some? {
          Add(SemanticBindingCheck, Fail);
        } else {
          locationVerdict := SignedVerdict(p.location);
          Add(SemanticBindingCheck, Pass);
        }
      } else if sha(Preimage(V1, p, sha)) == st.value.dataHash {
        if p.query.Some? {
          Add(SemanticBindingCheck, Fail);
        } else if GeometryBoundV1(p) {
          Add(SemanticBindingCheck, Pass);
        } else {
          Add(SemanticBindingCheck, Warn);
        }
      } else {
        Add(SemanticBindingCheck, Fail);
      }
    }
  }

  // --- one preimage, one reading ---

  /** Field sizes below the 32-bit length prefix; a protobuf message is at most 2 GiB. */
  ghost predicate Sized(p: Proof, sha: Hash) {
    && |p.commitment| < 0x1_0000_0000 && |QueryRef(p).id| < 0x1_0000_0000
    && |RefV1(p.region, sha).id| < 0x1_0000_0000 && |RefV2(p.region, sha).id| < 0x1_0000_0000
  }

  lemma DomainsDiffer(v: Version, w: Version)
    ensures Domain(v) == Domain(w) ==> v == w
  {
    assert DOMAIN_V1[24] == 49 && DOMAIN_V2[24] == 50 && DOMAIN_V3[24] == 51;
  }

  /** The fields every version signs, followed by anything, have one reading. */
  lemma CommonSplit(p: Proof, r: RegionRef, q: Proof, s: RegionRef, x: seq<Byte>, y: seq<Byte>)
    requires |p.commitment| < 0x1_0000_0000 && |q.commitment| < 0x1_0000_0000 && |r.id| < 0x1_0000_0000 && |s.id| < 0x1_0000_0000
    requires Common(p, r) + x == Common(q, s) + y
    ensures p.spoofing == q.spoofing && p.level == q.level && Integrity(p) == Integrity(q)
    ensures r == s && p.commitment == q.commitment && x == y
  {
    hide I32be, U32be, Prefixed, Be;
    var a, b := Prefixed(p.commitment) + x, Prefixed(q.commitment) + y;
    var c, d := Prefixed(r.id) + a, Prefixed(s.id) + b;
    var e, f := U32be(r.tag) + c, U32be(s.tag) + d;
    var g, h := I32be(Integrity(p)) + e, I32be(Integrity(q)) + f;
    var i, j := I32be(p.level) + g, I32be(q.level) + h;
    assert Common(p, r) + x == I32be(p.spoofing) + i;
    assert Common(q, s) + y == I32be(q.spoofing) + j;
    SplitEqual(I32be(p.spoofing), i, I32be(q.spoofing), j);
    SplitEqual(I32be(p.level), g, I32be(q.level), h);
    SplitEqual(I32be(Integrity(p)), e, I32be(Integrity(q)), f);
    SplitEqual(U32be(r.tag), c, U32be(s.tag), d);
    PrefixedSplit(r.id, s.id, a, b);
    PrefixedSplit(p.commitment, q.commitment, x, y);
    I32beInjective(p.spoofing, q.spoofing);
    I32beInjective(p.level, q.level);
    I32beInjective(Integrity(p), Integrity(q));
    U32beInjective(r.tag, s.tag);
  }

  /** Agreement on everything version `v` signs. */
  ghost predicate Agree(v: Version, p: Proof, q: Proof, sha: Hash) {
    && p.spoofing == q.spoofing && p.level == q.level && Integrity(p) == Integrity(q)
    && Ref(v, p, sha) == Ref(v, q, sha) && p.commitment == q.commitment
    && (!v.V1? ==> p.location == q.location)
    && (v.V3? ==> QueryRef(p) == QueryRef(q))
  }

  /** What follows the common fields in each version. */
  function Tail(v: Version, p: Proof): seq<Byte> {
    match v
    case V1 => []
    case V2 => I32be(p.location)
    case V3 => I32be(p.location) + (U32be(QueryRef(p).kind) + Prefixed(QueryRef(p).id))
  }

  lemma PreimageShape(v: Version, p: Proof, sha: Hash)
    ensures Preimage(v, p, sha) == Domain(v) + (Common(p, Ref(v, p, sha)) + Tail(v, p))
  {
    hide Common, Domain, Ref;
  }

  lemma TailSplit(v: Version, p: Proof, q: Proof)
    requires Tail(v, p) == Tail(v, q) && |QueryRef(p).id| < 0x1_0000_0000 && |QueryRef(q).id| < 0x1_0000_0000
    ensures !v.V1? ==> p.location == q.location
    ensures v.V3? ==> QueryRef(p) == QueryRef(q)
  {
    hide Be;
    match v {
      case V1 =>
      case V2 => I32beInjective(p.location, q.location);
      case V3 =>
        var a, b := QueryRef(p), QueryRef(q);
        SplitEqual(I32be(p.location), U32be(a.kind) + Prefixed(a.id), I32be(q.location), U32be(b.kind) + Prefixed(b.id));
        I32beInjective(p.location, q.location);
        SplitEqual(U32be(a.kind), Prefixed(a.id), U32be(b.kind), Prefixed(b.id));
        U32beInjective(a.kind, b.kind);
        assert Prefixed(a.id) + [] == Prefixed(b.id) + [];
        PrefixedSplit(a.id, b.id, [], []);
    }
  }

  /** Equal preimages are of one version and agree on all it signs. */
  lemma PreimageDetermines(v: Version, p: Proof, w: Version, q: Proof, sha: Hash)
    requires Sized(p, sha) && Sized(q, sha) && Preimage(v, p, sha) == Preimage(w, q, sha)
    ensures v == w && Agree(v, p, q, sha)
  {
    hide Common, Tail, Domain, Preimage, RefV1, RefV2;
    PreimageShape(v, p, sha);
    PreimageShape(w, q, sha);
    var x, y := Common(p, Ref(v, p, sha)) + Tail(v, p), Common(q, Ref(w, q, sha)) + Tail(w, q);
    SplitEqual(Domain(v), x, Domain(w), y);
    DomainsDiffer(v, w);
    CommonSplit(p, Ref(v, p, sha), q, Ref(w, q, sha), Tail(v, p), Tail(w, q));
    TailSplit(v, p, q);
  }

  /** No stage hash recomputes under two versions, so the order in which they are tried
      decides nothing, short of a collision. */
  lemma OneVersionMatches(p: Proof, v: Version, w: Version, sha: Hash)
    requires Sized(p, sha) && Matches(v, p, sha) && Matches(w, p, sha)
    ensures v == w || Collision(sha, Preimage(v, p, sha), Preimage(w, p, sha))
  {
    hide Preimage, Sized;
    if Preimage(v, p, sha) == Preimage(w, p, sha) { PreimageDetermines(v, p, w, p, sha); }
  }

  /** A query that is not signed always fails: on a proof bound under version 1 or 2,
      and on one whose version 3 stage was made for another query. */
  lemma UnsignedQueryFails(p: Proof, q: Query, requireV2: bool, sha: Hash)
    requires Sized(p, sha) && Bound(p, requireV2, sha) && p.query != Some(q)
    requires var t := p.(query := Some(q)); Sized(t, sha) && t.stages == p.stages
    ensures MatchedVersion(p, sha).Some?
    ensures var t := p.(query := Some(q));
            || !Bound(t, requireV2, sha)
            || (MatchedVersion(t, sha).Some?
                && Collision(sha, Preimage(MatchedVersion(p, sha).value, p, sha), Preimage(MatchedVersion(t, sha).value, t, sha)))
  {
    hide Preimage, Sized, MatchedVersion, Bound, BindingOutcome, Agree, StageByName;
    BoundMatches(p, requireV2, sha);
    var t := p.(query := Some(q));
    if Bound(t, requireV2, sha) { BindingPinsFields(p, t, requireV2, requireV2, sha); }
  }

  // --- where each field lies ---

  /** The fields every version signs, from offset `at`. */
  ghost predicate CommonAt(m: seq<Byte>, at: nat, p: Proof, r: RegionRef) {
    && NumberAt(m, at, 4, Cast32(p.spoofing)) && NumberAt(m, at + 4, 4, Cast32(p.level))
    && NumberAt(m, at + 8, 4, match p.integrity case None => 0 case Some(s) => Cast32(s))
    && NumberAt(m, at + 12, 4, r.tag)
    && NumberAt(m, at + 16, 4, |r.id|) && BytesAt(m, at + 20, r.id)
    && NumberAt(m, at + 20 + |r.id|, 4, |p.commitment|) && BytesAt(m, at + 24 + |r.id|, p.commitment)
  }

  lemma CommonLayout(m: seq<Byte>, at: nat, p: Proof, r: RegionRef)
    requires |r.id| < 0x1_0000_0000 && |p.commitment| < 0x1_0000_0000 && BytesAt(m, at, Common(p, r))
    ensures CommonAt(m, at, p, r)
  {
    hide I32be, U32be, Prefixed, NumberAt, BytesAt;
    var c, n := Common(p, r), |r.id|;
    var first := I32be(p.spoofing) + I32be(p.level) + I32be(Integrity(p)) + U32be(r.tag) + Prefixed(r.id);
    FiveParts(I32be(p.spoofing), I32be(p.level), I32be(Integrity(p)), U32be(r.tag), Prefixed(r.id));
    HeadParts(first, Prefixed(p.commitment));
    assert c == first + Prefixed(p.commitment);
    Nested(m, at, c, 0, first);
    Nested(m, at, c, 20 + n, Prefixed(p.commitment));
    Nested(m, at, first, 0, I32be(p.spoofing));
    Nested(m, at, first, 4, I32be(p.level));
    Nested(m, at, first, 8, I32be(Integrity(p)));
    Nested(m, at, first, 12, U32be(r.tag));
    Nested(m, at, first, 16, Prefixed(r.id));
    I32At(m, at, p.spoofing);
    I32At(m, at + 4, p.level);
    I32At(m, at + 8, Integrity(p));
    U32At(m, at + 12, r.tag);
    PrefixedAt(m, at + 16, r.id);
    PrefixedAt(m, at + 20 + n, p.commitment);
  }

  /** What follows the common fields, from offset `at` to the end. */
  ghost predicate TailAt(m: seq<Byte>, at: nat, v: Version, p: Proof) {
    match v
    case V1 => |m| == at
    case V2 => |m| == at + 4 && NumberAt(m, at, 4, Cast32(p.location))
    case V3 =>
      && NumberAt(m, at, 4, Cast32(p.location))
      && match p.query
         case None => |m| == at + 12 && NumberAt(m, at + 4, 4, 0) && NumberAt(m, at + 8, 4, 0)
         case Some(q) =>
           && |m| == at + 12 + |q.id|
           && NumberAt(m, at + 4, 4, q.kind) && NumberAt(m, at + 8, 4, |q.id|) && BytesAt(m, at + 12, q.id)
  }

  lemma TailLayout(m: seq<Byte>, at: nat, v: Version, p: Proof)
    requires BytesAt(m, at, Tail(v, p)) && |m| == at + |Tail(v, p)| && |QueryRef(p).id| < 0x1_0000_0000
    ensures TailAt(m, at, v, p)
  {
    hide I32be, U32be, Prefixed, NumberAt;
    if v.V2? {
      I32At(m, at, p.location);
    } else if v.V3? {
      var t, q := Tail(v, p), QueryRef(p);
      assert t[0..4] == I32be(p.location) && t[4..8] == U32be(q.kind) && t[8..12 + |q.id|] == Prefixed(q.id);
      Nested(m, at, t, 0, I32be(p.location));
      Nested(m, at, t, 4, U32be(q.kind));
      Nested(m, at, t, 8, Prefixed(q.id));
      I32At(m, at, p.location);
      U32At(m, at + 4, q.kind);
      PrefixedAt(m, at + 8, q.id);
    }
  }

  /** The label of the version, whose digit is its last byte, then the fields in order. */
  lemma PreimageLayout(v: Version, p: Proof, sha: Hash)
    requires Sized(p, sha)
    ensures var m, r := Preimage(v, p, sha), Ref(v, p, sha);
            && BytesAt(m, 0, Ascii("octet-semantic-binding-v"))
            && NumberAt(m, 24, 1, match v case V1 => '1' as int case V2 => '2' as int case V3 => '3' as int)
            && CommonAt(m, 25, p, r)
            && TailAt(m, 49 + |r.id| + |p.commitment|, v, p)
  {
    hide Common, Tail, CommonAt, TailAt, Preimage, Ref, RefV1, RefV2, Domain, BytesAt, NumberAt, Ascii;
    var m, r := Preimage(v, p, sha), Ref(v, p, sha);
    RefFits(v, p, sha);
    PreimageShape(v, p, sha);
    LabelAt(v, Common(p, r) + Tail(v, p));
    ThreeParts(Domain(v), Common(p, r), Tail(v, p));
    CommonLength(p, r);
    CommonLayout(m, 25, p, r);
    TailLayout(m, 49 + |r.id| + |p.commitment|, v, p);
  }

  lemma HeadParts(first: seq<Byte>, rest: seq<Byte>)
    ensures BytesAt(first + rest, 0, first) && BytesAt(first + rest, |first|, rest)
  {
    Before(first, rest, 0, first);
    After(first, rest, 0, rest);
  }

  lemma RefFits(v: Version, p: Proof, sha: Hash)
    requires Sized(p, sha)
    ensures |Ref(v, p, sha).id| < 0x1_0000_0000 && |p.commitment| < 0x1_0000_0000 && |QueryRef(p).id| < 0x1_0000_0000
  {
  }

  lemma ThreeParts(d: seq<Byte>, c: seq<Byte>, t: seq<Byte>)
    ensures BytesAt(d + (c + t), |d|, c) && BytesAt(d + (c + t), |d| + |c|, t)
  {
    Before(c, t, 0, c);
    After(d, c + t, 0, c);
    After(c, t, 0, t);
    After(d, c + t, |c|, t);
  }

  lemma CommonLength(p: Proof, r: RegionRef)
    ensures |Common(p, r)| == 24 + |r.id| + |p.commitment|
  {
  }

  lemma LabelAt(v: Version, rest: seq<Byte>)
    ensures BytesAt(Domain(v) + rest, 0, Ascii("octet-semantic-binding-v"))
    ensures NumberAt(Domain(v) + rest, 24, 1, match v case V1 => '1' as int case V2 => '2' as int case V3 => '3' as int)
  {
    var d := Domain(v);
    assert d[0..24] == Ascii("octet-semantic-binding-v");
    assert (d + rest)[0..24] == d[0..24] && (d + rest)[24..25] == [d[24]];
    assert [d[24]][1..] == [] && Pow256(0) == 1;
  }

  // --- what each outcome means ---

  /** The signed inside/outside answer of a proof is exposed exactly when the binding passed
      under a version that signs it: 1 is inside, 2 outside, 3 indeterminate. */
  lemma VerdictExposed(p: Proof, requireV2: bool, sha: Hash)
    ensures var o := BindingOutcome(p, requireV2, sha);
            var signed := Check(SemanticBindingCheck, Pass) in o.checks && MatchedVersion(p, sha) in {Some(V2), Some(V3)};
            && (o.location == Some(Inside) <==> signed && p.location == 1)
            && (o.location == Some(Outside) <==> signed && p.location == 2)
            && (o.location == Some(Indeterminate) <==> signed && p.location == 3)
            && (o.location == None <==> !signed || !(1 <= p.location <= 3))
  {
    hide Preimage, MatchedVersion, QueryShapeOk;
    var o := BindingOutcome(p, requireV2, sha);
    if o.checks != [] { assert o.checks[0] in o.checks; }
    if o == Only(Fail) || o == Only(Warn) || o == Only(NotChecked) {
      assert Check(SemanticBindingCheck, Pass) !in o.checks;
    }
    StageIfMatched(p, sha);
  }

  lemma StageIfMatched(p: Proof, sha: Hash)
    ensures MatchedVersion(p, sha).Some? ==> StageByName(p.stages, STAGE_NAME).Some?
  {
  }

  /** When each status of the binding is recorded, and what version 3 adds. */
  lemma BindingStatus(p: Proof, requireV2: bool, sha: Hash)
    ensures var o, v := BindingOutcome(p, requireV2, sha), MatchedVersion(p, sha);
            var stage := exists i :: 0 <= i < |p.stages| && p.stages[i].name == Ascii("semanticFields");
            var loose := p.region.Earth? || p.region.City?;
            && o.checks != [] && o.checks[0].name == SemanticBindingCheck
            && (o.checks[0].status == NotChecked <==> !stage && !requireV2)
            && (o.checks[0].status == Pass <==>
                v == Some(V3) || (v == Some(V2) && p.query == None) || (v == Some(V1) && p.query == None && !loose))
            && (o.checks[0].status == Warn <==> v == Some(V1) && p.query == None && loose)
            && (|o.checks| == 2 <==> v == Some(V3))
  {
    hide Preimage, QueryShapeOk, Matches;
    StageIfMatched(p, sha);
  }

  /** A query is exposed exactly when version 3 signed it, its shape is one of the table's
      and the proof answers it; with any other present query the check fails. */
  lemma QueryExposed(p: Proof, requireV2: bool, sha: Hash)
    ensures var o := BindingOutcome(p, requireV2, sha);
            var answered := p.query.Some? && QueryShapeOk(p.query.value) && 1 <= p.location <= 3;
            && (o.query.Some? <==> MatchedVersion(p, sha) == Some(V3) && answered)
            && (o.query.Some? ==> o.query == p.query)
            && (MatchedVersion(p, sha) == Some(V3) ==>
                  o.checks[1..] == [Check(QueryRegionCheck, if p.query == None || answered then Pass else Fail)])
  {
    hide Preimage, QueryShapeOk, Matches;
    StageIfMatched(p, sha);
  }

  // --- what two passing reports agree on ---

  ghost predicate NoFail(o: Outcome) {
    forall i :: 0 <= i < |o.checks| ==> o.checks[i].status != Fail
  }

  /** No check failed and the binding itself passed. */
  ghost predicate Bound(p: Proof, requireV2: bool, sha: Hash) {
    var o := BindingOutcome(p, requireV2, sha);
    NoFail(o) && Check(SemanticBindingCheck, Pass) in o.checks
  }

  ghost function StageHash(p: Proof): seq<Byte>
    requires StageByName(p.stages, STAGE_NAME).Some?
  {
    StageByName(p.stages, STAGE_NAME).value.dataHash
  }

  /** A bound report matched a version; a query is present only in version 3 and well shaped. */
  lemma BoundMatches(p: Proof, requireV2: bool, sha: Hash)
    requires Bound(p, requireV2, sha)
    ensures StageByName(p.stages, STAGE_NAME).Some? && MatchedVersion(p, sha).Some?
    ensures p.query.Some? ==> MatchedVersion(p, sha) == Some(V3) && QueryShapeOk(p.query.value)
  {
    hide Preimage, QueryShapeOk;
    var o := BindingOutcome(p, requireV2, sha);
    assert |o.checks| >= 1 && o.checks[0].status != Fail;
    if |o.checks| == 2 { assert o.checks[1].status != Fail; }
  }

  /** An absent query and (0, empty) share a preimage; the shape check separates them. */
  lemma QueriesAgree(p: Proof, q: Proof)
    requires QueryRef(p) == QueryRef(q)
    requires p.query.Some? ==> QueryShapeOk(p.query.value)
    requires q.query.Some? ==> QueryShapeOk(q.query.value)
    ensures p.query == q.query
  {
  }

  /** Two bound reports over one stage hash used one version and agree on every field it
      signs, on the query, and on what they expose, short of a collision. */
  lemma BindingPinsFields(p: Proof, q: Proof, rp: bool, rq: bool, sha: Hash)
    requires Sized(p, sha) && Sized(q, sha) && Bound(p, rp, sha) && Bound(q, rq, sha)
    ensures StageByName(p.stages, STAGE_NAME).Some? && StageByName(q.stages, STAGE_NAME).Some?
    ensures MatchedVersion(p, sha).Some? && MatchedVersion(q, sha).Some?
    ensures StageHash(p) == StageHash(q) ==>
              var v, w := MatchedVersion(p, sha).value, MatchedVersion(q, sha).value;
              || (v == w && Agree(v, p, q, sha) && p.query == q.query
                  && BindingOutcome(p, rp, sha) == BindingOutcome(q, rq, sha))
              || Collision(sha, Preimage(v, p, sha), Preimage(w, q, sha))
  {
    hide Preimage, Agree, Sized, QueryShapeOk;
    BoundMatches(p, rp, sha);
    BoundMatches(q, rq, sha);
    var v, w := MatchedVersion(p, sha).value, MatchedVersion(q, sha).value;
    if StageHash(p) == StageHash(q) && Preimage(v, p, sha) == Preimage(w, q, sha) {
      PreimageDetermines(v, p, w, q, sha);
      AgreedQuery(v, p, q, sha);
      AgreedOutcome(v, p, q, rp, rq, sha);
    }
  }

  lemma AgreedQuery(v: Version, p: Proof, q: Proof, sha: Hash)
    requires Agree(v, p, q, sha)
    requires p.query.Some? ==> v.V3? && QueryShapeOk(p.query.value)
    requires q.query.Some? ==> v.V3? && QueryShapeOk(q.query.value)
    ensures p.query == q.query
  {
    if v.V3? { QueriesAgree(p, q); }
  }

  lemma AgreedOutcome(v: Version, p: Proof, q: Proof, rp: bool, rq: bool, sha: Hash)
    requires MatchedVersion(p, sha) == Some(v) == MatchedVersion(q, sha) && Agree(v, p, q, sha) && p.query == q.query
    requires StageByName(p.stages, STAGE_NAME).Some? && StageByName(q.stages, STAGE_NAME).Some?
    requires Bound(p, rp, sha) && Bound(q, rq, sha)
    ensures BindingOutcome(p, rp, sha) == BindingOutcome(q, rq, sha)
  {
    hide Preimage, MatchedVersion, StageByName, RefV1, RefV2, QueryShapeOk;
    if v.V1? {
      var o, u := BindingOutcome(p, rp, sha), BindingOutcome(q, rq, sha);
      assert o.checks[0].status == Pass && u.checks[0].status == Pass;
    }
  }
}
