/** What a signed or queried region reference identifies (src/verify.rs): a version 2
    reference pins the region itself, a version 1 reference only its identity. */
module RegionIdentity {
  import opened Bytes
  import opened Options
  import opened Regions
  import opened SemanticBinding
  import CellSets
  import Slices
  import VoxelChecks
  import VoxelSets

  /** The order in which H3 cells are listed does not reach the digest. */
  lemma SortedIdsAgree(xs: seq<U64>, ys: seq<U64>)
    ensures SortedIds(xs) == SortedIds(ys) <==> multiset(xs) == multiset(ys)
  {
    Slices.SortForgetsOrder(xs, ys, (x: U64, y: U64) => x <= y);
  }

  /** It hashes them in ascending order, each as often as it is listed. */
  lemma SortedIdsAscend(xs: seq<U64>)
    ensures multiset(SortedIds(xs)) == multiset(xs)
    ensures forall i, j :: 0 <= i < j < |SortedIds(xs)| ==> SortedIds(xs)[i] <= SortedIds(xs)[j]
  {
    Slices.SortKeeps(xs, (x: U64, y: U64) => x <= y);
    Slices.SortOrders(xs, (x: U64, y: U64) => x <= y);
  }

  // --- the same region, as far as a reference can tell ---

  function CentreOf(r: Region): (F64, F64)
    requires r.Ellipse?
  {
    match r.center case None => (0, 0) case Some(c) => c
  }

  /** Equal regions, but for the order of H3 cells, and an ellipse without a centre,
      which is the one centred on (0, 0). */
  ghost predicate SameGeometry(r: Region, s: Region) {
    match r
    case H3Set(cells) => s.H3Set? && multiset(cells) == multiset(s.cells)
    case Ellipse(_, a, b, h) => s.Ellipse? && CentreOf(r) == CentreOf(s) && a == s.major && b == s.minor && h == s.heading
    case _ => r == s
  }

  /** What version 1 leaves out: a city's centre and radius, the altitude cap of the earth. */
  ghost predicate SameIdentity(r: Region, s: Region) {
    match r
    case Earth(_) => s.Earth?
    case City(name, _, _, _) => s.City? && name == s.name
    case _ => SameGeometry(r, s)
  }

  /** The bytes a digested region hashes. */
  function Hashed(r: Region): Option<seq<Byte>> {
    match r
    case City(_, _, _, _) => Some(CityMessage(r))
    case Ellipse(_, a, b, h) => Some(U64s([CentreOf(r).0, CentreOf(r).1, a, b, h]))
    case H3Set(cells) => Some(U64s(SortedIds(cells)))
    case BoundingBox(sides) => Some(U64s(sides))
    case CellSet(ids) => Some(CellSets.Message(ids))
    case VoxelSet(vs) => Some(VoxelChecks.Message(vs))
    case _ => None
  }

  ghost predicate HashedCollide(r: Region, s: Region, sha: Hash) {
    Hashed(r).Some? && Hashed(s).Some? && Collision(sha, Hashed(r).value, Hashed(s).value)
  }

  /** Counts and lengths below the 32-bit prefixes; a protobuf message is at most 2 GiB. */
  predicate RegionFits(r: Region) {
    match r
    case City(name, _, _, _) => |name| < 0x1_0000_0000
    case CellSet(ids) => |ids| < 0x1_0000_0000
    case VoxelSet(vs) => |vs| < 0x1_0000_0000
    case _ => true
  }

  lemma CityDetermined(r: Region, s: Region)
    requires r.City? && s.City? && RegionFits(r) && RegionFits(s) && CityMessage(r) == CityMessage(s)
    ensures r == s
  {
    hide Be, U64be, U32be;
    var x, y := U64be(r.lat) + (U64be(r.lon) + U64be(r.radius)), U64be(s.lat) + (U64be(s.lon) + U64be(s.radius));
    assert CityMessage(r) == Prefixed(r.name) + x && CityMessage(s) == Prefixed(s.name) + y;
    PrefixedSplit(r.name, s.name, x, y);
    SplitEqual(U64be(r.lat), U64be(r.lon) + U64be(r.radius), U64be(s.lat), U64be(s.lon) + U64be(s.radius));
    SplitEqual(U64be(r.lon), U64be(r.radius), U64be(s.lon), U64be(s.radius));
    U64beInjective(r.lat, s.lat);
    U64beInjective(r.lon, s.lon);
    U64beInjective(r.radius, s.radius);
  }

  /** Regions of one kind that hash the same bytes are the same region. */
  lemma HashedDetermines(r: Region, s: Region)
    requires RegionFits(r) && RegionFits(s) && Hashed(r).Some? && Hashed(s) == Hashed(r)
    requires RefV2(r, _ => []).tag == RefV2(s, _ => []).tag
    ensures SameGeometry(r, s)
  {
    hide CityMessage, U64s, SortedIds, CellSets.Message, VoxelChecks.Message;
    match r {
      case City(_, _, _, _) => CityDetermined(r, s);
      case Ellipse(_, a, b, h) =>
        U64sInjective([CentreOf(r).0, CentreOf(r).1, a, b, h], [CentreOf(s).0, CentreOf(s).1, s.major, s.minor, s.heading]);
      case H3Set(cells) =>
        U64sInjective(SortedIds(cells), SortedIds(s.cells));
        SortedIdsAgree(cells, s.cells);
      case BoundingBox(sides) => U64sInjective(sides, s.sides);
      case CellSet(ids) => CellSets.MessageInjective(ids, s.ids);
      case VoxelSet(vs) => VoxelChecks.MessageInjective(vs, s.voxels);
      case _ =>
    }
  }

  /** A version 2 or 3 reference pins the region, geometry and all, short of a collision. */
  lemma RefV2PinsGeometry(r: Region, s: Region, sha: Hash)
    requires RegionFits(r) && RegionFits(s)
    ensures RefV2(r, sha) == RefV2(s, sha) ==> SameGeometry(r, s) || HashedCollide(r, s, sha)
    ensures SameGeometry(r, s) ==> RefV2(r, sha) == RefV2(s, sha)
  {
    hide CityMessage, U64s, SortedIds, CellSets.Message, VoxelChecks.Message;
    if r.H3Set? && s.H3Set? { SortedIdsAgree(r.cells, s.cells); }
    if r.Earth? && s.Earth? && U64be(r.maxAltitude) == U64be(s.maxAltitude) { U64beInjective(r.maxAltitude, s.maxAltitude); }
    if RefV2(r, sha) == RefV2(s, sha) && Hashed(r).Some? && !HashedCollide(r, s, sha) {
      HashedDetermines(r, s);
    }
  }

  /** A version 1 reference pins the identity, and geometry only where the region has no other. */
  lemma RefV1PinsIdentity(r: Region, s: Region, sha: Hash)
    requires RegionFits(r) && RegionFits(s)
    ensures RefV1(r, sha) == RefV1(s, sha) ==> SameIdentity(r, s) || HashedCollide(r, s, sha)
    ensures SameIdentity(r, s) ==> RefV1(r, sha) == RefV1(s, sha)
  {
    if !r.City? && !r.Earth? && !s.City? && !s.Earth? { RefV2PinsGeometry(r, s, sha); }
  }

  /** Under version 1 the binding passes only for regions whose reference covers their geometry. */
  lemma BoundV1HasGeometry(p: Proof, requireV2: bool, sha: Hash)
    requires Bound(p, requireV2, sha) && MatchedVersion(p, sha) == Some(V1)
    ensures !p.region.City? && !p.region.Earth?
  {
    hide Preimage, MatchedVersion, StageByName;
    assert BindingOutcome(p, requireV2, sha).checks[0].status == Pass;
  }

  /** Two messages hashed for these proofs, their regions or their signed fields, collide. */
  ghost predicate RegionsCollide(p: Proof, q: Proof, sha: Hash)
    requires MatchedVersion(p, sha).Some? && MatchedVersion(q, sha).Some?
  {
    || HashedCollide(p.region, q.region, sha)
    || Collision(sha, Preimage(MatchedVersion(p, sha).value, p, sha), Preimage(MatchedVersion(q, sha).value, q, sha))
  }

  /** Two bound reports over one stage hash claim the same region, geometry included,
      whatever version signed it, short of a collision. */
  lemma BindingPinsRegion(p: Proof, q: Proof, rp: bool, rq: bool, sha: Hash)
    requires Sized(p, sha) && Sized(q, sha) && RegionFits(p.region) && RegionFits(q.region)
    requires Bound(p, rp, sha) && Bound(q, rq, sha)
    ensures StageByName(p.stages, STAGE_NAME).Some? && StageByName(q.stages, STAGE_NAME).Some?
    ensures MatchedVersion(p, sha).Some? && MatchedVersion(q, sha).Some?
    ensures StageHash(p) == StageHash(q) ==>
              SameGeometry(p.region, q.region) || RegionsCollide(p, q, sha)
  {
    hide Preimage, MatchedVersion, StageByName, Bound, Sized, RefV1, RefV2, BindingOutcome, HashedCollide;
    BindingPinsFields(p, q, rp, rq, sha);
    RefV1PinsIdentity(p.region, q.region, sha);
    RefV2PinsGeometry(p.region, q.region, sha);
    if MatchedVersion(p, sha) == Some(V1) { BoundV1HasGeometry(p, rp, sha); }
  }

  /** When both claim cell sets that passed their shape check, they cover the same leaves;
      and two such sets that cover the same leaves are signed as one region. */
  lemma SameCellRegion(p: Proof, q: Proof, rp: bool, rq: bool, sha: Hash)
    requires Sized(p, sha) && Sized(q, sha) && Bound(p, rp, sha) && Bound(q, rq, sha)
    requires p.region.CellSet? && CellSets.IsCanonical(p.region.ids) && |p.region.ids| <= MAX_ENTRIES
    requires q.region.CellSet? && CellSets.IsCanonical(q.region.ids) && |q.region.ids| <= MAX_ENTRIES
    ensures StageByName(p.stages, STAGE_NAME).Some? && StageByName(q.stages, STAGE_NAME).Some?
    ensures MatchedVersion(p, sha).Some? && MatchedVersion(q, sha).Some?
    ensures StageHash(p) == StageHash(q) ==>
              CellSets.SameLeaves(p.region.ids, q.region.ids) || RegionsCollide(p, q, sha)
    ensures CellSets.SameLeaves(p.region.ids, q.region.ids) ==>
              forall v :: Ref(v, p, sha) == Ref(v, q, sha)
  {
    hide Preimage, MatchedVersion, StageByName, Bound, Sized, HashedCollide, CellSets.IsCanonical, CellSets.Message;
    BindingPinsRegion(p, q, rp, rq, sha);
    CellSets.OneEncoding(p.region.ids, q.region.ids);
  }

  /** The same for voxel sets and the points they cover. */
  lemma SameVoxelRegion(p: Proof, q: Proof, rp: bool, rq: bool, sha: Hash)
    requires Sized(p, sha) && Sized(q, sha) && Bound(p, rp, sha) && Bound(q, rq, sha)
    requires p.region.VoxelSet? && VoxelSets.IsAccepted(p.region.voxels)
    requires q.region.VoxelSet? && VoxelSets.IsAccepted(q.region.voxels)
    ensures StageByName(p.stages, STAGE_NAME).Some? && StageByName(q.stages, STAGE_NAME).Some?
    ensures MatchedVersion(p, sha).Some? && MatchedVersion(q, sha).Some?
    ensures StageHash(p) == StageHash(q) ==>
              VoxelSets.SamePoints(p.region.voxels, q.region.voxels) || RegionsCollide(p, q, sha)
    ensures VoxelSets.SamePoints(p.region.voxels, q.region.voxels) ==>
              forall v :: Ref(v, p, sha) == Ref(v, q, sha)
  {
    hide Preimage, MatchedVersion, StageByName, Bound, Sized, HashedCollide, VoxelSets.IsCanonical, VoxelChecks.Message;
    BindingPinsRegion(p, q, rp, rq, sha);
    VoxelSets.OneEncoding(p.region.voxels, q.region.voxels);
  }

  // --- the query reference a consumer compares with ---

  /** `None` for a city, which has no reference to query by, and for no region. */
  function QueryRegionRef(r: Region, sha: Hash): Option<Query> {
    match r
    case NoRegion => None
    case City(_, _, _, _) => None
    case _ => Some(Query(RefV2(r, sha).tag, RefV2(r, sha).id))
  }

  /** A region's number in both versions is its place in the schema's `oneof`. */
  function Tag(r: Region): nat {
    match r
    case NoRegion => 0
    case Earth(_) => 1
    case Country(_) => 2
    case City(_, _, _, _) => 3
    case Ellipse(_, _, _, _) => 4
    case H3Set(_) => 5
    case BoundingBox(_) => 6
    case Subdivision(_) => 7
    case CellSet(_) => 8
    case VoxelSet(_) => 9
  }

  /** What a reference holds: the tag, and the name, the altitude or the digest. */
  lemma ReferenceHolds(r: Region, sha: Hash)
    ensures RefV1(r, sha).tag == RefV2(r, sha).tag == Tag(r)
    ensures r.NoRegion? ==> RefV1(r, sha).id == [] == RefV2(r, sha).id
    ensures r.Country? ==> RefV1(r, sha).id == r.iso == RefV2(r, sha).id
    ensures r.Subdivision? ==> RefV1(r, sha).id == r.code == RefV2(r, sha).id
    ensures r.City? ==> RefV1(r, sha).id == r.name && RefV2(r, sha).id == sha(CityMessage(r))
    ensures r.Earth? ==> RefV1(r, sha).id == [] && |RefV2(r, sha).id| == 8 && Value(RefV2(r, sha).id) == r.maxAltitude
    ensures Hashed(r).Some? && !r.City? ==> RefV1(r, sha).id == sha(Hashed(r).value) == RefV2(r, sha).id
  {
    hide CityMessage, U64s, SortedIds, CellSets.Message, VoxelChecks.Message;
    if r.Earth? { U64beValue(r.maxAltitude); }
  }

  /** Which numbers a digested region hashes, in which order. */
  lemma DigestedNumbers(r: Region)
    requires RegionFits(r)
    ensures r.City? ==>
              var m, n := CityMessage(r), |r.name|;
              && |m| == 28 + n && NumberAt(m, 0, 4, n) && BytesAt(m, 4, r.name)
              && NumberAt(m, 4 + n, 8, r.lat) && NumberAt(m, 12 + n, 8, r.lon) && NumberAt(m, 20 + n, 8, r.radius)
    ensures r.Ellipse? && r.center.None? ==> WordsAt(Hashed(r).value, [0, 0, r.major, r.minor, r.heading])
    ensures r.Ellipse? && r.center.Some? ==>
              WordsAt(Hashed(r).value, [r.center.value.0, r.center.value.1, r.major, r.minor, r.heading])
    ensures r.BoundingBox? ==> WordsAt(Hashed(r).value, r.sides)
    ensures r.H3Set? ==> WordsAt(Hashed(r).value, SortedIds(r.cells))
  {
    hide SortedIds, WordsAt, U64s, CityMessage, NumberAt;
    match r {
      case City(_, _, _, _) => CityLayout(r);
      case Ellipse(_, a, b, h) => WordsHashed([CentreOf(r).0, CentreOf(r).1, a, b, h]);
      case BoundingBox(sides) => WordsHashed(sides);
      case H3Set(cells) => WordsHashed(SortedIds(cells));
      case _ =>
    }
  }

  /** These 64-bit words and nothing else. */
  ghost predicate WordsAt(m: seq<Byte>, ns: seq<U64>) {
    |m| == 8 * |ns| && forall k :: 0 <= k < |ns| ==> NumberAt(m, 8 * k, 8, ns[k])
  }

  lemma WordsHashed(ns: seq<U64>)
    ensures WordsAt(U64s(ns), ns)
  {
    hide U64s, U64be, NumberAt;
    forall k | 0 <= k < |ns|
      ensures NumberAt(U64s(ns), 8 * k, 8, ns[k])
    {
      U64sAt(ns, k);
      U64At(U64s(ns), 8 * k, ns[k]);
    }
  }

  lemma CityLayout(r: Region)
    requires r.City? && RegionFits(r)
    ensures var m, n := CityMessage(r), |r.name|;
            && |m| == 28 + n && NumberAt(m, 0, 4, n) && BytesAt(m, 4, r.name)
            && NumberAt(m, 4 + n, 8, r.lat) && NumberAt(m, 12 + n, 8, r.lon) && NumberAt(m, 20 + n, 8, r.radius)
  {
    hide U64be, U32be, Count32, NumberAt;
    SmallCount(|r.name|);
    var m, n := CityMessage(r), |r.name|;
    assert m[0..4] == U32be(n) && m[4..4 + n] == r.name && m[4 + n..12 + n] == U64be(r.lat);
    assert m[12 + n..20 + n] == U64be(r.lon) && m[20 + n..28 + n] == U64be(r.radius);
    U32At(m, 0, n);
    U64At(m, 4 + n, r.lat);
    U64At(m, 12 + n, r.lon);
    U64At(m, 20 + n, r.radius);
  }

  /** With a 32-byte hash the shape table accepts every reference to query by, but for a
      country code that is not two bytes and a subdivision code that is not ASCII with a
      dash; and it accepts no other kind of query. */
  lemma ReferencesAreWellShaped(r: Region, sha: Hash)
    requires forall m :: |sha(m)| == 32
    ensures QueryRegionRef(r, sha).None? <==> r.NoRegion? || r.City?
    ensures QueryRegionRef(r, sha).Some? ==>
              var q := QueryRegionRef(r, sha).value;
              && q.kind == Tag(r) && q.id == RefV2(r, sha).id
              && (QueryShapeOk(q) <==>
                  && (r.Country? ==> |r.iso| == 2)
                  && (r.Subdivision? ==> '-' as int in r.code && forall i :: 0 <= i < |r.code| ==> r.code[i] < 128))
    ensures forall q :: QueryShapeOk(q) ==> 1 <= q.kind <= 9 && q.kind != 3
  {
    hide CityMessage, U64s, SortedIds, CellSets.Message, VoxelChecks.Message;
  }

  /** Reading a report's exposed query by comparison names one region: any two regions
      whose references match it are the same region, short of a collision. */
  lemma QueryNamesRegion(p: Proof, requireV2: bool, r: Region, s: Region, sha: Hash)
    requires RegionFits(r) && RegionFits(s)
    requires var q := BindingOutcome(p, requireV2, sha).query; q.Some? && q == QueryRegionRef(r, sha) && q == QueryRegionRef(s, sha)
    ensures SameGeometry(r, s) || HashedCollide(r, s, sha)
    ensures MatchedVersion(p, sha) == Some(V3) && BindingOutcome(p, requireV2, sha).location.Some?
  {
    hide Preimage, RefV1, QueryShapeOk;
    RefV2PinsGeometry(r, s, sha);
  }
}
