# octet-verify: a verified model

A Dafny model of the parts of `octet-verify` whose correctness rests on an
argument rather than on a library call, and proofs of what those parts promise.

**S2 regions (`src/s2.rs`).** The file claims that one region has exactly one
encoding and one digest. The model has four layers.

- `Bits`, `Cells` and `S2Words` give the cell ids: an arithmetic reading (an
  aligned block and its level), and the proof that the 64-bit masks and shifts of
  the code compute it.
- `Hilbert`, `LeafCells` and `HilbertCells` give the curve: the plain walk of one
  bit pair per level, the table-driven walk of the code refined to it, and what
  the leaf numbering is: a bijection, and a continuous curve on each face.
- `Regions`, `Siblings` and `CellSets` give region tag 8. A region is the set of
  leaves covered. A canonical list is determined by its region because its entries
  are exactly the maximal cells on which the region is constant.
- `Heights`, `Entries`, `VoxelSets`, `VoxelChecks`, `Refinement`, `VoxelNormalize`
  and `FullHeight` give region tag 9. A region is the set of (leaf, zoom-32 bin)
  points covered. The same uniqueness theorem applies with each cell labelled by
  its merged interval list.

**Wire guard (`src/wire.rs`).** `Wire` and `WireFields`: the varint reader, the
payload skipper and the duplicate-field walk over arbitrary bytes, and what the
walk reports about every message. The guard does not do all that its own comment
says (`src/wire.rs:10-17`): it stops at a group, which a decoder skips, and its list
lacks field 20, which the schema (`proto/octet/proof/proof.proto:309`) does not
repeat. The model keeps the code as it is, shows a short message for each, and
proves exactly which duplicates are caught.

**Signed proofs (`src/verify.rs`).** `StageChain`: what the final hash of an
accepted chain pins down although nothing in it is length-prefixed.
`SemanticBinding` and `RegionIdentity`: what a passing report pins down across the
three preimage versions, down to the claimed region's geometry. `SignedProofs` puts
the two together: what one final hash says about everything a proof claims.

**Caller metadata (`src/caller_metadata.rs`).** `CallerManifests`, `EntryHashing`
and `CallerMetadata`: the manifest's limits and preimage, streamed hashing, the
seven outcomes of the content check, and the agreement of the two manifest checks.

**Browser sessions (`src/browser.rs`, `src/bin/octet-verify.rs`).**
`SessionRevisions`: the early-verdict rules as a state machine over whole runs.

**Civil dates (`src/bin/octet-verify.rs`).** `CivilDate`: the closed form for day
numbers against counting days one by one.

SHA-256 is a function parameter and a signature check a predicate parameter. No
function to 32 bytes is injective, so a result that needs collision freedom is
stated as "this holds, or here are the two colliding messages": `Collision` and
`HashedCollide` name two different messages with one hash, `Clash` one signature
accepted for two different messages. Every colliding pair is built from the inputs.

`Arith`, `Bytes`, `Options` and `Slices` hold shared arithmetic, big-endian
encodings, and the two slice operations of the standard library.

## Model

| member | source | states |
|---|---|---|
| Bytes.BeValue | src/s2.rs:255-258 | a number written in enough bytes is read back by weighing the bytes from the left, so the most significant comes first |
| Bytes.U32beValue | src/s2.rs:255 | the same for a 32-bit count |
| Bytes.U64beValue | src/s2.rs:257 | the same for a 64-bit id |
| Bytes.I32beValue | src/verify.rs:1134-1136 | a negative 32-bit value is written as itself plus 2^32 |
| Bytes.I64beValue | src/s2.rs:493-494 | a negative 64-bit value is written as itself plus 2^64 |
| S2Words.LsbIsLowBit | src/s2.rs:41-43 | `id & -id` in 64 bits is the lowest set bit |
| S2Words.ValidAgrees | src/s2.rs:45-49 | the shift and the even-bit mask accept exactly faces 0 to 5 with the lowest set bit at an even position up to 60, which rules out 0 |
| S2Words.ParentAgrees | src/s2.rs:72-75 | masking and marking computes the aligned ancestor, at every level of every 64-bit id |
| S2Words.NoOverflow | src/s2.rs:56-83 | range ends and children of a valid id stay inside 64 bits, and its level is 0 to 30 |
| Cells.Laminar | src/s2.rs:56-69 | any two valid cells are nested or have disjoint leaf ranges |
| Cells.RangeEnds | src/s2.rs:56-64 | both ends of a cell's range are leaf ids on an existing face, around the id |
| Cells.LeafInAncestor | src/s2.rs:56-75 | a leaf lies in a cell exactly when the cell is its ancestor at that level |
| Cells.ChildrenTile | src/s2.rs:77-83 | the four children are valid, one level down, have this parent, and cover its leaves end to end in Hilbert order |
| Cells.ParentStep | src/s2.rs:71-83 | every cell above level 0 is one of the four children of its parent |
| CellSets.ContainsIsWithin | src/s2.rs:66-69 | testing one id against a leaf range decides containment of whole cells |
| Hilbert.UnWalkWalk | src/s2.rs:94-119 | the curve walk loses nothing: its position gives back i, j and the orientation, at every depth |
| Hilbert.WalkUnWalk | src/s2.rs:94-119 | every curve position is reached, by the i and j its digits name |
| Hilbert.Compose | src/s2.rs:129-142 | a walk of n + m levels is a walk on the high bits followed by one on the low bits, which is what makes a lookup table possible |
| Hilbert.LeadingZeros | src/s2.rs:129-142 | two leading zero levels contribute position 0 and restore a face's orientation |
| Hilbert.WalkStart | src/s2.rs:99-100 | from either orientation a face can have, the curve starts at (0, 0), at every depth |
| Hilbert.WalkEndI | src/s2.rs:99-100 | unswapped it ends at the far end of the i axis |
| Hilbert.WalkEndJ | src/s2.rs:99-100 | swapped it ends at the far end of the j axis |
| Hilbert.Continuous | src/s2.rs:99-100 | consecutive curve positions are neighbouring squares at every depth, and the curve crosses their common side: the two tables describe a continuous curve |
| LeafCells.Fill | src/s2.rs:101-113 | the recursive fill sets, of the 1024 entries, exactly those under its cell and orientation, to the four-level walk |
| LeafCells.LookupPos | src/s2.rs:94-119 | every table entry is the four-level walk from its orientation |
| LeafCells.FaceIjToLeaf | src/s2.rs:129-142 | the eight table lookups compute the face and the 30-level bit-by-bit walk; no chunk touches bits already set |
| HilbertCells.FaceEnds | src/s2.rs:129-142 | the first leaf of a face is (0, 0); the last is (2^30 - 1, 0) on an even face and (0, 2^30 - 1) on an odd one, with their ids in figures |
| HilbertCells.LeafIsLeaf | src/s2.rs:129-142 | the result is a leaf id on an existing face |
| HilbertCells.LeafInjective | src/s2.rs:129-142 | distinct (face, i, j) have distinct leaves |
| HilbertCells.LeafSurjective | src/s2.rs:129-142 | every leaf id is the leaf of some (face, i, j) |
| HilbertCells.NeighboursOnCurve | src/s2.rs:129-142 | leaves with consecutive ids on a face are neighbours on its grid |
| HilbertCells.CellsAreSquares | src/s2.rs:71-75 | two leaves share their ancestor at a level exactly when they share the face and that many top bits of i and of j, so every cell is an aligned square |
| Regions.EntryIsMaximal | src/s2.rs:17-20 | every entry of a canonical list is a largest cell on which the region is constant |
| Regions.MaximalIsEntry | src/s2.rs:17-20 | every largest constant cell is listed |
| Regions.Unique | src/s2.rs:4-8 | two canonical lists, labelled or not, are equal exactly when they denote the same region |
| Siblings.SiblingsAreChildren | src/s2.rs:217-221 | four ordered cells that pass the sibling test are the four children of one cell, in order |
| Siblings.WindowsSuffice | src/s2.rs:205-210 | on a sorted list, testing windows of four neighbours misses no mergeable sibling group |
| Siblings.MergeStep | src/s2.rs:238-244 | replacing four siblings by their parent keeps order, disjointness and region |
| CellSets.PassedIsCanonical | src/s2.rs:196-213 | the neighbour tests on a prefix hold exactly when the prefix is canonical over all pairs |
| CellSets.CheckCanonical | src/s2.rs:188-215 | accepts exactly the non-empty canonical lists within the cap; each refusal names the first offending entry and why |
| CellSets.Normalize | src/s2.rs:223-248 | the result is canonical, covers the same leaves, and equals the input exactly when the input is canonical |
| CellSets.OneEncoding | src/s2.rs:4-8 | two canonical cell sets are equal exactly when they cover the same leaves |
| CellSets.ContainsLeaf | src/s2.rs:262-267 | the binary search equals "some listed cell contains the leaf" |
| CellSets.Digest | src/s2.rs:250-260 | the loop hashes the domain, the count and every id in order |
| CellSets.MessageLayout | src/s2.rs:250-260 | a reader finds the label, the count in bytes 23 to 26 and id k at byte 27 + 8k, most significant byte first, and nothing else |
| CellSets.MessageInjective | src/s2.rs:250-260 | the digest's message determines the list |
| CellSets.DigestIsRegion | src/s2.rs:4-8 | two accepted cell sets have one digest without a collision exactly when they are one region |
| Heights.MergeIntervals | src/s2.rs:388-399 | the merged list covers the same bins and its intervals neither overlap nor touch |
| Heights.OneSpelling | src/s2.rs:388-399 | equal height sets have equal merged lists |
| Entries.BoundsInBins | src/s2.rs:292-311 | the bounds rule holds exactly when the interval is a non-empty range of zoom-32 bins within ±2^32 |
| Entries.BoundsMean | src/s2.rs:304-311 | the bounds in figures: zooms 0 to 32, bins -2^zoom to 2^zoom - 1 |
| Entries.VoxelFromInterval | src/s2.rs:401-413 | the entry has the interval it was made from, is in bounds, fits its 64-bit fields, and is at the zoom the checker calls coarsest |
| Entries.OneEntry | src/s2.rs:347-349 | one interval has exactly one in-bounds spelling that the checker accepts as coarsest |
| Entries.InRangeMeans | src/s2.rs:272-275 | a height has a bin exactly when it lies strictly between -33554432 and 33554432 metres |
| Entries.BinHolds | src/s2.rs:269-279 | its bin is f exactly when f·2^25 <= height·2^zoom < (f+1)·2^25, and then f is a bin of the zoom |
| Entries.MetreBins | src/s2.rs:276-278 | at zoom 25 a bin is a metre |
| Entries.BinIsHeight | src/s2.rs:510-514 | the bin test of an entry decides whether the height lies in its interval of metres |
| Entries.BinInEntry | src/s2.rs:269-302 | comparing a height's bin at the entry's own zoom decides membership of its zoom-32 bin, negative heights included |
| VoxelSets.OrderedIsGrouped | src/s2.rs:359-374 | entries are in order exactly when their cells are sorted and disjoint and each cell's intervals are separated |
| VoxelSets.GroupLit | src/s2.rs:376 | grouping entries by cell keeps the points covered |
| VoxelSets.GroupInjective | src/s2.rs:322-386 | coarsest-zoom entries are determined by their cells and intervals |
| VoxelSets.OneEncoding | src/s2.rs:17-20 | two canonical voxel sets are equal exactly when they cover the same points |
| VoxelChecks.ChunkByCell | src/s2.rs:376 | the groups joined are the list, each holds one cell, and neighbouring groups hold different cells |
| VoxelChecks.WindowsFindSiblings | src/s2.rs:376-382 | windows of four groups find every mergeable sibling set |
| VoxelChecks.CheckVoxelCanonical | src/s2.rs:322-386 | accepts exactly the canonical lists within the cap that are bounded in height somewhere; each refusal says what is wrong at the first place it is wrong |
| VoxelChecks.VoxelSetContains | src/s2.rs:500-515 | on ordered entries, answers whether some listed cell contains the leaf with a height interval that includes the height, which is coverage of the point (leaf, zoom-32 bin); no answer exactly for heights not within ±33554432 m |
| VoxelChecks.Digest | src/s2.rs:484-498 | the loop hashes the domain, the count and every entry's fields in order |
| VoxelChecks.MessageLayout | src/s2.rs:484-498 | a reader finds the label, the count in bytes 24 to 27 and the four fields of entry k from byte 28 + 28k, and nothing else |
| VoxelChecks.MessageInjective | src/s2.rs:484-498 | the digest's message determines the list |
| VoxelChecks.DigestIsRegion | src/s2.rs:17-20 | two accepted voxel sets have one digest without a collision exactly when they are one region |
| Refinement.Refine | src/s2.rs:415-436 | terminates, never splits a leaf, keeps what was pushed before, and appends ascending disjoint cells of this cell that carry at each leaf exactly the given heights and those of every listed cell above it |
| Refinement.RefineChild | src/s2.rs:423-435 | the same for one child: its slice of the list is all that reaches it, and its own entry's heights are joined |
| Refinement.RefinementTiles | src/s2.rs:415-417 | the appended cells leave no leaf of the cell out |
| VoxelNormalize.ListCells | src/s2.rs:451-457 | each listed cell once, after every listed cell it lies in, with merged intervals and the same points |
| VoxelNormalize.SplitAll | src/s2.rs:458-465 | the parts are sorted and disjoint and cover the same points |
| VoxelNormalize.MergeParts | src/s2.rs:466-477 | no four siblings with equal heights remain, and every leaf keeps its height list |
| VoxelNormalize.Spell | src/s2.rs:478-481 | the entries spell exactly the merged cells and intervals, at coarsest zoom |
| VoxelNormalize.NormalizeVoxels | src/s2.rs:438-482 | an error exactly for an empty list or a bad entry (the first); otherwise a canonical list covering the same points, equal to the input exactly when that was canonical |
| VoxelNormalize.NormalFormsDecideRegion | src/s2.rs:438-443 | two lists have equal normal forms exactly when they cover the same points |
| VoxelNormalize.AcceptedIsOwnNormalForm | test-vectors/s2-region/generate/voxel.go:183-196 | the checker's verdict is the generator's definition: its own normal form, within the cap, bounded in height somewhere |
| FullHeight.FullHeightIsCellSet | src/s2.rs:383-385 | a canonical voxel set refused for covering all heights is, cell by cell, the canonical cell set of the same region |
| FullHeight.FullIsEveryBin | src/s2.rs:313-315 | an in-bounds entry counts as full height exactly when it has every bin |
| FullHeight.FullHeightRefused | src/s2.rs:383-385 | a canonical set is full height throughout exactly when it covers every bin over each of its cells, and then it is refused |
| Wire.ReadVarint | src/wire.rs:49-67 | stays in bounds, fails exactly on truncation or a varint of more than ten bytes, and returns its value modulo 2^64 with the position after it |
| Wire.ReadsBackEveryU64 | src/wire.rs:49-67 | reading inverts base-128 encoding for every 64-bit number, whatever follows |
| Wire.SkipPayload | src/wire.rs:69-93 | stays in bounds and moves exactly past a payload of wire type 0, 1, 2 or 5, failing on every other type or a truncated one |
| Wire.DuplicateSingularFields | src/wire.rs:95-124 | on arbitrary bytes: ascending, exactly the singular fields whose 32-bit counter ends above 1 |
| WireFields.MinimalSpells | src/wire.rs:49-67 | the base-128 encoding of a 64-bit number is one of its spellings, so messages are not limited by their spelling |
| WireFields.WalkReadsScanned | src/wire.rs:72-116 | over every message, groups included and however its varints are spelled, the walk counts the fields in order up to and including the first group, and no more |
| WireFields.WalkReadsAll | src/wire.rs:101-116 | over a message without a group the walk counts every field in order |
| WireFields.ReportsExactly | src/wire.rs:95-124 | over every message a field is reported exactly when it is on the list and its occurrences up to the first group, counted in 32 bits, exceed one; so nothing is reported that is no duplicate of a non-repeated field |
| WireFields.ReportsExactlyDuplicates | src/wire.rs:95-124 | over a message without a group, a listed field that occurs fewer than 2^32 times is reported exactly when it occurs at least twice |
| WireFields.CatchesExactly | proto/octet/proof/proof.proto:272-312 | of the non-repeated fields of the schema that occur at least twice in a message, those reported are exactly the ones on the list, which lacks field 20, whose 32-bit count up to the first group exceeds one |
| WireFields.MeetsSchemaExactly | src/wire.rs:10-17 | over every message: the guard reports exactly the duplicated non-repeated fields of the schema if and only if field 20 occurs at most once and every duplicated listed field is counted more than once before the first group ends the walk |
| WireFields.CountersSuffice | src/wire.rs:103-112 | no counter wraps on fewer than 2^32 bytes |
| WireFields.MeetsSchemaInRange | src/wire.rs:95-124 | so for messages of fewer than 2^32 bytes the condition is that field 20 occurs at most once and the second occurrence of every other duplicate comes no later than the first group |
| WireFields.HiddenByGroup | src/wire.rs:81 | eight bytes in which an unknown group hides a second field 7 |
| WireFields.SecondUncertaintyIsMissed | proto/octet/proof/proof.proto:309 | six bytes with field 20 twice, of which nothing is reported |
| WireFields.WrappedIsMissed | src/wire.rs:103-112 | 2^32 copies of one field, more than a protobuf message can hold, would bring its counter back to 0 |
| WireFields.AppendKeepsDuplicates | src/wire.rs:95-124 | while its counter does not wrap, appending bytes never removes a reported duplicate |
| StageChain.CheckLinkage | src/verify.rs:1312-1342 | passes exactly when every hash has 32 bytes, the first stage has no link, every other links to its predecessor's hash, and no timestamp goes back; each refusal names a real fault |
| StageChain.RemovalBreaks | src/verify.rs:1312-1342 | leaving out a stage other than the last breaks the linkage, unless its hash repeats the one before |
| StageChain.ExchangeBreaks | src/verify.rs:1312-1342 | exchanging two stages with different hashes breaks it |
| StageChain.TimeAscends | src/verify.rs:1336-1338 | along an accepted chain no later stage has an earlier timestamp |
| StageChain.CheckSignatures | src/verify.rs:1344-1354 | passes exactly when every stage's signature is non-empty, well shaped and accepted; a refusal names the first that is not |
| StageChain.DerShape | src/crypto.rs:57-59 | a DER signature, as far as modelled, is a SEQUENCE whose one-byte length is that of its content |
| StageChain.CheckAssembly | src/verify.rs:1356-1371 | passes exactly when the final hash is that of all prior signatures concatenated |
| StageChain.RawSignatureAt | src/verify.rs:1358-1363 | in raw form the hashed concatenation has 64 bytes a stage, signature i at byte 64i |
| StageChain.SignaturesDetermined | src/verify.rs:1358-1363 | the unprefixed concatenation determines every signature and their number |
| StageChain.MessageDetermined | src/verify.rs:1296-1310 | at one place in two linked chains the unprefixed message has one reading |
| StageChain.MessageLayout | src/verify.rs:1301-1310 | name, hash, timestamp in 8 bytes and link follow each other, and nothing else |
| StageChain.FinalHashPinsChain | src/verify.rs:1294-1371 | under one key, the final hash determines every prior stage's name, hash, timestamp, link and signature, and their number, or exhibits a collision or one signature accepted for two messages |
| SemanticBinding.Report.AddSemanticBinding | src/verify.rs:794-867 | versions are tried newest first; the checks added, the exposed verdict and the exposed query are those the matched version allows |
| SemanticBinding.Report.AddQueryRegionV3 | src/verify.rs:980-1014 | a present query passes and is exposed only when well shaped and answered |
| SemanticBinding.VerdictExposed | src/verify.rs:1283-1292 | the exposed answer is inside, outside or indeterminate exactly when the binding passed under version 2 or 3 and the signed ordinal is 1, 2 or 3; otherwise there is none |
| SemanticBinding.BindingStatus | src/verify.rs:801-867 | when the binding is recorded as passed, warned about, not checked, and so when failed; the query check is added exactly under version 3 |
| SemanticBinding.QueryExposed | src/verify.rs:994-1014 | a query is exposed exactly under version 3, well shaped and answered; any other present query fails the check |
| SemanticBinding.PreimageDetermines | src/verify.rs:1124-1235 | equal preimages are of one version and agree on every field it signs |
| SemanticBinding.PreimageLayout | src/verify.rs:1124-1235 | where each field of the three preimages lies, after a label whose last byte is the version: absent integrity is 0, an absent query is type 0 and no bytes |
| SemanticBinding.OneVersionMatches | src/verify.rs:811-863 | no stage hash recomputes under two versions, so the order of trying them decides nothing, or exhibits a collision |
| SemanticBinding.QueriesAgree | src/verify.rs:1225-1228 | an absent query and (0, empty) share a preimage; the shape check separates them |
| SemanticBinding.BindingPinsFields | src/verify.rs:794-867 | two bound reports over one stage hash matched the same version, agree on every signed field and on the query, and expose the same results, or exhibit a collision |
| SemanticBinding.UnsignedQueryFails | src/verify.rs:825-848 | putting any other query on a bound proof unbinds it, whichever version signed it, or exhibits a collision |
| RegionIdentity.SortedIdsAgree | src/verify.rs:1099-1109 | the order in which H3 cells are listed never reaches the digest, and their multiplicity always does |
| RegionIdentity.SortedIdsAscend | src/verify.rs:1099-1109 | the ids are hashed in ascending order, each as often as listed |
| RegionIdentity.ReferenceHolds | src/verify.rs:1062-1176 | each region's tag, and what its reference holds in each version: a name, an altitude or the digest of its message |
| RegionIdentity.DigestedNumbers | src/verify.rs:1088-1176 | which numbers a city, an ellipse, a box and an H3 set hash, and in which order |
| RegionIdentity.RefV2PinsGeometry | src/verify.rs:1151-1176 | a version 2 reference is the same for the same region and pins its geometry, or exhibits a collision |
| RegionIdentity.RefV1PinsIdentity | src/verify.rs:1034-1081 | a version 1 reference pins the region except a city's centre and radius and the earth's altitude cap, which it ignores |
| RegionIdentity.BindingPinsRegion | src/verify.rs:794-867 | two bound reports over one stage hash claim one region, geometry included, whichever version signed it, or exhibit a collision |
| RegionIdentity.SameCellRegion | src/verify.rs:912-929 | two bound proofs over one stage hash that claim canonical cell sets claim the same leaves, or exhibit a collision; and sets that cover the same leaves are signed alike |
| RegionIdentity.SameVoxelRegion | src/verify.rs:912-929 | the same for accepted voxel sets and the points they cover |
| RegionIdentity.QueryNamesRegion | src/verify.rs:1237-1263 | recognising an exposed query by comparing references names one region, and the query comes from version 3 with an answer |
| RegionIdentity.ReferencesAreWellShaped | src/verify.rs:1237-1281 | the shape table accepts every reference to query by, but for a country code not of two bytes and a subdivision code that is not ASCII with a dash; and no other kind |
| SignedProofs.SameHashByName | src/verify.rs:1373-1375 | in chains that agree stage by stage and in the final hash, a stage found by name has one hash |
| SignedProofs.FinalHashPinsClaims | src/verify.rs:554-594 | two proofs with accepted chains under one key, bound semantic checks and one final hash have one chain, agree on every signed field, the query, the region with its geometry and what a report exposes, or exhibit a collision or one signature accepted for two messages |
| CallerManifests.Validate | src/caller_metadata.rs:93-124 | accepts exactly 1 to 16 entries with distinct keys, each within the limits; each refusal names a real fault |
| CallerManifests.LimitsAre | src/caller_metadata.rs:93-124 | the limits in figures |
| CallerManifests.NameBytesAre | src/caller_metadata.rs:198-209 | the characters a media type is made of |
| CallerManifests.MediaTypeMeans | src/caller_metadata.rs:198-209 | a media type is a slash with a name on each side, each starting with a letter or digit |
| CallerManifests.OneSlash | src/caller_metadata.rs:198-209 | an accepted media type has exactly one slash, so one split |
| CallerManifests.PreimageFits | src/caller_metadata.rs:140-144 | no valid manifest reaches the 16 KiB bound |
| CallerManifests.BuildPreimage | src/caller_metadata.rs:126-147 | yields the specified bytes exactly for valid manifests and never refuses for length |
| CallerManifests.PreimageLayout | src/caller_metadata.rs:126-147 | a reader finds the label, the count, and each entry's fields with their lengths, one after the other |
| CallerManifests.PreimageDetermines | src/caller_metadata.rs:126-147 | one preimage, one list of (key, contentType, size, digest) in order |
| CallerManifests.SameEntriesSameBytes | src/caller_metadata.rs:24-25 | the salts do not reach the preimage |
| EntryHashing.HashChunks | src/caller_metadata.rs:272-297 | however the value is cut into chunks, digest and length are the one-shot ones |
| EntryHashing.EntryHasher.Update | src/caller_metadata.rs:288-291 | the running hash has seen the salt and all the value so far, and counts only the value |
| EntryHashing.EntryDigestReader | src/caller_metadata.rs:234-253 | interrupted reads are retried, a failed one is an error, and the digest is of the salt and the bytes read |
| EntryHashing.StreamedIsValue | src/caller_metadata.rs:234-253 | a readable stream is hashed whole when it is within the limit, and otherwise read far enough to exceed it |
| EntryHashing.StreamedFails | src/caller_metadata.rs:240-252 | streaming errors exactly when a read fails before the end and before more than the limit has been read |
| CallerMetadata.ManifestFromProof | src/caller_metadata.rs:516-538 | field 19 entry for entry with empty salts, an error exactly when some digest is not 32 bytes |
| CallerMetadata.FirstDifference | src/caller_metadata.rs:540-561 | no difference exactly when count, order and every committed field agree; otherwise the first place and field that differ |
| CallerMetadata.DigestOnly | src/caller_metadata.rs:459-473 | an entry counts by digest exactly when no content names its key and its content is not required; when required it is unresolved |
| CallerMetadata.ContentOnly | src/caller_metadata.rs:474-491 | content that cannot be had, be it unavailable, unopenable or failing while it is read, leaves the entry unresolved; any other is compared by length and digest |
| CallerMetadata.CheckCallerMetadata | src/caller_metadata.rs:393-507 | each of the seven outcomes is returned exactly under its own condition, in the order in which they win, and the two counts are the entries matched by content and by digest |
| CallerMetadata.NothingPresented | src/caller_metadata.rs:470-473 | a manifest presented alone is verified, every entry by digest |
| CallerMetadata.TalliesCover | src/caller_metadata.rs:450-505 | every entry is counted in exactly one state |
| CallerMetadata.CheckCallerManifest | src/caller_metadata.rs:566-621 | passes exactly when field 19 is a valid manifest, recomputes the stage and agrees with the presenter's; invalid exactly when it breaks a limit |
| CallerMetadata.VerifiedIsListed | src/caller_metadata.rs:41-45 | a verified presentation of a proof with field 19 makes the field-19 check pass, although field 19 has no salts |
| CallerMetadata.ListedNeverMismatches | src/caller_metadata.rs:41-45 | when field 19 passes, a valid manifest of the same stage never differs from it, or exhibits a collision |
| CallerMetadata.DeliveryIsIrrelevant | src/caller_metadata.rs:255-270 | in memory, from a file, or hashed by the caller, a value gets one verdict |
| CallerMetadata.MatchedValue | src/caller_metadata.rs:484-491 | a value supplied as bytes or a file matches exactly when its length is the signed size and its salted hash the signed digest |
| CallerMetadata.RequiredIsSeen | src/caller_metadata.rs:445-464 | every required key of a verified presentation was matched by its content |
| CallerMetadata.AllIsAll | src/caller_metadata.rs:299-309 | when all content is required, a verified presentation matched every entry by content |
| CallerMetadata.SameStageSameEntries | src/caller_metadata.rs:1-25 | two verified presentations against one stage list the same entries in the same order, or exhibit a collision |
| CallerMetadata.SameStageSameContent | src/caller_metadata.rs:24-25 | for an entry both supply, salt and value are identical, or exhibit a collision: neither can borrow bytes from the other |
| SessionRevisions.VerdictStage | src/browser.rs:772-841 | the outcome is that of the claims' own rules, then of the session's history |
| SessionRevisions.PassesExactly | src/browser.rs:780-840 | a v=4 token fails exactly for malformed claims, a revision below the highest, or not repeating the session's final; it is the session's verdict exactly when it passes as a complete final |
| SessionRevisions.OlderPassExactly | src/browser.rs:775-780 | a token from before v=4 passes exactly when it carries none of the three stage claims |
| SessionRevisions.NextRevisions | src/browser.rs:339-391 | the optional readings of stage and revision drop no accepted v=4 token and let no older one through; the state left has the token's own revision as its highest, and a final exactly when the token is one |
| SessionRevisions.AcceptedStep | src/browser.rs:259-268 | an accepted token's revision becomes the highest, a final is the highest, and a recorded final stays |
| SessionRevisions.RevisionStore.Run | src/bin/octet-verify.rs:2210-2237 | the store changes only at the token's session and only by what an accepted v=4 token leaves |
| SessionRevisions.AlwaysCoherent | src/browser.rs:259-268 | at every point of every run a session's final revision is its highest |
| SessionRevisions.OthersChangeNothing | src/browser.rs:379-384 | a refused token, a token before v=4 or one of another session leaves the session as it was |
| SessionRevisions.AcceptedInOrder | src/browser.rs:817-829 | over every run, accepted revisions never decrease, accepted finals share one revision, and nothing provisional follows a final |
| SessionRevisions.GateClosesSession | src/browser.rs:372-377 | without the opt-in, a v=4 token passes only as a complete final, after which only finals of its revision are accepted |
| SessionRevisions.GateExactly | src/browser.rs:361-377 | an accepted token passes the gate unless it is a v=4 token that is not a complete final and the caller did not opt in |
| CivilDate.EpochIsZero | src/bin/octet-verify.rs:1138-1148 | 1970-01-01 is day 0 |
| CivilDate.NextIsOneMore | src/bin/octet-verify.rs:1128-1148 | the calendar day after any valid date of any year is valid and one more |
| CivilDate.CountsDays | src/bin/octet-verify.rs:1138-1148 | counting n days from any date adds n |
| CivilDate.OrderIsDayNumbers | src/bin/octet-verify.rs:1138-1148 | the order of dates is the order of day numbers, and distinct dates have distinct numbers |

## Left out

- Floating point: the projection from latitude, longitude or direction to (face, i, j), and the rounding of `f_index`. Heights are real numbers; scaling a double by a power of two is exact, so nothing is lost there.
- SHA-256, ECDSA, X.509, App Attest and key attestation: parameters, or not part of this model.
- DER signatures: modelled by their framing only (a SEQUENCE of short-form length that fills the signature); the integers inside are part of the accepting predicate.
- Slices.Sort: an ascending arrangement of the same elements, as the library promises; which of two equivalent elements comes first is not modelled, and neither is the running time. The partition-point search is a bisection.
- Refinement.Refine: the two halves of the source's recursion are two methods, and the vector it pushes to is passed in and returned rather than updated in place.
- S2 normalisation, interval merging and the checks work on sequences that are reassigned; pushing and truncating a vector in place is not modelled.
- Wire.SkipPayload: takes `usize` to be 64 bits wide; on a 32-bit target the cast of a payload's length drops its high bits.
- Wire.DuplicateSingularFields: models release builds, where a counter wraps; a build with overflow checks stops instead. A message of less than 2^32 bytes reaches neither.
- WireFields.AppendKeepsDuplicates: stated for a counter that does not wrap.
- SemanticBinding.BindingPinsFields: stated for field lengths below 2^32, the range of the length prefixes; a protobuf message is at most 2 GiB.
- RegionIdentity.BindingPinsRegion: the same bound on names and lists.
- EntryHashing.StreamedIsValue: stated for streams of fewer than 2^64 bytes, the range of a file's length.
- CallerMetadata.CheckCallerMetadata: takes the stage's hash, not the list of stages; finding a stage by name is modelled in SemanticBinding.
- Check details and wording, the JSON manifest form, locator warnings, and hex decoding: formatting and parsing without an invariant.
- Token parsing: JWS, PASETO, JWKS, and the JSON forms of claims and of the stored revisions. Tokens are decoded claims with the verdict of the signature and of all other checks given.
- The manifest sequence store and root manifest, the hash chain over reports, session and replay checks, uncertainty checks: single-branch checks, or the length-prefix argument again.
- Other checks of a proof (field bindings, nullifier, freshness, tiers, region expectations), the backend client, and the command line.
- The protobuf decoder: which bytes decode, and to what, is not part of this model.
- H3 containment: delegated to a library.
- `token`, `code` and similar accessors: they would only add easy members.
