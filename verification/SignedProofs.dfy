/** The signed stage chain and the semantic binding together (src/verify.rs): what the
    final hash of an accepted, bound proof says about everything the proof claims. */
module SignedProofs {
  import opened Bytes
  import opened RegionIdentity
  import opened SemanticBinding
  import opened StageChain

  /** Equal prior stages and equal final hashes give equal hashes by name. */
  lemma {:induction false} SameHashByName(a: seq<Stage>, b: seq<Stage>, name: seq<Byte>)
    requires |a| == |b| >= 1 && a[|a| - 1].dataHash == b[|b| - 1].dataHash
    requires forall i :: 0 <= i < |a| - 1 ==> SameStage(a[i], b[i])
    requires StageByName(a, name).Some? && StageByName(b, name).Some?
    ensures StageByName(a, name).value.dataHash == StageByName(b, name).value.dataHash
  {
    if |a| > 1 {
      assert SameStage(a[0], b[0]);
      if a[0].name != name {
        forall i | 0 <= i < |a[1..]| - 1
          ensures SameStage(a[1..][i], b[1..][i])
        {
          assert SameStage(a[i + 1], b[i + 1]);
        }
        SameHashByName(a[1..], b[1..], name);
      }
    } else {
      assert a[1..] == [] && b[1..] == [];
    }
  }

  /** The two proofs claim the same: every signed field, the query, the region with its
      geometry, and what a report exposes of them. */
  ghost predicate SameClaims(p: Proof, q: Proof, rp: bool, rq: bool, sha: Hash) {
    && MatchedVersion(p, sha).Some? && MatchedVersion(p, sha) == MatchedVersion(q, sha)
    && Agree(MatchedVersion(p, sha).value, p, q, sha)
    && p.query == q.query && SameGeometry(p.region, q.region)
    && BindingOutcome(p, rp, sha) == BindingOutcome(q, rq, sha)
  }

  /** Their stages agree in number and, the final one aside, in every signed field. */
  ghost predicate SameChain(a: seq<Stage>, b: seq<Stage>) {
    |a| == |b| && forall i :: 0 <= i < |a| - 1 ==> SameStage(a[i], b[i])
  }

  /** Two proofs with accepted chains under one key, bound semantic checks and one final
      hash have one chain and make the same claims, or exhibit two messages with one
      SHA-256 hash or one signature accepted for two messages. */
  lemma FinalHashPinsClaims(p: Proof, q: Proof, rp: bool, rq: bool, enc: Encoding, verify: Verifier, sha: Hash)
    requires Accepted(p.stages, enc, verify, sha) && Accepted(q.stages, enc, verify, sha)
    requires Bound(p, rp, sha) && Bound(q, rq, sha)
    requires Sized(p, sha) && Sized(q, sha) && RegionFits(p.region) && RegionFits(q.region)
    requires p.stages[|p.stages| - 1].dataHash == q.stages[|q.stages| - 1].dataHash
    ensures MatchedVersion(p, sha).Some? && MatchedVersion(q, sha).Some?
    ensures
      || (SameChain(p.stages, q.stages) && SameClaims(p, q, rp, rq, sha))
      || RegionsCollide(p, q, sha)
      || Collision(sha, Concat(p.stages[..|p.stages| - 1]), Concat(q.stages[..|q.stages| - 1]))
      || SomeClash(p.stages, q.stages, verify)
  {
    hide Preimage, MatchedVersion, Bound, Sized, Agree, SameGeometry, BindingOutcome, Linked, Signed, Assembled, StageByName;
    hide Concat, SomeClash, SameStage, RegionFits, HashedCollide;
    BindingPinsFields(p, q, rp, rq, sha);
    BindingPinsRegion(p, q, rp, rq, sha);
    FinalHashPinsChain(p.stages, q.stages, enc, verify, sha);
    if SameChain(p.stages, q.stages) { SameHashByName(p.stages, q.stages, STAGE_NAME); }
  }
}
