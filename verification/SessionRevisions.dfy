/** The early-verdict revision rules of a browser session (src/browser.rs) and the
    revision store that threads them through a run (src/bin/octet-verify.rs). */
module SessionRevisions {
  import opened Bytes
  import opened Options

  // --- already decoded claims ---

  datatype StageClaim = NoStage | Provisional | Final | OtherStage

  datatype RevisionClaim = NoRevision | Revision(n: U64) | NotAnInteger

  datatype IncompleteClaim = NotIncomplete | IsTrue | OtherValue

  /** What the checks read of a token's claims; `reports` is the length of `chain.reports`. */
  datatype Claims = Claims(
    stage: StageClaim, revision: RevisionClaim, incomplete: IncompleteClaim,
    reports: Option<nat>, confidence: Option<real>, sessionRef: Option<string>)

  /** A token, its `v`, and whether its signature and every other check hold. */
  datatype Token = Token(version: nat, claims: Claims, jwsVerified: bool, otherChecksHold: bool)

  /** What has been accepted for one session. */
  datatype Revisions = Revisions(highest: U64, final: Option<U64>)

  const CONFIDENCE_CAP: real := 0.7

  // --- verdict_stage ---

  datatype StageCheck =
    | NotReported | Verified | Warning
    | StrayClaims | BadStage | BadRevision | BadIncomplete | BadReports | OverConfident | Lower | AlreadyFinal

  predicate Failed(c: StageCheck) {
    !c.NotReported? && !c.Verified? && !c.Warning?
  }

  predicate Layer1Only(c: Claims) {
    c.stage.Provisional? || c.incomplete.IsTrue?
  }

  /** The claims of a v=4 token are well formed, whatever came before. */
  function ShapeCheck(c: Claims): StageCheck {
    if !c.stage.Provisional? && !c.stage.Final? then BadStage
    else if !c.revision.Revision? || c.revision.n < 1 then BadRevision
    else if c.incomplete.OtherValue? || (c.incomplete.IsTrue? && !c.stage.Final?) then BadIncomplete
    else if c.reports.None? || (Layer1Only(c) && c.reports.value != 1) || !(1 <= c.reports.value <= 2) then BadReports
    else if Layer1Only(c) && c.confidence.Some? && c.confidence.value > CONFIDENCE_CAP then OverConfident
    else if c.stage.Final? && !c.incomplete.IsTrue? then Verified
    else Warning
  }

  /** The `verdict-stage` check against what the session has accepted. */
  method VerdictStage(version: nat, c: Claims, prior: Option<Revisions>) returns (r: StageCheck)
    ensures r == StageOutcome(version, c, prior)
  {
    if version < 4 {
      if !c.stage.NoStage? || !c.revision.NoRevision? || !c.incomplete.NotIncomplete? { return StrayClaims; }
      return NotReported;
    }
    if !c.stage.Provisional? && !c.stage.Final? { return BadStage; }
    if !c.revision.Revision? || c.revision.n < 1 { return BadRevision; }
    var rev := c.revision.n;
    var incomplete := false;
    match c.incomplete {
      case NotIncomplete =>
      case IsTrue =>
        if !c.stage.Final? { return BadIncomplete; }
        incomplete := true;
      case OtherValue => return BadIncomplete;
    }
    var layer1Only := c.stage.Provisional? || incomplete;
    match c.reports {
      case None => return BadReports;
      case Some(n) =>
        if layer1Only && n != 1 { return BadReports; }
        if !(1 <= n <= 2) { return BadReports; }
    }
    if layer1Only && c.confidence.Some? && c.confidence.value > CONFIDENCE_CAP { return OverConfident; }
    match prior {
      case None =>
      case Some(p) =>
        if rev < p.highest { return Lower; }
        if p.final.Some? && (rev != p.final.value || !c.stage.Final?) { return AlreadyFinal; }
    }
    return if c.stage.Final? && !incomplete then Verified else Warning;
  }

  function StageOutcome(version: nat, c: Claims, prior: Option<Revisions>): StageCheck {
    if version < 4 then
      (if c.stage.NoStage? && c.revision.NoRevision? && c.incomplete.NotIncomplete? then NotReported else StrayClaims)
    else if Failed(ShapeCheck(c)) then ShapeCheck(c)
    else if prior.Some? && c.revision.n < prior.value.highest then Lower
    else if prior.Some? && prior.value.final.Some? && (c.revision.n != prior.value.final.value || !c.stage.Final?) then AlreadyFinal
    else ShapeCheck(c)
  }

  /** A v=4 token's claims: a stage, a revision of 1 or more, at most two reports, and
      for a verdict on layer 1 alone (provisional or incomplete) one report and the cap. */
  predicate WellFormed(c: Claims) {
    && (c.stage.Provisional? || c.stage.Final?)
    && c.revision.Revision? && c.revision.n >= 1
    && !c.incomplete.OtherValue? && (c.incomplete.IsTrue? ==> c.stage.Final?)
    && c.reports.Some? && 1 <= c.reports.value <= 2
    && (c.stage.Provisional? || c.incomplete.IsTrue? ==>
          c.reports.value == 1 && (c.confidence.Some? ==> c.confidence.value <= 0.7))
  }

  /** A v=4 token fails the check exactly for malformed claims, a revision below the
      session's highest, or a session whose final it does not repeat. */
  lemma PassesExactly(version: nat, c: Claims, prior: Option<Revisions>)
    requires version >= 4
    ensures !Failed(StageOutcome(version, c, prior)) <==>
            && WellFormed(c)
            && (prior.Some? ==> prior.value.highest <= c.revision.n)
            && (prior.Some? && prior.value.final.Some? ==> c.stage.Final? && prior.value.final.value == c.revision.n)
    ensures StageOutcome(version, c, prior) == Verified <==>
            !Failed(StageOutcome(version, c, prior)) && c.stage.Final? && !c.incomplete.IsTrue?
  {
    assert Layer1Only(c) <==> c.stage.Provisional? || c.incomplete.IsTrue?;
  }

  /** A token from before v=4 passes exactly when it carries none of the stage claims, and
      then there is nothing to report. */
  lemma OlderPassExactly(version: nat, c: Claims, prior: Option<Revisions>)
    requires version < 4
    ensures !Failed(StageOutcome(version, c, prior)) <==> c.stage.NoStage? && c.revision.NoRevision? && c.incomplete.NotIncomplete?
    ensures !Failed(StageOutcome(version, c, prior)) ==> StageOutcome(version, c, prior) == NotReported
  {
  }

  // --- acceptance and the state to persist ---

  predicate Accepted(t: Token, prior: Option<Revisions>) {
    t.jwsVerified && t.otherChecksHold && !Failed(StageOutcome(t.version, t.claims, prior))
  }

  /** An accepted token of the early-verdict profile. */
  predicate AcceptedV4(t: Token, prior: Option<Revisions>) {
    Accepted(t, prior) && t.version == 4
  }

  /** What a report lets a caller read of the v=4 claims: they must be signed, and of that version. */
  function V4Claims(t: Token): Option<Claims> {
    if t.jwsVerified && t.version == 4 then Some(t.claims) else None
  }

  function StageOf(t: Token): Option<StageClaim> {
    match V4Claims(t)
    case None => None
    case Some(c) => if c.stage.Provisional? || c.stage.Final? then Some(c.stage) else None
  }

  function RevisionOf(t: Token): Option<U64> {
    match V4Claims(t)
    case None => None
    case Some(c) => if c.revision.Revision? then Some(c.revision.n) else None
  }

  /** The state to persist. Of the accepted tokens exactly those of v=4 leave one: their
      stage and revision can always be read, those of an older token never. The highest
      revision left is the token's own, since a lower one is not accepted. */
  function NextRevisions(t: Token, prior: Option<Revisions>): (r: Option<Revisions>)
    ensures r.Some? <==> AcceptedV4(t, prior)
    ensures r.Some? ==> t.claims.revision == Revision(r.value.highest)
    ensures r.Some? ==> (t.claims.stage.Final? ==> r.value.final == Some(r.value.highest))
    ensures r.Some? && !t.claims.stage.Final? ==> r.value.final == None && (prior.Some? ==> prior.value.final == None)
  {
    if !Accepted(t, prior) then None
    else
      match (RevisionOf(t), StageOf(t))
      case (Some(rev), Some(stage)) =>
        var before := match prior case None => Revisions(0, None) case Some(p) => p;
        Some(Revisions(if before.highest < rev then rev else before.highest,
                       if stage.Final? then Some(rev) else before.final))
      case _ => None
  }

  /** The state a session can be in: a final is always the highest revision. */
  ghost predicate Coherent(p: Option<Revisions>) {
    p.Some? && p.value.final.Some? ==> p.value.final.value == p.value.highest
  }

  /** One accepted token: its revision becomes the highest, and finals stay put. */
  lemma AcceptedStep(t: Token, prior: Option<Revisions>)
    requires AcceptedV4(t, prior) && Coherent(prior)
    ensures NextRevisions(t, prior).Some? && Coherent(NextRevisions(t, prior))
    ensures NextRevisions(t, prior).value.highest == t.claims.revision.n
    ensures prior.Some? ==> prior.value.highest <= t.claims.revision.n
    ensures prior.Some? && prior.value.final.Some? ==>
              t.claims.stage.Final? && NextRevisions(t, prior).value.final == prior.value.final
    ensures t.claims.stage.Final? <==> NextRevisions(t, prior).value.final == Some(t.claims.revision.n)
  {
  }

  // --- the store over a run ---

  type Store = map<string, Revisions>

  function PriorOf(store: Store, session: Option<string>): Option<Revisions> {
    if session.Some? && session.value in store then Some(store[session.value]) else None
  }

  function StoreAfter(store: Store, t: Token): Store {
    var next := NextRevisions(t, PriorOf(store, t.claims.sessionRef));
    if next.Some? && t.claims.sessionRef.Some? then store[t.claims.sessionRef.value := next.value] else store
  }

  class RevisionStore {
    var revisions: Store

    constructor ()
      ensures revisions == map[]
    {
      revisions := map[];
    }

    /** Verify one token against its session's state and persist what it changes. */
    method Run(t: Token) returns (accepted: bool)
      modifies this
      ensures accepted == Accepted(t, PriorOf(old(revisions), t.claims.sessionRef))
      ensures revisions == StoreAfter(old(revisions), t)
    {
      var prior := PriorOf(revisions, t.claims.sessionRef);
      var check := VerdictStage(t.version, t.claims, prior);
      accepted := t.jwsVerified && t.otherChecksHold && !Failed(check);
      var next := NextRevisions(t, prior);
      if next.Some? && t.claims.sessionRef.Some? {
        revisions := revisions[t.claims.sessionRef.value := next.value];
      }
    }
  }

  /** The store after the first `k` tokens of a run. */
  function StoreAt(run: seq<Token>, k: nat): Store
    requires k <= |run|
  {
    if k == 0 then map[] else StoreAfter(StoreAt(run, k - 1), run[k - 1])
  }

  /** Token `i` of the run is an accepted v=4 token of this session. */
  ghost predicate Counts(run: seq<Token>, i: nat, session: string) {
    i < |run| && run[i].claims.sessionRef == Some(session) && AcceptedV4(run[i], PriorOf(StoreAt(run, i), Some(session)))
  }

  ghost function StateAt(run: seq<Token>, k: nat, session: string): Option<Revisions>
    requires k <= |run|
  {
    PriorOf(StoreAt(run, k), Some(session))
  }

  /** A refused token, a pre-v4 token or another session's token leaves a session as it was. */
  lemma OthersChangeNothing(run: seq<Token>, i: nat, session: string)
    requires i < |run| && !Counts(run, i, session)
    ensures StateAt(run, i + 1, session) == StateAt(run, i, session)
  {
  }

  lemma CountedStep(run: seq<Token>, i: nat, session: string)
    requires Counts(run, i, session)
    ensures StateAt(run, i + 1, session) == NextRevisions(run[i], StateAt(run, i, session))
    ensures StateAt(run, i + 1, session).Some?
  {
  }

  lemma {:induction false} AlwaysCoherent(run: seq<Token>, k: nat, session: string)
    requires k <= |run|
    ensures Coherent(StateAt(run, k, session))
  {
    hide AcceptedV4, NextRevisions;
    if k > 0 {
      AlwaysCoherent(run, k - 1, session);
      if Counts(run, k - 1, session) {
        CountedStep(run, k - 1, session);
        AcceptedStep(run[k - 1], StateAt(run, k - 1, session));
      } else {
        OthersChangeNothing(run, k - 1, session);
      }
    }
  }

  /** What an accepted token leaves behind for the rest of the run. */
  ghost predicate Remembers(state: Option<Revisions>, t: Token) {
    && state.Some?
    && t.claims.revision.Revision? && t.claims.revision.n <= state.value.highest
    && (t.claims.stage.Final? ==> state.value.final == Some(t.claims.revision.n))
  }

  lemma {:induction false} StaysRemembered(run: seq<Token>, i: nat, k: nat, session: string)
    requires Counts(run, i, session) && i < k <= |run|
    ensures Remembers(StateAt(run, k, session), run[i])
    decreases k
  {
    AlwaysCoherent(run, k - 1, session);
    if Counts(run, k - 1, session) {
      CountedStep(run, k - 1, session);
      AcceptedStep(run[k - 1], StateAt(run, k - 1, session));
    } else {
      OthersChangeNothing(run, k - 1, session);
    }
    if i < k - 1 { StaysRemembered(run, i, k - 1, session); }
  }

  /** Over every run, for any two accepted v=4 tokens of one session: revisions never
      decrease, finals share one revision, and nothing provisional follows a final. */
  lemma AcceptedInOrder(run: seq<Token>, i: nat, j: nat, session: string)
    requires Counts(run, i, session) && Counts(run, j, session) && i < j
    ensures run[i].claims.revision.Revision? && run[j].claims.revision.Revision?
    ensures run[i].claims.revision.n <= run[j].claims.revision.n
    ensures run[i].claims.stage.Final? ==>
              run[j].claims.stage.Final? && run[i].claims.revision.n == run[j].claims.revision.n
  {
    StaysRemembered(run, i, j, session);
    AlwaysCoherent(run, j, session);
    AcceptedStep(run[j], StateAt(run, j, session));
  }

  // --- the gate ---

  /** A complete final, or a token from before there were stages. */
  predicate IsFinal(t: Token) {
    t.version == 4 ==> StageOf(t) == Some(Final) && !(V4Claims(t).Some? && t.claims.incomplete.IsTrue?)
  }

  /** Valid, and the session's verdict unless the caller accepts less. */
  predicate PassesGate(t: Token, prior: Option<Revisions>, acceptProvisional: bool) {
    Accepted(t, prior) && (acceptProvisional || IsFinal(t))
  }

  /** Every accepted token from before v=4 passes the gate; a v=4 token without the opt-in
      when it is a complete final, with it always. */
  lemma GateExactly(t: Token, prior: Option<Revisions>, acceptProvisional: bool)
    ensures PassesGate(t, prior, acceptProvisional) <==>
            && Accepted(t, prior)
            && (t.version == 4 && !acceptProvisional ==> t.claims.stage == Final && t.claims.incomplete != IsTrue)
  {
  }

  /** Without the opt-in, a v=4 token passes only as a verified complete final, and
      after it the session accepts nothing but finals of that revision. */
  lemma GateClosesSession(run: seq<Token>, i: nat, j: nat, session: string)
    requires Counts(run, i, session) && Counts(run, j, session) && i < j
    requires PassesGate(run[i], StateAt(run, i, session), false)
    ensures StageOutcome(4, run[i].claims, StateAt(run, i, session)) == Verified
    ensures run[j].claims.stage.Final? && run[j].claims.revision == run[i].claims.revision
  {
    AcceptedInOrder(run, i, j, session);
  }
}
