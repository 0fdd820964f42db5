/** The signed stage chain (src/verify.rs): linkage, signatures and assembly, and
    what a chain accepted under one key pins down. */
module StageChain {
  import opened Bytes
  import opened Options

  datatype Stage = Stage(
    name: seq<Byte>, dataHash: seq<Byte>, timestamp: I64, previous: Option<seq<Byte>>, signature: seq<Byte>)

  /** The wire encoding of a signature, chosen by platform. */
  datatype Encoding = Raw | Der

  /** Does the fixed hardware key accept this signature over this message? */
  type Verifier = (seq<Byte>, seq<Byte>) -> bool

  /** Two different messages one signature is accepted for. */
  ghost predicate Clash(verify: Verifier, m: seq<Byte>, n: seq<Byte>, signature: seq<Byte>) {
    m != n && verify(m, signature) && verify(n, signature)
  }

  /** The bytes `previous_hash` contributes: nothing when absent. */
  function Link(st: Stage): seq<Byte> {
    match st.previous
    case None => []
    case Some(p) => p
  }

  /** Name, hash, timestamp and link run together, with no length between them. */
  function StageMessage(st: Stage): seq<Byte> {
    st.name + st.dataHash + I64be(st.timestamp) + Link(st)
  }

  /** Where each signed field lies: the name first, the link last, the timestamp in 8
      bytes before the link. */
  lemma MessageLayout(st: Stage)
    ensures var n, h := |st.name|, |st.dataHash|;
            var m := StageMessage(st);
            && |m| == n + h + 8 + |Link(st)|
            && BytesAt(m, 0, st.name) && BytesAt(m, n, st.dataHash)
            && NumberAt(m, n + h, 8, Cast64(st.timestamp)) && BytesAt(m, n + h + 8, Link(st))
  {
    hide I64be, Link, NumberAt;
    var n, h := |st.name|, |st.dataHash|;
    var m := StageMessage(st);
    assert m[0..n] == st.name && m[n..n + h] == st.dataHash;
    assert m[n + h..n + h + 8] == I64be(st.timestamp) && m[n + h + 8..n + h + 8 + |Link(st)|] == Link(st);
    I64At(m, n + h, st.timestamp);
  }

  // --- check_linkage ---

  datatype Linkage =
    | LinkOk | FirstHasPrevious | BadHashLength(i: nat) | MissingPrevious(i: nat) | WrongPrevious(i: nat) | TimeGoesBack(i: nat)

  ghost predicate LinkedAt(stages: seq<Stage>, i: nat)
    requires i < |stages|
  {
    && |stages[i].dataHash| == 32
    && if i == 0 then Link(stages[0]) == []
       else stages[i].previous == Some(stages[i - 1].dataHash) && stages[i - 1].timestamp <= stages[i].timestamp
  }

  ghost predicate Linked(stages: seq<Stage>) {
    forall i :: 0 <= i < |stages| ==> LinkedAt(stages, i)
  }

  method CheckLinkage(stages: seq<Stage>) returns (r: Linkage)
    requires |stages| > 0
    ensures r.LinkOk? <==> Linked(stages)
    ensures r.FirstHasPrevious? ==> Link(stages[0]) != []
    ensures r.BadHashLength? ==> r.i < |stages| && |stages[r.i].dataHash| != 32
    ensures r.MissingPrevious? ==> 0 < r.i < |stages| && stages[r.i].previous.None?
    ensures r.WrongPrevious? ==> 0 < r.i < |stages| && Link(stages[r.i]) != stages[r.i - 1].dataHash
    ensures r.TimeGoesBack? ==> 0 < r.i < |stages| && stages[r.i].timestamp < stages[r.i - 1].timestamp
  {
    if stages[0].previous.Some? && stages[0].previous.value != [] {
      assert !LinkedAt(stages, 0);
      return FirstHasPrevious;
    }
    for i := 0 to |stages|
      invariant forall j :: 0 <= j < i ==> LinkedAt(stages, j)
    {
      if |stages[i].dataHash| != 32 {
        assert !LinkedAt(stages, i);
        return BadHashLength(i);
      }
      if i > 0 {
        if stages[i].previous.None? {
          assert !LinkedAt(stages, i);
          return MissingPrevious(i);
        }
        if stages[i].previous.value != stages[i - 1].dataHash {
          assert !LinkedAt(stages, i);
          return WrongPrevious(i);
        }
        if stages[i].timestamp < stages[i - 1].timestamp {
          assert !LinkedAt(stages, i);
          return TimeGoesBack(i);
        }
      }
    }
    return LinkOk;
  }

  /** Time never goes back along an accepted chain. */
  lemma {:induction false} TimeAscends(stages: seq<Stage>, i: nat, j: nat)
    requires Linked(stages) && i <= j < |stages|
    ensures stages[i].timestamp <= stages[j].timestamp
    decreases j
  {
    if i < j {
      assert LinkedAt(stages, j);
      TimeAscends(stages, i, j - 1);
    }
  }

  /** The chain with stage `i` left out. */
  function Without(stages: seq<Stage>, i: nat): seq<Stage>
    requires i < |stages|
  {
    stages[..i] + stages[i + 1..]
  }

  /** Leaving out a stage that is not the last breaks the linkage, unless its hash repeats the one before. */
  lemma RemovalBreaks(stages: seq<Stage>, i: nat)
    requires Linked(stages) && i + 1 < |stages|
    requires i > 0 ==> stages[i].dataHash != stages[i - 1].dataHash
    ensures !Linked(Without(stages, i))
  {
    var s := Without(stages, i);
    assert s[i] == stages[i + 1] && LinkedAt(stages, i + 1) && LinkedAt(stages, i);
    if i > 0 { assert s[i - 1] == stages[i - 1]; }
    assert !LinkedAt(s, i);
  }

  /** Exchanging two stages with different hashes breaks it too. */
  lemma ExchangeBreaks(stages: seq<Stage>, i: nat, j: nat)
    requires Linked(stages) && i < j < |stages| && stages[i].dataHash != stages[j].dataHash
    ensures !Linked(stages[i := stages[j]][j := stages[i]])
  {
    var s := stages[i := stages[j]][j := stages[i]];
    assert LinkedAt(stages, i) && LinkedAt(stages, i + 1) && LinkedAt(stages, j);
    if i + 1 < j {
      assert s[i + 1] == stages[i + 1] && !LinkedAt(s, i + 1);
    } else {
      assert !LinkedAt(s, i) || !LinkedAt(s, j);
    }
  }

  // --- check_signatures ---

  /** The size rule of the encoding: 64 bytes raw, or a short-form DER SEQUENCE of exactly its stated length. */
  predicate ShapeOk(enc: Encoding, s: seq<Byte>) {
    match enc
    case Raw => |s| == 64
    case Der => |s| >= 2 && s[0] == 0x30 && s[1] < 0x80 && |s| == 2 + s[1]
  }

  /** A DER signature is a SEQUENCE tag, a one-byte length, and exactly that much content. */
  lemma DerShape(s: seq<Byte>)
    ensures ShapeOk(Der, s) <==>
            exists content: seq<Byte> :: |content| < 128 && s == [0x30, |content|] + content
  {
    if ShapeOk(Der, s) { assert s == [0x30, |s[2..]|] + s[2..]; }
  }

  predicate SignedStage(st: Stage, enc: Encoding, verify: Verifier) {
    st.signature != [] && ShapeOk(enc, st.signature) && verify(StageMessage(st), st.signature)
  }

  ghost predicate Signed(stages: seq<Stage>, enc: Encoding, verify: Verifier) {
    forall i :: 0 <= i < |stages| ==> SignedStage(stages[i], enc, verify)
  }

  datatype Signatures = SigOk | EmptySignature(i: nat) | DoesNotVerify(i: nat)

  method CheckSignatures(stages: seq<Stage>, enc: Encoding, verify: Verifier) returns (r: Signatures)
    ensures r.SigOk? <==> Signed(stages, enc, verify)
    ensures !r.SigOk? ==> r.i < |stages| && Signed(stages[..r.i], enc, verify) && !SignedStage(stages[r.i], enc, verify)
    ensures r.EmptySignature? ==> stages[r.i].signature == []
  {
    for i := 0 to |stages|
      invariant forall j :: 0 <= j < i ==> SignedStage(stages[j], enc, verify)
    {
      var st := stages[i];
      if |st.signature| == 0 { return EmptySignature(i); }
      if !(ShapeOk(enc, st.signature) && verify(StageMessage(st), st.signature)) { return DoesNotVerify(i); }
    }
    return SigOk;
  }

  // --- check_assembly ---

  /** Every signature of `stages`, concatenated. */
  function Concat(stages: seq<Stage>): seq<Byte> {
    if stages == [] then [] else Concat(stages[..|stages| - 1]) + stages[|stages| - 1].signature
  }

  ghost predicate Assembled(stages: seq<Stage>, sha: Hash)
    requires |stages| > 0
  {
    sha(Concat(stages[..|stages| - 1])) == stages[|stages| - 1].dataHash
  }

  method CheckAssembly(stages: seq<Stage>, sha: Hash) returns (ok: bool)
    requires |stages| > 0
    ensures ok <==> Assembled(stages, sha)
  {
    var prior := stages[..|stages| - 1];
    var concat: seq<Byte> := [];
    for i := 0 to |prior|
      invariant concat == Concat(prior[..i])
    {
      concat := concat + prior[i].signature;
      assert prior[..i + 1][..i] == prior[..i];
    }
    assert prior[..|prior|] == prior;
    ok := sha(concat) == stages[|stages| - 1].dataHash;
  }

  // --- what acceptance pins ---

  /** All three checks pass on a chain of at least two stages. */
  ghost predicate Accepted(stages: seq<Stage>, enc: Encoding, verify: Verifier, sha: Hash) {
    |stages| >= 2 && Linked(stages) && Signed(stages, enc, verify) && Assembled(stages, sha)
  }

  lemma {:induction false} ConcatFirst(stages: seq<Stage>)
    requires stages != []
    ensures Concat(stages) == stages[0].signature + Concat(stages[1..])
  {
    var n := |stages| - 1;
    if n > 0 {
      ConcatFirst(stages[..n]);
      assert stages[..n][1..] == stages[1..][..n - 1];
      assert stages[1..][|stages[1..]| - 1] == stages[n];
    }
  }

  /** In raw form signature `i` is at byte `64 i` of what the final stage hashes. */
  lemma {:induction false} RawSignatureAt(stages: seq<Stage>, i: nat)
    requires i < |stages| && forall j :: 0 <= j < |stages| ==> ShapeOk(Raw, stages[j].signature)
    ensures |Concat(stages)| == 64 * |stages| && BytesAt(Concat(stages), 64 * i, stages[i].signature)
  {
    var n := |stages| - 1;
    if n > 0 { RawSignatureAt(stages[..n], if i < n then i else 0); }
    if i < n {
      Before(Concat(stages[..n]), stages[n].signature, 64 * i, stages[i].signature);
    } else {
      assert n == 0 ==> Concat(stages[..n]) == [];
      After(Concat(stages[..n]), stages[n].signature, 0, stages[n].signature);
    }
  }

  /** A signature's own bytes tell where it ends. */
  lemma SameLength(enc: Encoding, s: seq<Byte>, t: seq<Byte>, x: seq<Byte>, y: seq<Byte>)
    requires ShapeOk(enc, s) && ShapeOk(enc, t) && s + x == t + y
    ensures s == t && x == y
  {
    if enc == Der {
      assert (s + x)[1] == s[1] && (t + y)[1] == t[1];
    }
    SplitEqual(s, x, t, y);
  }

  /** The unprefixed concatenation still determines every signature and their number. */
  lemma {:induction false} SignaturesDetermined(a: seq<Stage>, b: seq<Stage>, enc: Encoding)
    requires forall i :: 0 <= i < |a| ==> ShapeOk(enc, a[i].signature)
    requires forall i :: 0 <= i < |b| ==> ShapeOk(enc, b[i].signature)
    requires Concat(a) == Concat(b)
    ensures |a| == |b| && forall i :: 0 <= i < |a| ==> a[i].signature == b[i].signature
  {
    if a != [] { ConcatFirst(a); }
    if b != [] { ConcatFirst(b); }
    if a != [] && b != [] {
      SameLength(enc, a[0].signature, b[0].signature, Concat(a[1..]), Concat(b[1..]));
      SignaturesDetermined(a[1..], b[1..], enc);
      forall i | 0 <= i < |a|
        ensures a[i].signature == b[i].signature
      {
        if i > 0 { assert a[i] == a[1..][i - 1] && b[i] == b[1..][i - 1]; }
      }
    }
  }

  /** Equal signed fields; on a first stage an absent and an empty link are the same bytes. */
  predicate SameStage(a: Stage, b: Stage) {
    a.name == b.name && a.dataHash == b.dataHash && a.timestamp == b.timestamp && Link(a) == Link(b) && a.signature == b.signature
  }

  /** At one position of two linked chains the message has one reading, though no part is length-prefixed. */
  lemma MessageDetermined(a: seq<Stage>, b: seq<Stage>, i: nat)
    requires Linked(a) && Linked(b) && i < |a| && i < |b|
    requires StageMessage(a[i]) == StageMessage(b[i])
    ensures a[i].name == b[i].name && a[i].dataHash == b[i].dataHash && a[i].timestamp == b[i].timestamp && Link(a[i]) == Link(b[i])
  {
    assert LinkedAt(a, i) && LinkedAt(b, i);
    if i > 0 { assert LinkedAt(a, i - 1) && LinkedAt(b, i - 1); }
    var s, t := a[i], b[i];
    assert |Link(s)| == |Link(t)|;
    SplitEqualRight(s.name + s.dataHash + I64be(s.timestamp), Link(s), t.name + t.dataHash + I64be(t.timestamp), Link(t));
    SplitEqualRight(s.name + s.dataHash, I64be(s.timestamp), t.name + t.dataHash, I64be(t.timestamp));
    SplitEqualRight(s.name, s.dataHash, t.name, t.dataHash);
    I64beInjective(s.timestamp, t.timestamp);
  }

  /** Some signature of the two chains is accepted for two different messages. */
  ghost predicate SomeClash(a: seq<Stage>, b: seq<Stage>, verify: Verifier) {
    exists i :: 0 <= i < |a| && i < |b| && Clash(verify, StageMessage(a[i]), StageMessage(b[i]), a[i].signature)
  }

  /** The final `data_hash` of an accepted chain determines every prior stage and their
      number, unless SHA-256 collides or one signature serves two messages. */
  lemma FinalHashPinsChain(a: seq<Stage>, b: seq<Stage>, enc: Encoding, verify: Verifier, sha: Hash)
    requires Accepted(a, enc, verify, sha) && Accepted(b, enc, verify, sha)
    requires a[|a| - 1].dataHash == b[|b| - 1].dataHash
    ensures
      || (|a| == |b| && forall i :: 0 <= i < |a| - 1 ==> SameStage(a[i], b[i]))
      || Collision(sha, Concat(a[..|a| - 1]), Concat(b[..|b| - 1]))
      || SomeClash(a, b, verify)
  {
    var p, q := a[..|a| - 1], b[..|b| - 1];
    if Concat(p) == Concat(q) && !SomeClash(a, b, verify) {
      forall i | 0 <= i < |p|
        ensures ShapeOk(enc, p[i].signature)
      {
        assert SignedStage(a[i], enc, verify);
      }
      forall i | 0 <= i < |q|
        ensures ShapeOk(enc, q[i].signature)
      {
        assert SignedStage(b[i], enc, verify);
      }
      SignaturesDetermined(p, q, enc);
      forall i | 0 <= i < |a| - 1
        ensures SameStage(a[i], b[i])
      {
        assert p[i] == a[i] && q[i] == b[i];
        assert SignedStage(a[i], enc, verify) && SignedStage(b[i], enc, verify);
        assert !Clash(verify, StageMessage(a[i]), StageMessage(b[i]), a[i].signature);
        MessageDetermined(a, b, i);
      }
    }
  }
}
