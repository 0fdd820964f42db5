/** Hashing a value under its salt (src/caller_metadata.rs): at once, in chunks, or
    streamed from a reader. All three agree, and the signed size says where the
    salt ends. */
module EntryHashing {
  import opened Bytes
  import opened Options
  import opened Slices

  /** What one `read` call gives; no bytes is the end of the stream. */
  datatype Read = Chunk(bytes: seq<Byte>) | Interrupted | Failed

  /** A digest under the salt, and the number of value bytes counted, as a u64. */
  datatype Digested = Digested(digest: seq<Byte>, size: nat)

  /** What a stream holds up to its end, when no read fails before that. */
  function StreamValue(source: seq<Read>): Option<seq<Byte>> {
    if source == [] then Some([]) else
    match source[0]
    case Interrupted => StreamValue(source[1..])
    case Failed => None
    case Chunk(b) =>
      if b == [] then Some([]) else
      match StreamValue(source[1..])
      case None => None
      case Some(rest) => Some(b + rest)
  }

  lemma CountStep(n: nat, k: nat)
    ensures (n % WORD + k) % WORD == (n + k) % WORD
  {
    var q := n / WORD;
    assert n == WORD * q + n % WORD;
    var m := n % WORD + k;
    assert n + k == WORD * q + m;
    assert m == WORD * (m / WORD) + m % WORD;
    assert n + k == WORD * (q + m / WORD) + m % WORD;
  }

  /** Incremental `SHA256(salt ‖ value)`; the running hash is modelled by the bytes fed to it. */
  class EntryHasher {
    var fed: seq<Byte>
    var n: U64
    ghost var salt: seq<Byte>
    ghost var value: seq<Byte>

    ghost predicate Valid()
      reads this
    {
      fed == salt + value && n == |value| % WORD
    }

    constructor (salt: seq<Byte>)
      ensures Valid() && this.salt == salt && value == []
    {
      fed, n := salt, 0;
      this.salt, value := salt, [];
    }

    method Update(chunk: seq<Byte>)
      requires Valid()
      modifies this
      ensures Valid() && salt == old(salt) && value == old(value) + chunk
    {
      CountStep(|value|, |chunk|);
      fed := fed + chunk;
      n := (n + |chunk|) % WORD;
      value := value + chunk;
    }

    method Finalize(sha: Hash) returns (digest: seq<Byte>, size: U64)
      requires Valid()
      ensures digest == sha(salt + value) && size == |value| % WORD
    {
      return sha(fed), n;
    }
  }

  /** However a value is cut into chunks, its digest is the one-shot digest. */
  method HashChunks(salt: seq<Byte>, chunks: seq<seq<Byte>>, sha: Hash) returns (digest: seq<Byte>, size: U64)
    ensures digest == sha(salt + Flat(chunks))
    ensures size == |Flat(chunks)| % WORD
  {
    var h := new EntryHasher(salt);
    for i := 0 to |chunks|
      invariant h.Valid() && h.salt == salt && h.value == Flat(chunks[..i])
    {
      h.Update(chunks[i]);
      assert chunks[..i + 1][..i] == chunks[..i];
    }
    assert chunks[..|chunks|] == chunks;
    digest, size := h.Finalize(sha);
  }

  /** What was read of a stream with a size limit: all of it, or enough to see it is longer. */
  ghost predicate ReadUpTo(all: seq<Byte>, got: seq<Byte>, limit: U64) {
    got <= all && if |all| <= limit then got == all else |got| > limit
  }

  /** Streams with bounded memory, to the digest of the bytes read and their count. What
      was read is settled by StreamedIsValue: for a stream that ends without an error and holds
      fewer than 2^64 bytes, the digest is the one-shot digest of the value whenever
      the value is within the limit, and otherwise the length says that it is longer. */
  method EntryDigestReader(salt: seq<Byte>, source: seq<Read>, limit: U64, sha: Hash)
    returns (r: Option<Digested>)
    ensures r == match Streamed(source, [], limit)
                 case None => None
                 case Some(v) => Some(Digested(sha(salt + v), |v| % WORD))
  {
    var h := new EntryHasher(salt);
    for i := 0 to |source|
      invariant h.Valid() && h.salt == salt
      invariant Streamed(source, [], limit) == Streamed(source[i..], h.value, limit)
    {
      assert source[i..][1..] == source[i + 1..];
      match source[i] {
        case Interrupted =>
        case Failed => return None;
        case Chunk(b) =>
          if b == [] { break; }
          h.Update(b);
          if h.n > limit { break; }
      }
    }
    var d, n := h.Finalize(sha);
    r := Some(Digested(d, n));
  }

  /** The bytes hashed when `v` are in already; `None` when a read fails first. */
  function Streamed(source: seq<Read>, v: seq<Byte>, limit: U64): Option<seq<Byte>> {
    if source == [] then Some(v) else
    match source[0]
    case Interrupted => Streamed(source[1..], v, limit)
    case Failed => None
    case Chunk(b) =>
      if b == [] then Some(v)
      else if |v + b| % WORD > limit then Some(v + b)
      else Streamed(source[1..], v + b, limit)
  }

  /** The bytes that the reads hold, one after the other. */
  function AllBytes(source: seq<Read>): seq<Byte> {
    if source == [] then []
    else (match source[0] case Chunk(b) => b case _ => []) + AllBytes(source[1..])
  }

  /** Read `i` fails, and the stream goes on until then. */
  predicate FailsAt(source: seq<Read>, i: nat) {
    i < |source| && source[i].Failed? && forall j :: 0 <= j < i ==> !source[j].Failed? && source[j] != Chunk([])
  }

  /** A read fails before the stream ends and before more than the limit has been read. */
  ghost predicate FailsWithin(source: seq<Read>, room: int) {
    exists i: nat :: FailsAt(source, i) && |AllBytes(source[..i])| <= room
  }

  lemma FailsNext(source: seq<Read>, k: nat, room: int)
    requires source != [] && !source[0].Failed? && source[0] != Chunk([])
    requires k == match source[0] case Chunk(b) => |b| case _ => 0
    ensures FailsWithin(source, room) <==> FailsWithin(source[1..], room - k)
  {
    if FailsWithin(source, room) {
      var i: nat :| FailsAt(source, i) && |AllBytes(source[..i])| <= room;
      assert source[..i][1..] == source[1..][..i - 1] && source[..i][0] == source[0];
      assert FailsAt(source[1..], i - 1);
    }
    if FailsWithin(source[1..], room - k) {
      var i: nat :| FailsAt(source[1..], i) && |AllBytes(source[1..][..i])| <= room - k;
      assert source[..i + 1][1..] == source[1..][..i] && source[..i + 1][0] == source[0];
      assert forall j :: 0 < j <= i ==> source[j] == source[1..][j - 1];
      assert FailsAt(source, i + 1);
    }
  }

  /** Streaming gives up exactly for such a failure. */
  lemma {:induction false} StreamedFails(source: seq<Read>, v: seq<Byte>, limit: U64)
    requires |v| <= limit && |v| + |AllBytes(source)| < WORD
    ensures Streamed(source, v, limit).None? <==> FailsWithin(source, limit - |v|)
  {
    if source == [] {
    } else {
      match source[0] {
        case Interrupted =>
          FailsNext(source, 0, limit - |v|);
          StreamedFails(source[1..], v, limit);
        case Failed =>
          assert FailsAt(source, 0) && source[..0] == [];
        case Chunk(b) =>
          if b == [] {
            assert forall i: nat :: FailsAt(source, i) ==> i == 0;
          } else {
            FailsNext(source, |b|, limit - |v|);
            if |v + b| <= limit { StreamedFails(source[1..], v + b, limit); }
          }
      }
    }
  }

  lemma {:induction false} StreamedIsValue(source: seq<Read>, v: seq<Byte>, limit: U64)
    requires StreamValue(source).Some? && |v| <= limit && |v| + |StreamValue(source).value| < WORD
    ensures Streamed(source, v, limit).Some?
    ensures ReadUpTo(v + StreamValue(source).value, Streamed(source, v, limit).value, limit)
  {
    if source == [] {
      assert v + [] == v;
    } else {
      match source[0] {
        case Interrupted => StreamedIsValue(source[1..], v, limit);
        case Failed =>
        case Chunk(b) =>
          if b == [] {
            assert v + [] == v;
          } else {
            var rest := StreamValue(source[1..]).value;
            assert v + (b + rest) == (v + b) + rest;
            if |v + b| <= limit { StreamedIsValue(source[1..], v + b, limit); }
          }
      }
    }
  }
}
