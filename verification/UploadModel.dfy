/**
 The resumable upload of one file as a state and its steps: what the server stores, what one
 part may do to it, and what every run of parts keeps.
 */
module UploadModel {
  import opened Bytes
  import opened ChunkFormat
  import opened ChunkDecode
  import opened BlobFile
  import opened ChunkWriter
  import R = ChunkResume

  /**
   size and received are the row's columns, blob the bytes on disk.  prefix is the nonce prefix
   of the current stream, acked the plaintext of all acknowledged parts, and log every
   (nonce, plaintext) pair sealed for this file so far.
   */
  datatype FileState = FileState(size: nat, blob: seq<byte>, received: nat,
                                 prefix: seq<byte>, acked: seq<byte>, log: Log)

  datatype Reply = Stored(received: nat) | Mismatch(expected: nat) | Rejected | Failed

  // ---------------------------------------------------------------- what is stored

  /** The ciphertext length that holds n plaintext bytes as whole chunks, with no final chunk. */
  function CiphertextLenFor(n: nat): nat {
    HeaderSize + n / ChunkSize * SealedChunkSize
  }

  /** The whole chunks a blob holds. */
  function ChunksIn(blob: seq<byte>): nat {
    WholeChunks(R.AlignDown(|blob|))
  }

  /** The plaintext length writerAt reads off the file's length. */
  function OnDisk(blob: seq<byte>): nat {
    ChunksIn(blob) * ChunkSize
  }

  /** The bytes a part ending at full is meant to leave. */
  function EndBytes(a: Aead, prefix: seq<byte>, full: seq<byte>, size: nat): seq<byte>
    requires IsPrefix(prefix)
  {
    if |full| < size then Open(a, prefix, full, |full| / ChunkSize) else Sealed(a, prefix, full)
  }

  ghost function FinalPair(prefix: seq<byte>, p: seq<byte>): Pair
    requires IsPrefix(prefix)
  {
    (ChunkNonce(prefix, p, LastIndex(|p|)), Chunk(p, LastIndex(|p|)))
  }

  /** The pairs a part ending at full is meant to seal, from chunk first on. */
  ghost function EndPairs(prefix: seq<byte>, full: seq<byte>, size: nat, first: nat): Log
    requires IsPrefix(prefix)
  {
    if |full| < size then InteriorPairs(prefix, full, first, |full| / ChunkSize)
    else InteriorPairs(prefix, full, first, LastIndex(|full|)) + iset{FinalPair(prefix, full)}
  }

  /** The chunks a part seals before the last, if it has one. */
  function InteriorEnd(full: seq<byte>, size: nat): (to: nat)
    ensures to * ChunkSize <= |full|
  {
    if |full| < size then |full| / ChunkSize else LastIndex(|full|)
  }

  /** Those of them that belong to chunks up to c. */
  ghost function PairsUpTo(prefix: seq<byte>, full: seq<byte>, size: nat, first: nat, c: nat): Log
    requires IsPrefix(prefix)
  {
    InteriorPairs(prefix, full, first, if c < InteriorEnd(full, size) then c + 1 else InteriorEnd(full, size))
    + (if |full| < size || c < LastIndex(|full|) then iset{} else iset{FinalPair(prefix, full)})
  }

  /** A part ending at full has sealed its own chunks only, at most one more than blob holds. */
  ghost predicate OneChunkAhead(prefix: seq<byte>, full: seq<byte>, size: nat, first: nat, log: Log, blob: seq<byte>)
    requires IsPrefix(prefix)
  {
    && log <= EndPairs(prefix, full, size, first)
    && (first > 0 ==> log <= PairsUpTo(prefix, full, size, first, ChunksIn(blob)))
  }

  /** No pair in the log was sealed under prefix. */
  ghost predicate Unused(log: Log, prefix: seq<byte>) {
    forall n, q | (n, q) in log :: !(prefix <= n)
  }

  // ---------------------------------------------------------------- one part

  /** The stream can be continued at the acknowledged length. */
  predicate CanResume(s: FileState) {
    s.received == 0 || OnDisk(s.blob) == s.received
  }

  /** The plaintext after a part: what the body delivered, capped at what the file still needs. */
  function Extended(s: FileState, body: seq<byte>): (full: seq<byte>)
    requires s.received <= s.size
    ensures |full| == |s.acked| + Min(|body|, s.size - s.received)
  {
    s.acked + body[..Min(|body|, s.size - s.received)]
  }

  /** The part was stored whole and acknowledged. */
  ghost predicate PartDone(a: Aead, s: FileState, full: seq<byte>, s': FileState, reply: Reply)
    requires IsPrefix(s'.prefix)
  {
    && (|full| < s.size ==> |full| % ChunkSize == 0)
    && s'.received == |full| && s'.acked == full
    && s'.blob == EndBytes(a, s'.prefix, full, s.size)
    && s'.log == s.log + EndPairs(s'.prefix, full, s.size, s.received / ChunkSize)
    && reply == Stored(|full|)
  }

  /**
   The part failed or was refused; row and acknowledged chunks stay as they are.  A failed part has
   sealed at most one chunk more than the disk holds.  A refused one does not end the file, has sealed
   all its chunks, and leaves just the acknowledged ones.
   */
  ghost predicate PartTorn(a: Aead, s: FileState, full: seq<byte>, s': FileState, reply: Reply)
    requires IsPrefix(s'.prefix)
  {
    && s'.received == s.received && s'.acked == s.acked
    && (s.received > 0 ==>
          && s.received / ChunkSize * ChunkSize <= |s.acked|
          && Open(a, s'.prefix, s.acked, s.received / ChunkSize) <= s'.blob
          && s'.blob <= EndBytes(a, s'.prefix, full, s.size))
    && s.log <= s'.log <= s.log + EndPairs(s'.prefix, full, s.size, s.received / ChunkSize)
    && (reply.Failed? || reply.Rejected?)
    && (reply.Failed? && s.received > 0 ==>
          s'.log <= s.log + PairsUpTo(s'.prefix, full, s.size, s.received / ChunkSize, ChunksIn(s'.blob)))
    && (reply.Rejected? && s.received > 0 ==>
          && |full| < s.size
          && s'.log == s.log + EndPairs(s'.prefix, full, s.size, s.received / ChunkSize)
          && s'.blob == Open(a, s'.prefix, s.acked, s.received / ChunkSize))
  }

  /** Everything one call of WriteParts with this offset and body may do, faults included. */
  ghost predicate PartStep(a: Aead, s: FileState, offset: nat, body: seq<byte>, drawn: seq<byte>,
                           s': FileState, reply: Reply)
  {
    if s.received >= s.size then s' == s && reply == Stored(s.received)
    else if offset != s.received then s' == s && reply == Mismatch(s.received)
    else if !CanResume(s) then
      s' == s.(blob := Resized(s.blob, R.AlignDown(|s.blob|))) && reply == Mismatch(OnDisk(s.blob))
    else
      && s'.size == s.size
      && s'.prefix == (if s.received == 0 then drawn else s.prefix)
      && IsPrefix(s'.prefix)
      && (PartDone(a, s, Extended(s, body), s', reply) || PartTorn(a, s, Extended(s, body), s', reply))
  }

  // ---------------------------------------------------------------- what every step keeps

  /** The blob starts with exactly the acknowledged bytes, sealed; complete files are complete streams. */
  ghost predicate Inv(a: Aead, s: FileState) {
    && IsPrefix(s.prefix) && |s.acked| == s.received <= s.size
    && (s.received == s.size ==> s.blob == Sealed(a, s.prefix, s.acked))
    && (s.received < s.size ==> s.received % ChunkSize == 0)
    && (0 < s.received < s.size ==> Open(a, s.prefix, s.acked, s.received / ChunkSize) <= s.blob)
  }

  lemma StepKeepsInv(a: Aead, s: FileState, offset: nat, body: seq<byte>, drawn: seq<byte>,
                     s': FileState, reply: Reply)
    requires Tagged(a) && Inv(a, s) && PartStep(a, s, offset, body, drawn, s', reply)
    ensures Inv(a, s')
    ensures s'.size == s.size && s.received <= s'.received && s.acked <= s'.acked
    ensures reply.Stored? ==> reply.received == s'.received
    ensures reply.Stored? || s'.received == s.received
  {
    if s.received < s.size && offset == s.received {
      if !CanResume(s) {
        AlignKeepsAcked(a, s);
      } else {
        var full := Extended(s, body);
        assert s.acked <= full;
        assert PartDone(a, s, full, s', reply) || PartTorn(a, s, full, s', reply);
      }
    }
  }

  /** Dropping a torn chunk never reaches into the acknowledged ones. */
  lemma AlignKeepsAcked(a: Aead, s: FileState)
    requires Tagged(a) && Inv(a, s) && 0 < s.received < s.size
    ensures Open(a, s.prefix, s.acked, s.received / ChunkSize) <= Resized(s.blob, R.AlignDown(|s.blob|))
  {
    OpenLength(a, s.prefix, s.acked, s.received / ChunkSize);
    assert Resized(s.blob, R.AlignDown(|s.blob|)) == s.blob[..R.AlignDown(|s.blob|)];
  }

  /** The disk never holds fewer chunks than acknowledged, nor more than the file has. */
  ghost predicate DiskBounded(s: FileState) {
    0 < s.received < s.size ==> s.received <= OnDisk(s.blob) <= s.size
  }

  lemma SealedHolds(a: Aead, prefix: seq<byte>, p: seq<byte>, b: seq<byte>)
    requires Tagged(a) && IsPrefix(prefix) && b <= Sealed(a, prefix, p)
    ensures OnDisk(b) <= |p|
  {
    SealedLength(a, prefix, p);
    CiphertextSizeByLast(|p|);
    var m := LastIndex(|p|);
    OnDiskBelow(b, if |p| < (m + 1) * ChunkSize then m else m + 1);
  }

  lemma OnDiskBelow(b: seq<byte>, k: nat)
    requires |b| < ChunkOffset(k + 1)
    ensures OnDisk(b) <= k * ChunkSize
  {
  }

  lemma OpenHolds(a: Aead, prefix: seq<byte>, p: seq<byte>, k: nat, b: seq<byte>)
    requires Tagged(a) && IsPrefix(prefix) && k * ChunkSize <= |p|
    ensures b <= Open(a, prefix, p, k) ==> OnDisk(b) <= k * ChunkSize
    ensures Open(a, prefix, p, k) <= b ==> OnDisk(b) >= k * ChunkSize
  {
    OpenLength(a, prefix, p, k);
  }

  lemma StepKeepsDiskBound(a: Aead, s: FileState, offset: nat, body: seq<byte>, drawn: seq<byte>,
                           s': FileState, reply: Reply)
    requires Tagged(a) && Inv(a, s) && DiskBounded(s) && PartStep(a, s, offset, body, drawn, s', reply)
    ensures DiskBounded(s')
  {
    StepKeepsInv(a, s, offset, body, drawn, s', reply);
    if 0 < s'.received < s'.size {
      var k := s'.received / ChunkSize;
      OpenHolds(a, s'.prefix, s'.acked, k, s'.blob);
      if s.received < s.size && offset == s.received && CanResume(s) {
        var full := Extended(s, body);
        if |full| < s.size {
          OpenHolds(a, s'.prefix, full, |full| / ChunkSize, s'.blob);
        } else {
          SealedHolds(a, s'.prefix, full, s'.blob);
        }
      }
    }
  }

  // ---------------------------------------------------------------- an honest sender

  /**
   The sender's file is d.  Every acknowledged byte is d's, every pair sealed under the current
   prefix is one of d's chunks, and every acknowledged chunk was sealed.
   */
  ghost predicate Honest(s: FileState, d: seq<byte>) {
    && IsPrefix(s.prefix) && |d| == s.size && FitsCounter(d) && s.acked <= d && |s.acked| == s.received
    && Exclusive(s.log, s.prefix, d)
    && (forall k: nat | k < LastIndex(|d|) && (k + 1) * ChunkSize <= s.received ::
          (ChunkNonce(s.prefix, d, k), Chunk(d, k)) in s.log)
    && (s.received == s.size ==> Covers(s.log, s.prefix, d))
  }

  /** A body cut out of d at offset. */
  predicate SliceOf(body: seq<byte>, d: seq<byte>, offset: nat) {
    offset <= |d| && body <= d[offset..]
  }

  /** An interior chunk of a prefix of d is the same chunk of d. */
  lemma InteriorIsChunk(prefix: seq<byte>, d: seq<byte>, m: nat, j: nat)
    requires IsPrefix(prefix) && FitsCounter(d) && m <= |d| && (j + 1) * ChunkSize <= m && j < LastIndex(|d|)
    ensures var pair := (Nonce(prefix, j % Uint32Count, false), d[..m][j * ChunkSize .. (j + 1) * ChunkSize]);
            && pair == (ChunkNonce(prefix, d, j), Chunk(d, j))
            && IsChunkOf(prefix, d, pair.0, pair.1)
  {
    IndexOfNonce(prefix, j % Uint32Count, false);
    assert d[..m][j * ChunkSize .. (j + 1) * ChunkSize] == d[j * ChunkSize .. (j + 1) * ChunkSize];
  }

  lemma FinalIsChunk(prefix: seq<byte>, d: seq<byte>)
    requires IsPrefix(prefix) && FitsCounter(d)
    ensures IsChunkOf(prefix, d, FinalPair(prefix, d).0, FinalPair(prefix, d).1)
  {
    var m := LastIndex(|d|);
    assert m % Uint32Count == m;
    IndexOfNonce(prefix, m, true);
    assert IndexOf(FinalPair(prefix, d).0) == m;
  }

  lemma WholeBeforeLast(n: nat, m: nat)
    requires m < n
    ensures m / ChunkSize <= LastIndex(n)
  {
  }

  lemma InteriorsAreChunks(prefix: seq<byte>, d: seq<byte>, m: nat, first: nat, to: nat, n: seq<byte>, q: seq<byte>)
    requires IsPrefix(prefix) && FitsCounter(d) && to * ChunkSize <= m <= |d| && to <= LastIndex(|d|)
    requires (n, q) in InteriorPairs(prefix, d[..m], first, to)
    ensures IsChunkOf(prefix, d, n, q)
  {
    var j: nat :| first <= j < to
                  && (n, q) == (Nonce(prefix, j % Uint32Count, false), d[..m][j * ChunkSize .. (j + 1) * ChunkSize]);
    InteriorIsChunk(prefix, d, m, j);
  }

  /** Whatever a part of d seals is a chunk of d. */
  lemma EndPairsAreChunks(prefix: seq<byte>, d: seq<byte>, m: nat, first: nat, n: seq<byte>, q: seq<byte>)
    requires IsPrefix(prefix) && FitsCounter(d) && m <= |d|
    requires (n, q) in EndPairs(prefix, d[..m], |d|, first)
    ensures IsChunkOf(prefix, d, n, q)
  {
    if m < |d| {
      WholeBeforeLast(|d|, m);
      InteriorsAreChunks(prefix, d, m, first, m / ChunkSize, n, q);
    } else {
      assert d[..m] == d;
      if (n, q) == FinalPair(prefix, d) {
        FinalIsChunk(prefix, d);
      } else {
        InteriorsAreChunks(prefix, d, m, first, LastIndex(|d|), n, q);
      }
    }
  }

  /** A stored part of d seals every interior chunk from first up to its end, and the last chunk at the end. */
  lemma EndPairsCover(prefix: seq<byte>, d: seq<byte>, m: nat, first: nat, k: nat)
    requires IsPrefix(prefix) && FitsCounter(d) && m <= |d| && first <= k < LastIndex(|d|)
    requires (k + 1) * ChunkSize <= m
    ensures (ChunkNonce(prefix, d, k), Chunk(d, k)) in EndPairs(prefix, d[..m], |d|, first)
  {
    InteriorIsChunk(prefix, d, m, k);
    if m == |d| {
      assert d[..m] == d;
    } else {
      assert k < m / ChunkSize;
    }
  }
}
