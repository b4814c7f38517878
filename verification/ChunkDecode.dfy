/**
 What a reader makes of any byte string, as a pure function, and what that means for
 sealed streams: the whole stream reads back, every cut is noticed, and reading may start
 at any chunk.
 */
module ChunkDecode {
  import opened Bytes
  import opened ChunkFormat

  /** The bytes yielded before the reader stops, and whether it stopped at a clean end. */
  datatype Decoded = Decoded(plain: seq<byte>, clean: bool)

  /** One fill: the chunk's plaintext and whether it was the final one. */
  datatype Filled = Corrupt | Interiors(out: seq<byte>) | Final(out: seq<byte>)

  /** The decision fill makes on the bytes one ReadFull delivered, interior flag first. */
  function Fill(a: Aead, prefix: seq<byte>, index: nat, got: seq<byte>): Filled
    requires IsPrefix(prefix) && index < Uint32Count && |got| <= SealedChunkSize
  {
    if |got| < TagSize then Corrupt
    else
      var interior := a.open(Nonce(prefix, index, false), got);
      if |got| == SealedChunkSize && interior.Some? then Interiors(interior.value)
      else match a.open(Nonce(prefix, index, true), got)
        case None => Corrupt
        case Some(out) => Final(out)
  }

  /** Reads body, which starts at chunk index, until the final chunk or an error. */
  function Decode(a: Aead, prefix: seq<byte>, index: nat, body: seq<byte>): Decoded
    requires IsPrefix(prefix) && index < Uint32Count
    decreases |body|
  {
    var n := Min(|body|, SealedChunkSize);
    match Fill(a, prefix, index, body[..n])
    case Corrupt => Decoded([], false)
    case Final(out) => Decoded(out, true)
    case Interiors(out) =>
      var rest := Decode(a, prefix, (index + 1) % Uint32Count, body[n..]);
      Decoded(out + rest.plain, rest.clean)
  }

  /** Less than a chunk counts only if it is the final one, whatever was sealed under the key. */
  lemma ShortEndIsFinal(a: Aead, prefix: seq<byte>, index: nat, body: seq<byte>)
    requires IsPrefix(prefix) && index < Uint32Count && |body| < SealedChunkSize
    ensures Decode(a, prefix, index, body)
         == match if |body| < 16 then None else a.open(prefix + BigEndian32(index) + [1], body)
            case None => Decoded([], false)
            case Some(out) => Decoded(out, true)
  {
    assert body[..|body|] == body;
  }

  /** The chunk counter never repeats within the stream. */
  predicate FitsCounter(p: seq<byte>) {
    LastIndex(|p|) < Uint32Count
  }

  /** Every chunk of the stream is in the log. */
  ghost predicate Covers(log: Log, prefix: seq<byte>, p: seq<byte>)
    requires IsPrefix(prefix)
  {
    forall k: nat | k <= LastIndex(|p|) :: (ChunkNonce(prefix, p, k), Chunk(p, k)) in log
  }

  /** The counter field of a nonce. */
  function IndexOf(n: seq<byte>): nat {
    if |n| == NonceSize then FromBigEndian32(n[7..11]) else 0
  }

  /** (n, q) is the nonce and plaintext of a chunk of the stream. */
  predicate IsChunkOf(prefix: seq<byte>, p: seq<byte>, n: seq<byte>, q: seq<byte>)
    requires IsPrefix(prefix)
  {
    var k := IndexOf(n);
    k <= LastIndex(|p|) && n == ChunkNonce(prefix, p, k) && q == Chunk(p, k)
  }

  /** Nothing but the stream's chunks was sealed under the stream's prefix. */
  ghost predicate Exclusive(log: Log, prefix: seq<byte>, p: seq<byte>)
    requires IsPrefix(prefix)
  {
    forall n, q | (n, q) in log && prefix <= n :: IsChunkOf(prefix, p, n, q)
  }

  ghost predicate Isolated(log: Log, prefix: seq<byte>, p: seq<byte>)
    requires IsPrefix(prefix)
  {
    Covers(log, prefix, p) && Exclusive(log, prefix, p)
  }

  lemma IndexOfNonce(prefix: seq<byte>, index: nat, final: bool)
    requires IsPrefix(prefix) && index < Uint32Count
    ensures IndexOf(Nonce(prefix, index, final)) == index
  {
    assert Nonce(prefix, index, final)[7..11] == BigEndian32(index);
    BigEndianRoundTrip(index);
  }

  /** Under an isolated log a nonce (index, flag) opens only that chunk's own ciphertext. */
  lemma OpensOnlyItself(a: Aead, log: Log, prefix: seq<byte>, p: seq<byte>, k: nat, flag: bool, c: seq<byte>)
    requires IsPrefix(prefix) && FitsCounter(p)
    requires Ideal(a, log) && Isolated(log, prefix, p)
    requires k <= LastIndex(|p|)
    ensures a.open(Nonce(prefix, k, flag), c)
         == if flag == (k == LastIndex(|p|)) && c == a.seal(ChunkNonce(prefix, p, k), Chunk(p, k))
            then Some(Chunk(p, k)) else None
  {
    ChunkNonceIs(prefix, p, k);
    ChunkOpens(a, log, prefix, p, k);
    if a.open(Nonce(prefix, k, flag), c).Some? { OpenedIsChunk(a, log, prefix, p, k, flag, c); }
  }

  lemma ChunkOpens(a: Aead, log: Log, prefix: seq<byte>, p: seq<byte>, k: nat)
    requires IsPrefix(prefix) && FitsCounter(p) && k <= LastIndex(|p|) && Ideal(a, log) && Covers(log, prefix, p)
    ensures var n := ChunkNonce(prefix, p, k); a.open(n, a.seal(n, Chunk(p, k))) == Some(Chunk(p, k))
  {
    var n, q := ChunkNonce(prefix, p, k), Chunk(p, k);
    assert (n, q) in log;
  }

  lemma ChunkNonceIs(prefix: seq<byte>, p: seq<byte>, k: nat)
    requires IsPrefix(prefix) && FitsCounter(p) && k <= LastIndex(|p|)
    ensures ChunkNonce(prefix, p, k) == Nonce(prefix, k, k == LastIndex(|p|))
  {
    assert k % Uint32Count == k;
  }

  lemma OpenedIsChunk(a: Aead, log: Log, prefix: seq<byte>, p: seq<byte>, k: nat, flag: bool, c: seq<byte>)
    requires IsPrefix(prefix) && FitsCounter(p) && k <= LastIndex(|p|)
    requires Ideal(a, log) && Exclusive(log, prefix, p) && a.open(Nonce(prefix, k, flag), c).Some?
    ensures flag == (k == LastIndex(|p|)) && c == a.seal(ChunkNonce(prefix, p, k), Chunk(p, k))
    ensures a.open(Nonce(prefix, k, flag), c) == Some(Chunk(p, k))
  {
    var n := Nonce(prefix, k, flag);
    var q := a.open(n, c).value;
    assert IsChunkOf(prefix, p, n, q);
    IndexOfNonce(prefix, k, flag);
    ChunkNonceIs(prefix, p, k);
    NonceInjective(prefix, k, flag, prefix, k, k == LastIndex(|p|));
  }

  function SealedChunk(a: Aead, prefix: seq<byte>, p: seq<byte>, k: nat): seq<byte>
    requires IsPrefix(prefix) && k <= LastIndex(|p|)
  {
    a.seal(ChunkNonce(prefix, p, k), Chunk(p, k))
  }

  /** A fill at chunk k yields exactly plaintext chunk k, and refuses every strict prefix of it. */
  ghost predicate FillsAt(a: Aead, prefix: seq<byte>, p: seq<byte>, k: nat)
    requires IsPrefix(prefix) && FitsCounter(p) && k <= LastIndex(|p|)
  {
    var c := SealedChunk(a, prefix, p, k);
    && |c| == |Chunk(p, k)| + TagSize
    && Fill(a, prefix, k, c) == (if k < LastIndex(|p|) then Interiors(Chunk(p, k)) else Final(Chunk(p, k)))
    && forall got | got < c :: Fill(a, prefix, k, got) == Corrupt
  }

  /** What a reader needs of the cipher to read the stream of p. */
  ghost predicate Authentic(a: Aead, prefix: seq<byte>, p: seq<byte>)
    requires IsPrefix(prefix)
  {
    Tagged(a) && FitsCounter(p) && forall k: nat | k <= LastIndex(|p|) :: FillsAt(a, prefix, p, k)
  }

  /** An ideal cipher whose log isolates the stream lets a reader tell its chunks from anything else. */
  lemma IdealIsAuthentic(a: Aead, log: Log, prefix: seq<byte>, p: seq<byte>)
    requires IsPrefix(prefix) && FitsCounter(p)
    requires Ideal(a, log) && Isolated(log, prefix, p)
    ensures Authentic(a, prefix, p)
  {
    forall k: nat | k <= LastIndex(|p|) ensures FillsAt(a, prefix, p, k) {
      IdealFillsAt(a, log, prefix, p, k);
    }
  }

  lemma IdealFillsAt(a: Aead, log: Log, prefix: seq<byte>, p: seq<byte>, k: nat)
    requires IsPrefix(prefix) && FitsCounter(p) && k <= LastIndex(|p|)
    requires Ideal(a, log) && Isolated(log, prefix, p)
    ensures FillsAt(a, prefix, p, k)
  {
    var c := SealedChunk(a, prefix, p, k);
    OpensOnlyItself(a, log, prefix, p, k, false, c);
    OpensOnlyItself(a, log, prefix, p, k, true, c);
    forall got | got < c ensures Fill(a, prefix, k, got) == Corrupt {
      OpensOnlyItself(a, log, prefix, p, k, true, got);
    }
  }

  /** The ciphertext from chunk k on is that sealed chunk followed by the ciphertext from the next. */
  lemma StreamFromChunk(a: Aead, prefix: seq<byte>, p: seq<byte>, k: nat)
    requires Tagged(a) && IsPrefix(prefix) && k <= LastIndex(|p|)
    ensures |SealedChunk(a, prefix, p, k)| <= SealedChunkSize
    ensures ChunkOffset(k) + |SealedChunk(a, prefix, p, k)| <= |Sealed(a, prefix, p)|
    ensures k < LastIndex(|p|) ==> |SealedChunk(a, prefix, p, k)| == SealedChunkSize
    ensures k == LastIndex(|p|) ==> Sealed(a, prefix, p)[ChunkOffset(k)..] == SealedChunk(a, prefix, p, k)
    ensures k < LastIndex(|p|) ==>
              Sealed(a, prefix, p)[ChunkOffset(k)..]
              == SealedChunk(a, prefix, p, k) + Sealed(a, prefix, p)[ChunkOffset(k + 1)..]
  {
    SealedSlice(a, prefix, p, k);
    var s, c := Sealed(a, prefix, p), SealedChunk(a, prefix, p, k);
    assert s[ChunkOffset(k)..] == s[ChunkOffset(k) .. ChunkOffset(k) + |c|] + s[ChunkOffset(k) + |c| ..];
  }

  /** One step of Decode over an interior chunk. */
  lemma DecodeInterior(a: Aead, prefix: seq<byte>, index: nat, c: seq<byte>, rest: seq<byte>, out: seq<byte>)
    requires IsPrefix(prefix) && index + 1 < Uint32Count && |c| == SealedChunkSize
    requires Fill(a, prefix, index, c) == Interiors(out)
    ensures var next := Decode(a, prefix, index + 1, rest);
            Decode(a, prefix, index, c + rest) == Decoded(out + next.plain, next.clean)
  {
    var body := c + rest;
    assert body[..SealedChunkSize] == c && body[SealedChunkSize..] == rest;
    assert (index + 1) % Uint32Count == index + 1;
  }

  /** The last step of Decode, on what is left when it is at most one chunk. */
  lemma DecodeLast(a: Aead, prefix: seq<byte>, index: nat, c: seq<byte>)
    requires IsPrefix(prefix) && index < Uint32Count && |c| <= SealedChunkSize
    requires !Fill(a, prefix, index, c).Interiors?
    ensures Decode(a, prefix, index, c)
         == match Fill(a, prefix, index, c)
            case Final(out) => Decoded(out, true)
            case _ => Decoded([], false)
  {
    assert c[..|c|] == c;
  }

  /** Reading an interior chunk of the stream, then whatever follows it. */
  lemma DecodeChunkThen(a: Aead, prefix: seq<byte>, p: seq<byte>, k: nat, rest: seq<byte>)
    requires IsPrefix(prefix) && Authentic(a, prefix, p) && k < LastIndex(|p|)
    ensures var next := Decode(a, prefix, k + 1, rest);
            Decode(a, prefix, k, SealedChunk(a, prefix, p, k) + rest)
            == Decoded(Chunk(p, k) + next.plain, next.clean)
  {
    assert FillsAt(a, prefix, p, k);
    DecodeInterior(a, prefix, k, SealedChunk(a, prefix, p, k), rest, Chunk(p, k));
  }

  /** Reading a torn chunk. */
  lemma DecodeTorn(a: Aead, prefix: seq<byte>, p: seq<byte>, k: nat, got: seq<byte>)
    requires IsPrefix(prefix) && Authentic(a, prefix, p) && k <= LastIndex(|p|)
    requires got < SealedChunk(a, prefix, p, k)
    ensures Decode(a, prefix, k, got) == Decoded([], false)
  {
    assert FillsAt(a, prefix, p, k);
    DecodeLast(a, prefix, k, got);
  }

  /**
   Reading a sealed stream from any chunk on yields the plaintext from that chunk on and ends
   cleanly.  With k == 0 this is the round trip of the whole file.
   */
  lemma {:induction false} DecodeSealed(a: Aead, prefix: seq<byte>, p: seq<byte>, k: nat)
    requires IsPrefix(prefix) && Authentic(a, prefix, p)
    requires k <= LastIndex(|p|)
    ensures ChunkOffset(k) <= |Sealed(a, prefix, p)|
    ensures Decode(a, prefix, k, Sealed(a, prefix, p)[ChunkOffset(k)..]) == Decoded(p[k * ChunkSize..], true)
    decreases LastIndex(|p|) - k
  {
    StreamFromChunk(a, prefix, p, k);
    if k < LastIndex(|p|) {
      DecodeSealed(a, prefix, p, k + 1);
      DecodeChunkThen(a, prefix, p, k, Sealed(a, prefix, p)[ChunkOffset(k + 1)..]);
      assert Chunk(p, k) + p[(k + 1) * ChunkSize..] == p[k * ChunkSize..];
    } else {
      assert FillsAt(a, prefix, p, k);
      DecodeLast(a, prefix, k, SealedChunk(a, prefix, p, k));
      assert Chunk(p, k) == p[k * ChunkSize..];
    }
  }

  /** The number of whole chunks in a ciphertext of len bytes. */
  function WholeChunks(len: nat): nat
    requires len >= HeaderSize
  {
    (len - HeaderSize) / SealedChunkSize
  }

  /** A cut stream has lost at least its last chunk. */
  lemma CutLosesLast(n: nat, len: nat)
    requires HeaderSize <= len < CiphertextSize(n)
    ensures WholeChunks(len) <= LastIndex(n)
  {
    var m := LastIndex(n);
    assert n <= (m + 1) * ChunkSize;
    CiphertextSizeByLast(n);
    assert len - HeaderSize < (m + 1) * SealedChunkSize;
  }

  /** What is left of a cut stream from chunk k on: a whole chunk and more, or less than a chunk. */
  lemma CutFromChunk(a: Aead, prefix: seq<byte>, p: seq<byte>, k: nat, len: nat)
    requires Tagged(a) && IsPrefix(prefix)
    requires ChunkOffset(k) <= len < |Sealed(a, prefix, p)|
    ensures k <= WholeChunks(len) <= LastIndex(|p|)
    ensures k < WholeChunks(len) ==>
              && ChunkOffset(k + 1) <= len
              && Sealed(a, prefix, p)[ChunkOffset(k)..len]
                 == SealedChunk(a, prefix, p, k) + Sealed(a, prefix, p)[ChunkOffset(k + 1)..len]
    ensures k == WholeChunks(len) ==> Sealed(a, prefix, p)[ChunkOffset(k)..len] < SealedChunk(a, prefix, p, k)
  {
    SealedLength(a, prefix, p);
    CutLosesLast(|p|, len);
    assert k <= WholeChunks(len);
    StreamFromChunk(a, prefix, p, k);
    var s, c := Sealed(a, prefix, p), SealedChunk(a, prefix, p, k);
    var left := s[ChunkOffset(k)..len];
    assert left == s[ChunkOffset(k)..][..|left|];
    if k < WholeChunks(len) {
      var rest := s[ChunkOffset(k + 1)..];
      assert (c + rest)[..|left|] == c + rest[..|left| - |c|];
    } else {
      assert |left| < |c|;
      assert left == c[..|left|];
    }
  }

  /**
   Truncation is always noticed: whatever strict prefix of the stream is left, reading from
   any chunk still in it never ends cleanly, and yields exactly the plaintext of the whole
   chunks that are left.
   */
  lemma {:induction false} DecodeTruncated(a: Aead, prefix: seq<byte>, p: seq<byte>, k: nat, len: nat)
    requires IsPrefix(prefix) && Authentic(a, prefix, p)
    requires ChunkOffset(k) <= len < |Sealed(a, prefix, p)|
    ensures k <= WholeChunks(len) <= LastIndex(|p|)
    ensures Decode(a, prefix, k, Sealed(a, prefix, p)[ChunkOffset(k)..len])
         == Decoded(p[k * ChunkSize .. WholeChunks(len) * ChunkSize], false)
    decreases len - ChunkOffset(k)
  {
    CutFromChunk(a, prefix, p, k, len);
    var j := WholeChunks(len);
    if k < j {
      DecodeTruncated(a, prefix, p, k + 1, len);
      DecodeChunkThen(a, prefix, p, k, Sealed(a, prefix, p)[ChunkOffset(k + 1)..len]);
      assert Chunk(p, k) + p[(k + 1) * ChunkSize .. j * ChunkSize] == p[k * ChunkSize .. j * ChunkSize];
    } else {
      DecodeTorn(a, prefix, p, k, Sealed(a, prefix, p)[ChunkOffset(k)..len]);
    }
  }
}
