/** Working out, from the bytes on disk, where an interrupted stream can be continued. */
module ChunkResume {
  import opened Bytes
  import opened ChunkFormat
  import opened ChunkDecode
  import opened BlobFile

  /** The largest chunk-aligned ciphertext length not above n, but never below the header. */
  function AlignDown(n: nat): (r: nat)
    ensures r >= HeaderSize && (r - HeaderSize) % SealedChunkSize == 0
    ensures n >= HeaderSize ==> r <= n < r + SealedChunkSize
  {
    if n <= HeaderSize then HeaderSize
    else HeaderSize + (n - HeaderSize) / SealedChunkSize * SealedChunkSize
  }

  datatype ResumeState = ResumeState(prefix: seq<byte>, nextIndex: nat, plaintextLen: nat)

  datatype Inspection = Resumable(state: ResumeState) | TooShort | NotAStream | Unaligned

  /** Reads the header of src and decides where to resume given its length len. */
  method InspectPartial(src: Blob, len: nat) returns (r: Inspection)
    requires src.pos == 0
    modifies src`pos, src`touched
    ensures r.Resumable? <==>
              && HeaderSize <= len && HeaderSize <= |src.bytes| && GoodHeader(src.bytes[..HeaderSize])
              && (len - HeaderSize) % SealedChunkSize == 0
    ensures r.Resumable? ==>
              && len == ChunkOffset(WholeChunks(len))
              && r.state == ResumeState(src.bytes[5..HeaderSize], WholeChunks(len) % Uint32Count,
                                        WholeChunks(len) * ChunkSize)
  {
    if len < HeaderSize { return TooShort; }
    var h := src.ReadFull(HeaderSize);
    assert |h| == HeaderSize ==> h == src.bytes[..HeaderSize] && h[5..] == src.bytes[5..HeaderSize];
    if |h| < HeaderSize { return TooShort; }
    if !GoodHeader(h) { return NotAStream; }
    var body := len - HeaderSize;
    if body % SealedChunkSize != 0 { return Unaligned; }
    var chunks := body / SealedChunkSize;
    r := Resumable(ResumeState(h[5..], chunks % Uint32Count, chunks * ChunkSize));
  }

  /** A file that holds k whole chunks and less than one more aligns down to exactly those chunks. */
  lemma AlignsToChunks(a: Aead, prefix: seq<byte>, p: seq<byte>, k: nat, b: seq<byte>)
    requires Tagged(a) && IsPrefix(prefix) && k * ChunkSize <= |p|
    requires Open(a, prefix, p, k) <= b && WholeChunks(|b|) == k
    ensures AlignDown(|b|) == ChunkOffset(k) && Resized(b, AlignDown(|b|)) == Open(a, prefix, p, k)
    ensures GoodHeader(b[..HeaderSize]) && b[5..HeaderSize] == prefix
  {
    OpenLength(a, prefix, p, k);
    HeaderReads(prefix);
    assert b[..HeaderSize] == Header(prefix);
    assert b[5..HeaderSize] == b[..HeaderSize][5..];
  }
}
