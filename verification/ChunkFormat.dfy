/**
 The sealed stream format: a header carrying the nonce prefix, then fixed-size chunks,
 each sealed under a nonce made of the prefix, the chunk index and a final-chunk flag.

 The authenticated cipher is a parameter.  It is a pair of functions together with the
 ghost log of (nonce, plaintext) pairs that were ever sealed under the key; an ideal
 cipher opens exactly the logged ciphertexts.
 */
module ChunkFormat {
  import opened Bytes

  const ChunkSize: int := 0x10_0000
  const TagSize: int := 16
  const SealedChunkSize: int := 0x10_0010
  const PrefixSize: int := 7
  const NonceSize: int := 12
  const HeaderSize: int := 12
  const Magic: seq<byte> := [83, 70, 66, 1]
  const FormatVersion: byte := 1

  // ---------------------------------------------------------------- nonces

  predicate IsPrefix(prefix: seq<byte>) {
    |prefix| == PrefixSize
  }

  /** The 12-byte nonce of a chunk; the index is a uint32 in the source. */
  function Nonce(prefix: seq<byte>, index: nat, final: bool): (n: seq<byte>)
    requires IsPrefix(prefix) && index < Uint32Count
    ensures |n| == NonceSize && prefix <= n
  {
    prefix + BigEndian32(index) + [if final then 1 else 0]
  }

  lemma NonceInjective(prefix: seq<byte>, index: nat, final: bool,
                       prefix': seq<byte>, index': nat, final': bool)
    requires IsPrefix(prefix) && IsPrefix(prefix')
    requires index < Uint32Count && index' < Uint32Count
    requires Nonce(prefix, index, final) == Nonce(prefix', index', final')
    ensures prefix == prefix' && index == index' && final == final'
  {
    var n, n' := Nonce(prefix, index, final), Nonce(prefix', index', final');
    assert prefix == n[..7] == n'[..7] == prefix';
    assert BigEndian32(index) == n[7..11] == n'[7..11] == BigEndian32(index');
    BigEndianInjective(index, index');
    assert n[11] == n'[11];
  }

  /**
   The nonces of a stream in the order of its chunks: the prefix, the index with its first byte weighing
   most, and a last byte that is 1 for the final chunk and 0 for every other.
   */
  lemma NonceLayout(prefix: seq<byte>, index: nat, later: nat, final: bool)
    requires IsPrefix(prefix) && index < later < Uint32Count
    ensures var n, n' := Nonce(prefix, index, false), Nonce(prefix, later, final);
            && n[..PrefixSize] == n'[..PrefixSize] == prefix && Precedes(n, n')
            && n[NonceSize - 1] == 0 && n'[NonceSize - 1] == (if final then 1 else 0)
  {
    var n, n' := Nonce(prefix, index, false), Nonce(prefix, later, final);
    var s, t := BigEndian32(index), BigEndian32(later);
    BigEndianOrdered(index, later);
    var i :| 0 <= i < |s| && i < |t| && s[..i] == t[..i] && s[i] < t[i];
    assert n[..PrefixSize + i] == prefix + s[..i] == n'[..PrefixSize + i];
    assert n[PrefixSize + i] < n'[PrefixSize + i];
  }

  // ---------------------------------------------------------------- the ideal cipher

  type Pair = (seq<byte>, seq<byte>)
  type Log = iset<Pair>

  datatype Aead = Aead(seal: (seq<byte>, seq<byte>) -> seq<byte>,
                       open: (seq<byte>, seq<byte>) -> Option<seq<byte>>)

  /** Sealing adds a tag and nothing else. */
  ghost predicate Tagged(a: Aead) {
    forall n, p :: |a.seal(n, p)| == |p| + TagSize
  }

  /** Exactly the logged ciphertexts open, each to the plaintext it was made from. */
  ghost predicate Ideal(a: Aead, log: Log) {
    && Tagged(a)
    && (forall n, p :: (n, p) in log ==> a.open(n, a.seal(n, p)) == Some(p))
    && (forall n, c :: a.open(n, c).Some? ==>
          (n, a.open(n, c).value) in log && c == a.seal(n, a.open(n, c).value))
  }

  function ToySeal(n: seq<byte>, p: seq<byte>): (c: seq<byte>)
    ensures |c| == |p| + TagSize && c[..|p|] == p
  {
    p + (if |n| == NonceSize then n + [0, 0, 0, 0] else seq(16, _ => 0))
  }

  /** The ideal cipher is not a contradiction: every log has one. */
  lemma IdealExists(log: Log)
    ensures exists a: Aead :: Ideal(a, log)
  {
    var open := (n: seq<byte>, c: seq<byte>) =>
      if |c| >= TagSize && (n, c[..|c| - TagSize]) in log && c == ToySeal(n, c[..|c| - TagSize])
      then Some(c[..|c| - TagSize]) else None;
    var a := Aead((n, p) => ToySeal(n, p), open);
    assert Ideal(a, log);
  }

  // ---------------------------------------------------------------- the format

  function Header(prefix: seq<byte>): (h: seq<byte>)
    requires IsPrefix(prefix)
    ensures |h| == HeaderSize
  {
    Magic + [FormatVersion] + prefix
  }

  /** The check NewReader, OpenAt and InspectPartial make on the first twelve bytes. */
  predicate GoodHeader(h: seq<byte>)
    requires |h| == HeaderSize
  {
    h[..4] == Magic && h[4] == FormatVersion
  }

  /** A header is good exactly if it is the one of some prefix, which follows SFB and the bytes 1 and 1. */
  lemma GoodHeaderIff(h: seq<byte>)
    requires |h| == HeaderSize
    ensures GoodHeader(h) <==> exists prefix | IsPrefix(prefix) :: h == Header(prefix)
    ensures GoodHeader(h) <==> h[..5] == [83, 70, 66, 1, 1]
  {
    assert h[..5] == h[..4] + [h[4]];
    assert h[..5][..4] == h[..4];
    if GoodHeader(h) {
      var prefix := h[5..];
      assert IsPrefix(prefix) && h == Header(prefix);
    }
  }

  lemma HeaderReads(prefix: seq<byte>)
    requires IsPrefix(prefix)
    ensures GoodHeader(Header(prefix)) && Header(prefix)[5..] == prefix
  {
  }

  /** The index of the last chunk of an n-byte plaintext. */
  function LastIndex(n: nat): (k: nat)
    ensures k * ChunkSize <= n <= (k + 1) * ChunkSize
    ensures n > 0 ==> k * ChunkSize < n
  {
    if n == 0 then 0 else (n - 1) / ChunkSize
  }

  /** Plaintext chunk k. */
  function Chunk(p: seq<byte>, k: nat): (c: seq<byte>)
    requires k <= LastIndex(|p|)
    ensures |c| <= ChunkSize
    ensures k < LastIndex(|p|) ==> |c| == ChunkSize
  {
    p[k * ChunkSize .. if k < LastIndex(|p|) then (k + 1) * ChunkSize else |p|]
  }

  /** The nonce of chunk k of plaintext p: the counter wraps, the flag marks the last chunk. */
  function ChunkNonce(prefix: seq<byte>, p: seq<byte>, k: nat): seq<byte>
    requires IsPrefix(prefix) && k <= LastIndex(|p|)
  {
    Nonce(prefix, k % Uint32Count, k == LastIndex(|p|))
  }

  /** The sealed form of the first k whole chunks of p, none of them marked final. */
  function Interior(a: Aead, prefix: seq<byte>, p: seq<byte>, k: nat): seq<byte>
    requires IsPrefix(prefix) && k * ChunkSize <= |p|
  {
    if k == 0 then []
    else Interior(a, prefix, p, k - 1)
         + a.seal(Nonce(prefix, (k - 1) % Uint32Count, false), p[(k - 1) * ChunkSize .. k * ChunkSize])
  }

  /** An open stream: the header and k whole chunks. */
  function Open(a: Aead, prefix: seq<byte>, p: seq<byte>, k: nat): seq<byte>
    requires IsPrefix(prefix) && k * ChunkSize <= |p|
  {
    Header(prefix) + Interior(a, prefix, p, k)
  }

  /** A complete stream: everything before the last chunk, then the last chunk marked final. */
  function Sealed(a: Aead, prefix: seq<byte>, p: seq<byte>): seq<byte>
    requires IsPrefix(prefix)
  {
    var m := LastIndex(|p|);
    Open(a, prefix, p, m) + a.seal(Nonce(prefix, m % Uint32Count, true), p[m * ChunkSize..])
  }

  /** The on-disk size of an n-byte plaintext. */
  function CiphertextSize(n: nat): nat {
    var chunks := n / ChunkSize + (if n % ChunkSize != 0 || n == 0 then 1 else 0);
    HeaderSize + n + chunks * TagSize
  }

  // ---------------------------------------------------------------- layout facts

  /** Division by the chunk size, with the quotient and remainder at hand. */
  lemma Divides(n: nat, k: nat, r: nat)
    requires n == k * ChunkSize + r && r < ChunkSize
    ensures n / ChunkSize == k && n % ChunkSize == r
  {
  }

  /** Both ways of counting chunks agree. */
  lemma CiphertextSizeByLast(n: nat)
    ensures CiphertextSize(n) == HeaderSize + n + (LastIndex(n) + 1) * TagSize
  {
    if n > 0 {
      var k := (n - 1) / ChunkSize;
      if n == (k + 1) * ChunkSize {
        Divides(n, k + 1, 0);
      } else {
        Divides(n, k, n - k * ChunkSize);
      }
    }
  }

  lemma {:induction false} InteriorLength(a: Aead, prefix: seq<byte>, p: seq<byte>, k: nat)
    requires Tagged(a) && IsPrefix(prefix) && k * ChunkSize <= |p|
    ensures |Interior(a, prefix, p, k)| == k * SealedChunkSize
  {
    if k > 0 {
      InteriorLength(a, prefix, p, k - 1);
    }
  }

  /** Where chunk k starts in the ciphertext. */
  function ChunkOffset(k: nat): nat {
    HeaderSize + k * SealedChunkSize
  }

  lemma OpenLength(a: Aead, prefix: seq<byte>, p: seq<byte>, k: nat)
    requires Tagged(a) && IsPrefix(prefix) && k * ChunkSize <= |p|
    ensures |Open(a, prefix, p, k)| == HeaderSize + k * SealedChunkSize
  {
    InteriorLength(a, prefix, p, k);
  }

  /** A sealed stream has exactly the length CiphertextSize announces. */
  lemma SealedLength(a: Aead, prefix: seq<byte>, p: seq<byte>)
    requires Tagged(a) && IsPrefix(prefix)
    ensures |Sealed(a, prefix, p)| == CiphertextSize(|p|)
  {
    OpenLength(a, prefix, p, LastIndex(|p|));
    CiphertextSizeByLast(|p|);
  }

  /** Whole chunks depend only on the plaintext they hold. */
  lemma {:induction false} InteriorAgrees(a: Aead, prefix: seq<byte>, p: seq<byte>, q: seq<byte>, k: nat)
    requires IsPrefix(prefix) && k * ChunkSize <= |p| && k * ChunkSize <= |q|
    requires p[..k * ChunkSize] == q[..k * ChunkSize]
    ensures Interior(a, prefix, p, k) == Interior(a, prefix, q, k)
  {
    if k > 0 {
      var lo, hi := (k - 1) * ChunkSize, k * ChunkSize;
      assert p[..lo] == p[..hi][..lo] == q[..hi][..lo] == q[..lo];
      assert p[lo..hi] == p[..hi][lo..] == q[..hi][lo..] == q[lo..hi];
      InteriorAgrees(a, prefix, p, q, k - 1);
    }
  }

  /** Fewer chunks give a prefix of more chunks. */
  lemma {:induction false} InteriorGrows(a: Aead, prefix: seq<byte>, p: seq<byte>, j: nat, k: nat)
    requires IsPrefix(prefix) && j <= k && k * ChunkSize <= |p|
    ensures Interior(a, prefix, p, j) <= Interior(a, prefix, p, k)
  {
    if j < k {
      InteriorGrows(a, prefix, p, j, k - 1);
    }
  }

  /** Whole chunk j of a stream sits at its computed offset. */
  lemma {:induction false} InteriorSlice(a: Aead, prefix: seq<byte>, p: seq<byte>, j: nat, k: nat)
    requires Tagged(a) && IsPrefix(prefix) && j < k && k * ChunkSize <= |p|
    ensures |Interior(a, prefix, p, k)| == k * SealedChunkSize
    ensures Interior(a, prefix, p, k)[j * SealedChunkSize .. (j + 1) * SealedChunkSize]
         == a.seal(Nonce(prefix, j % Uint32Count, false), p[j * ChunkSize .. (j + 1) * ChunkSize])
  {
    InteriorLength(a, prefix, p, k);
    InteriorLength(a, prefix, p, k - 1);
    if j < k - 1 {
      InteriorSlice(a, prefix, p, j, k - 1);
      var s, t := Interior(a, prefix, p, k - 1), Interior(a, prefix, p, k);
      assert t[..|s|] == s;
      assert t[j * SealedChunkSize .. (j + 1) * SealedChunkSize]
          == s[j * SealedChunkSize .. (j + 1) * SealedChunkSize];
    }
  }

  /** On disk, chunk k of a sealed stream is the sealing of plaintext chunk k under its own nonce. */
  lemma SealedSlice(a: Aead, prefix: seq<byte>, p: seq<byte>, k: nat)
    requires Tagged(a) && IsPrefix(prefix) && k <= LastIndex(|p|)
    ensures |Sealed(a, prefix, p)| == CiphertextSize(|p|)
    ensures var start := HeaderSize + k * SealedChunkSize;
            && start + |Chunk(p, k)| + TagSize <= |Sealed(a, prefix, p)|
            && (k == LastIndex(|p|) ==> start + |Chunk(p, k)| + TagSize == |Sealed(a, prefix, p)|)
            && Sealed(a, prefix, p)[start .. start + |Chunk(p, k)| + TagSize]
               == a.seal(ChunkNonce(prefix, p, k), Chunk(p, k))
  {
    SealedLength(a, prefix, p);
    var m := LastIndex(|p|);
    OpenLength(a, prefix, p, m);
    var s := Sealed(a, prefix, p);
    if k < m {
      InteriorSlice(a, prefix, p, k, m);
      var i := Interior(a, prefix, p, m);
      assert s[HeaderSize .. HeaderSize + |i|] == i;
      assert s[HeaderSize + k * SealedChunkSize .. HeaderSize + (k + 1) * SealedChunkSize]
          == i[k * SealedChunkSize .. (k + 1) * SealedChunkSize];
    } else {
      assert Chunk(p, m) == p[m * ChunkSize..];
      assert s[|Open(a, prefix, p, m)|..] == a.seal(ChunkNonce(prefix, p, m), Chunk(p, m));
    }
  }

  /**
   All chunk nonces of a stream differ exactly while the 32-bit counter does not repeat
   among its interior chunks, that is up to 2^32 + 1 chunks.
   */
  lemma NoncesDistinctIff(prefix: seq<byte>, p: seq<byte>)
    requires IsPrefix(prefix)
    ensures (forall j: nat, k: nat | j < k <= LastIndex(|p|) ::
               ChunkNonce(prefix, p, j) != ChunkNonce(prefix, p, k))
            <==> LastIndex(|p|) <= Uint32Count
  {
    var m := LastIndex(|p|);
    if m <= Uint32Count {
      forall j: nat, k: nat | j < k <= m ensures ChunkNonce(prefix, p, j) != ChunkNonce(prefix, p, k) {
        if ChunkNonce(prefix, p, j) == ChunkNonce(prefix, p, k) {
          NonceInjective(prefix, j % Uint32Count, j == m, prefix, k % Uint32Count, k == m);
        }
      }
    } else {
      assert ChunkNonce(prefix, p, 0) == ChunkNonce(prefix, p, Uint32Count);
    }
  }
}
