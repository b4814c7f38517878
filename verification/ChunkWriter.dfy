/** The sealing writer: buffers plaintext, seals whole chunks, and can be stopped and resumed. */
module ChunkWriter {
  import opened Bytes
  import opened ChunkFormat
  import opened BlobFile

  /** The pairs of interior chunks from (inclusive) to (exclusive). */
  ghost function InteriorPairs(prefix: seq<byte>, p: seq<byte>, from: nat, to: nat): iset<Pair>
    requires IsPrefix(prefix) && to * ChunkSize <= |p|
  {
    iset j: nat | from <= j < to :: (Nonce(prefix, j % Uint32Count, false), p[j * ChunkSize .. (j + 1) * ChunkSize])
  }

  /** Adding plaintext does not disturb what is on disk. */
  lemma OpenExtends(a: Aead, prefix: seq<byte>, p: seq<byte>, q: seq<byte>, k: nat)
    requires IsPrefix(prefix) && k * ChunkSize <= |p|
    ensures Open(a, prefix, p + q, k) == Open(a, prefix, p, k)
  {
    assert (p + q)[..k * ChunkSize] == p[..k * ChunkSize];
    InteriorAgrees(a, prefix, p, p + q, k);
  }

  /** Fewer chunks on disk are a prefix of more. */
  lemma OpenGrows(a: Aead, prefix: seq<byte>, p: seq<byte>, j: nat, k: nat)
    requires IsPrefix(prefix) && j <= k && k * ChunkSize <= |p|
    ensures Open(a, prefix, p, j) <= Open(a, prefix, p, k)
  {
    InteriorGrows(a, prefix, p, j, k);
  }

  /** One more chunk, and the counter that goes with it. */
  lemma OpenNext(a: Aead, prefix: seq<byte>, p: seq<byte>, k: nat)
    requires IsPrefix(prefix) && |p| == (k + 1) * ChunkSize
    ensures Open(a, prefix, p, k + 1)
         == Open(a, prefix, p, k) + a.seal(Nonce(prefix, k % Uint32Count, false), p[k * ChunkSize..])
    ensures (k % Uint32Count + 1) % Uint32Count == (k + 1) % Uint32Count
  {
    CounterNext(k);
    assert p[k * ChunkSize..] == p[k * ChunkSize .. (k + 1) * ChunkSize];
  }

  lemma CounterNext(k: nat)
    ensures (k % Uint32Count + 1) % Uint32Count == (k + 1) % Uint32Count
  {
  }

  lemma PairsExtend(prefix: seq<byte>, p: seq<byte>, q: seq<byte>, from: nat, to: nat)
    requires IsPrefix(prefix) && to * ChunkSize <= |p|
    ensures InteriorPairs(prefix, p + q, from, to) == InteriorPairs(prefix, p, from, to)
  {
    forall j: nat | from <= j < to
      ensures p[j * ChunkSize .. (j + 1) * ChunkSize] == (p + q)[j * ChunkSize .. (j + 1) * ChunkSize]
    {
    }
  }

  lemma PairsGrow(prefix: seq<byte>, p: seq<byte>, from: nat, to: nat, to': nat)
    requires IsPrefix(prefix) && to <= to' && to' * ChunkSize <= |p|
    ensures InteriorPairs(prefix, p, from, to) <= InteriorPairs(prefix, p, from, to')
  {
  }

  lemma PairsNext(prefix: seq<byte>, p: seq<byte>, from: nat, to: nat)
    requires IsPrefix(prefix) && from <= to && |p| == (to + 1) * ChunkSize
    ensures InteriorPairs(prefix, p, from, to + 1)
         == InteriorPairs(prefix, p, from, to)
            + iset{(Nonce(prefix, to % Uint32Count, false), p[to * ChunkSize..])}
  {
    assert p[to * ChunkSize..] == p[to * ChunkSize .. (to + 1) * ChunkSize];
  }

  /** Sealing chunk k of p when q is still to come stays strictly before the end of p + q. */
  lemma FlushBelow(a: Aead, prefix: seq<byte>, p: seq<byte>, q: seq<byte>, from: nat, k: nat)
    requires IsPrefix(prefix) && from <= k && |p| == (k + 1) * ChunkSize && q != []
    ensures LastIndex(|p + q|) > k
    ensures Open(a, prefix, p, k + 1) <= Open(a, prefix, p + q, LastIndex(|p + q|))
    ensures InteriorPairs(prefix, p, from, k + 1) == InteriorPairs(prefix, p + q, from, k + 1)
  {
    OpenExtends(a, prefix, p, q, k + 1);
    OpenGrows(a, prefix, p + q, k + 1, LastIndex(|p + q|));
    PairsExtend(prefix, p, q, from, k + 1);
  }

  lemma Regroup(s: seq<byte>, t: seq<byte>, k: nat)
    requires k <= |t|
    ensures (s + t[..k]) + t[k..] == s + t
  {
  }

  class Writer {
    const aead: Aead
    const dst: Blob
    const prefix: seq<byte>
    const buf: array<byte>
    var n: nat
    var index: nat
    var wroteHeader: bool
    var closed: bool

    // All plaintext of the stream so far, including what earlier writers stored.
    ghost var plain: seq<byte>
    // The whole chunks of plain that are on disk.
    ghost var chunks: nat
    // The chunk this writer started at, and the pairs it sealed.
    ghost const first: nat
    ghost var log: iset<Pair>

    ghost predicate Shape()
      reads this
    {
      && IsPrefix(prefix) && buf.Length == ChunkSize && n <= ChunkSize && Tagged(aead)
      && |plain| == chunks * ChunkSize + n
      && index == chunks % Uint32Count
      && first <= chunks
      && log == InteriorPairs(prefix, plain, first, chunks)
    }

    /** A writer that has met no error and is not closed. */
    ghost predicate Valid()
      reads this, dst, buf
    {
      && Shape() && !closed
      && buf[..n] == plain[chunks * ChunkSize..]
      && dst.pos == |dst.bytes|
      && (if wroteHeader then dst.bytes == Open(aead, prefix, plain, chunks)
          else chunks == 0 && dst.bytes == [])
    }

    /** A fresh stream at the start of an empty file. */
    constructor (aead: Aead, dst: Blob, prefix: seq<byte>)
      requires Tagged(aead) && IsPrefix(prefix) && dst.bytes == [] && dst.pos == 0
      ensures Valid() && fresh(buf)
      ensures this.aead == aead && this.dst == dst && this.prefix == prefix
      ensures plain == [] && chunks == 0 && first == 0 && log == iset{}
    {
      this.aead, this.dst, this.prefix := aead, dst, prefix;
      buf := new byte[ChunkSize](_ => 0);
      n, index, wroteHeader, closed := 0, 0, false, false;
      plain, chunks, first := [], 0, 0;
      log := iset{};
    }

    /** Continues a stream whose k whole chunks, holding done, are on disk. */
    constructor Resume(aead: Aead, dst: Blob, prefix: seq<byte>, nextIndex: nat,
                       ghost done: seq<byte>, ghost k: nat)
      requires Tagged(aead) && IsPrefix(prefix)
      requires |done| == k * ChunkSize && nextIndex == k % Uint32Count
      requires dst.bytes == Open(aead, prefix, done, k) && dst.pos == |dst.bytes|
      ensures Valid() && fresh(buf)
      ensures this.aead == aead && this.dst == dst && this.prefix == prefix
      ensures plain == done && chunks == k && first == k && log == iset{}
    {
      this.aead, this.dst, this.prefix := aead, dst, prefix;
      buf := new byte[ChunkSize](_ => 0);
      n, index, wroteHeader, closed := 0, nextIndex, true, false;
      plain, chunks, first := done, k, k;
      log := iset{};
    }

    /** After a failed write: what was sealed of whole is at most one chunk ahead of the disk. */
    ghost predicate OneAhead(whole: seq<byte>)
      reads this, dst
    {
      && IsPrefix(prefix) && first <= chunks && (chunks + 1) * ChunkSize <= |whole|
      && log <= InteriorPairs(prefix, whole, first, chunks + 1)
      && (chunks > 0 ==> ChunkOffset(chunks) <= |dst.bytes|)
    }

    /** The bytes a failed write leaves: as much of what was meant as the disk took. */
    twostate predicate Torn(meant: seq<byte>)
      reads dst
    {
      && old(dst.bytes) <= dst.bytes <= meant
      && (!old(dst.dead) ==> old(dst.room).Some? && |dst.bytes| == old(dst.Limit()).value < |meant|)
      && dst.fatal == old(dst.fatal) && dst.dead == (old(dst.dead) || dst.fatal)
    }

    twostate predicate Unfailed()
      reads dst
    {
      && old(dst.bytes) <= dst.bytes && dst.fatal == old(dst.fatal) && dst.dead == old(dst.dead)
      && dst.Limit() == old(dst.Limit())
    }

    /** The disk takes everything. */
    ghost predicate DiskFine()
      reads dst
    {
      dst.room.None? && !dst.dead
    }

    method WriteHeader() returns (ok: bool)
      requires Valid()
      modifies this`wroteHeader, dst
      ensures ok ==> Valid() && wroteHeader && Unfailed()
      ensures !ok ==> Torn(Open(aead, prefix, plain, chunks))
      ensures old(DiskFine()) || old(wroteHeader) ==> ok
    {
      if wroteHeader { return true; }
      var h := Magic + [FormatVersion] + prefix;
      ok := dst.Write(h);
      assert [] + h == Open(aead, prefix, plain, 0);
      if ok { wroteHeader := true; }
    }

    /** Seals the buffer as the next chunk and appends it. */
    method Flush(final: bool) returns (ok: bool)
      requires Valid()
      modifies this`n, this`index, this`wroteHeader, this`log, dst
      ensures ok ==> wroteHeader && n == 0 && index == (old(index) + 1) % Uint32Count && Unfailed()
      ensures var pair := (Nonce(prefix, old(index), final), plain[chunks * ChunkSize..]);
              var meant := Open(aead, prefix, plain, chunks) + aead.seal(pair.0, pair.1);
              && old(log) <= log <= old(log) + iset{pair} && (chunks > 0 ==> log == old(log) + iset{pair})
              && (ok ==> dst.bytes == meant && dst.pos == |dst.bytes| && log == old(log) + iset{pair})
              && (!ok ==> Torn(meant))
      ensures old(DiskFine()) ==> ok
    {
      ghost var open := Open(aead, prefix, plain, chunks);
      ok := WriteHeader();
      if !ok { return; }
      ok := SealBuffer(Nonce(prefix, index, final), open);
    }

    /** The sealing and writing of Flush, behind what is on disk. */
    method SealBuffer(nonce: seq<byte>, ghost open: seq<byte>) returns (ok: bool)
      requires n <= ChunkSize == buf.Length && dst.bytes == open && dst.pos == |dst.bytes|
      modifies this`n, this`index, this`log, dst
      ensures var meant := open + aead.seal(nonce, old(buf[..n]));
              && log == old(log) + iset{(nonce, old(buf[..n]))}
              && (ok ==> dst.bytes == meant && dst.pos == |dst.bytes| && Unfailed())
              && (!ok ==> Torn(meant))
      ensures ok ==> n == 0 && index == (old(index) + 1) % Uint32Count
      ensures old(DiskFine()) ==> ok
    {
      var sealed := aead.seal(nonce, buf[..n]);
      log := log + iset{(nonce, buf[..n])};
      ok := dst.Write(sealed);
      if !ok { return; }
      index := (index + 1) % Uint32Count;
      n := 0;
    }

    /** Flush(false) on a full buffer: one more whole chunk of the plaintext is on disk. */
    method FlushChunk() returns (ok: bool)
      requires Valid() && n == ChunkSize
      modifies this`n, this`index, this`wroteHeader, this`chunks, this`log, dst
      ensures ok ==> Valid() && wroteHeader && n == 0 && Unfailed() && chunks == old(chunks) + 1
      ensures !ok ==> chunks == old(chunks)
      ensures !ok ==> OneAhead(plain) && (chunks > 0 ==> log == InteriorPairs(prefix, plain, first, chunks + 1))
      ensures !ok ==> Torn(Open(aead, prefix, plain, chunks + 1))
      ensures old(DiskFine()) ==> ok
    {
      OpenNext(aead, prefix, plain, chunks);
      PairsNext(prefix, plain, first, chunks);
      OpenLength(aead, prefix, plain, chunks);
      ok := Flush(false);
      if ok {
        chunks := chunks + 1;
        assert buf[..n] == [] == plain[chunks * ChunkSize..];
      }
    }

    /** Copies data behind what the buffer already holds. */
    method Buffer(data: seq<byte>)
      requires Valid() && n + |data| <= ChunkSize
      modifies this`n, this`plain, buf
      ensures Valid() && plain == old(plain) + data && n == old(n) + |data|
    {
      forall t | 0 <= t < |data| {
        buf[n + t] := data[t];
      }
      OpenExtends(aead, prefix, plain, data, chunks);
      PairsExtend(prefix, plain, data, first, chunks);
      assert buf[..n + |data|] == old(buf[..n]) + data;
      n := n + |data|;
      plain := plain + data;
      assert plain[chunks * ChunkSize..] == old(plain)[chunks * ChunkSize..] + data;
    }

    /** One round of Write's loop on the bytes still to be taken; whole is the plaintext with them. */
    method TakeSome(rest: seq<byte>, ghost whole: seq<byte>) returns (k: nat, ok: bool)
      requires Valid() && rest != [] && whole == plain + rest
      modifies this`n, this`index, this`wroteHeader, this`chunks, this`log, this`plain, dst, buf
      ensures ok ==> Valid() && 0 < k <= |rest| && plain == old(plain) + rest[..k] && n > 0 && Unfailed()
      ensures ok ==> chunks >= old(chunks) && (chunks == 0 ==> wroteHeader == old(wroteHeader))
      ensures !ok ==> plain == old(plain)
      ensures !ok ==> chunks < LastIndex(|whole|) && OneAhead(whole)
      ensures !ok ==> Torn(Open(aead, prefix, whole, LastIndex(|whole|)))
      ensures old(DiskFine()) ==> ok
    {
      if n == ChunkSize {
        FlushBelow(aead, prefix, plain, rest, first, chunks);
        ok := FlushChunk();
        if !ok { return 0, false; }
      }
      k, ok := Min(ChunkSize - n, |rest|), true;
      Buffer(rest[..k]);
    }

    /**
     Takes p into the stream.  A full buffer is sealed only once more data follows, so every
     chunk sealed here lies strictly before the end of the plaintext, error or not.
     */
    method Write(p: seq<byte>) returns (written: nat, ok: bool)
      requires closed || Valid()
      modifies this`n, this`index, this`wroteHeader, this`chunks, this`log, this`plain, dst, buf
      ensures closed ==> !ok && written == 0 && unchanged(this) && unchanged(dst) && unchanged(buf)
      ensures ok ==> Valid() && written == |p| && plain == old(plain) + p && Unfailed()
      ensures ok ==> if p == [] then chunks == old(chunks) && n == old(n) && log == old(log) else n > 0
      ensures ok && chunks == 0 ==> old(chunks) == 0 && wroteHeader == old(wroteHeader)
      ensures !closed && !ok ==> written < |p| && plain == old(plain) + p[..written]
      ensures !closed && !ok ==> chunks < LastIndex(|old(plain) + p|) && OneAhead(old(plain) + p)
      ensures !closed && !ok ==> Torn(Open(aead, prefix, old(plain) + p, LastIndex(|old(plain) + p|)))
      ensures !closed && old(DiskFine()) ==> ok
    {
      if closed { return 0, false; }
      written, ok := TakeAll(p, plain + p);
      assert plain == (old(plain) + p)[..|plain|] == old(plain) + p[..written];
    }

    /** The loop of Write on a writer that is not closed; whole is the plaintext it aims at. */
    method TakeAll(p: seq<byte>, ghost whole: seq<byte>) returns (written: nat, ok: bool)
      requires Valid() && whole == plain + p
      modifies this`n, this`index, this`wroteHeader, this`chunks, this`log, this`plain, dst, buf
      ensures ok ==> Valid() && plain == whole && Unfailed()
      ensures ok ==> if p == [] then chunks == old(chunks) && n == old(n) && log == old(log) else n > 0
      ensures ok && chunks == 0 ==> old(chunks) == 0 && wroteHeader == old(wroteHeader)
      ensures |plain| == |old(plain)| + written && (ok <==> written == |p|)
      ensures !ok ==> plain <= whole
      ensures !ok ==> chunks < LastIndex(|whole|) && OneAhead(whole)
      ensures !ok ==> Torn(Open(aead, prefix, whole, LastIndex(|whole|)))
      ensures old(DiskFine()) ==> ok
    {
      written, ok := 0, true;
      var rest := p;
      while rest != []
        invariant written + |rest| == |p| && ok && |plain| == |old(plain)| + written
        invariant Valid() && plain + rest == whole && Unfailed()
        invariant rest == p || n > 0
        invariant chunks == 0 ==> old(chunks) == 0 && wroteHeader == old(wroteHeader)
        invariant rest == p ==> chunks == old(chunks) && n == old(n) && log == old(log)
        decreases |rest|
      {
        ghost var before := plain;
        var k;
        k, ok := TakeSome(rest, whole);
        if !ok { return; }
        Regroup(before, rest, k);
        written, rest := written + k, rest[k..];
      }
      assert plain + rest == plain;
    }

    /** Makes everything taken so far durable without ending the stream; only at a chunk boundary. */
    method FlushFull() returns (r: FlushResult)
      requires Valid()
      modifies this`n, this`index, this`wroteHeader, this`chunks, this`log, dst
      ensures r.Unaligned? <==> |plain| % ChunkSize != 0
      ensures r.Unaligned? ==> unchanged(this) && unchanged(dst)
      ensures r.Flushed? ==> Valid() && wroteHeader && |plain| == chunks * ChunkSize && Unfailed()
      ensures r.WriteError? ==> log <= InteriorPairs(prefix, plain, first, |plain| / ChunkSize)
      ensures r.WriteError? ==>
                chunks == old(chunks) &&
                if plain == [] then chunks == 0 && log == iset{}
                else |plain| == (chunks + 1) * ChunkSize && OneAhead(plain)
      ensures r.WriteError? && chunks > 0 ==> log == InteriorPairs(prefix, plain, first, chunks + 1)
      ensures r.WriteError? ==> Torn(Open(aead, prefix, plain, |plain| / ChunkSize))
      ensures old(DiskFine()) ==> !r.WriteError?
    {
      var ok;
      if n == ChunkSize {
        Divides(|plain|, chunks + 1, 0);
        ok := FlushChunk();
      } else if n == 0 {
        Divides(|plain|, chunks, 0);
        ok := WriteHeader();
      } else {
        Divides(|plain|, chunks, n);
        return Unaligned;
      }
      r := if ok then Flushed else WriteError;
    }

    /** Ends the stream: whatever is buffered becomes the final chunk, even if that is nothing. */
    method Close() returns (ok: bool)
      requires closed || Valid()
      modifies this`n, this`index, this`wroteHeader, this`log, this`closed, dst
      ensures closed
      ensures old(closed) ==> ok && unchanged(this) && unchanged(dst)
      ensures !old(closed) ==>
                var final := (Nonce(prefix, old(index), true), plain[chunks * ChunkSize..]);
                var meant := Open(aead, prefix, plain, chunks) + aead.seal(final.0, final.1);
                && old(log) <= log <= old(log) + iset{final} && (chunks > 0 ==> log == old(log) + iset{final})
                && (ok ==> dst.bytes == meant && log == old(log) + iset{final} && Unfailed())
                && (!ok ==> Torn(meant))
      ensures old(DiskFine()) ==> ok
    {
      if closed { return true; }
      ok := Flush(true);
      closed := true;
    }
  }

  datatype FlushResult = Flushed | Unaligned | WriteError

  /**
   Closing gives the sealed stream of the plaintext exactly when something is buffered or the
   plaintext is empty; otherwise an extra, empty final chunk is appended.
   */
  lemma CloseSealsIff(a: Aead, prefix: seq<byte>, p: seq<byte>, k: nat)
    requires Tagged(a) && IsPrefix(prefix) && k * ChunkSize <= |p| <= (k + 1) * ChunkSize
    ensures Open(a, prefix, p, k) + a.seal(Nonce(prefix, k % Uint32Count, true), p[k * ChunkSize..])
            == Sealed(a, prefix, p)
            <==> p == [] || k * ChunkSize < |p|
  {
    if p == [] || k * ChunkSize < |p| {
      assert k == LastIndex(|p|);
    } else {
      assert LastIndex(|p|) == k - 1;
      OpenLength(a, prefix, p, k);
      SealedLength(a, prefix, p);
    }
  }
}
