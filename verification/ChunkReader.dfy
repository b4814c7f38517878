/** The decrypting reader, bounded copying, and opening at an offset. */
module ChunkReader {
  import opened Bytes
  import opened ChunkFormat
  import opened ChunkDecode
  import opened BlobFile

  datatype Status = More | Eof | Failed

  class Reader {
    const aead: Aead
    const src: Blob
    const prefix: seq<byte>
    var out: seq<byte>
    var off: nat
    var index: nat
    var done: bool

    ghost predicate Valid()
      reads this
    {
      IsPrefix(prefix) && index < Uint32Count && off <= |out|
    }

    /** Everything that is still to be read, as the pure decoder sees it. */
    ghost function Rest(): Decoded
      requires Valid()
      reads this, src
    {
      After(out[off..], Later(aead, prefix, index, done, Tail(src)))
    }

    constructor (aead: Aead, src: Blob, prefix: seq<byte>, index: nat)
      requires IsPrefix(prefix) && index < Uint32Count
      ensures Valid() && this.aead == aead && this.src == src && this.prefix == prefix
      ensures Rest() == Decode(aead, prefix, index, Tail(src))
    {
      this.aead, this.src, this.prefix, this.index := aead, src, prefix, index;
      out, off, done := [], 0, false;
    }

    /** Nothing before where the source stood was read. */
    twostate predicate ReadsOn()
      reads src
    {
      src.pos >= old(src.pos) && OnlyFrom(src.touched, old(src.touched), old(src.pos))
    }

    /** Decrypts the next chunk. */
    method FillNext() returns (ok: bool)
      requires Valid() && !done && off == |out|
      modifies this, src`pos, src`touched
      ensures Valid() && ReadsOn()
      ensures ok ==> Rest() == old(Rest())
      ensures ok ==> done || |Tail(src)| < |old(Tail(src))|
      ensures !ok ==> old(Rest()) == Decoded([], false)
    {
      ghost var body := Tail(src);
      var got := src.ReadFull(SealedChunkSize);
      assert got == body[..Min(|body|, SealedChunkSize)];
      assert Tail(src) == body[|got|..];
      match Fill(aead, prefix, index, got) {
        case Corrupt =>
          ok := false;
        case Interiors(chunk) =>
          out, off, index, ok := chunk, 0, (index + 1) % Uint32Count, true;
        case Final(chunk) =>
          out, off, index, done, ok := chunk, 0, (index + 1) % Uint32Count, true, true;
      }
    }

    /** Read's loop: decrypts until the buffer holds something or there is nothing more. */
    method Replenish() returns (status: Status)
      requires Valid()
      modifies this, src`pos, src`touched
      ensures Valid() && ReadsOn()
      ensures status.More? ==> off < |out| && Rest() == old(Rest())
      ensures status.Eof? ==> old(Rest()) == Decoded([], true)
      ensures status.Failed? ==> old(Rest()) == Decoded([], false)
    {
      while off >= |out|
        invariant Valid() && Rest() == old(Rest()) && ReadsOn()
        decreases !done, |Tail(src)|
      {
        if done { return Eof; }
        var ok := FillNext();
        if !ok { return Failed; }
      }
      status := More;
    }

    /** Delivers at most k bytes.  End and error are reported only when nothing is left to deliver. */
    method Read(k: nat) returns (data: seq<byte>, status: Status)
      requires Valid()
      modifies this, src`pos, src`touched
      ensures Valid() && ReadsOn() && |data| <= k
      ensures status.More? ==> old(Rest()).plain != [] && (k > 0 ==> data != [])
      ensures status.More? ==> old(Rest()) == Decoded(data + Rest().plain, Rest().clean)
      ensures status.Eof? ==> data == [] && old(Rest()) == Decoded([], true)
      ensures status.Failed? ==> data == [] && old(Rest()) == Decoded([], false)
    {
      status := Replenish();
      data := [];
      if status.More? { data := TakeOut(k); }
    }

    /** Hands out what is decrypted already. */
    method TakeOut(k: nat) returns (data: seq<byte>)
      requires Valid() && off < |out|
      modifies this`off
      ensures Valid() && |data| <= k && (k > 0 ==> data != [])
      ensures old(Rest()).plain != [] && old(Rest()) == Decoded(data + Rest().plain, Rest().clean)
    {
      var n := Min(k, |out| - off);
      data := out[off .. off + n];
      ghost var later := Later(aead, prefix, index, done, Tail(src));
      Deliver(out, off, n, later);
      off := off + n;
      assert Rest() == After(out[off..], later);
    }
  }

  /** What the chunks not yet decrypted will give. */
  ghost function Later(a: Aead, prefix: seq<byte>, index: nat, done: bool, tail: seq<byte>): Decoded
    requires IsPrefix(prefix) && index < Uint32Count
  {
    if done then Decoded([], true) else Decode(a, prefix, index, tail)
  }

  ghost function After(now: seq<byte>, later: Decoded): Decoded {
    Decoded(now + later.plain, later.clean)
  }

  lemma Deliver(out: seq<byte>, off: nat, n: nat, later: Decoded)
    requires off + n <= |out|
    ensures After(out[off..], later)
         == After(out[off .. off + n], After(out[off + n ..], later))
    ensures off < |out| ==> |After(out[off..], later).plain| > 0
  {
    assert out[off..] + later.plain == out[off .. off + n] + (out[off + n ..] + later.plain);
  }

  ghost function Tail(src: Blob): seq<byte>
    reads src
  {
    if src.pos <= |src.bytes| then src.bytes[src.pos..] else []
  }

  /** Buffer sizes an io copy loop may use, one per round; none is empty. */
  ghost predicate Positive(sizes: nat -> nat) {
    forall i :: sizes(i) > 0
  }

  /** Copies exactly n bytes out of r, whatever buffer size each round uses, or all before the end or an error. */
  method CopyN(r: Reader, n: nat, sizes: nat -> nat) returns (copied: seq<byte>, status: Status)
    requires r.Valid() && Positive(sizes)
    modifies r, r.src`pos, r.src`touched
    ensures r.Valid() && r.ReadsOn()
    ensures |copied| <= n && (status.More? <==> |copied| == n)
    ensures status.More? ==> old(r.Rest()) == Decoded(copied + r.Rest().plain, r.Rest().clean)
    ensures status.Eof? ==> old(r.Rest()) == Decoded(copied, true)
    ensures status.Failed? ==> old(r.Rest()) == Decoded(copied, false)
  {
    copied, status := [], More;
    var round := 0;
    while |copied| < n
      invariant r.Valid() && r.ReadsOn() && |copied| <= n && status.More?
      invariant old(r.Rest()) == Decoded(copied + r.Rest().plain, r.Rest().clean)
      decreases n - |copied|
    {
      ghost var rest := r.Rest();
      var data;
      data, status := r.Read(Min(sizes(round), n - |copied|));
      if !status.More? {
        assert copied + rest.plain == copied;
        return;
      }
      assert copied + rest.plain == (copied + data) + r.Rest().plain;
      copied, round := copied + data, round + 1;
    }
  }

  datatype Opened = Opened(reader: Reader) | NegativeOffset | BadHeader | PastEnd | BadChunk

  /** The decoder's view of src from plaintext offset off on. */
  ghost function SeekDecode(a: Aead, bytes: seq<byte>, off: nat): Decoded
    requires |bytes| >= HeaderSize
  {
    var k := off / ChunkSize;
    Decode(a, bytes[5..HeaderSize], k % Uint32Count,
           if ChunkOffset(k) <= |bytes| then bytes[ChunkOffset(k)..] else [])
  }

  /** Opens a stream at its start, checking the header at once. */
  method NewReader(src: Blob, a: Aead) returns (r: Opened)
    requires src.pos == 0
    modifies src`pos, src`touched
    ensures r.Opened? || r.BadHeader?
    ensures r.BadHeader? <==> |src.bytes| < HeaderSize || !GoodHeader(src.bytes[..HeaderSize])
    ensures r.Opened? ==> fresh(r.reader) && r.reader.src == src && r.reader.Valid()
                          && r.reader.Rest() == SeekDecode(a, src.bytes, 0)
  {
    var h := src.ReadFull(HeaderSize);
    assert |h| == HeaderSize ==> h == src.bytes[..HeaderSize] && h[5..] == src.bytes[5..HeaderSize];
    if |h| < HeaderSize || !GoodHeader(h) { return BadHeader; }
    var reader := new Reader(a, src, h[5..], 0);
    r := Opened(reader);
  }

  /** Opens src for reading from plaintext offset off, touching the header and then only chunk off / ChunkSize on. */
  method OpenAt(src: Blob, a: Aead, off: int, sizes: nat -> nat) returns (r: Opened)
    requires Positive(sizes)
    modifies src`pos, src`touched
    ensures r.NegativeOffset? <==> off < 0
    ensures off >= 0 ==>
              OnlyFrom(src.touched, old(src.touched) + Between(0, HeaderSize), ChunkOffset(off / ChunkSize))
    ensures off >= 0 ==>
              (r.BadHeader? <==> |src.bytes| < HeaderSize || !GoodHeader(src.bytes[..HeaderSize]))
    ensures off >= 0 && !r.BadHeader? ==>
              var d := SeekDecode(a, src.bytes, off);
              var within := off % ChunkSize;
              && (r.Opened? <==> within <= |d.plain|)
              && (r.Opened? ==>
                    && fresh(r.reader) && r.reader.src == src && r.reader.Valid()
                    && src.pos >= ChunkOffset(off / ChunkSize)
                    && r.reader.Rest() == Decoded(d.plain[within..], d.clean))
              && (r.PastEnd? <==> within > |d.plain| && d.clean)
  {
    if off < 0 { return NegativeOffset; }
    src.Seek(0);
    var h := src.ReadFull(HeaderSize);
    assert |h| == HeaderSize ==> h == src.bytes[..HeaderSize];
    if |h| < HeaderSize || !GoodHeader(h) { return BadHeader; }
    var k, within := off / ChunkSize, off % ChunkSize;
    src.Seek(ChunkOffset(k));
    assert h[5..] == src.bytes[5..HeaderSize];
    var reader := new Reader(a, src, h[5..], k % Uint32Count);
    ghost var d := reader.Rest();
    assert d == SeekDecode(a, src.bytes, off);
    if within > 0 {
      var dropped, status := CopyN(reader, within, sizes);
      if status.Eof? { return PastEnd; }
      if status.Failed? { return BadChunk; }
      assert d.plain[within..] == reader.Rest().plain;
    }
    r := Opened(reader);
  }

  /** Opening at an offset inside the plaintext, or at the end of a file whose last chunk is short. */
  predicate Reachable(n: nat, off: nat) {
    off < n || (off == n && (n == 0 || n % ChunkSize != 0))
  }

  /**
   Seeking refines scanning: on a sealed stream, what OpenAt reads from any offset inside the
   plaintext is the plaintext from that offset on, to a clean end.  At the end of the
   plaintext it works exactly when the last chunk is not a full one.
   */
  lemma SeekSealed(a: Aead, prefix: seq<byte>, p: seq<byte>, off: nat)
    requires IsPrefix(prefix) && Authentic(a, prefix, p) && off <= |p|
    ensures |Sealed(a, prefix, p)| >= HeaderSize && GoodHeader(Sealed(a, prefix, p)[..HeaderSize])
    ensures var d := SeekDecode(a, Sealed(a, prefix, p), off);
            var within := off % ChunkSize;
            (within <= |d.plain| && Decoded(d.plain[within..], d.clean) == Decoded(p[off..], true))
            <==> Reachable(|p|, off)
  {
    HeaderStarts(a, prefix, p);
    if Reachable(|p|, off) {
      SeekInside(a, prefix, p, off);
    } else {
      SeekAtFullEnd(a, prefix, p);
    }
  }

  lemma SeekInside(a: Aead, prefix: seq<byte>, p: seq<byte>, off: nat)
    requires IsPrefix(prefix) && Authentic(a, prefix, p) && Reachable(|p|, off)
    ensures |Sealed(a, prefix, p)| >= HeaderSize
    ensures var d, within := SeekDecode(a, Sealed(a, prefix, p), off), off % ChunkSize;
            within <= |d.plain| && d.plain[within..] == p[off..] && d.clean
  {
    var k, within := off / ChunkSize, off % ChunkSize;
    HeaderStarts(a, prefix, p);
    ReachableIndex(|p|, off);
    DecodeSealed(a, prefix, p, k);
    WithinChunk(p, k, within, off);
    SmallIndex(k);
  }

  /** A reachable offset lies in a chunk that exists. */
  lemma ReachableIndex(n: nat, off: nat)
    requires Reachable(n, off)
    ensures off / ChunkSize <= LastIndex(n) && off == off / ChunkSize * ChunkSize + off % ChunkSize
  {
  }

  lemma SmallIndex(k: nat)
    requires k < Uint32Count
    ensures k % Uint32Count == k
  {
  }

  lemma WithinChunk(p: seq<byte>, k: nat, within: nat, off: nat)
    requires off == k * ChunkSize + within <= |p|
    ensures p[k * ChunkSize ..][within..] == p[off..]
  {
  }

  /** After a full last chunk there is nothing to decode, and that is an error, not an end. */
  lemma SeekAtFullEnd(a: Aead, prefix: seq<byte>, p: seq<byte>)
    requires IsPrefix(prefix) && Tagged(a) && p != [] && |p| % ChunkSize == 0
    ensures |Sealed(a, prefix, p)| >= HeaderSize
    ensures SeekDecode(a, Sealed(a, prefix, p), |p|) == Decoded([], false)
  {
    var k := |p| / ChunkSize;
    HeaderStarts(a, prefix, p);
    SealedLength(a, prefix, p);
    CiphertextSizeByLast(|p|);
    assert k == LastIndex(|p|) + 1;
    assert Sealed(a, prefix, p)[ChunkOffset(k)..] == [];
  }

  /** The header is where the readers look for it. */
  lemma HeaderStarts(a: Aead, prefix: seq<byte>, p: seq<byte>)
    requires IsPrefix(prefix)
    ensures |Sealed(a, prefix, p)| >= HeaderSize
    ensures Sealed(a, prefix, p)[..HeaderSize] == Header(prefix)
    ensures Sealed(a, prefix, p)[5..HeaderSize] == prefix
    ensures GoodHeader(Header(prefix))
  {
    HeaderReads(prefix);
    var s := Sealed(a, prefix, p);
    assert s[..HeaderSize] == Header(prefix);
    assert s[5..HeaderSize] == s[..HeaderSize][5..];
  }

  /**
   A cut file never passes for a whole one: whatever prefix is left, and from whatever offset
   it is opened, what is yielded is the right plaintext and the end is never clean.
   */
  lemma SeekTruncated(a: Aead, prefix: seq<byte>, p: seq<byte>, off: nat, len: nat)
    requires IsPrefix(prefix) && Authentic(a, prefix, p) && off <= |p|
    requires HeaderSize <= len < |Sealed(a, prefix, p)|
    ensures var d := SeekDecode(a, Sealed(a, prefix, p)[..len], off);
            && !d.clean
            && off / ChunkSize * ChunkSize <= |p|
            && d.plain <= p[off / ChunkSize * ChunkSize ..]
  {
    var s, k := Sealed(a, prefix, p)[..len], off / ChunkSize;
    HeaderStarts(a, prefix, p);
    assert s[5..HeaderSize] == Sealed(a, prefix, p)[5..HeaderSize] == prefix;
    if ChunkOffset(k) <= len {
      DecodeTruncated(a, prefix, p, k, len);
      assert s[ChunkOffset(k)..] == Sealed(a, prefix, p)[ChunkOffset(k)..len];
      SmallIndex(k);
      var j := WholeChunks(len);
      assert SeekDecode(a, s, off) == Decoded(p[k * ChunkSize .. j * ChunkSize], false);
      assert p[k * ChunkSize .. j * ChunkSize] == p[k * ChunkSize ..][..(j - k) * ChunkSize];
    } else {
      assert SeekDecode(a, s, off) == Decoded([], false);
    }
  }
}
