/** The server side of the upload: WriteParts and the writer it positions, over a real file handle. */
module UploadServer {
  import opened Bytes
  import opened ChunkFormat
  import opened ChunkDecode
  import opened BlobFile
  import opened ChunkWriter
  import opened UploadModel
  import opened UploadRuns
  import opened UploadCounts
  import R = ChunkResume

  datatype Positioned = Ready(writer: Writer) | OffsetDiffers(expected: nat) | Unusable

  /** Returns a writer positioned to append plaintext at offset. */
  method WriterAt(f: Blob, a: Aead, offset: nat, drawn: seq<byte>, ghost prefix: seq<byte>, ghost acked: seq<byte>)
    returns (r: Positioned)
    requires Tagged(a) && IsPrefix(drawn) && IsPrefix(prefix) && !f.dead
    requires |acked| == offset && offset % ChunkSize == 0
    requires offset > 0 ==> Open(a, prefix, acked, offset / ChunkSize) <= f.bytes
    modifies f`bytes, f`pos, f`touched
    ensures r.Ready? <==> offset == 0 || OnDisk(old(f.bytes)) == offset
    ensures r.Ready? ==>
              && fresh(r.writer) && fresh(r.writer.buf) && r.writer.Valid() && r.writer.dst == f && r.writer.aead == a
              && r.writer.prefix == (if offset == 0 then drawn else prefix)
              && r.writer.plain == acked && r.writer.n == 0
              && r.writer.chunks == r.writer.first == offset / ChunkSize && r.writer.log == iset{}
              && (if offset > 0 then f.bytes == Open(a, prefix, acked, offset / ChunkSize) else f.bytes == [])
    ensures !r.Ready? ==>
              && r == OffsetDiffers(OnDisk(old(f.bytes)))
              && f.bytes == Resized(old(f.bytes), R.AlignDown(|old(f.bytes)|))
  {
    if offset == 0 {
      var _ := f.Truncate(0);
      f.Seek(0);
      assert f.bytes == [];
      var w := new Writer(a, f, drawn);
      return Ready(w);
    }
    ghost var k := offset / ChunkSize;
    OpenLength(a, prefix, acked, k);
    ghost var before := f.bytes;
    assert before[..HeaderSize] == Header(prefix) by {
      assert Open(a, prefix, acked, k)[..HeaderSize] == Header(prefix);
    }
    HeaderReads(prefix);
    var aligned := R.AlignDown(|f.bytes|);
    if aligned != |f.bytes| {
      var _ := f.Truncate(aligned);
    }
    assert f.bytes == Resized(before, aligned) == before[..aligned];
    assert f.bytes[..HeaderSize] == Header(prefix);
    assert f.bytes[5..HeaderSize] == f.bytes[..HeaderSize][5..] == prefix;
    f.Seek(0);
    var st := R.InspectPartial(f, aligned);
    if !st.Resumable? { return Unusable; }
    if st.state.plaintextLen != offset { return OffsetDiffers(st.state.plaintextLen); }
    f.Seek(aligned);
    R.AlignsToChunks(a, prefix, acked, k, before);
    var w := new Writer.Resume(a, f, st.state.prefix, st.state.nextIndex, acked, k);
    r := Ready(w);
  }

  /** io.Copy into the writer: data arrives in pieces of any positive sizes; full is the plaintext with it. */
  method Copy(w: Writer, data: seq<byte>, sizes: nat -> nat, ghost full: seq<byte>) returns (ok: bool)
    requires w.Valid() && full == w.plain + data && forall i :: sizes(i) > 0
    modifies w`n, w`index, w`wroteHeader, w`chunks, w`log, w`plain, w.dst, w.buf
    ensures ok ==> w.Valid() && w.plain == full && w.Unfailed()
    ensures ok ==> if data == [] then w.chunks == old(w.chunks) && w.n == old(w.n) && w.log == old(w.log) else w.n > 0
    ensures ok && w.chunks == 0 ==> w.wroteHeader == old(w.wroteHeader)
    ensures !ok ==> w.chunks < LastIndex(|full|) && w.OneAhead(full)
    ensures !ok ==> w.Torn(Open(w.aead, w.prefix, full, LastIndex(|full|)))
    ensures data == [] || old(w.DiskFine()) ==> ok
  {
    var rest, round := data, 0;
    ok := true;
    while rest != []
      invariant w.Valid() && w.plain + rest == full && w.Unfailed() && ok
      invariant w.chunks == 0 ==> w.wroteHeader == old(w.wroteHeader)
      invariant rest == data || w.n > 0
      invariant rest == data ==> w.chunks == old(w.chunks) && w.n == old(w.n) && w.log == old(w.log)
      decreases |rest|
    {
      var k := Min(sizes(round), |rest|);
      ok := CopyPiece(w, rest, k, full);
      if !ok { return; }
      rest, round := rest[k..], round + 1;
    }
    assert w.plain + rest == w.plain;
  }

  /** One piece of a body of which rest is still to be copied. */
  method CopyPiece(w: Writer, rest: seq<byte>, k: nat, ghost full: seq<byte>) returns (ok: bool)
    requires w.Valid() && full == w.plain + rest && 0 < k <= |rest|
    modifies w`n, w`index, w`wroteHeader, w`chunks, w`log, w`plain, w.dst, w.buf
    ensures ok ==> w.Valid() && w.plain + rest[k..] == full && w.Unfailed() && w.n > 0
    ensures ok && w.chunks == 0 ==> old(w.chunks) == 0 && w.wroteHeader == old(w.wroteHeader)
    ensures !ok ==> w.chunks < LastIndex(|full|) && w.OneAhead(full)
    ensures !ok ==> w.Torn(Open(w.aead, w.prefix, full, LastIndex(|full|)))
    ensures old(w.DiskFine()) ==> ok
  {
    ghost var before := w.plain;
    PieceBelow(w.aead, w.prefix, before, rest, k, w.first, full);
    var _, taken := w.Write(rest[..k]);
    Regroup(before, rest, k);
    ok := taken;
  }

  /** What writing a piece may leave or seal is within what writing the whole may. */
  lemma PieceBelow(a: Aead, prefix: seq<byte>, p: seq<byte>, q: seq<byte>, k: nat, first: nat, full: seq<byte>)
    requires IsPrefix(prefix) && k <= |q| && full == p + q
    ensures Open(a, prefix, p + q[..k], LastIndex(|p + q[..k]|)) <= Open(a, prefix, full, LastIndex(|full|))
    ensures forall to: nat | to * ChunkSize <= |p + q[..k]| ::
              InteriorPairs(prefix, p + q[..k], first, to) == InteriorPairs(prefix, full, first, to)
    ensures LastIndex(|p + q[..k]|) <= LastIndex(|full|)
  {
    var part, m, m' := p + q[..k], LastIndex(|p + q[..k]|), LastIndex(|full|);
    Regroup(p, q, k);
    assert m <= m' by { LastIndexMonotone(|part|, |full|); }
    OpenExtends(a, prefix, part, q[k..], m);
    OpenGrows(a, prefix, full, m, m');
    forall to: nat | to * ChunkSize <= |part| { PairsExtend(prefix, part, q[k..], first, to); }
  }

  lemma LastIndexMonotone(m: nat, n: nat)
    requires m <= n
    ensures LastIndex(m) <= LastIndex(n)
  {
  }

  /** What copying may leave or seal is within what the whole part is meant to. */
  lemma CopyWithinEnd(a: Aead, prefix: seq<byte>, full: seq<byte>, size: nat)
    requires IsPrefix(prefix) && |full| <= size
    ensures Open(a, prefix, full, LastIndex(|full|)) <= EndBytes(a, prefix, full, size)
  {
    if |full| < size {
      var m, k := LastIndex(|full|), |full| / ChunkSize;
      assert m <= k;
      OpenGrows(a, prefix, full, m, k);
    }
  }

  /** The pairs of the chunks a part has put on disk, and those with one chunk more, whose writing failed. */
  lemma PairsOnDisk(prefix: seq<byte>, full: seq<byte>, size: nat, first: nat, c: nat, log: Log, b: seq<byte>)
    requires IsPrefix(prefix) && (c > 0 ==> ChunkOffset(c) <= |b|)
    requires || (c <= InteriorEnd(full, size) && log <= InteriorPairs(prefix, full, first, c))
             || (c < InteriorEnd(full, size) && log <= InteriorPairs(prefix, full, first, c + 1))
             || (c == InteriorEnd(full, size) && log <= EndPairs(prefix, full, size, first) && |full| <= size)
    ensures OneChunkAhead(prefix, full, size, first, log, b)
  {
  }

  /** How a part ended: all on disk, a flush that failed and is to be rolled back, or an error. */
  datatype Finished = Durable | FlushFailed | Broken

  /** The end of a part: the final chunk if the file is complete, a flush at a chunk boundary if not. */
  method FinishPart(w: Writer, newLen: nat, size: nat) returns (r: Finished)
    requires w.Valid() && |w.plain| == newLen <= size
    requires newLen == size ==> w.n > 0
    requires w.dst.bytes <= EndBytes(w.aead, w.prefix, w.plain, size)
    requires w.log <= EndPairs(w.prefix, w.plain, size, w.first)
    modifies w`n, w`index, w`wroteHeader, w`chunks, w`log, w`closed, w.dst
    ensures r.FlushFailed? ==> newLen < size
    ensures r.Broken? ==> newLen == size
    ensures newLen < size && newLen % ChunkSize != 0 ==> r.FlushFailed? && unchanged(w.dst)
    ensures newLen == size || newLen % ChunkSize == 0 ==>
              if r.Durable? then w.dst.Limit() == old(w.dst.Limit())
              else w.Torn(EndBytes(w.aead, w.prefix, w.plain, size))
    ensures r.Durable? ==> w.dst.bytes == EndBytes(w.aead, w.prefix, w.plain, size)
    ensures r.Durable? || w.first > 0 ==> w.log == EndPairs(w.prefix, w.plain, size, w.first)
    ensures w.dst.bytes <= EndBytes(w.aead, w.prefix, w.plain, size)
    ensures OneChunkAhead(w.prefix, w.plain, size, w.first, w.log, w.dst.bytes)
    ensures old(w.dst.bytes) <= w.dst.bytes
    ensures old(w.DiskFine()) && (newLen == size || newLen % ChunkSize == 0) ==> r.Durable?
  {
    if newLen >= size {
      var ok := FinishFile(w);
      r := if ok then Durable else Broken;
    } else {
      var flushed := FinishChunks(w, size);
      r := if flushed then Durable else FlushFailed;
    }
  }

  /** Closes the stream of a complete file. */
  method FinishFile(w: Writer) returns (ok: bool)
    requires w.Valid() && w.n > 0
    modifies w`n, w`index, w`wroteHeader, w`chunks, w`log, w`closed, w.dst
    ensures if ok then w.dst.Limit() == old(w.dst.Limit())
            else w.Torn(EndBytes(w.aead, w.prefix, w.plain, |w.plain|))
    ensures ok ==> w.dst.bytes == EndBytes(w.aead, w.prefix, w.plain, |w.plain|)
    ensures ok || w.first > 0 ==> w.log == EndPairs(w.prefix, w.plain, |w.plain|, w.first)
    ensures w.dst.bytes <= EndBytes(w.aead, w.prefix, w.plain, |w.plain|)
    ensures OneChunkAhead(w.prefix, w.plain, |w.plain|, w.first, w.log, w.dst.bytes)
    ensures old(w.dst.bytes) <= w.dst.bytes
    ensures old(w.DiskFine()) ==> ok
  {
    CloseSealsIff(w.aead, w.prefix, w.plain, w.chunks);
    OpenLength(w.aead, w.prefix, w.plain, w.chunks);
    assert w.chunks == LastIndex(|w.plain|);
    assert w.plain[w.chunks * ChunkSize..] == Chunk(w.plain, w.chunks);
    ok := w.Close();
    PairsOnDisk(w.prefix, w.plain, |w.plain|, w.first, w.chunks, w.log, w.dst.bytes);
  }

  /** Flushes a part that does not end the file. */
  method FinishChunks(w: Writer, size: nat) returns (ok: bool)
    requires w.Valid() && |w.plain| < size
    modifies w`n, w`index, w`wroteHeader, w`chunks, w`log, w.dst
    ensures |w.plain| % ChunkSize != 0 ==> !ok && unchanged(w.dst)
    ensures |w.plain| % ChunkSize == 0 ==>
              if ok then w.dst.Limit() == old(w.dst.Limit()) else w.Torn(EndBytes(w.aead, w.prefix, w.plain, size))
    ensures ok ==> w.dst.bytes == EndBytes(w.aead, w.prefix, w.plain, size)
    ensures ok || w.first > 0 ==> w.log == EndPairs(w.prefix, w.plain, size, w.first)
    ensures OneChunkAhead(w.prefix, w.plain, size, w.first, w.log, w.dst.bytes)
    ensures old(w.dst.bytes) <= w.dst.bytes
    ensures old(w.DiskFine()) && |w.plain| % ChunkSize == 0 ==> ok
  {
    var flushed := w.FlushFull();
    ok := flushed.Flushed?;
    if !flushed.WriteError? { OpenLength(w.aead, w.prefix, w.plain, w.chunks); }
    FlushedPairs(w.prefix, w.plain, size, w.first, w.chunks, w.log, w.dst.bytes, flushed);
  }

  lemma FlushedPairs(prefix: seq<byte>, p: seq<byte>, size: nat, first: nat, c: nat, log: Log, b: seq<byte>,
                     r: FlushResult)
    requires IsPrefix(prefix) && |p| < size && first <= c && (c > 0 ==> ChunkOffset(c) <= |b|)
    requires match r
             case Flushed => |p| == c * ChunkSize && log == InteriorPairs(prefix, p, first, c)
             case Unaligned => c * ChunkSize < |p| < (c + 1) * ChunkSize && log == InteriorPairs(prefix, p, first, c)
             case WriteError =>
               if p == [] then c == 0 && log == iset{}
               else && |p| == (c + 1) * ChunkSize && log <= InteriorPairs(prefix, p, first, c + 1)
                    && (c > 0 ==> log == InteriorPairs(prefix, p, first, c + 1))
    ensures r.Flushed? || first > 0 ==> log == EndPairs(prefix, p, size, first)
    ensures OneChunkAhead(prefix, p, size, first, log, b)
  {
    match r
    case Flushed =>
      Divides(|p|, c, 0);
    case Unaligned =>
      Divides(|p|, c, |p| - c * ChunkSize);
    case WriteError =>
      if p != [] { Divides(|p|, c + 1, 0); }
    PairsOnDisk(prefix, p, size, first, c, log, b);
  }

  lemma EndLength(a: Aead, prefix: seq<byte>, full: seq<byte>, size: nat)
    requires Tagged(a) && IsPrefix(prefix)
    ensures |EndBytes(a, prefix, full, size)| == EndLen(|full|, size)
    ensures |Open(a, prefix, full, LastIndex(|full|))| == ChunkOffset(LastIndex(|full|))
  {
    OpenLength(a, prefix, full, |full| / ChunkSize);
    OpenLength(a, prefix, full, LastIndex(|full|));
    SealedLength(a, prefix, full);
  }

  /** Copies the body; the chunks before the last go to disk, as far as it takes them. */
  method CopyBody(w: Writer, offset: nat, data: seq<byte>, size: nat, sizes: nat -> nat, ghost full: seq<byte>)
    returns (ok: bool)
    requires w.Valid() && |w.plain| == offset && offset + |data| <= size && offset < size && full == w.plain + data
    requires w.log == iset{} && w.first == w.chunks && w.n == 0
    requires |w.dst.bytes| == BaseLen(offset) && !w.dst.dead
    requires forall i :: sizes(i) > 0
    modifies w`n, w`index, w`wroteHeader, w`chunks, w`log, w`plain, w.dst, w.buf
    ensures old(w.dst.bytes) <= w.dst.bytes <= EndBytes(w.aead, w.prefix, full, size)
    ensures OneChunkAhead(w.prefix, full, size, w.first, w.log, w.dst.bytes)
    ensures ok ==>
              && w.Valid() && w.plain == full && (data != [] ==> w.n > 0)
              && |w.dst.bytes| == CopiedLen(offset, |full|) && !w.dst.dead
              && w.dst.Limit() == Capacity(offset, old(w.dst.room)) && w.dst.fatal == old(w.dst.fatal)
    ensures !ok ==>
              && data != [] && LastIndex(|full|) > w.first
              && old(w.dst.room).Some?
              && |w.dst.bytes| == BaseLen(offset) + old(w.dst.room).value < ChunkOffset(LastIndex(|full|))
  {
    EndLength(w.aead, w.prefix, full, size);
    ghost var room, limit := w.dst.room, w.dst.Limit();
    assert limit == Capacity(offset, room);
    ok := Copy(w, data, sizes, full);
    if ok {
      CopiedWithinEnd(w, full, size, offset);
    } else {
      CopyWithinEnd(w.aead, w.prefix, full, size);
      PairsOnDisk(w.prefix, full, size, w.first, w.chunks, w.log, w.dst.bytes);
    }
  }

  /** Copies the body into the stream and finishes the part; how that ends depends on lengths alone. */
  method Transfer(w: Writer, offset: nat, data: seq<byte>, breaks: bool, size: nat, sizes: nat -> nat,
                  ghost full: seq<byte>, ghost e: Ending)
    returns (r: Finished)
    requires w.Valid() && |w.plain| == offset && offset + |data| <= size && offset < size && full == w.plain + data
    requires w.log == iset{} && w.first == w.chunks && w.n == 0
    requires |w.dst.bytes| == BaseLen(offset) && !w.dst.dead
    requires e == Ends(offset, |full|, size, breaks, w.dst.room, w.dst.fatal)
    requires forall i :: sizes(i) > 0
    modifies w`n, w`index, w`wroteHeader, w`chunks, w`log, w`plain, w`closed, w.dst, w.buf
    ensures old(w.dst.bytes) <= w.dst.bytes <= EndBytes(w.aead, w.prefix, full, size)
    ensures OneChunkAhead(w.prefix, full, size, w.first, w.log, w.dst.bytes)
    ensures r.Durable? || (w.first > 0 && (r.FlushFailed? || (!breaks && LastIndex(|full|) == w.first))) ==>
              w.log == EndPairs(w.prefix, full, size, w.first)
    ensures r.Durable? ==>
              && w.dst.bytes == EndBytes(w.aead, w.prefix, full, size)
              && (|full| < size ==> |full| % ChunkSize == 0)
    ensures r.FlushFailed? ==> |full| < size
    ensures Reaches(r, w.dst.dead, |w.dst.bytes|, e)
  {
    ghost var room, fatal := w.dst.room, w.dst.fatal;
    var copied := CopyBody(w, offset, data, size, sizes, full);
    if !copied {
      CopyFails(w.first, offset, |full|, size, breaks, room.value, fatal);
      return Broken;
    }
    r := EndTransfer(w, offset, offset + |data|, breaks, size, full, room, e);
  }

  /** What follows the copying: an error if the body broke off, else the end of the part. */
  method EndTransfer(w: Writer, offset: nat, newLen: nat, breaks: bool, size: nat,
                     ghost full: seq<byte>, ghost room: Option<nat>, ghost e: Ending)
    returns (r: Finished)
    requires w.Valid() && w.plain == full && offset <= |full| == newLen <= size && (newLen == size ==> w.n > 0)
    requires |w.dst.bytes| == CopiedLen(offset, |full|) && w.dst.bytes <= EndBytes(w.aead, w.prefix, full, size)
    requires OneChunkAhead(w.prefix, full, size, w.first, w.log, w.dst.bytes) && !w.dst.dead
    requires w.dst.Limit() == Capacity(offset, room)
    requires e == Ends(offset, |full|, size, breaks, room, w.dst.fatal)
    modifies w`n, w`index, w`wroteHeader, w`chunks, w`log, w`closed, w.dst
    ensures old(w.dst.bytes) <= w.dst.bytes <= EndBytes(w.aead, w.prefix, full, size)
    ensures OneChunkAhead(w.prefix, full, size, w.first, w.log, w.dst.bytes)
    ensures r.Durable? || (w.first > 0 && !breaks) ==> w.log == EndPairs(w.prefix, full, size, w.first)
    ensures r.FlushFailed? ==> !breaks
    ensures r.Durable? ==>
              && w.dst.bytes == EndBytes(w.aead, w.prefix, full, size)
              && (|full| < size ==> |full| % ChunkSize == 0)
    ensures r.FlushFailed? ==> |full| < size
    ensures Reaches(r, w.dst.dead, |w.dst.bytes|, e)
  {
    EndLength(w.aead, w.prefix, full, size);
    CopySucceeds(offset, |full|, size, room, w.dst.fatal);
    if breaks { return Broken; }
    r := FinishPart(w, newLen, size);
  }

  /** How a finished transfer shows which ending it had. */
  predicate Reaches(r: Finished, dead: bool, len: nat, e: Ending) {
    match e
    case Whole => r.Durable?
    case Undone => r.FlushFailed? && !dead
    case Left(n) => (r.Broken? || (r.FlushFailed? && dead)) && len == n
  }

  /** After copying, what is on disk is within what the part is meant to leave. */
  lemma CopiedWithinEnd(w: Writer, full: seq<byte>, size: nat, offset: nat)
    requires w.Valid() && w.plain == full && offset <= |full| <= size
    requires if w.n == 0 then w.chunks * ChunkSize == |full| == offset < size else offset < |full|
    requires w.chunks == 0 ==> (w.wroteHeader <==> offset > 0)
    ensures |w.dst.bytes| == CopiedLen(offset, |full|)
    ensures w.dst.bytes <= EndBytes(w.aead, w.prefix, full, size)
    ensures OneChunkAhead(w.prefix, full, size, w.first, w.log, w.dst.bytes)
  {
    if w.n > 0 {
      assert w.chunks == LastIndex(|full|);
      CopyWithinEnd(w.aead, w.prefix, full, size);
    } else {
      Divides(|full|, w.chunks, 0);
    }
    if w.wroteHeader {
      OpenLength(w.aead, w.prefix, full, w.chunks);
    } else {
      assert w.dst.bytes == [];
    }
    PairsOnDisk(w.prefix, full, size, w.first, w.chunks, w.log, w.dst.bytes);
  }

  /** One row of the files table with the blob it names. */
  class UploadFile {
    const aead: Aead
    const size: nat
    var blob: seq<byte>
    var received: nat

    ghost var prefix: seq<byte>
    ghost var acked: seq<byte>
    ghost var log: Log

    ghost function State(): FileState
      reads this
    {
      FileState(size, blob, received, prefix, acked, log)
    }

    ghost predicate Valid()
      reads this
    {
      Tagged(aead) && Inv(aead, State())
    }

    /** The part can be stored behind chunks already there, and all it brings is one chunk. */
    static predicate InOneChunk(s: FileState, offset: nat, body: seq<byte>) {
      && offset == s.received && 0 < s.received < s.size && CanResume(s)
      && LastIndex(|Extended(s, body)|) == offset / ChunkSize
    }

    /** The part of WriteParts after the writer is in place. */
    method StorePart(w: Writer, offset: nat, body: seq<byte>, faults: Faults, sizes: nat -> nat,
                     ghost full: seq<byte>, ghost pairs: Log, ghost e: Ending)
      returns (reply: Reply)
      requires Tagged(aead) && |acked| == received < size && offset == received
      requires forall i :: sizes(i) > 0
      requires w.Valid() && w.aead == aead && w.plain == acked && w.n == 0
      requires w.first == w.chunks == offset / ChunkSize && w.log == iset{}
      requires if offset > 0 then w.dst.bytes == Open(aead, w.prefix, acked, offset / ChunkSize) else w.dst.bytes == []
      requires !w.dst.dead && w.dst.room == faults.room && w.dst.fatal == faults.fatal
      requires full == Extended(State(), body) && pairs == EndPairs(w.prefix, full, size, w.first)
      requires e == Ends(offset, |full|, size, faults.bodyBreaks && |body| < size - offset, faults.room, faults.fatal)
      modifies this`received, this`acked, this`log, w, w.dst, w.buf
      ensures if reply.Stored? then
                && reply.received == received == |full| && acked == full
                && (|full| < size ==> |full| % ChunkSize == 0)
                && w.dst.bytes == EndBytes(aead, w.prefix, full, size)
                && log == old(log) + pairs
              else
                && !reply.Mismatch? && received == old(received) && acked == old(acked)
                && (offset > 0 ==> old(w.dst.bytes) <= w.dst.bytes)
                && (reply.Failed? || offset > 0 ==> w.dst.bytes <= EndBytes(aead, w.prefix, full, size))
                && old(log) <= log <= old(log) + pairs
                && (reply.Failed? && offset > 0 ==>
                      log <= old(log) + PairsUpTo(w.prefix, full, size, w.first, ChunksIn(w.dst.bytes)))
                && (reply.Rejected? && offset > 0 ==>
                      |full| < size && log == old(log) + pairs
                      && w.dst.bytes == Open(aead, w.prefix, acked, offset / ChunkSize))
      ensures offset > 0 && !faults.bodyBreaks && LastIndex(|full|) == w.first ==> log == old(log) + pairs
      ensures Shows(reply, |w.dst.bytes|, if e.Whole? && faults.rowLost then Left(EndLen(|full|, size)) else e)
    {
      var remaining := size - offset;
      var data := body[..Min(|body|, remaining)];
      assert full == acked + data;
      if offset > 0 { OpenLength(aead, w.prefix, acked, offset / ChunkSize); }
      var finished := Transfer(w, offset, data, faults.bodyBreaks && |body| < remaining, size, sizes, full, e);
      LogWithin(log, w.log, pairs);
      log := log + w.log;
      reply := Settle(w.dst, finished, offset, offset + |data|, faults.rowLost, w.prefix, full, e);
    }

    /** What is left once the part is transferred: an error, the roll-back, or the row. */
    method Settle(f: Blob, finished: Finished, offset: nat, newLen: nat, rowLost: bool,
                  ghost stream: seq<byte>, ghost full: seq<byte>, ghost e: Ending)
      returns (reply: Reply)
      requires Tagged(aead) && IsPrefix(stream) && |acked| == received == offset < size && |full| == newLen
      requires offset > 0 ==> Open(aead, stream, acked, offset / ChunkSize) <= f.bytes
      requires f.bytes <= EndBytes(aead, stream, full, size)
      requires finished.Durable? ==> f.bytes == EndBytes(aead, stream, full, size)
      requires Reaches(finished, f.dead, |f.bytes|, e)
      modifies this`received, this`acked, f`bytes
      ensures if reply.Stored? then
                reply.received == received == newLen && acked == full && finished.Durable? && f.bytes == old(f.bytes)
              else
                && !reply.Mismatch? && received == old(received) && acked == old(acked)
                && (reply.Failed? ==> f.bytes == old(f.bytes))
                && (reply.Rejected? ==> finished.FlushFailed?)
                && (reply.Rejected? && offset > 0 ==> f.bytes == Open(aead, stream, acked, offset / ChunkSize))
      ensures Shows(reply, |f.bytes|, if e.Whole? && rowLost then Left(EndLen(newLen, size)) else e)
    {
      if finished.Broken? { return Failed; }
      if finished.FlushFailed? {
        RollsBack(aead, stream, acked, offset, f.bytes);
        var rolledBack := f.Truncate(CiphertextLenFor(offset));
        return if rolledBack then Rejected else Failed;
      }
      EndLength(aead, stream, full, size);
      if rowLost { return Failed; }
      received, acked := newLen, full;
      reply := Stored(received);
    }

    /** StorePart as an outcome of the model: the part is done, or it is torn. */
    method StoreReady(w: Writer, offset: nat, body: seq<byte>, faults: Faults, sizes: nat -> nat,
                      ghost before: FileState, ghost full: seq<byte>)
      returns (reply: Reply)
      requires before == State() && Valid() && received < size && offset == received
      requires forall i :: sizes(i) > 0
      requires w.Valid() && w.aead == aead && w.plain == acked && w.n == 0
      requires w.first == w.chunks == offset / ChunkSize && w.log == iset{}
      requires if offset > 0 then w.dst.bytes == Open(aead, w.prefix, acked, offset / ChunkSize) else w.dst.bytes == []
      requires !w.dst.dead && w.dst.room == faults.room && w.dst.fatal == faults.fatal
      requires full == Extended(before, body)
      modifies this`received, this`acked, this`log, this`prefix, w, w.dst, w.buf
      ensures prefix == w.prefix
      ensures var after := State().(blob := w.dst.bytes);
              PartDone(aead, before, full, after, reply) || PartTorn(aead, before, full, after, reply)
      ensures offset > 0 && !faults.bodyBreaks && LastIndex(|full|) == offset / ChunkSize ==>
                log == before.log + EndPairs(prefix, full, size, offset / ChunkSize)
      ensures Shows(reply, |w.dst.bytes|, Ended(CountsOf(before), |body|, faults))
      ensures reply.Failed? ==> w.dst.bytes <= EndBytes(aead, prefix, full, size)
    {
      ghost var e := Ends(offset, |full|, size, faults.bodyBreaks && |body| < size - offset, faults.room, faults.fatal);
      reply := StorePart(w, offset, body, faults, sizes, full, EndPairs(w.prefix, full, size, w.first), e);
      prefix := w.prefix;
      EndedIs(CountsOf(before), |body|, faults, |full|, e);
      ghost var after := State().(blob := w.dst.bytes);
      if reply.Stored? {
        assert PartDone(aead, before, full, after, reply);
      } else {
        assert PartTorn(aead, before, full, after, reply);
      }
    }

    /** A new row; an empty file gets its sealed blob at once. */
    constructor (aead: Aead, size: nat, drawn: seq<byte>)
      requires Tagged(aead) && IsPrefix(drawn)
      ensures Valid() && this.aead == aead && this.size == size && received == 0
      ensures size > 0 ==> log == iset{}
      ensures size == 0 ==> prefix == drawn && log == iset{FinalPair(drawn, [])}
    {
      this.aead, this.size, received, blob := aead, size, 0, [];
      prefix, acked, log := drawn, [], iset{};
      new;
      if size == 0 {
        blob := WriteEmptyBlob(aead, drawn);
        log := iset{FinalPair(drawn, [])};
      }
    }

    /**
     Appends one part at offset.  The new state and the reply are one of the outcomes PartStep
     allows; the counts and the reply are just those Served computes from a few lengths, and after
     a failed request the blob is exactly as much of what was meant as Ended says.  A part that lies
     in one chunk seals it even if it fails, unless the body breaks off.
     */
    method WriteParts(offset: nat, body: seq<byte>, faults: Faults, sizes: nat -> nat, drawn: seq<byte>)
      returns (reply: Reply)
      requires Valid() && IsPrefix(drawn)
      requires forall i :: sizes(i) > 0
      modifies this
      ensures Valid() && PartStep(aead, old(State()), offset, body, drawn, State(), reply)
      ensures (CountsOf(State()), reply) == Served(CountsOf(old(State())), offset, |body|, faults)
      ensures reply.Failed? ==>
                && Ended(CountsOf(old(State())), |body|, faults) == Left(|blob|)
                && blob <= EndBytes(aead, prefix, Extended(old(State()), body), size)
      ensures InOneChunk(old(State()), offset, body) && !faults.bodyBreaks ==>
                log == old(log) + EndPairs(prefix, Extended(old(State()), body), size, offset / ChunkSize)
    {
      ghost var before := State();
      if received >= size { return Stored(received); }
      if offset != received { return Mismatch(received); }
      var f := new Blob(blob, faults.room, faults.fatal);
      var at := WriterAt(f, aead, offset, drawn, prefix, acked);
      match at {
        case Unusable =>
          reply := Failed;
        case OffsetDiffers(expected) =>
          reply := Mismatch(expected);
          AlignKeepsOnDisk(blob);
        case Ready(w) =>
          reply := StoreReady(w, offset, body, faults, sizes, before, Extended(before, body));
          assert PartStep(aead, before, offset, body, drawn, State().(blob := f.bytes), reply);
      }
      blob := f.bytes;
      StepKeepsInv(aead, before, offset, body, drawn, State(), reply);
      ReplyCounts(aead, before, body, drawn, State(), reply, faults);
    }
  }

  /** A sealed stream holding nothing, for a file that will never receive a part. */
  method WriteEmptyBlob(a: Aead, drawn: seq<byte>) returns (bytes: seq<byte>)
    requires Tagged(a) && IsPrefix(drawn)
    ensures bytes == Sealed(a, drawn, [])
  {
    var f := new Blob([], None, false);
    var w := new Writer(a, f, drawn);
    CloseSealsIff(a, drawn, [], 0);
    var ok := w.Close();
    bytes := f.bytes;
  }

  lemma LogWithin(log: Log, sealed: Log, meant: Log)
    requires sealed <= meant
    ensures log <= log + sealed <= log + meant
  {
  }

  /** Truncating to the acknowledged length leaves exactly the acknowledged chunks. */
  lemma RollsBack(a: Aead, prefix: seq<byte>, acked: seq<byte>, offset: nat, torn: seq<byte>)
    requires Tagged(a) && IsPrefix(prefix) && |acked| == offset
    ensures offset > 0 && Open(a, prefix, acked, offset / ChunkSize) <= torn ==>
              Resized(torn, CiphertextLenFor(offset)) == Open(a, prefix, acked, offset / ChunkSize)
  {
    OpenLength(a, prefix, acked, offset / ChunkSize);
  }

  /**
   A part whose connection drops in the middle.  On a file that could be resumed before, it makes
   the file stuck, for good, exactly when more than one chunk had arrived.
   */
  method BreakOff(file: UploadFile, body: seq<byte>, sizes: nat -> nat, drawn: seq<byte>) returns (reply: Reply)
    requires file.Valid() && 0 < file.received && CanResume(file.State())
    requires 0 < |body| < file.size - file.received
    requires IsPrefix(drawn) && forall i :: sizes(i) > 0
    modifies file
    ensures file.Valid() && reply.Failed? && file.received == old(file.received)
    ensures Stuck(file.State()) <==> |body| > ChunkSize
  {
    BrokenPart(file.received / ChunkSize, CountsOf(file.State()), |body|);
    reply := file.WriteParts(file.received, body, Faults(None, false, true, false), sizes, drawn);
  }

  /** An upload that can never finish: one chunk stored, then a part cut just after its first chunk. */
  method StrandedUpload(a: Aead, d: seq<byte>, sizes: nat -> nat, drawn: seq<byte>) returns (file: UploadFile)
    requires Tagged(a) && |d| == 4 * ChunkSize && IsPrefix(drawn) && forall i :: sizes(i) > 0
    ensures fresh(file) && file.received == ChunkSize && Stuck(file.State())
  {
    file := new UploadFile(a, |d|, drawn);
    var reply := file.WriteParts(0, d[..ChunkSize], NoFaults, sizes, drawn);
    assert file.received == ChunkSize;
    reply := BreakOff(file, d[ChunkSize .. 2 * ChunkSize + 1], sizes, drawn);
  }
}
