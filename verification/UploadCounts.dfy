/**
 The upload of one file in numbers alone: what a request answers and what it leaves on disk is a
 function of a few lengths.  UploadServer shows WriteParts to compute exactly this function.
 */
module UploadCounts {
  import opened Bytes
  import opened ChunkFormat
  import opened ChunkDecode
  import opened UploadModel
  import opened UploadRuns
  import R = ChunkResume

  /**
   What can go wrong in one request: the disk fails or the process dies after some bytes, the
   body breaks off instead of ending, or the request dies after the last write and before the
   row is updated.
   */
  datatype Faults = Faults(room: Option<nat>, fatal: bool, bodyBreaks: bool, rowLost: bool)

  const NoFaults := Faults(None, false, false, false)

  /** disk is the plaintext length of the whole chunks on disk; it matters only between parts. */
  datatype Counts = Counts(size: nat, received: nat, disk: nat)

  function CountsOf(s: FileState): Counts {
    Counts(s.size, s.received, if 0 < s.received < s.size then OnDisk(s.blob) else s.received)
  }

  /** The counts a file can have. */
  predicate Sound(c: Counts) {
    && c.received <= c.size
    && (if 0 < c.received < c.size
        then c.received % ChunkSize == c.disk % ChunkSize == 0 && c.received <= c.disk <= c.size
        else c.disk == c.received)
  }

  // ---------------------------------------------------------------- lengths on disk

  /** The blob when a writer stands at offset. */
  function BaseLen(offset: nat): nat {
    if offset == 0 then 0 else CiphertextLenFor(offset)
  }

  /** The blob once the body is copied: the last chunk is still in the buffer. */
  function CopiedLen(offset: nat, newLen: nat): nat {
    if newLen <= offset || LastIndex(newLen) == 0 then BaseLen(offset) else ChunkOffset(LastIndex(newLen))
  }

  /** The blob once the part is finished. */
  function EndLen(newLen: nat, size: nat): nat {
    if newLen < size then CiphertextLenFor(newLen) else CiphertextSize(newLen)
  }

  /** The length at which the disk is full for a part that starts at offset. */
  function Capacity(offset: nat, room: Option<nat>): Option<nat> {
    if room == None then None else Some(BaseLen(offset) + room.value)
  }

  predicate Fits(len: nat, offset: nat, room: Option<nat>) {
    Capacity(offset, room).Some? ==> len <= Capacity(offset, room).value
  }

  /** How the writing of a part ends: all of it on disk, rolled back, or left at some length. */
  datatype Ending = Whole | Undone | Left(len: nat)

  function Ends(offset: nat, newLen: nat, size: nat, breaks: bool, room: Option<nat>, fatal: bool): Ending {
    var unaligned := newLen < size && newLen % ChunkSize != 0;
    var meant := if breaks || unaligned then CopiedLen(offset, newLen) else EndLen(newLen, size);
    if Fits(meant, offset, room) then
      if breaks then Left(meant) else if unaligned then Undone else Whole
    else if newLen < size && !breaks && !fatal && Fits(CopiedLen(offset, newLen), offset, room) then Undone
    else Left(BaseLen(offset) + room.value)
  }

  /** The whole chunks of a blob of some length, in plaintext bytes. */
  function DiskOf(len: nat): nat {
    WholeChunks(R.AlignDown(len)) * ChunkSize
  }

  /** How a part of len bytes at the acknowledged length of c ends, a lost row update included. */
  function Ended(c: Counts, len: nat, f: Faults): Ending {
    var newLen := Min(c.received + len, c.size);
    var e := Ends(c.received, newLen, c.size, f.bodyBreaks && c.received + len < c.size, f.room, f.fatal);
    if e.Whole? && f.rowLost then Left(EndLen(newLen, c.size)) else e
  }

  lemma EndedIs(c: Counts, len: nat, f: Faults, newLen: nat, e: Ending)
    requires c.received <= c.size && newLen == c.received + Min(len, c.size - c.received)
    requires e == Ends(c.received, newLen, c.size, f.bodyBreaks && len < c.size - c.received, f.room, f.fatal)
    ensures Ended(c, len, f) == if e.Whole? && f.rowLost then Left(EndLen(newLen, c.size)) else e
  {
  }

  /** The reply and the length of the blob that go with an ending. */
  predicate Shows(reply: Reply, len: nat, e: Ending) {
    match e
    case Whole => reply.Stored?
    case Undone => reply.Rejected?
    case Left(n) => reply.Failed? && len == n
  }

  /** One WriteParts call that delivers len bytes at offset. */
  function Served(c: Counts, offset: nat, len: nat, f: Faults): (r: (Counts, Reply)) {
    if c.received >= c.size then (c, Stored(c.received))
    else if offset != c.received then (c, Mismatch(c.received))
    else if c.disk != c.received then (c, Mismatch(c.disk))
    else
      match Ended(c, len, f)
      case Whole => var n := Min(offset + len, c.size); (Counts(c.size, n, n), Stored(n))
      case Undone => (c, Rejected)
      case Left(n) => (Halted(c, n), Failed)
  }

  /** The counts after a request that died with n bytes in the blob. */
  function Halted(c: Counts, n: nat): Counts {
    c.(disk := if c.received == 0 then 0 else DiskOf(n))
  }

  // ---------------------------------------------------------------- the bytes behind the numbers

  /** After a part that reached the writer, reply and counts are what the ending of the part says. */
  lemma ReplyCounts(a: Aead, s: FileState, body: seq<byte>, drawn: seq<byte>, s': FileState, reply: Reply, f: Faults)
    requires Tagged(a) && Inv(a, s) && s.received < s.size
    requires PartStep(a, s, s.received, body, drawn, s', reply)
    requires CanResume(s) ==> Shows(reply, |s'.blob|, Ended(CountsOf(s), |body|, f))
    ensures (CountsOf(s'), reply) == Served(CountsOf(s), s.received, |body|, f)
  {
    if !CanResume(s) {
      AlignKeepsOnDisk(s.blob);
    } else {
      var full := Extended(s, body);
      assert PartDone(a, s, full, s', reply) || PartTorn(a, s, full, s', reply);
      match Ended(CountsOf(s), |body|, f)
      case Whole =>
        if |full| < s.size {
          OnDiskOfOpen(a, s'.prefix, full, |full| / ChunkSize);
          Divides(|full|, |full| / ChunkSize, 0);
        }
      case Undone =>
        if s.received > 0 {
          OnDiskOfOpen(a, s'.prefix, s.acked, s.received / ChunkSize);
          Divides(s.received, s.received / ChunkSize, 0);
        }
      case Left(n) =>
    }
  }

  /** A file that keeps its invariant has sound counts, and is stuck exactly if they say so. */
  lemma CountsAreSound(a: Aead, s: FileState)
    requires Inv(a, s) && DiskBounded(s)
    ensures Sound(CountsOf(s))
    ensures Stuck(s) <==> CountsOf(s).disk != s.received
  {
  }

  // ---------------------------------------------------------------- what a request may leave

  /** Copying stays between where the part starts and what it ends at, when that is well defined. */
  lemma LengthsOfPart(k: nat, offset: nat, newLen: nat, size: nat)
    requires offset == k * ChunkSize && offset <= newLen <= size && offset < size
    ensures BaseLen(offset) <= CopiedLen(offset, newLen)
    ensures newLen == size || newLen % ChunkSize == 0 ==> CopiedLen(offset, newLen) <= EndLen(newLen, size)
  {
    Divides(offset, k, 0);
    assert LastIndex(newLen) <= newLen / ChunkSize;
    CiphertextSizeByLast(newLen);
  }

  /** Copying that fails does so within the chunks before the last, at the length where the disk is full. */
  lemma CopyFails(k: nat, offset: nat, newLen: nat, size: nat, breaks: bool, room: nat, fatal: bool)
    requires offset == k * ChunkSize && offset < newLen <= size && LastIndex(newLen) > 0
    requires BaseLen(offset) + room < ChunkOffset(LastIndex(newLen))
    ensures Ends(offset, newLen, size, breaks, Some(room), fatal) == Left(BaseLen(offset) + room)
  {
    LengthsOfPart(k, offset, newLen, size);
  }

  /** Once copied, a part ends whole if the rest fits, and a failed flush is undone if the process lives. */
  lemma CopySucceeds(offset: nat, newLen: nat, size: nat, room: Option<nat>, fatal: bool)
    requires offset <= newLen <= size && Fits(CopiedLen(offset, newLen), offset, room)
    ensures Ends(offset, newLen, size, true, room, fatal) == Left(CopiedLen(offset, newLen))
    ensures newLen < size && newLen % ChunkSize != 0 ==> Ends(offset, newLen, size, false, room, fatal) == Undone
    ensures newLen == size || newLen % ChunkSize == 0 ==>
              Ends(offset, newLen, size, false, room, fatal)
              == if Fits(EndLen(newLen, size), offset, room) then Whole
                 else if newLen < size && !fatal then Undone else Left(BaseLen(offset) + room.value)
  {
  }

  /** Without faults a part that ends the file or a chunk is stored, and another is refused without a trace. */
  lemma CalmPart(c: Counts, k: nat, len: nat)
    requires Level(c, k)
    ensures var newLen := Min(c.received + len, c.size);
            Served(c, c.received, len, NoFaults)
            == if newLen == c.size || len % ChunkSize == 0 then (Counts(c.size, newLen, newLen), Stored(newLen))
               else (c, Rejected)
  {
  }

  /** A body that breaks off leaves the whole chunks before the last one it delivered, and no other fault. */
  lemma BrokenPart(k: nat, c: Counts, len: nat)
    requires 0 < k && c.received == c.disk == k * ChunkSize && 0 < len < c.size - c.received
    ensures var (c', reply) := Served(c, c.received, len, Faults(None, false, true, false));
            && reply.Failed? && c'.received == c.received
            && (c'.disk != c.received <==> len > ChunkSize)
  {
    var m := LastIndex(c.received + len);
    LastIndexOfPart(k, len);
    Divides(c.received, k, 0);
    assert m >= k && DiskOf(ChunkOffset(m)) == m * ChunkSize;
  }

  /** Counts of a file that can take a part at chunk k. */
  predicate Level(c: Counts, k: nat) {
    c.received == c.disk == k * ChunkSize < c.size
  }

  /** How much of the blob a part adds if nothing goes wrong on the disk. */
  function Adds(c: Counts, len: nat, breaks: bool): int {
    var newLen := Min(c.received + len, c.size);
    (if (breaks && c.received + len < c.size) || (newLen < c.size && newLen % ChunkSize != 0)
     then CopiedLen(c.received, newLen) else EndLen(newLen, c.size))
    - BaseLen(c.received)
  }

  /** What a part that failed added is all it meant to, or as much as the disk took. */
  lemma LeftLength(c: Counts, k: nat, len: nat, f: Faults)
    requires Level(c, k)
    ensures Adds(c, len, f.bodyBreaks) >= 0
    ensures Ended(c, len, f).Left? ==>
              Ended(c, len, f).len == BaseLen(c.received)
                + if f.room.Some? then Min(f.room.value, Adds(c, len, f.bodyBreaks)) else Adds(c, len, f.bodyBreaks)
  {
    LengthsOfPart(k, c.received, Min(c.received + len, c.size), c.size);
  }

  /** The chunks on disk after n bytes were added behind chunk k. */
  lemma ChunksAdded(k: nat, n: nat)
    requires k > 0
    ensures DiskOf(BaseLen(k * ChunkSize) + n) == (k + n / SealedChunkSize) * ChunkSize
    ensures DiskOf(BaseLen(k * ChunkSize) + n) != k * ChunkSize <==> n >= SealedChunkSize
  {
    Divides(k * ChunkSize, k, 0);
    assert (k * SealedChunkSize + n) / SealedChunkSize == k + n / SealedChunkSize;
  }

  /** What copying alone adds. */
  function Copies(c: Counts, len: nat): int {
    CopiedLen(c.received, Min(c.received + len, c.size)) - BaseLen(c.received)
  }

  /**
   The request fails and is not rolled back: all it was to write was written, and then the body broke
   off or the row update was lost; or the disk was full, for a last part, a broken body, a process
   that did not survive it, or before the flush.
   */
  predicate FailsForGood(c: Counts, len: nat, f: Faults) {
    var newLen := Min(c.received + len, c.size);
    var broke := f.bodyBreaks && c.received + len < c.size;
    if f.room == None || Adds(c, len, f.bodyBreaks) <= f.room.value
    then broke || (f.rowLost && (newLen == c.size || newLen % ChunkSize == 0))
    else broke || newLen == c.size || f.fatal || f.room.value < Copies(c, len)
  }

  lemma LeftIff(c: Counts, k: nat, len: nat, f: Faults)
    requires Level(c, k)
    ensures Ended(c, len, f).Left? <==> FailsForGood(c, len, f)
  {
    LengthsOfPart(k, c.received, Min(c.received + len, c.size), c.size);
  }

  /**
   When a request strands the file: exactly when it fails for good and at least one more whole chunk
   reached the disk.  Every other request leaves the file resumable.
   */
  lemma StrandsIff(c: Counts, k: nat, len: nat, f: Faults)
    requires Level(c, k) && k > 0
    ensures var (c', reply) := Served(c, c.received, len, f);
            && c'.size == c.size && c'.received >= c.received
            && (reply.Failed? <==> FailsForGood(c, len, f))
            && (c'.disk != c'.received <==>
                  && FailsForGood(c, len, f)
                  && Adds(c, len, f.bodyBreaks) >= SealedChunkSize
                  && (f.room.Some? ==> f.room.value >= SealedChunkSize))
  {
    LeftIff(c, k, len, f);
    if Ended(c, len, f).Left? {
      var adds := Adds(c, len, f.bodyBreaks);
      LeftLength(c, k, len, f);
      ChunksAdded(k, if f.room.Some? then Min(f.room.value, adds) else adds);
    }
  }

  /** A request that dies between its last write and the row update strands the file exactly if it brought a chunk. */
  lemma LostRowStrandsIff(c: Counts, k: nat, len: nat)
    requires Level(c, k) && k > 0 && (c.received + len >= c.size || len % ChunkSize == 0)
    ensures var (c', reply) := Served(c, c.received, len, Faults(None, false, false, true));
            && reply.Failed? && c'.received == c.received
            && (c'.disk != c'.received <==> Min(len, c.size - c.received) >= ChunkSize)
            && (c.received + len < c.size ==> c'.disk == c.received + len)
            && (c.received + len >= c.size && c.size % ChunkSize == 0 ==> c'.disk == c.size)
  {
  }

  /**
   A disk that fills up after room bytes strands the file exactly if it took a whole chunk, not the
   whole part, and failed before the last flush, which alone is rolled back, or at the final chunk.
   */
  lemma FullDiskStrandsIff(c: Counts, k: nat, len: nat, room: nat)
    requires Level(c, k) && k > 0
    ensures var (c', reply) := Served(c, c.received, len, Faults(Some(room), false, false, false));
            var newLen := Min(c.received + len, c.size);
            c'.disk != c'.received <==>
              SealedChunkSize <= room
              < if newLen < c.size then (LastIndex(newLen) - k) * SealedChunkSize
                else CiphertextSize(c.size) - CiphertextLenFor(c.received)
  {
  }

  // ---------------------------------------------------------------- what every request keeps

  /** A part that starts at chunk k leaves the disk between where it started and the file's end. */
  lemma LeftInside(c: Counts, k: nat, len: nat, f: Faults)
    requires Level(c, k) && k > 0 && Ended(c, len, f).Left?
    ensures c.received <= DiskOf(Ended(c, len, f).len) <= c.size && DiskOf(Ended(c, len, f).len) % ChunkSize == 0
  {
    LeftLength(c, k, len, f);
    var n := Ended(c, len, f).len - BaseLen(c.received);
    ChunksAdded(k, n);
    AddsInside(c, k, len, f.bodyBreaks);
    Divides((k + n / SealedChunkSize) * ChunkSize, k + n / SealedChunkSize, 0);
  }

  /** The chunks a part can add are those of the file. */
  lemma AddsInside(c: Counts, k: nat, len: nat, breaks: bool)
    requires Level(c, k) && k > 0
    ensures (k + Adds(c, len, breaks) / SealedChunkSize) * ChunkSize <= c.size
  {
    var newLen := Min(c.received + len, c.size);
    Divides(c.received, k, 0);
    CiphertextSizeByLast(newLen);
  }

  /** Every request keeps the counts sound and the acknowledged length; a reply says how it stands. */
  lemma ServedKeepsSound(c: Counts, offset: nat, len: nat, f: Faults)
    requires Sound(c)
    ensures var (c', reply) := Served(c, offset, len, f);
            && Sound(c') && c'.size == c.size && c.received <= c'.received
            && (reply.Stored? ==> reply.received == c'.received)
            && (!reply.Stored? ==> c'.received == c.received)
  {
    if offset == c.received < c.size && c.disk == c.received {
      var k := c.received / ChunkSize;
      if c.received > 0 && Ended(c, len, f).Left? { LeftInside(c, k, len, f); }
    }
  }
}
