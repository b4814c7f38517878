/** Serving a stored file: opening it at an offset and sending one byte range of its plaintext. */
module Download {
  import opened Bytes
  import opened ChunkFormat
  import opened ChunkDecode
  import opened BlobFile
  import opened ChunkReader
  import opened RangeHeader
  import opened UploadModel
  import opened UploadRuns

  /** The blob is the complete stream of d and the cipher authenticates it. */
  ghost predicate StoredAs(bytes: seq<byte>, a: Aead, prefix: seq<byte>, d: seq<byte>) {
    IsPrefix(prefix) && Authentic(a, prefix, d) && bytes == Sealed(a, prefix, d)
  }

  datatype FileOpened = OutsideFile | EmptyBody | Body(reader: Reader) | Undecryptable

  /** The plaintext still to come from an opened file. */
  ghost function Content(r: FileOpened): Decoded
    requires r.EmptyBody? || r.Body?
    requires r.Body? ==> r.reader.Valid()
    reads if r.Body? then {r.reader, r.reader.src} else {}
  {
    if r.EmptyBody? then Decoded([], true) else r.reader.Rest()
  }

  /**
   What OpenFile makes of any bytes in a file that is to have size bytes of plaintext: what can be
   read from the offset on, or nothing if it is refused.
   */
  ghost function ReadsFrom(a: Aead, bytes: seq<byte>, size: nat, offset: int): Option<Decoded> {
    if offset < 0 || offset > size then None
    else if offset == size then Some(Decoded([], true))
    else if |bytes| < HeaderSize || !GoodHeader(bytes[..HeaderSize]) then None
    else
      var d, within := SeekDecode(a, bytes, offset), offset % ChunkSize;
      if within > |d.plain| then None else Some(Decoded(d.plain[within..], d.clean))
  }

  /** A stored file gives, from every offset, its end included, exactly the plaintext from there, to a clean end. */
  lemma StoredReads(a: Aead, bytes: seq<byte>, prefix: seq<byte>, d: seq<byte>, offset: nat)
    requires StoredAs(bytes, a, prefix, d) && offset <= |d|
    ensures ReadsFrom(a, bytes, |d|, offset) == Some(Decoded(d[offset..], true))
  {
    if offset < |d| {
      SeekSealed(a, prefix, d, offset);
    } else {
      assert d[offset..] == [];
    }
  }

  /**
   OpenFile after the claim: for every offset of a stored file, its end included, what can be read
   is exactly the plaintext from there, to a clean end.
   */
  method OpenFile(f: Blob, a: Aead, size: nat, offset: int, sizes: nat -> nat,
                  ghost prefix: seq<byte>, ghost d: seq<byte>) returns (r: FileOpened)
    requires Positive(sizes)
    modifies f`pos, f`touched
    ensures r.OutsideFile? <==> offset < 0 || offset > size
    ensures r.EmptyBody? <==> offset == size
    ensures r.Body? ==> r.reader.Valid() && r.reader.src == f && fresh(r.reader)
    ensures r.Body? || r.EmptyBody? <==> ReadsFrom(a, f.bytes, size, offset).Some?
    ensures r.Body? || r.EmptyBody? ==> Some(Content(r)) == ReadsFrom(a, f.bytes, size, offset)
    ensures StoredAs(f.bytes, a, prefix, d) && size == |d| && 0 <= offset <= size ==>
              !r.Undecryptable? && Content(r) == Decoded(d[offset..], true)
  {
    if StoredAs(f.bytes, a, prefix, d) && size == |d| && 0 <= offset <= size {
      StoredReads(a, f.bytes, prefix, d, offset);
    }
    if offset < 0 || offset > size { return OutsideFile; }
    if offset == size { return EmptyBody; }
    var at := OpenAt(f, a, offset, sizes);
    match at {
      case Opened(reader) => r := Body(reader);
      case _ => r := Undecryptable;
    }
  }

  datatype Response =
    | RangeRefused
    | OpenRefused
    | Sent(length: int, start: int, end: int, partial: bool, body: seq<byte>)

  /** The copy loop of a response: from a reader that holds d from start on, exactly the next length bytes. */
  method SendBody(reader: Reader, start: nat, length: nat, sizes: nat -> nat, ghost d: seq<byte>)
    returns (body: seq<byte>)
    requires reader.Valid() && Positive(sizes)
    modifies reader, reader.src`pos, reader.src`touched
    ensures old(start + length <= |d| && reader.Rest() == Decoded(d[start..], true)) ==>
              |body| == length && body == d[start .. start + length]
  {
    ghost var rest := reader.Rest();
    var status;
    body, status := CopyN(reader, length, sizes);
    if start + length <= |d| && rest == Decoded(d[start..], true) {
      assert body == rest.plain[..length];
      assert d[start..][..length] == d[start .. start + length];
    }
  }

  /**
   handleDownload for a GET: the body of an accepted range is exactly that slice of the plaintext,
   and the announced length is the length sent, except for an empty file asked for as a whole.
   Without a header that is all of the file, and the only answer not marked partial.
   */
  method ServeRange(header: string, f: Blob, a: Aead, size: nat, sizes: nat -> nat,
                    ghost prefix: seq<byte>, ghost d: seq<byte>) returns (r: Response)
    requires Positive(sizes)
    modifies f`pos, f`touched
    ensures r.RangeRefused? <==> ParseRange(header, size).Unsatisfiable?
    ensures r.Sent? ==> ParseRange(header, size) == Bytes(r.start, r.end, r.partial)
    ensures StoredAs(f.bytes, a, prefix, d) && size == |d| && !r.RangeRefused? ==>
              && r.Sent?
              && r.body == (if size == 0 then [] else d[r.start .. r.end + 1])
              && (r.length == |r.body| <==> !(size == 0 && header == ""))
              && (r.partial <==> header != "")
    ensures StoredAs(f.bytes, a, prefix, d) && size == |d| && header == "" ==> r.Sent? && r.body == d && !r.partial
  {
    var range := ParseRange(header, size);
    if range.Unsatisfiable? { return RangeRefused; }
    r := SendRange(f, a, size, range, sizes, prefix, d);
  }

  /** The rest of handleDownload, for an accepted range. */
  method SendRange(f: Blob, a: Aead, size: nat, range: RangeResult, sizes: nat -> nat,
                   ghost prefix: seq<byte>, ghost d: seq<byte>) returns (r: Response)
    requires Positive(sizes) && range.Bytes?
    requires if size > 0 then 0 <= range.start <= range.end < size else range.start == 0 && -1 <= range.end <= 0
    modifies f`pos, f`touched
    ensures !r.RangeRefused?
    ensures r.Sent? ==> Bytes(r.start, r.end, r.partial) == range && r.length == range.end - range.start + 1
    ensures StoredAs(f.bytes, a, prefix, d) && size == |d| ==>
              r.Sent? && r.body == if size == 0 then [] else d[range.start .. range.end + 1]
  {
    var length := range.end - range.start + 1;
    var at := OpenFile(f, a, size, range.start, sizes, prefix, d);
    match at {
      case EmptyBody =>
        r := Sent(length, range.start, range.end, range.partial, []);
      case Body(reader) =>
        var body := SendBody(reader, range.start, length, sizes, d);
        r := Sent(length, range.start, range.end, range.partial, body);
      case _ =>
        r := OpenRefused;
    }
  }

  /**
   From the first upload request to the last download byte: a file whose upload is complete,
   however it was split, retried and interrupted, reads back from every offset as exactly the
   sender's bytes from there, to a clean end; an empty file as nothing.
   */
  lemma PublishedFileReadsBack(a: Aead, d: seq<byte>, states: seq<FileState>, calls: seq<Call>, foreign: Log)
    requires FitsCounter(d) && HonestRun(a, d, states, calls)
    requires Started(a, states[0]) && |d| == states[0].size
    requires states[|calls|].received >= states[|calls|].size
    requires Unused(foreign, states[|calls|].prefix)
    requires Ideal(a, states[|calls|].log + foreign)
    ensures StoredAs(states[|calls|].blob, a, states[|calls|].prefix, d)
    ensures |states[|calls|].blob| == CiphertextSize(|d|)
    ensures forall offset: nat | offset <= |d| ::
              ReadsFrom(a, states[|calls|].blob, states[|calls|].size, offset) == Some(Decoded(d[offset..], true))
  {
    var s := states[|calls|];
    HonestRunKeeps(a, d, states, calls, |calls|);
    CompleteFile(a, d, states, calls, foreign);
    forall offset: nat | offset <= |d|
      ensures ReadsFrom(a, s.blob, s.size, offset) == Some(Decoded(d[offset..], true))
    {
      StoredReads(a, s.blob, s.prefix, d, offset);
    }
  }

  /**
   A stored file that lost any part of its tail, its header perhaps included: from every offset, only
   right plaintext is read, and it is taken for the whole rest exactly at the end of the file, where
   nothing is read; so an empty file is served as complete whatever is left of its stream.
   */
  lemma CutFileIsNoticed(a: Aead, prefix: seq<byte>, d: seq<byte>, off: nat, len: nat)
    requires IsPrefix(prefix) && Authentic(a, prefix, d) && off <= |d|
    requires len < |Sealed(a, prefix, d)|
    ensures var r := ReadsFrom(a, Sealed(a, prefix, d)[..len], |d|, off);
            && (r.Some? ==> r.value.plain <= d[off..])
            && (r.Some? && r.value.clean <==> off == |d|)
  {
    if off < |d| && HeaderSize <= len {
      SeekTruncated(a, prefix, d, off, len);
      var c, k, within := SeekDecode(a, Sealed(a, prefix, d)[..len], off), off / ChunkSize, off % ChunkSize;
      if within <= |c.plain| { CutPlain(d, c.plain, k, within, off); }
    }
  }

  lemma CutPlain(d: seq<byte>, plain: seq<byte>, k: nat, within: nat, off: nat)
    requires off == k * ChunkSize + within <= |d| && within <= |plain| && plain <= d[k * ChunkSize ..]
    ensures plain[within..] <= d[off..]
  {
    assert d[off..] == d[k * ChunkSize ..][within..];
    assert plain[within..] == d[k * ChunkSize ..][within..][..|plain| - within];
  }
}
