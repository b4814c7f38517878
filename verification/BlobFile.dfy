/** One ciphertext file on disk, with a read/write position and the faults a request can meet. */
module BlobFile {
  import opened Bytes

  /** What os.File.Truncate leaves: a prefix, or the file extended with zero bytes. */
  function Resized(s: seq<byte>, len: nat): (t: seq<byte>)
    ensures |t| == len
    ensures len <= |s| ==> t <= s
  {
    if len <= |s| then s[..len] else s + seq(len - |s|, _ => 0)
  }

  class Blob {
    var bytes: seq<byte>
    var pos: nat
    // How many more bytes the disk takes before a write fails half way; None when it never fails.
    var room: Option<nat>
    // Whether that failure is the end of the process: after it nothing touches the file any more.
    var fatal: bool
    var dead: bool
    // The positions of the bytes read so far.
    ghost var touched: iset<nat>

    constructor (bytes: seq<byte>, room: Option<nat>, fatal: bool)
      ensures this.bytes == bytes && pos == 0 && !dead && this.room == room && this.fatal == fatal
    {
      this.bytes, pos, this.room, this.fatal, dead := bytes, 0, room, fatal, false;
      touched := iset{};
    }

    /** The length at which the disk is full; None when it never is. */
    function Limit(): (l: Option<nat>)
      reads this
      ensures l.Some? <==> room.Some?
    {
      if room == None then None else Some(|bytes| + room.value)
    }

    /** Appends data.  A failing write may leave any part of it behind. */
    method Write(data: seq<byte>) returns (ok: bool)
      requires pos == |bytes|
      modifies this
      ensures ok == (!old(dead) && (old(room).Some? ==> |data| <= old(room).value))
      ensures ok ==> bytes == old(bytes) + data
      ensures !ok ==> old(bytes) <= bytes <= old(bytes) + data
      ensures !ok && !old(dead) ==> |bytes| == old(Limit()).value < |old(bytes) + data|
      ensures pos == |bytes|
      ensures fatal == old(fatal) && Limit() == old(Limit())
      ensures dead == (old(dead) || (!ok && fatal))
    {
      if dead {
        assert old(bytes) + data == bytes + data;
        return false;
      }
      if room == None || |data| <= room.value {
        bytes := bytes + data;
        room := if room == None then None else Some(room.value - |data|);
        ok := true;
      } else {
        bytes := bytes + data[..room.value];
        room, dead, ok := Some(0), fatal, false;
        assert old(bytes) + data == bytes + data[old(room).value..];
      }
      pos := |bytes|;
    }

    method Truncate(len: nat) returns (ok: bool)
      modifies this`bytes
      ensures ok == !dead
      ensures bytes == if ok then Resized(old(bytes), len) else old(bytes)
    {
      ok := !dead;
      if ok { bytes := Resized(bytes, len); }
    }

    method Seek(to: nat)
      modifies this`pos
      ensures pos == to
    {
      pos := to;
    }

    /** The bytes io.ReadFull delivers into a buffer of n bytes. */
    function Ahead(n: nat): (s: seq<byte>)
      reads this
      ensures |s| <= n && pos + |s| <= Max(pos, |bytes|)
      ensures s == if pos <= |bytes| then bytes[pos..][..|s|] else []
    {
      if pos >= |bytes| then [] else bytes[pos .. Min(pos + n, |bytes|)]
    }

    method ReadFull(n: nat) returns (got: seq<byte>)
      modifies this`pos, this`touched
      ensures got == old(Ahead(n))
      ensures pos == old(pos) + |got|
      ensures touched == old(touched) + Between(old(pos), pos)
    {
      got := Ahead(n);
      touched := touched + Between(pos, pos + |got|);
      pos := pos + |got|;
    }
  }

  /** Position i is one of the bytes from low on, below high. */
  predicate Inside(i: nat, low: nat, high: nat) {
    low <= i < high
  }

  ghost function Between(low: nat, high: nat): iset<nat> {
    iset i: nat | Inside(i, low, high)
  }

  /** The positions read were read before or lie at or after low. */
  ghost predicate OnlyFrom(touched: iset<nat>, before: iset<nat>, low: nat) {
    forall i: nat | i in touched :: i in before || low <= i
  }

  function Max(x: nat, y: nat): nat {
    if x < y then y else x
  }
}
