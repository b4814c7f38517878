/**
 Whole runs of WriteParts calls on one file, in any order and with any faults: what they always
 keep, what is published at the end, and exactly when an interrupted file can still be resumed.
 Requests on one file are assumed not to overlap.
 */
module UploadRuns {
  import opened Bytes
  import opened ChunkFormat
  import opened ChunkDecode
  import opened BlobFile
  import opened ChunkWriter
  import opened UploadModel
  import R = ChunkResume

  // ---------------------------------------------------------------- one honest step

  /** Whatever became of a part, it sealed its own chunks only. */
  lemma StepSeals(a: Aead, s: FileState, body: seq<byte>, drawn: seq<byte>, s': FileState, reply: Reply)
    requires s.received < s.size && CanResume(s) && PartStep(a, s, s.received, body, drawn, s', reply)
    ensures IsPrefix(s'.prefix)
    ensures s'.log <= s.log + EndPairs(s'.prefix, Extended(s, body), s.size, s.received / ChunkSize)
  {
    assert PartDone(a, s, Extended(s, body), s', reply) || PartTorn(a, s, Extended(s, body), s', reply);
  }

  lemma ExtendedIsSlice(s: FileState, d: seq<byte>, body: seq<byte>)
    requires s.received <= s.size && |s.acked| == s.received && s.acked <= d && SliceOf(body, d, s.received)
    ensures Extended(s, body) <= d && Extended(s, body) == d[..|Extended(s, body)|]
  {
  }

  /** A part torn or done adds only chunks of d under the current prefix. */
  lemma StepKeepsExclusive(a: Aead, s: FileState, d: seq<byte>, offset: nat, body: seq<byte>, drawn: seq<byte>,
                           s': FileState, reply: Reply, full: seq<byte>)
    requires Honest(s, d) && s.received < s.size && offset == s.received && CanResume(s)
    requires PartStep(a, s, offset, body, drawn, s', reply)
    requires s.received == 0 ==> Unused(s.log, drawn)
    requires full == Extended(s, body) && full <= d
    ensures Exclusive(s'.log, s'.prefix, d)
  {
    var pairs := EndPairs(s'.prefix, full, s.size, s.received / ChunkSize);
    assert full == d[..|full|];
    forall n, q | (n, q) in s'.log && s'.prefix <= n ensures IsChunkOf(s'.prefix, d, n, q) {
      if (n, q) in s.log {
        assert s.received > 0 && s'.prefix == s.prefix;
      } else {
        assert (n, q) in pairs;
        EndPairsAreChunks(s'.prefix, d, |full|, s.received / ChunkSize, n, q);
      }
    }
  }

  /** A stored part of d leaves every acknowledged chunk in the log. */
  lemma DoneCovers(a: Aead, s: FileState, d: seq<byte>, s': FileState, reply: Reply, full: seq<byte>)
    requires Honest(s, d) && s.received < s.size && s.received % ChunkSize == 0
    requires IsPrefix(s'.prefix) && (s.received > 0 ==> s'.prefix == s.prefix)
    requires full <= d && PartDone(a, s, full, s', reply)
    ensures forall k: nat | k < LastIndex(|d|) && (k + 1) * ChunkSize <= |full| ::
              (ChunkNonce(s'.prefix, d, k), Chunk(d, k)) in s'.log
    ensures |full| == s.size ==> Covers(s'.log, s'.prefix, d)
  {
    var first := s.received / ChunkSize;
    assert full == d[..|full|];
    forall k: nat | k < LastIndex(|d|) && (k + 1) * ChunkSize <= |full|
      ensures (ChunkNonce(s'.prefix, d, k), Chunk(d, k)) in s'.log
    {
      if k < first {
        assert (k + 1) * ChunkSize <= s.received;
      } else {
        EndPairsCover(s'.prefix, d, |full|, first, k);
      }
    }
    if |full| == s.size {
      assert full == d;
      assert FinalPair(s'.prefix, d) in s'.log;
      forall k: nat | k <= LastIndex(|d|) ensures (ChunkNonce(s'.prefix, d, k), Chunk(d, k)) in s'.log {
        if k < LastIndex(|d|) { assert (k + 1) * ChunkSize <= |full|; }
      }
    }
  }

  /** A torn part leaves them there. */
  lemma TornCovers(s: FileState, d: seq<byte>, s': FileState)
    requires Honest(s, d) && IsPrefix(s'.prefix) && (s.received > 0 ==> s'.prefix == s.prefix)
    requires s'.received == s.received && s.log <= s'.log
    ensures forall k: nat | k < LastIndex(|d|) && (k + 1) * ChunkSize <= s'.received ::
              (ChunkNonce(s'.prefix, d, k), Chunk(d, k)) in s'.log
  {
    forall k: nat | k < LastIndex(|d|) && (k + 1) * ChunkSize <= s'.received
      ensures (ChunkNonce(s'.prefix, d, k), Chunk(d, k)) in s'.log
    {
      assert s.received > 0;
    }
  }

  lemma StepKeepsHonest(a: Aead, s: FileState, d: seq<byte>, offset: nat, body: seq<byte>, drawn: seq<byte>,
                        s': FileState, reply: Reply)
    requires Tagged(a) && Inv(a, s) && Honest(s, d) && SliceOf(body, d, offset)
    requires PartStep(a, s, offset, body, drawn, s', reply)
    requires s.received == 0 ==> Unused(s.log, drawn)
    ensures Honest(s', d)
  {
    if s.received < s.size && offset == s.received && CanResume(s) {
      var full := Extended(s, body);
      ExtendedIsSlice(s, d, body);
      StepKeepsExclusive(a, s, d, offset, body, drawn, s', reply, full);
      if PartDone(a, s, full, s', reply) {
        DoneCovers(a, s, d, s', reply, full);
      } else {
        TornHonest(a, s, d, s', reply, full);
      }
    }
  }

  lemma TornHonest(a: Aead, s: FileState, d: seq<byte>, s': FileState, reply: Reply, full: seq<byte>)
    requires Honest(s, d) && s.received < s.size && s'.size == s.size
    requires IsPrefix(s'.prefix) && (s.received > 0 ==> s'.prefix == s.prefix)
    requires PartTorn(a, s, full, s', reply) && Exclusive(s'.log, s'.prefix, d)
    ensures Honest(s', d)
  {
    TornCovers(s, d, s');
  }

  // ---------------------------------------------------------------- runs

  datatype Call = Call(offset: nat, body: seq<byte>, drawn: seq<byte>, reply: Reply)

  /** states[i] becomes states[i + 1] by calls[i]. */
  ghost predicate Run(a: Aead, states: seq<FileState>, calls: seq<Call>) {
    && |states| == |calls| + 1
    && forall i | 0 <= i < |calls| ::
         PartStep(a, states[i], calls[i].offset, calls[i].body, calls[i].drawn, states[i + 1], calls[i].reply)
  }

  /** Bodies are cut from d, and a prefix drawn for a restarted file was never used before. */
  ghost predicate HonestRun(a: Aead, d: seq<byte>, states: seq<FileState>, calls: seq<Call>) {
    && Run(a, states, calls)
    && forall i | 0 <= i < |calls| ::
         && SliceOf(calls[i].body, d, calls[i].offset)
         && (states[i].received == 0 ==> Unused(states[i].log, calls[i].drawn))
  }

  /** A file as StartUpload leaves it. */
  ghost predicate Started(a: Aead, s: FileState) {
    && IsPrefix(s.prefix) && s.received == 0 && s.acked == []
    && (if s.size == 0 then s.blob == Sealed(a, s.prefix, []) && s.log == iset{FinalPair(s.prefix, [])}
        else s.log == iset{})
  }

  /** The same file, with nothing acknowledged lost or changed. */
  predicate Grown(s: FileState, s': FileState) {
    s'.size == s.size && s.received <= s'.received && s.acked <= s'.acked
  }

  lemma GrowthAdds(s: FileState, t: FileState, u: FileState)
    requires Grown(s, t) && Grown(t, u)
    ensures Grown(s, u)
  {
  }

  lemma {:induction false} RunHasInv(a: Aead, states: seq<FileState>, calls: seq<Call>, j: nat)
    requires Tagged(a) && Run(a, states, calls) && Inv(a, states[0]) && j < |states|
    ensures Inv(a, states[j])
  {
    if 0 < j {
      RunHasInv(a, states, calls, j - 1);
      CallKeepsInv(a, states, calls, j - 1);
    }
  }

  /** Steps that only add come to nothing but additions. */
  lemma {:induction false} GrowthAddsUp(states: seq<FileState>, i: nat, j: nat)
    requires i <= j < |states| && forall k | i < k <= j :: Grown(states[k - 1], states[k])
    ensures Grown(states[i], states[j])
    decreases j
  {
    if i < j {
      GrowthAddsUp(states, i, j - 1);
      GrowthAdds(states[i], states[j - 1], states[j]);
    }
  }

  lemma RunGrows(a: Aead, states: seq<FileState>, calls: seq<Call>, i: nat, j: nat)
    requires Tagged(a) && Run(a, states, calls) && Inv(a, states[0]) && i <= j < |states|
    ensures Grown(states[i], states[j])
  {
    forall k | i < k <= j ensures Grown(states[k - 1], states[k]) {
      RunHasInv(a, states, calls, k - 1);
      CallKeepsInv(a, states, calls, k - 1);
    }
    GrowthAddsUp(states, i, j);
  }

  /**
   In every run, whatever is sent and wherever a call is cut, the stored bytes stay exactly the
   acknowledged ones, nothing acknowledged is ever lost or changed, and the acknowledged length
   only grows, by whole chunks until the file is complete.
   */
  lemma RunKeepsInv(a: Aead, states: seq<FileState>, calls: seq<Call>, i: nat, j: nat)
    requires Tagged(a) && Run(a, states, calls) && Inv(a, states[0])
    requires i <= j < |states|
    ensures Inv(a, states[i]) && Inv(a, states[j])
    ensures states[j].size == states[i].size
    ensures states[i].received <= states[j].received <= states[j].size
    ensures states[i].acked <= states[j].acked
  {
    RunHasInv(a, states, calls, i);
    RunHasInv(a, states, calls, j);
    RunGrows(a, states, calls, i, j);
  }

  lemma CallKeepsInv(a: Aead, states: seq<FileState>, calls: seq<Call>, i: nat)
    requires Tagged(a) && Run(a, states, calls) && i < |calls| && Inv(a, states[i])
    ensures Inv(a, states[i + 1]) && Grown(states[i], states[i + 1])
  {
    var c := calls[i];
    StepKeepsInv(a, states[i], c.offset, c.body, c.drawn, states[i + 1], c.reply);
  }

  lemma StartedIsSound(a: Aead, s: FileState, d: seq<byte>)
    requires Started(a, s) && |d| == s.size && FitsCounter(d)
    ensures Inv(a, s) && Honest(s, d)
  {
    if s.size == 0 {
      assert d == [];
      IndexOfNonce(s.prefix, 0, true);
    }
  }

  lemma {:induction false} HonestRunKeeps(a: Aead, d: seq<byte>, states: seq<FileState>, calls: seq<Call>, j: nat)
    requires Tagged(a) && FitsCounter(d) && HonestRun(a, d, states, calls)
    requires Started(a, states[0]) && |d| == states[0].size && j < |states|
    ensures Inv(a, states[j]) && Honest(states[j], d)
  {
    StartedIsSound(a, states[0], d);
    if j > 0 {
      var c := calls[j - 1];
      HonestRunKeeps(a, d, states, calls, j - 1);
      StepKeepsInv(a, states[j - 1], c.offset, c.body, c.drawn, states[j], c.reply);
      StepKeepsHonest(a, states[j - 1], d, c.offset, c.body, c.drawn, states[j], c.reply);
    }
  }

  /**
   However the upload was split, retried and interrupted, a complete file is the sealed stream of
   exactly the sender's bytes, of the announced length, and the cipher can tell its chunks apart.
   foreign is what else was sealed under the same key, under other prefixes.
   */
  lemma CompleteFile(a: Aead, d: seq<byte>, states: seq<FileState>, calls: seq<Call>, foreign: Log)
    requires FitsCounter(d) && HonestRun(a, d, states, calls)
    requires Started(a, states[0]) && |d| == states[0].size
    requires states[|calls|].received == states[|calls|].size
    requires Unused(foreign, states[|calls|].prefix)
    requires Ideal(a, states[|calls|].log + foreign)
    ensures var s := states[|calls|];
            && IsPrefix(s.prefix)
            && s.blob == Sealed(a, s.prefix, d) && |s.blob| == CiphertextSize(|d|)
            && Authentic(a, s.prefix, d)
  {
    var s := states[|calls|];
    HonestRunKeeps(a, d, states, calls, |calls|);
    RunKeepsInv(a, states, calls, 0, |calls|);
    assert s.acked == d;
    SealedLength(a, s.prefix, d);
    assert Isolated(s.log + foreign, s.prefix, d);
    IdealIsAuthentic(a, s.log + foreign, s.prefix, d);
  }

  /** Two uploads of the same bytes that end with the same prefix leave the same blob, byte for byte. */
  lemma SplittingIsInvisible(a: Aead, d: seq<byte>, states: seq<FileState>, calls: seq<Call>,
                             states': seq<FileState>, calls': seq<Call>)
    requires Tagged(a) && FitsCounter(d)
    requires HonestRun(a, d, states, calls) && Started(a, states[0]) && |d| == states[0].size
    requires HonestRun(a, d, states', calls') && Started(a, states'[0]) && |d| == states'[0].size
    requires states[|calls|].received == |d| && states'[|calls'|].received == |d|
    requires states[|calls|].prefix == states'[|calls'|].prefix
    ensures states[|calls|].blob == states'[|calls'|].blob
  {
    HonestRunKeeps(a, d, states, calls, |calls|);
    HonestRunKeeps(a, d, states', calls', |calls'|);
    RunKeepsInv(a, states, calls, 0, |calls|);
    RunKeepsInv(a, states', calls', 0, |calls'|);
    assert states[|calls|].acked == d == states'[|calls'|].acked;
  }

  // ---------------------------------------------------------------- when a file can be resumed

  /** Bytes were acknowledged, more are needed, and the disk holds a different number of chunks. */
  predicate Stuck(s: FileState) {
    0 < s.received < s.size && OnDisk(s.blob) != s.received
  }

  lemma AlignKeepsOnDisk(b: seq<byte>)
    ensures OnDisk(Resized(b, R.AlignDown(|b|))) == OnDisk(b)
  {
  }

  lemma StaysStuck(a: Aead, s: FileState, offset: nat, body: seq<byte>, drawn: seq<byte>, s': FileState, reply: Reply)
    requires Stuck(s) && PartStep(a, s, offset, body, drawn, s', reply)
    ensures Stuck(s') && s'.received == s.received && reply.Mismatch?
  {
    AlignKeepsOnDisk(s.blob);
  }

  /** A stuck file stays stuck: no call, whatever it sends, is ever stored again. */
  lemma {:induction false} StuckForever(a: Aead, states: seq<FileState>, calls: seq<Call>, j: nat)
    requires Run(a, states, calls) && Stuck(states[0]) && j < |states|
    ensures Stuck(states[j]) && states[j].received == states[0].received
    ensures j > 0 ==> calls[j - 1].reply.Mismatch?
  {
    if j > 0 {
      var c := calls[j - 1];
      StuckForever(a, states, calls, j - 1);
      StaysStuck(a, states[j - 1], c.offset, c.body, c.drawn, states[j], c.reply);
    }
  }

  lemma OnDiskOfOpen(a: Aead, prefix: seq<byte>, p: seq<byte>, k: nat)
    requires Tagged(a) && IsPrefix(prefix) && k * ChunkSize <= |p|
    ensures OnDisk(Open(a, prefix, p, k)) == k * ChunkSize
  {
    OpenLength(a, prefix, p, k);
  }

  lemma LastIndexOfPart(k: nat, m: nat)
    requires m > 0
    ensures LastIndex(k * ChunkSize + m) == k <==> m <= ChunkSize
  {
  }

  /** Cutting the blob back to the acknowledged length, not just to a chunk boundary, would always resume. */
  lemma CutToReceivedResumes(a: Aead, s: FileState)
    requires Tagged(a) && Inv(a, s) && s.received < s.size
    ensures CanResume(s.(blob := Resized(s.blob, CiphertextLenFor(s.received))))
    ensures Inv(a, s.(blob := Resized(s.blob, CiphertextLenFor(s.received))))
  {
    if s.received > 0 {
      var k := s.received / ChunkSize;
      OpenLength(a, s.prefix, s.acked, k);
      assert Resized(s.blob, CiphertextLenFor(s.received)) == Open(a, s.prefix, s.acked, k);
      OnDiskOfOpen(a, s.prefix, s.acked, k);
    }
  }
}
