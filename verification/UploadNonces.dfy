/**
 When a nonce is used for one plaintext only: always if every try sends the same bytes, and exactly
 then if a part is tried again with other ones.
 */
module UploadNonces {
  import opened Bytes
  import opened ChunkFormat
  import opened ChunkDecode
  import opened ChunkWriter
  import opened UploadModel
  import opened UploadRuns
  import opened UploadCounts
  import opened UploadServer

  /** A nonce determines what was sealed under it. */
  ghost predicate OneUse(log: Log) {
    forall n, p, q | (n, p) in log && (n, q) in log :: p == q
  }

  // ---------------------------------------------------------------- a sender whose bytes stay the same

  /** The pair holds the chunk of d that the nonce's counter names, whatever the prefix. */
  predicate OfChunk(d: seq<byte>, n: seq<byte>, q: seq<byte>) {
    IndexOf(n) <= LastIndex(|d|) && q == Chunk(d, IndexOf(n))
  }

  ghost predicate AllOfChunks(log: Log, d: seq<byte>) {
    forall n, q | (n, q) in log :: OfChunk(d, n, q)
  }

  lemma PartKeepsChunks(log: Log, log': Log, prefix: seq<byte>, d: seq<byte>, m: nat, first: nat)
    requires IsPrefix(prefix) && FitsCounter(d) && m <= |d| && AllOfChunks(log, d)
    requires log' <= log + EndPairs(prefix, d[..m], |d|, first)
    ensures AllOfChunks(log', d)
  {
    forall n, q | (n, q) in log' ensures OfChunk(d, n, q) {
      if (n, q) !in log { EndPairsAreChunks(prefix, d, m, first, n, q); }
    }
  }

  lemma StepKeepsChunks(a: Aead, s: FileState, d: seq<byte>, offset: nat, body: seq<byte>, drawn: seq<byte>,
                        s': FileState, reply: Reply)
    requires Inv(a, s) && Honest(s, d) && SliceOf(body, d, offset) && AllOfChunks(s.log, d)
    requires PartStep(a, s, offset, body, drawn, s', reply)
    ensures AllOfChunks(s'.log, d)
  {
    if s.received < s.size && offset == s.received && CanResume(s) {
      StepSeals(a, s, body, drawn, s', reply);
      ExtendedIsSlice(s, d, body);
      PartKeepsChunks(s.log, s'.log, s'.prefix, d, |Extended(s, body)|, s.received / ChunkSize);
    }
  }

  lemma {:induction false} RunKeepsChunks(a: Aead, d: seq<byte>, states: seq<FileState>, calls: seq<Call>, j: nat)
    requires Tagged(a) && FitsCounter(d) && HonestRun(a, d, states, calls)
    requires Started(a, states[0]) && |d| == states[0].size && j < |states|
    ensures AllOfChunks(states[j].log, d)
  {
    if j == 0 {
      StartOfChunks(a, states[0], d);
    } else {
      RunKeepsChunks(a, d, states, calls, j - 1);
      CallKeepsChunks(a, d, states, calls, j - 1);
    }
  }

  lemma CallKeepsChunks(a: Aead, d: seq<byte>, states: seq<FileState>, calls: seq<Call>, i: nat)
    requires Tagged(a) && FitsCounter(d) && HonestRun(a, d, states, calls)
    requires Started(a, states[0]) && |d| == states[0].size && i < |calls| && AllOfChunks(states[i].log, d)
    ensures AllOfChunks(states[i + 1].log, d)
  {
    var c := calls[i];
    HonestRunKeeps(a, d, states, calls, i);
    StepKeepsChunks(a, states[i], d, c.offset, c.body, c.drawn, states[i + 1], c.reply);
  }

  lemma StartOfChunks(a: Aead, s: FileState, d: seq<byte>)
    requires Started(a, s) && |d| == s.size && FitsCounter(d)
    ensures AllOfChunks(s.log, d)
  {
    if s.size == 0 {
      assert d == [];
      FinalIsChunk(s.prefix, d);
    }
  }

  /**
   In every run in which the sender's bytes stay the same, however parts are split, torn, retried and
   restarted, no nonce is ever used for two plaintexts.
   */
  lemma HonestNoncesAreUnique(a: Aead, d: seq<byte>, states: seq<FileState>, calls: seq<Call>, j: nat)
    requires Tagged(a) && FitsCounter(d) && HonestRun(a, d, states, calls)
    requires Started(a, states[0]) && |d| == states[0].size && j < |states|
    ensures OneUse(states[j].log)
  {
    RunKeepsChunks(a, d, states, calls, j);
    ChunksAreOneUse(states[j].log, d);
  }

  lemma ChunksAreOneUse(log: Log, d: seq<byte>)
    requires AllOfChunks(log, d)
    ensures OneUse(log)
  {
    forall n, p, q | (n, p) in log && (n, q) in log ensures p == q {
      assert OfChunk(d, n, p) && OfChunk(d, n, q);
    }
  }

  // ---------------------------------------------------------------- a part tried again

  /** Interior chunk j is sealed by a part that ends at full. */
  predicate SealsInterior(full: seq<byte>, size: nat, j: nat) {
    (j + 1) * ChunkSize <= |full| && (|full| == size ==> j < LastIndex(size))
  }

  function InteriorChunk(full: seq<byte>, j: nat): seq<byte>
    requires (j + 1) * ChunkSize <= |full|
  {
    full[j * ChunkSize .. (j + 1) * ChunkSize]
  }

  /** The pair of an interior chunk from chunk k on. */
  predicate InteriorPair(prefix: seq<byte>, full: seq<byte>, size: nat, k: nat, n: seq<byte>, q: seq<byte>)
    requires IsPrefix(prefix)
  {
    var j := IndexOf(n);
    && k <= j < Uint32Count && n == Nonce(prefix, j, false)
    && SealsInterior(full, size, j) && q == InteriorChunk(full, j)
  }

  predicate LastPair(prefix: seq<byte>, full: seq<byte>, size: nat, n: seq<byte>, q: seq<byte>)
    requires IsPrefix(prefix)
  {
    |full| == size && LastIndex(size) < Uint32Count
    && n == Nonce(prefix, LastIndex(size), true) && q == full[LastIndex(size) * ChunkSize ..]
  }

  lemma InteriorPairsAre(prefix: seq<byte>, full: seq<byte>, size: nat, k: nat, n: seq<byte>, q: seq<byte>)
    requires IsPrefix(prefix) && |full| <= size && LastIndex(size) < Uint32Count
    ensures (n, q) in InteriorPairs(prefix, full, k, InteriorEnd(full, size)) ==>
              InteriorPair(prefix, full, size, k, n, q)
  {
    var to := InteriorEnd(full, size);
    if (n, q) in InteriorPairs(prefix, full, k, to) {
      var j: nat :| k <= j < to
                    && (n, q) == (Nonce(prefix, j % Uint32Count, false), full[j * ChunkSize .. (j + 1) * ChunkSize]);
      BeforeLast(|full|, size, j);
      IndexOfNonce(prefix, j, false);
    }
  }

  lemma InteriorPairsAll(prefix: seq<byte>, full: seq<byte>, size: nat, k: nat, j: nat)
    requires IsPrefix(prefix) && |full| <= size && LastIndex(size) < Uint32Count
    requires k <= j && SealsInterior(full, size, j)
    ensures j < Uint32Count
    ensures (Nonce(prefix, j, false), InteriorChunk(full, j)) in EndPairs(prefix, full, size, k)
  {
    AfterFirst(|full|, size, j);
    assert (Nonce(prefix, j, false), InteriorChunk(full, j))
        == (Nonce(prefix, j % Uint32Count, false), full[j * ChunkSize .. (j + 1) * ChunkSize]);
  }

  lemma AfterFirst(n: nat, size: nat, j: nat)
    requires n <= size && LastIndex(size) < Uint32Count
    requires (j + 1) * ChunkSize <= n && (n == size ==> j < LastIndex(size))
    ensures j < Uint32Count && j % Uint32Count == j && j < if n < size then n / ChunkSize else LastIndex(n)
  {
  }

  lemma FinalPairIs(prefix: seq<byte>, full: seq<byte>)
    requires IsPrefix(prefix) && LastIndex(|full|) < Uint32Count
    ensures FinalPair(prefix, full) == (Nonce(prefix, LastIndex(|full|), true), full[LastIndex(|full|) * ChunkSize ..])
  {
    var m := LastIndex(|full|);
    assert m % Uint32Count == m;
    assert Chunk(full, m) == full[m * ChunkSize ..];
  }

  /** What a part may seal, chunk by chunk. */
  lemma EndPairsAre(prefix: seq<byte>, full: seq<byte>, size: nat, k: nat, n: seq<byte>, q: seq<byte>)
    requires IsPrefix(prefix) && |full| <= size && LastIndex(size) < Uint32Count
    requires (n, q) in EndPairs(prefix, full, size, k)
    ensures InteriorPair(prefix, full, size, k, n, q) || LastPair(prefix, full, size, n, q)
  {
    InteriorPairsAre(prefix, full, size, k, n, q);
    if |full| == size { FinalPairIs(prefix, full); }
  }

  lemma BeforeLast(n: nat, size: nat, j: nat)
    requires n <= size && LastIndex(size) < Uint32Count
    requires j < if n < size then n / ChunkSize else LastIndex(size)
    ensures j < Uint32Count && j % Uint32Count == j && (j + 1) * ChunkSize <= n
  {
  }

  /** Under the current prefix only interior chunks before k were sealed. */
  ghost predicate CleanFrom(s: FileState, k: nat)
    requires IsPrefix(s.prefix)
  {
    forall n, q | (n, q) in s.log && s.prefix <= n :: IndexOf(n) < k && n == Nonce(s.prefix, IndexOf(n), false)
  }

  /**
   Where two tries from chunk k on can meet, they bring the same: in every whole chunk of both, or,
   if the first try ends the file, in chunk k alone, the last chunk if that is what it is.
   */
  ghost predicate Agree(full: seq<byte>, full': seq<byte>, size: nat, k: nat) {
    && (forall j: nat | Meets(full, size, k, j) && SealsInterior(full', size, j) ::
          InteriorChunk(full, j) == InteriorChunk(full', j))
    && (|full| == |full'| == size && LastIndex(size) == k ==> full[k * ChunkSize..] == full'[k * ChunkSize..])
  }

  /** Interior chunk j may be sealed by a first try that leaves the file resumable. */
  predicate Meets(full: seq<byte>, size: nat, k: nat, j: nat) {
    k <= j && (|full| < size || j == k) && SealsInterior(full, size, j)
  }

  /** A part is tried at the acknowledged length, and whatever it came to, that offset is tried again. */
  ghost predicate TriedAgain(a: Aead, s: FileState, body: seq<byte>, s1: FileState, first: Reply,
                             body': seq<byte>, s2: FileState, second: Reply)
  {
    PartStep(a, s, s.received, body, [], s1, first) && PartStep(a, s1, s.received, body', [], s2, second)
  }

  /** What a first try may have sealed if the file can still be resumed after it. */
  ghost function FirstPairs(prefix: seq<byte>, full: seq<byte>, size: nat, k: nat): Log
    requires IsPrefix(prefix)
  {
    if |full| < size then EndPairs(prefix, full, size, k) else PairsUpTo(prefix, full, size, k, k)
  }

  lemma FlagDiffers(prefix: seq<byte>, j: nat, k: nat)
    requires IsPrefix(prefix) && j < Uint32Count && k < Uint32Count
    ensures Nonce(prefix, j, false) != Nonce(prefix, k, true)
  {
    if Nonce(prefix, j, false) == Nonce(prefix, k, true) { NonceInjective(prefix, j, false, prefix, k, true); }
  }

  /** One part never seals two plaintexts under one nonce. */
  lemma PartAgrees(prefix: seq<byte>, full: seq<byte>, size: nat, k: nat, n: seq<byte>, p: seq<byte>, q: seq<byte>)
    requires IsPrefix(prefix) && |full| <= size && LastIndex(size) < Uint32Count
    requires (n, p) in EndPairs(prefix, full, size, k) && (n, q) in EndPairs(prefix, full, size, k)
    ensures p == q
  {
    EndPairsAre(prefix, full, size, k, n, p);
    EndPairsAre(prefix, full, size, k, n, q);
    if IndexOf(n) < Uint32Count { FlagDiffers(prefix, IndexOf(n), LastIndex(size)); }
  }

  lemma FirstPairsAre(prefix: seq<byte>, full: seq<byte>, size: nat, k: nat, n: seq<byte>, q: seq<byte>)
    requires IsPrefix(prefix) && |full| <= size && k <= LastIndex(size) < Uint32Count
    requires (n, q) in FirstPairs(prefix, full, size, k)
    ensures (n, q) in EndPairs(prefix, full, size, k)
    ensures if n == Nonce(prefix, LastIndex(size), true) then |full| == size && k == LastIndex(size)
            else Meets(full, size, k, IndexOf(n))
  {
    if |full| == size && (n, q) == FinalPair(prefix, full) {
      FinalPairFirst(prefix, full, k);
    } else {
      InteriorPairsAre(prefix, full, size, k, n, q);
      if |full| == size { FirstInterior(prefix, full, size, k, n, q); }
      FlagDiffers(prefix, IndexOf(n), LastIndex(size));
    }
  }

  lemma FinalPairFirst(prefix: seq<byte>, full: seq<byte>, k: nat)
    requires IsPrefix(prefix) && k <= LastIndex(|full|) < Uint32Count
    requires FinalPair(prefix, full) in FirstPairs(prefix, full, |full|, k)
    ensures k == LastIndex(|full|) && FinalPair(prefix, full).0 == Nonce(prefix, LastIndex(|full|), true)
  {
    FinalPairIs(prefix, full);
    var n, q := FinalPair(prefix, full).0, FinalPair(prefix, full).1;
    if k < LastIndex(|full|) {
      var j: nat :| k <= j < k + 1
                    && (n, q) == (Nonce(prefix, j % Uint32Count, false), full[j * ChunkSize .. (j + 1) * ChunkSize]);
      BeforeLast(|full|, |full|, j);
      FlagDiffers(prefix, j, LastIndex(|full|));
    }
  }

  lemma FirstInterior(prefix: seq<byte>, full: seq<byte>, size: nat, k: nat, n: seq<byte>, q: seq<byte>)
    requires IsPrefix(prefix) && |full| == size && LastIndex(size) < Uint32Count
    requires (n, q) in PairsUpTo(prefix, full, size, k, k) && (n, q) != FinalPair(prefix, full)
    ensures (n, q) in InteriorPairs(prefix, full, k, InteriorEnd(full, size)) && IndexOf(n) == k
  {
    var j: nat :| k <= j < InteriorEnd(full, size) && j <= k
                  && (n, q) == (Nonce(prefix, j % Uint32Count, false), full[j * ChunkSize .. (j + 1) * ChunkSize]);
    BeforeLast(|full|, size, j);
    IndexOfNonce(prefix, j, false);
  }

  /** Two tries that agree never do either. */
  lemma TriesAgree(prefix: seq<byte>, full: seq<byte>, full': seq<byte>, size: nat, k: nat,
                   n: seq<byte>, p: seq<byte>, q: seq<byte>)
    requires IsPrefix(prefix) && |full| <= size && |full'| <= size && k <= LastIndex(size) < Uint32Count
    requires Agree(full, full', size, k)
    requires (n, p) in FirstPairs(prefix, full, size, k) && (n, q) in EndPairs(prefix, full', size, k)
    ensures p == q
  {
    FirstPairsAre(prefix, full, size, k, n, p);
    EndPairsAre(prefix, full, size, k, n, p);
    EndPairsAre(prefix, full', size, k, n, q);
    if IndexOf(n) < Uint32Count { FlagDiffers(prefix, IndexOf(n), LastIndex(size)); }
  }

  /** Nothing a part seals from chunk k on has a nonce that was used before. */
  lemma NewNonces(s: FileState, full: seq<byte>, k: nat, n: seq<byte>, p: seq<byte>, q: seq<byte>)
    requires IsPrefix(s.prefix) && CleanFrom(s, k) && |full| <= s.size && k <= LastIndex(s.size) < Uint32Count
    requires (n, q) in EndPairs(s.prefix, full, s.size, k)
    ensures (n, p) !in s.log
  {
    EndPairsAre(s.prefix, full, s.size, k, n, q);
    IndexOfNonce(s.prefix, LastIndex(s.size), true);
  }

  /** What the log holds after two tries. */
  lemma TriedLog(a: Aead, s: FileState, body: seq<byte>, s1: FileState, first: Reply,
                 body': seq<byte>, s2: FileState, second: Reply)
    requires Tagged(a) && Inv(a, s) && 0 < s.received < s.size && CanResume(s)
    requires TriedAgain(a, s, body, s1, first, body', s2, second)
    ensures var k, full, full' := s.received / ChunkSize, Extended(s, body), Extended(s, body');
            || s2.log <= s.log + EndPairs(s.prefix, full, s.size, k)
            || s2.log <= s.log + (FirstPairs(s.prefix, full, s.size, k) + EndPairs(s.prefix, full', s.size, k))
  {
    FirstTry(a, s, body, s1, first);
    if s1.received == s.received && CanResume(s1) {
      assert Extended(s1, body') == Extended(s, body');
    }
  }

  lemma FirstTry(a: Aead, s: FileState, body: seq<byte>, s1: FileState, first: Reply)
    requires Tagged(a) && Inv(a, s) && 0 < s.received < s.size && CanResume(s)
    requires PartStep(a, s, s.received, body, [], s1, first)
    ensures s1.size == s.size && s1.prefix == s.prefix && s.received <= s1.received
    ensures s1.log <= s.log + EndPairs(s.prefix, Extended(s, body), s.size, s.received / ChunkSize)
    ensures s1.received == s.received && CanResume(s1) ==>
              s1.acked == s.acked
              && s1.log <= s.log + FirstPairs(s.prefix, Extended(s, body), s.size, s.received / ChunkSize)
  {
    var full, k := Extended(s, body), s.received / ChunkSize;
    if PartDone(a, s, full, s1, first) {
      if |full| == s.received { assert full == s.acked; }
    } else {
      assert PartTorn(a, s, full, s1, first);
      if CanResume(s1) { assert ChunksIn(s1.blob) == k; }
    }
  }

  /** A first try that seals all it can and leaves the file resumable. */
  lemma WorstFirst(a: Aead, s: FileState, body: seq<byte>) returns (s1: FileState, first: Reply)
    requires Tagged(a) && Inv(a, s) && 0 < s.received < s.size && CanResume(s)
    ensures PartStep(a, s, s.received, body, [], s1, first)
    ensures s1 == s.(blob := Open(a, s.prefix, s.acked, s.received / ChunkSize), log := s1.log) && CanResume(s1)
    ensures s1.log == s.log + FirstPairs(s.prefix, Extended(s, body), s.size, s.received / ChunkSize)
  {
    var k, full := s.received / ChunkSize, Extended(s, body);
    Divides(s.received, k, 0);
    OnDiskOfOpen(a, s.prefix, s.acked, k);
    OpenWithin(a, s.prefix, s.acked, full, k, s.size);
    s1 := s.(blob := Open(a, s.prefix, s.acked, k), log := s.log + FirstPairs(s.prefix, full, s.size, k));
    first := if |full| < s.size then Rejected else Failed;
    assert ChunksIn(s1.blob) == k;
    assert PartTorn(a, s, full, s1, first);
  }

  /** A second one that does, too. */
  lemma WorstSecond(a: Aead, s: FileState, body: seq<byte>) returns (s1: FileState, second: Reply)
    requires Tagged(a) && Inv(a, s) && 0 < s.received < s.size && CanResume(s)
    ensures PartStep(a, s, s.received, body, [], s1, second)
    ensures s1.log == s.log + EndPairs(s.prefix, Extended(s, body), s.size, s.received / ChunkSize)
  {
    var full := Extended(s, body);
    if |full| < s.size {
      s1, second := WorstFirst(a, s, body);
    } else {
      s1 := FileState(s.size, EndBytes(a, s.prefix, full, s.size), |full|, s.prefix, full,
                      s.log + EndPairs(s.prefix, full, s.size, s.received / ChunkSize));
      second := Stored(|full|);
      assert PartDone(a, s, full, s1, second);
    }
  }

  lemma OpenWithin(a: Aead, prefix: seq<byte>, acked: seq<byte>, full: seq<byte>, k: nat, size: nat)
    requires IsPrefix(prefix) && |acked| == k * ChunkSize < size && acked <= full && |full| <= size
    ensures Open(a, prefix, acked, k) <= EndBytes(a, prefix, full, size)
  {
    assert full == acked + full[|acked|..];
    OpenExtends(a, prefix, acked, full[|acked|..], k);
    var to := if |full| < size then |full| / ChunkSize else LastIndex(|full|);
    assert k <= to;
    OpenGrows(a, prefix, full, k, to);
  }

  /**
   The same offset is tried twice, however the first try ended and whatever else happens: no nonce is
   used for two plaintexts, if and only if the tries agree where they can meet.  A try that does not
   end the file may be refused with all its whole chunks sealed, and one that does may fail on a full
   disk with chunk k sealed; after a failure that left more on disk the file cannot be resumed.
   */
  lemma RetryIsSafeIff(a: Aead, s: FileState, body: seq<byte>, body': seq<byte>)
    requires Tagged(a) && Inv(a, s) && 0 < s.received < s.size && LastIndex(s.size) < Uint32Count
    requires CanResume(s) && OneUse(s.log) && CleanFrom(s, s.received / ChunkSize)
    ensures (forall s1, first, s2, second | TriedAgain(a, s, body, s1, first, body', s2, second) :: OneUse(s2.log))
            <==> Agree(Extended(s, body), Extended(s, body'), s.size, s.received / ChunkSize)
  {
    var k, full, full' := s.received / ChunkSize, Extended(s, body), Extended(s, body');
    if Agree(full, full', s.size, k) {
      forall s1, first, s2, second | TriedAgain(a, s, body, s1, first, body', s2, second) ensures OneUse(s2.log) {
        TriedLog(a, s, body, s1, first, body', s2, second);
        AgreeingLog(s, full, full', k, s2.log);
      }
    } else {
      var s1, first := WorstFirst(a, s, body);
      StepKeepsInv(a, s, s.received, body, [], s1, first);
      var s2, second := WorstSecond(a, s1, body');
      assert Extended(s1, body') == full';
      assert TriedAgain(a, s, body, s1, first, body', s2, second);
      DisagreeingLog(s, full, full', k, s2.log);
    }
  }

  /** No nonce of one log is in the other. */
  ghost predicate NoCommonNonce(log: Log, log': Log) {
    forall n, p, q :: (n, p) in log ==> (n, q) !in log'
  }

  lemma OneUseAdds(before: Log, added: Log, log: Log)
    requires OneUse(before) && OneUse(added) && NoCommonNonce(before, added) && log <= before + added
    ensures OneUse(log)
  {
  }

  lemma NewPairs(s: FileState, full: seq<byte>, k: nat)
    requires IsPrefix(s.prefix) && CleanFrom(s, k) && |full| <= s.size && k <= LastIndex(s.size) < Uint32Count
    ensures OneUse(EndPairs(s.prefix, full, s.size, k)) && NoCommonNonce(s.log, EndPairs(s.prefix, full, s.size, k))
    ensures FirstPairs(s.prefix, full, s.size, k) <= EndPairs(s.prefix, full, s.size, k)
  {
    var added := EndPairs(s.prefix, full, s.size, k);
    forall n, p, q | (n, p) in added && (n, q) in added ensures p == q {
      PartAgrees(s.prefix, full, s.size, k, n, p, q);
    }
    forall n, p, q | (n, q) in added ensures (n, p) !in s.log { NewNonces(s, full, k, n, p, q); }
    forall n, q | (n, q) in FirstPairs(s.prefix, full, s.size, k) ensures (n, q) in added {
      FirstPairsAre(s.prefix, full, s.size, k, n, q);
    }
  }

  lemma AgreeingLog(s: FileState, full: seq<byte>, full': seq<byte>, k: nat, log: Log)
    requires IsPrefix(s.prefix) && OneUse(s.log) && CleanFrom(s, k) && k <= LastIndex(s.size) < Uint32Count
    requires |full| <= s.size && |full'| <= s.size && Agree(full, full', s.size, k)
    requires || log <= s.log + EndPairs(s.prefix, full, s.size, k)
             || log <= s.log + (FirstPairs(s.prefix, full, s.size, k) + EndPairs(s.prefix, full', s.size, k))
    ensures OneUse(log)
  {
    NewPairs(s, full, k);
    NewPairs(s, full', k);
    var first, second := FirstPairs(s.prefix, full, s.size, k), EndPairs(s.prefix, full', s.size, k);
    forall n, p, q | (n, p) in first && (n, q) in second ensures p == q {
      TriesAgree(s.prefix, full, full', s.size, k, n, p, q);
    }
    if log <= s.log + EndPairs(s.prefix, full, s.size, k) {
      OneUseAdds(s.log, EndPairs(s.prefix, full, s.size, k), log);
    } else {
      OneUseAdds(s.log, first + second, log);
    }
  }

  lemma DisagreeingLog(s: FileState, full: seq<byte>, full': seq<byte>, k: nat, log: Log)
    requires IsPrefix(s.prefix) && k <= LastIndex(s.size) < Uint32Count
    requires |full| <= s.size && |full'| <= s.size && !Agree(full, full', s.size, k)
    requires FirstPairs(s.prefix, full, s.size, k) + EndPairs(s.prefix, full', s.size, k) <= log
    ensures !OneUse(log)
  {
    if j: nat :| && Meets(full, s.size, k, j) && SealsInterior(full', s.size, j)
                 && InteriorChunk(full, j) != InteriorChunk(full', j) {
      InteriorPairsAll(s.prefix, full', s.size, k, j);
      FirstInteriorSealed(s.prefix, full, s.size, k, j);
      var n := Nonce(s.prefix, j, false);
      assert (n, InteriorChunk(full, j)) in log && (n, InteriorChunk(full', j)) in log;
    } else {
      FinalPairIs(s.prefix, full);
      FinalPairIs(s.prefix, full');
      assert FinalPair(s.prefix, full) in log && FinalPair(s.prefix, full') in log;
    }
  }

  lemma FirstInteriorSealed(prefix: seq<byte>, full: seq<byte>, size: nat, k: nat, j: nat)
    requires IsPrefix(prefix) && |full| <= size && LastIndex(size) < Uint32Count && Meets(full, size, k, j)
    ensures (Nonce(prefix, j, false), InteriorChunk(full, j)) in FirstPairs(prefix, full, size, k)
  {
    InteriorPairsAll(prefix, full, size, k, j);
    if |full| == size { FirstOfAll(prefix, full, k); }
  }

  lemma FirstOfAll(prefix: seq<byte>, full: seq<byte>, k: nat)
    requires IsPrefix(prefix) && k < Uint32Count && (k + 1) * ChunkSize <= |full|
    ensures (Nonce(prefix, k, false), InteriorChunk(full, k)) in InteriorPairs(prefix, full, k, k + 1)
  {
    assert k % Uint32Count == k;
    assert (Nonce(prefix, k, false), InteriorChunk(full, k))
        == (Nonce(prefix, k % Uint32Count, false), full[k * ChunkSize .. (k + 1) * ChunkSize]);
  }

  // ---------------------------------------------------------------- a nonce used twice

  function Filled(n: nat, b: byte): (s: seq<byte>)
    ensures |s| == n
  {
    seq(n, _ => b)
  }

  lemma ExtendedByAll(s: FileState, body: seq<byte>)
    requires s.received + |body| <= s.size
    ensures Extended(s, body) == s.acked + body
  {
    assert body[..|body|] == body;
  }

  /** A file whose first chunk is stored. */
  method FirstChunkStored(a: Aead, size: nat, d: seq<byte>, sizes: nat -> nat, drawn: seq<byte>)
    returns (file: UploadFile)
    requires Tagged(a) && |d| == ChunkSize < size && IsPrefix(drawn) && forall i :: sizes(i) > 0
    ensures fresh(file) && file.aead == a && file.size == size && file.Valid()
    ensures file.received == ChunkSize && CanResume(file.State())
  {
    file := new UploadFile(a, size, drawn);
    var reply := file.WriteParts(0, d, NoFaults, sizes, drawn);
  }

  /**
   One chunk is stored; a part of one chunk and a byte is refused; a part of another chunk follows.
   Both chunks are sealed under the same nonce.
   */
  method NonceUsedTwice(a: Aead, d: seq<byte>, sizes: nat -> nat, drawn: seq<byte>) returns (file: UploadFile)
    requires Tagged(a) && |d| == ChunkSize && IsPrefix(drawn) && forall i :: sizes(i) > 0
    ensures fresh(file) && file.received == 2 * ChunkSize && !OneUse(file.log)
  {
    file := FirstChunkStored(a, 4 * ChunkSize, d, sizes, drawn);
    ghost var s := file.State();
    var reply := file.WriteParts(ChunkSize, Filled(ChunkSize + 1, 1), NoFaults, sizes, drawn);
    ghost var s1 := file.State();
    assert reply == Rejected;
    reply := file.WriteParts(ChunkSize, Filled(ChunkSize, 2), NoFaults, sizes, drawn);
    SealedTwice(a, s, s1, file.State(), drawn);
  }

  lemma SealedTwice(a: Aead, s: FileState, s1: FileState, s2: FileState, drawn: seq<byte>)
    requires Tagged(a) && Inv(a, s) && s.size == 4 * ChunkSize && s.received == ChunkSize && CanResume(s)
    requires PartStep(a, s, ChunkSize, Filled(ChunkSize + 1, 1), drawn, s1, Rejected)
    requires PartStep(a, s1, ChunkSize, Filled(ChunkSize, 2), drawn, s2, Stored(2 * ChunkSize))
    ensures !OneUse(s2.log)
  {
    var body, body' := Filled(ChunkSize + 1, 1), Filled(ChunkSize, 2);
    var full, full' := Extended(s, body), Extended(s, body');
    ExtendedByAll(s, body);
    ExtendedByAll(s, body');
    OnDiskOfOpen(a, s.prefix, s.acked, 1);
    assert Extended(s1, body') == full';
    assert PartTorn(a, s, full, s1, Rejected);
    assert PartDone(a, s1, full', s2, Stored(2 * ChunkSize));
    InteriorPairsAll(s.prefix, full, 4 * ChunkSize, 1, 1);
    InteriorPairsAll(s.prefix, full', 4 * ChunkSize, 1, 1);
    assert InteriorChunk(full, 1)[0] == 1 && InteriorChunk(full', 1)[0] == 2;
    var n := Nonce(s.prefix, 1, false);
    assert (n, InteriorChunk(full, 1)) in s2.log && (n, InteriorChunk(full', 1)) in s2.log;
  }

  /**
   A file of a chunk and a byte: its last part fails on a full disk and is sent again with another byte.
   Both bytes are sealed as the final chunk under the same nonce.
   */
  method LastNonceUsedTwice(a: Aead, d: seq<byte>, sizes: nat -> nat, drawn: seq<byte>) returns (file: UploadFile)
    requires Tagged(a) && |d| == ChunkSize && IsPrefix(drawn) && forall i :: sizes(i) > 0
    ensures fresh(file) && file.received == ChunkSize + 1 && !OneUse(file.log)
  {
    file := FirstChunkStored(a, ChunkSize + 1, d, sizes, drawn);
    ghost var s := file.State();
    var reply := file.WriteParts(ChunkSize, [1], Faults(Some(0), false, false, false), sizes, drawn);
    ghost var s1 := file.State();
    DiskFullAtOnce();
    reply := file.WriteParts(ChunkSize, [2], NoFaults, sizes, drawn);
    LastSealedTwice(a, s, s1, file.State(), drawn);
  }

  lemma DiskFullAtOnce()
    ensures var c := Counts(ChunkSize + 1, ChunkSize, ChunkSize);
            Served(c, ChunkSize, 1, Faults(Some(0), false, false, false)) == (c, Failed)
  {
  }

  lemma LastSealedTwice(a: Aead, s: FileState, s1: FileState, s2: FileState, drawn: seq<byte>)
    requires Tagged(a) && Inv(a, s) && s.size == ChunkSize + 1 && s.received == ChunkSize && CanResume(s)
    requires PartStep(a, s, ChunkSize, [1], drawn, s1, Failed) && CanResume(s1)
    requires s1.log == s.log + EndPairs(s1.prefix, Extended(s, [1]), s.size, 1)
    requires PartStep(a, s1, ChunkSize, [2], drawn, s2, Stored(ChunkSize + 1))
    ensures !OneUse(s2.log)
  {
    var full, full' := Extended(s, [1]), Extended(s, [2]);
    ExtendedByAll(s, [1]);
    ExtendedByAll(s, [2]);
    assert PartTorn(a, s, full, s1, Failed);
    assert Extended(s1, [2]) == full';
    assert PartDone(a, s1, full', s2, Stored(ChunkSize + 1));
    FinalPairIs(s.prefix, full);
    FinalPairIs(s.prefix, full');
    assert full[ChunkSize..][0] == 1 && full'[ChunkSize..][0] == 2;
    assert FinalPair(s.prefix, full) in s2.log && FinalPair(s.prefix, full') in s2.log;
  }
}
