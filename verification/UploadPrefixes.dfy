/**
 The random nonce prefixes of several files under one key: as long as every prefix is drawn once,
 the files' streams stay apart, and each of them reads back as what its sender chose.
 */
module UploadPrefixes {
  import opened Bytes
  import opened ChunkFormat
  import opened ChunkDecode
  import opened ChunkWriter
  import opened UploadModel
  import opened UploadRuns
  import opened Download

  /** The prefix each request draws, in case it has to start a stream. */
  type Draws = nat -> seq<byte>

  ghost predicate AllPrefixes(draws: Draws) {
    forall m :: IsPrefix(draws(m))
  }

  ghost predicate Distinct(draws: Draws) {
    forall m, n :: m < n ==> draws(m) != draws(n)
  }

  /** The prefixes drawn by requests at to next - 1. */
  ghost function Drawn(draws: Draws, at: nat, next: nat): iset<seq<byte>> {
    iset m: nat | at <= m < next :: draws(m)
  }

  /** The prefixes a file has used: the current one, and those in its log. */
  ghost function Prefixes(s: FileState): iset<seq<byte>> {
    iset p | IsPrefix(p) && (p == s.prefix || !Unused(s.log, p))
  }

  ghost predicate NotYet(used: iset<seq<byte>>, draws: Draws, at: nat) {
    forall m: nat | at <= m :: draws(m) !in used
  }

  // ---------------------------------------------------------------- one file

  lemma NoncePrefixes(prefix: seq<byte>, full: seq<byte>, size: nat, first: nat, n: seq<byte>, q: seq<byte>)
    requires IsPrefix(prefix) && (n, q) in EndPairs(prefix, full, size, first)
    ensures prefix <= n
  {
  }

  /** A request uses no prefix but the file's own and the one it draws. */
  lemma StepPrefixes(a: Aead, s: FileState, offset: nat, body: seq<byte>, drawn: seq<byte>, s': FileState, reply: Reply)
    requires IsPrefix(s.prefix) && IsPrefix(drawn) && PartStep(a, s, offset, body, drawn, s', reply)
    ensures Prefixes(s') <= Prefixes(s) + iset{drawn}
  {
    if s.received < s.size && offset == s.received && CanResume(s) {
      StepSeals(a, s, body, drawn, s', reply);
      forall p | p in Prefixes(s') && p != s'.prefix ensures p in Prefixes(s) {
        LoggedPrefix(s.log, s'.log, s'.prefix, Extended(s, body), s.size, s.received / ChunkSize, p);
      }
    }
  }

  lemma LoggedPrefix(log: Log, log': Log, prefix: seq<byte>, full: seq<byte>, size: nat, first: nat, p: seq<byte>)
    requires IsPrefix(prefix) && IsPrefix(p) && log' <= log + EndPairs(prefix, full, size, first)
    requires !Unused(log', p)
    ensures !Unused(log, p) || p == prefix
  {
    var n, q :| (n, q) in log' && p <= n;
    if (n, q) !in log { NoncePrefixes(prefix, full, size, first, n, q); }
  }

  /** What requests at to next - 1 for one file keep: its prefixes are accounted for, and an honest file stays one. */
  ghost predicate Kept(s: FileState, s': FileState, d: seq<byte>, draws: Draws, at: nat, next: nat) {
    && at <= next
    && Prefixes(s') <= Prefixes(s) + Drawn(draws, at, next)
    && (Honest(s, d) && Distinct(draws) && NotYet(Prefixes(s), draws, at) ==> Honest(s', d))
  }

  lemma NothingKept(s: FileState, d: seq<byte>, draws: Draws, at: nat, next: nat)
    requires at <= next
    ensures Kept(s, s, d, draws, at, next)
  {
  }

  lemma StepKept(a: Aead, s: FileState, d: seq<byte>, offset: nat, body: seq<byte>, draws: Draws, at: nat,
                 s': FileState, reply: Reply)
    requires Tagged(a) && Inv(a, s) && SliceOf(body, d, offset) && IsPrefix(draws(at))
    requires PartStep(a, s, offset, body, draws(at), s', reply)
    ensures Kept(s, s', d, draws, at, at + 1)
  {
    StepPrefixes(a, s, offset, body, draws(at), s', reply);
    assert draws(at) in Drawn(draws, at, at + 1);
    if Honest(s, d) && NotYet(Prefixes(s), draws, at) {
      assert draws(at) !in Prefixes(s);
      StepKeepsHonest(a, s, d, offset, body, draws(at), s', reply);
    }
  }

  /** What is still to be drawn is not among the prefixes used. */
  lemma StillNotYet(s: FileState, s': FileState, d: seq<byte>, draws: Draws, at: nat, next: nat)
    requires Kept(s, s', d, draws, at, next) && Distinct(draws) && NotYet(Prefixes(s), draws, at)
    ensures NotYet(Prefixes(s'), draws, next)
  {
    forall m: nat | next <= m ensures draws(m) !in Prefixes(s') {
      assert forall l: nat | at <= l < next :: draws(l) != draws(m);
    }
  }

  lemma KeptAdds(s: FileState, t: FileState, u: FileState, d: seq<byte>, draws: Draws, at: nat, mid: nat, next: nat)
    requires Kept(s, t, d, draws, at, mid) && Kept(t, u, d, draws, mid, next)
    ensures Kept(s, u, d, draws, at, next)
  {
    assert Drawn(draws, at, mid) <= Drawn(draws, at, next);
    assert Drawn(draws, mid, next) <= Drawn(draws, at, next);
    if Distinct(draws) && NotYet(Prefixes(s), draws, at) { StillNotYet(s, t, d, draws, at, mid); }
  }

  // ---------------------------------------------------------------- several files

  /** The files hold their senders' bytes only, have no prefix in common, and what is still to be drawn is new. */
  ghost predicate Separate(states: seq<FileState>, ds: seq<seq<byte>>, draws: Draws, at: nat) {
    && Distinct(draws) && |states| == |ds|
    && (forall i | 0 <= i < |states| :: Honest(states[i], ds[i]) && NotYet(Prefixes(states[i]), draws, at))
    && (forall i, j | 0 <= i < |states| && 0 <= j < |states| && i != j :: Prefixes(states[i]) !! Prefixes(states[j]))
  }

  /** A new file has used no prefix but its own. */
  lemma StartedPrefixes(a: Aead, s: FileState)
    requires Started(a, s)
    ensures Prefixes(s) == iset{s.prefix}
  {
    forall p | p in Prefixes(s) ensures p == s.prefix {
      if !Unused(s.log, p) { LoggedPrefix(iset{}, s.log, s.prefix, [], 0, 0, p); }
    }
  }

  /** New files are separate if their own prefixes and those to be drawn all differ. */
  lemma NewFilesSeparate(a: Aead, states: seq<FileState>, ds: seq<seq<byte>>, draws: Draws)
    requires Distinct(draws) && |states| == |ds|
    requires forall i | 0 <= i < |states| :: Started(a, states[i]) && |ds[i]| == states[i].size && FitsCounter(ds[i])
    requires forall i, j | 0 <= i < j < |states| :: states[i].prefix != states[j].prefix
    requires forall i, m | 0 <= i < |states| :: draws(m) != states[i].prefix
    ensures Separate(states, ds, draws, 0)
  {
    forall i | 0 <= i < |states| ensures Honest(states[i], ds[i]) && Prefixes(states[i]) == iset{states[i].prefix} {
      StartedIsSound(a, states[i], ds[i]);
      StartedPrefixes(a, states[i]);
    }
  }

  /** Requests for one of the files leave them separate. */
  lemma SeparateNext(states: seq<FileState>, k: nat, s: FileState, ds: seq<seq<byte>>, draws: Draws, at: nat, next: nat)
    requires Separate(states, ds, draws, at) && k < |states| && Kept(states[k], s, ds[k], draws, at, next)
    ensures Separate(states[k := s], ds, draws, next)
  {
    StillNotYet(states[k], s, ds[k], draws, at, next);
    forall j | 0 <= j < |states| && j != k ensures Prefixes(s) !! Prefixes(states[j]) {
      forall p | p in Drawn(draws, at, next) ensures p !in Prefixes(states[j]) {
        var m: nat :| at <= m < next && draws(m) == p;
      }
    }
  }

  /** Everything sealed for any of the files. */
  ghost function AllLogs(states: seq<FileState>): Log {
    iset i, pair | 0 <= i < |states| && pair in states[i].log :: pair
  }

  lemma OthersUnused(states: seq<FileState>, ds: seq<seq<byte>>, draws: Draws, at: nat, i: nat)
    requires Separate(states, ds, draws, at) && i < |states|
    ensures forall j | 0 <= j < |states| && j != i :: Unused(states[j].log, states[i].prefix)
  {
    assert IsPrefix(states[i].prefix) by { assert Honest(states[i], ds[i]); }
    assert states[i].prefix in Prefixes(states[i]);
    forall j | 0 <= j < |states| && j != i ensures Unused(states[j].log, states[i].prefix) {
      assert states[i].prefix !in Prefixes(states[j]);
    }
  }

  /** No other file's chunk was sealed under the prefix of a file that is complete. */
  lemma SeparateIsIsolated(states: seq<FileState>, ds: seq<seq<byte>>, draws: Draws, at: nat, foreign: Log, i: nat)
    requires Separate(states, ds, draws, at) && i < |states| && Unused(foreign, states[i].prefix)
    requires states[i].received == states[i].size
    ensures IsPrefix(states[i].prefix) && Isolated(AllLogs(states) + foreign, states[i].prefix, ds[i])
  {
    var prefix := states[i].prefix;
    assert Honest(states[i], ds[i]);
    forall n, q | (n, q) in AllLogs(states) + foreign && prefix <= n ensures IsChunkOf(prefix, ds[i], n, q) {
      if (n, q) !in states[i].log { OthersUnused(states, ds, draws, at, i); }
    }
    forall k: nat | k <= LastIndex(|ds[i]|)
      ensures (ChunkNonce(prefix, ds[i], k), Chunk(ds[i], k)) in AllLogs(states) + foreign
    {
      assert (ChunkNonce(prefix, ds[i], k), Chunk(ds[i], k)) in states[i].log;
    }
  }

  /** A file that is complete among separate ones reads back, from every offset. */
  lemma SeparateReadsBack(a: Aead, states: seq<FileState>, ds: seq<seq<byte>>, draws: Draws, at: nat, foreign: Log,
                          i: nat, offset: nat)
    requires Separate(states, ds, draws, at) && i < |states| && Unused(foreign, states[i].prefix)
    requires Inv(a, states[i]) && states[i].received == states[i].size && offset <= |ds[i]|
    requires Ideal(a, AllLogs(states) + foreign)
    ensures ReadsFrom(a, states[i].blob, |ds[i]|, offset) == Some(Decoded(ds[i][offset..], true))
  {
    var s := states[i];
    assert Honest(s, ds[i]);
    assert s.acked == ds[i];
    SeparateIsIsolated(states, ds, draws, at, foreign, i);
    IdealIsAuthentic(a, AllLogs(states) + foreign, s.prefix, ds[i]);
    StoredReads(a, s.blob, s.prefix, ds[i], offset);
  }
}
