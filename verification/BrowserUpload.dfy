/**
 The browser's upload loop against the server, over a network that may lose any request or any
 reply and a server that may fail at any point.  The methods are the two programs; Loop is what
 they come to in numbers, and what is proved about Loop holds of every upload.
 */
module BrowserUpload {
  import opened Bytes
  import opened ChunkFormat
  import opened UploadModel
  import opened UploadServer
  import opened UploadRuns
  import opened UploadCounts
  import opened UploadPrefixes
  import opened ChunkDecode
  import Download

  const MaxAttempts := 6
  const MaxResyncs := 3

  /** What one exchange comes to: a reply the loop can use, a failure worth a retry, or an error. */
  datatype Exchange = Accepted(received: nat) | Resynced(received: nat) | Retryable | Thrown

  /**
   What happens to one request on its way, at the server, and on the way back; aborted if the user cancels
   the transfer before its reply is used.
   */
  datatype Weather = Weather(requestLost: bool, refused: bool, delivered: nat, faults: Faults,
                             replyLost: bool, aborted: bool)

  type Network = nat -> Weather

  function AsExchange(reply: Reply): Exchange {
    match reply
    case Stored(n) => Accepted(n)
    case Mismatch(n) => Resynced(n)
    case Rejected => Thrown
    case Failed => Retryable
  }

  // ---------------------------------------------------------------- in numbers

  /** How many bytes of a part of len bytes reach the server. */
  function Arriving(len: nat, w: Weather): nat {
    Min(w.delivered, len)
  }

  function FaultsOf(len: nat, w: Weather): Faults {
    w.faults.(bodyBreaks := Arriving(len, w) < len)
  }

  /** What the browser makes of an answer r on its way: once cancelled, it is over whatever arrives. */
  function Learned(r: Exchange, w: Weather): Exchange {
    if w.aborted then Thrown else if w.requestLost || w.replyLost then Retryable else r
  }

  /** One request for bytes offset to end of a file. */
  function Exchanged(c: Counts, offset: nat, end: nat, w: Weather): (Counts, Exchange)
    requires offset <= end
  {
    if w.requestLost || w.refused then (c, Learned(Thrown, w))
    else
      var (c', reply) := Served(c, offset, Arriving(end - offset, w), FaultsOf(end - offset, w));
      (c', Learned(AsExchange(reply), w))
  }

  /** How the reply of some attempts at offset and the acknowledged length relate. */
  predicate Answered(c: Counts, offset: nat, before: nat, r: Exchange) {
    && before <= c.received <= c.size
    && (r.Accepted? ==> r.received == c.received && (before < c.received || before == c.size))
    && (r.Resynced? ==>
          if offset != c.received then r.received == c.received
          else 0 < c.received < r.received == c.disk <= c.size)
  }

  lemma ExchangeAnswers(c: Counts, offset: nat, end: nat, w: Weather)
    requires Sound(c) && offset < end <= c.size
    ensures var (c', r) := Exchanged(c, offset, end, w);
            Sound(c') && c'.size == c.size && Answered(c', offset, c.received, r)
  {
    if !w.requestLost && !w.refused {
      ServedKeepsSound(c, offset, Arriving(end - offset, w), FaultsOf(end - offset, w));
    }
  }

  /** Up to left attempts, the first of them request number at; also the number of the next request. */
  function Retried(c: Counts, offset: nat, end: nat, net: Network, at: nat, left: nat): (Counts, Exchange, nat)
    requires offset <= end
    decreases left
  {
    if left == 0 then (c, Thrown, at)
    else
      var (c', r) := Exchanged(c, offset, end, net(at));
      if r.Retryable? then Retried(c', offset, end, net, at + 1, left - 1) else (c', r, at + 1)
  }

  lemma {:induction false} RetriesAnswer(c: Counts, offset: nat, end: nat, net: Network, at: nat, left: nat)
    requires Sound(c) && offset < end <= c.size
    ensures var (c', r, _) := Retried(c, offset, end, net, at, left);
            Sound(c') && c'.size == c.size && !r.Retryable? && Answered(c', offset, c.received, r)
    decreases left
  {
    if left > 0 {
      ExchangeAnswers(c, offset, end, net(at));
      var (c', r) := Exchanged(c, offset, end, net(at));
      if r.Retryable? { RetriesAnswer(c', offset, end, net, at + 1, left - 1); }
    }
  }

  /** What one round of the loop for one file comes to; next is the number of the next request. */
  datatype Round = Again(counts: Counts, next: nat, offset: nat, resyncs: nat) | Quit(counts: Counts, next: nat)

  function PartEnd(c: Counts, partSize: nat, offset: nat): nat {
    Min(offset + partSize, c.size)
  }

  /** One round: a part is sent, and the server's answer is where the next one starts. */
  function OneRound(c: Counts, partSize: nat, net: Network, at: nat, offset: nat, resyncs: nat): Round
    requires offset < c.size
  {
    var (c', r, next) := Retried(c, offset, PartEnd(c, partSize, offset), net, at, MaxAttempts);
    match r
    case Accepted(n) => Again(c', next, n, 0)
    case Resynced(n) =>
      if n > offset then Again(c', next, n, resyncs)
      else if resyncs == MaxResyncs then Quit(c', next)
      else Again(c', next, n, resyncs + 1)
    case _ => Quit(c', next)
  }

  /** Where the client's offset stands against the acknowledged length: behind, level, ahead. */
  function Phase(offset: nat, received: nat): nat {
    if offset < received then 2 else if offset == received then 1 else 0
  }

  /** A file counted as sent is complete, or stuck with all its chunks on disk. */
  predicate Accounted(c: Counts) {
    c.received == c.size || (0 < c.received < c.size == c.disk)
  }

  /** A round keeps the counts sound and gets nearer to the end of the loop. */
  lemma RoundAdvances(c: Counts, partSize: nat, net: Network, at: nat, offset: nat, resyncs: nat)
    requires Sound(c) && partSize > 0 && offset < c.size && resyncs <= MaxResyncs
    ensures var r := OneRound(c, partSize, net, at, offset, resyncs);
            && Sound(r.counts) && r.counts.size == c.size && c.received <= r.counts.received
            && (r.Again? ==>
                  && r.offset <= c.size && r.resyncs <= MaxResyncs
                  && (r.offset == c.size ==> Accounted(r.counts))
                  && (|| r.offset == c.size
                      || c.received < r.counts.received
                      || resyncs < r.resyncs
                      || (resyncs == r.resyncs && Phase(r.offset, r.counts.received) < Phase(offset, c.received))))
  {
    RetriesAnswer(c, offset, PartEnd(c, partSize, offset), net, at, MaxAttempts);
  }

  /** How the loop for one file ends. */
  datatype Outcome = Sent(counts: Counts, next: nat) | GaveUp(counts: Counts, next: nat)

  /** The loop for one file. */
  function Loop(c: Counts, partSize: nat, net: Network, at: nat, offset: nat, resyncs: nat): Outcome
    requires Sound(c) && partSize > 0 && offset <= c.size && resyncs <= MaxResyncs
    decreases offset < c.size, c.size - c.received, MaxResyncs - resyncs, Phase(offset, c.received)
  {
    if offset == c.size then Sent(c, at)
    else
      RoundAdvances(c, partSize, net, at, offset, resyncs);
      match OneRound(c, partSize, net, at, offset, resyncs)
      case Quit(c', next) => GaveUp(c', next)
      case Again(c', next, offset', resyncs') => Loop(c', partSize, net, next, offset', resyncs')
  }

  // ---------------------------------------------------------------- what the loop can end with

  lemma {:induction false} SentIsAccounted(c: Counts, partSize: nat, net: Network, at: nat, offset: nat, resyncs: nat)
    requires Sound(c) && partSize > 0 && offset <= c.size && resyncs <= MaxResyncs
    requires offset == c.size ==> Accounted(c)
    ensures var r := Loop(c, partSize, net, at, offset, resyncs);
            && Sound(r.counts) && r.counts.size == c.size && c.received <= r.counts.received
            && (r.Sent? ==> Accounted(r.counts))
    decreases offset < c.size, c.size - c.received, MaxResyncs - resyncs, Phase(offset, c.received)
  {
    if offset < c.size {
      RoundAdvances(c, partSize, net, at, offset, resyncs);
      var r := OneRound(c, partSize, net, at, offset, resyncs);
      if r.Again? { SentIsAccounted(r.counts, partSize, net, r.next, r.offset, r.resyncs); }
    }
  }

  /** Nothing of the file is acknowledged, or all of it. */
  predicate AllOrNothing(c: Counts) {
    c.received == 0 || c.received == c.size
  }

  /** A single part is stored whole or not at all: if bytes do not reach the server, the body breaks off. */
  lemma {:induction false} OnePartRetries(c: Counts, offset: nat, net: Network, at: nat, left: nat)
    requires Sound(c) && AllOrNothing(c) && offset < c.size
    ensures AllOrNothing(Retried(c, offset, c.size, net, at, left).0)
    decreases left
  {
    if left > 0 {
      ExchangeAnswers(c, offset, c.size, net(at));
      var (c', r) := Exchanged(c, offset, c.size, net(at));
      if r.Retryable? { OnePartRetries(c', offset, net, at + 1, left - 1); }
    }
  }

  lemma {:induction false} OnePartFile(c: Counts, partSize: nat, net: Network, at: nat, offset: nat, resyncs: nat)
    requires Sound(c) && AllOrNothing(c) && 0 < c.size <= partSize && offset <= c.size && resyncs <= MaxResyncs
    ensures AllOrNothing(Loop(c, partSize, net, at, offset, resyncs).counts)
    decreases offset < c.size, c.size - c.received, MaxResyncs - resyncs, Phase(offset, c.received)
  {
    if offset < c.size {
      RoundAdvances(c, partSize, net, at, offset, resyncs);
      OnePartRetries(c, offset, net, at, MaxAttempts);
      var r := OneRound(c, partSize, net, at, offset, resyncs);
      if r.Again? { OnePartFile(r.counts, partSize, net, r.next, r.offset, r.resyncs); }
    }
  }

  // ---------------------------------------------------------------- the requests of a loop

  /** One request: its number, the bytes it is for, and what the server answers if it comes that far. */
  datatype Asked = Asked(at: nat, offset: nat, end: nat, answer: Reply)

  function Ask(c: Counts, offset: nat, end: nat, net: Network, at: nat): Asked
    requires offset <= end
  {
    var w := net(at);
    Asked(at, offset, end, Served(c, offset, Arriving(end - offset, w), FaultsOf(end - offset, w)).1)
  }

  /** The requests of some attempts at one part. */
  function Attempts(c: Counts, offset: nat, end: nat, net: Network, at: nat, left: nat): seq<Asked>
    requires offset <= end
    decreases left
  {
    if left == 0 then []
    else
      var (c', r) := Exchanged(c, offset, end, net(at));
      [Ask(c, offset, end, net, at)] + (if r.Retryable? then Attempts(c', offset, end, net, at + 1, left - 1) else [])
  }

  /** The requests the loop for one file makes. */
  function Requests(c: Counts, partSize: nat, net: Network, at: nat, offset: nat, resyncs: nat): seq<Asked>
    requires Sound(c) && partSize > 0 && offset <= c.size && resyncs <= MaxResyncs
    decreases offset < c.size, c.size - c.received, MaxResyncs - resyncs, Phase(offset, c.received)
  {
    if offset == c.size then []
    else
      RoundAdvances(c, partSize, net, at, offset, resyncs);
      Attempts(c, offset, PartEnd(c, partSize, offset), net, at, MaxAttempts)
      + match OneRound(c, partSize, net, at, offset, resyncs)
        case Quit(_, _) => []
        case Again(c', next, offset', resyncs') => Requests(c', partSize, net, next, offset', resyncs')
  }

  /** The request is answered, and not refused before it comes to the file. */
  predicate Heard(w: Weather) {
    !w.aborted && !w.requestLost && !w.replyLost && !w.refused
  }

  /** The request was cancelled, or it was refused and the browser knows. */
  predicate Final(q: Asked, w: Weather) {
    w.aborted || (w.refused && !w.requestLost && !w.replyLost) || (Heard(w) && q.answer.Rejected?)
  }

  /** The browser has no answer, or only that the server failed. */
  predicate Unanswered(q: Asked, w: Weather) {
    !w.aborted && (w.requestLost || w.replyLost || (Heard(w) && q.answer.Failed?))
  }

  /** The number of bytes the browser is told the server has. */
  function Told(q: Asked, w: Weather): Option<nat> {
    if !Heard(w) then None
    else match q.answer
      case Stored(n) => Some(n)
      case Mismatch(n) => Some(n)
      case _ => None
  }

  /** A request and the one after it: the same part again without an answer, else the part the answer asks for. */
  predicate Goes(q: Asked, w: Weather, q': Asked) {
    && q'.at == q.at + 1 && !Final(q, w)
    && (if Unanswered(q, w) then q'.offset == q.offset else Told(q, w) == Some(q'.offset))
  }

  /** The requests are for parts of that size, and each follows from the one before. */
  ghost predicate Dialogue(qs: seq<Asked>, net: Network, size: nat, partSize: nat) {
    && (forall k | 0 <= k < |qs| :: qs[k].offset < qs[k].end == Min(qs[k].offset + partSize, size))
    && (forall k | 0 <= k < |qs| - 1 :: Goes(qs[k], net(qs[k].at), qs[k + 1]))
  }

  /** How often since the last stored part the server asked for nothing further on; before says how often at first. */
  function Stalls(before: nat, qs: seq<Asked>, net: Network): nat
    decreases |qs|
  {
    if qs == [] then before
    else
      Stalls(StallsNow(before, qs[0], net(qs[0].at)), qs[1..], net)
  }

  /** The last six attempts all went without an answer, for one part. */
  predicate Exhausted(qs: seq<Asked>, net: Network) {
    && |qs| >= 6
    && forall k | |qs| - 6 <= k < |qs| ::
         Unanswered(qs[k], net(qs[k].at)) && qs[k].offset == qs[|qs| - 1].offset
  }

  /** What the attempts at one part end with. */
  predicate PartEnds(r: Exchange, q: Asked, w: Weather, all: bool) {
    match r
    case Accepted(n) => Heard(w) && q.answer == Stored(n)
    case Resynced(n) => Heard(w) && q.answer == Mismatch(n)
    case Retryable => false
    case Thrown => Final(q, w) || (all && Unanswered(q, w))
  }

  /** Attempts at one part, of which all but the last go without an answer. */
  ghost predicate OnePart(qs: seq<Asked>, net: Network, at: nat, offset: nat, end: nat) {
    && (forall k | 0 <= k < |qs| :: qs[k].at == at + k && qs[k].offset == offset && qs[k].end == end)
    && (forall k | 0 <= k < |qs| - 1 :: Unanswered(qs[k], net(at + k)))
  }

  lemma OneAttempt(c: Counts, offset: nat, end: nat, net: Network, at: nat)
    requires offset <= end
    ensures var q, (_, r) := Ask(c, offset, end, net, at), Exchanged(c, offset, end, net(at));
            if r.Retryable? then Unanswered(q, net(at)) else PartEnds(r, q, net(at), false)
  {
  }

  lemma OnePartMore(q: Asked, qs: seq<Asked>, net: Network, at: nat, offset: nat, end: nat)
    requires q.at == at && q.offset == offset && q.end == end && Unanswered(q, net(at))
    requires OnePart(qs, net, at + 1, offset, end)
    ensures OnePart([q] + qs, net, at, offset, end)
  {
    forall k | 0 <= k < |qs| + 1
      ensures ([q] + qs)[k].at == at + k && ([q] + qs)[k].offset == offset && ([q] + qs)[k].end == end
      ensures k < |qs| ==> Unanswered(([q] + qs)[k], net(at + k))
    {
      if k > 0 { assert ([q] + qs)[k] == qs[k - 1]; }
    }
  }

  /** What the attempts come to: their number, the next request's, and how the last one ends. */
  ghost predicate AttemptsEnd(qs: seq<Asked>, r: Exchange, net: Network, at: nat, next: nat, offset: nat, end: nat,
                              left: nat) {
    && 0 < |qs| <= left && next == at + |qs| && OnePart(qs, net, at, offset, end)
    && PartEnds(r, qs[|qs| - 1], net(next - 1), |qs| == left)
  }

  lemma AttemptsEndMore(q: Asked, qs: seq<Asked>, r: Exchange, net: Network, at: nat, next: nat, offset: nat, end: nat,
                     left: nat)
    requires q.at == at && q.offset == offset && q.end == end && Unanswered(q, net(at)) && left > 0
    requires AttemptsEnd(qs, r, net, at + 1, next, offset, end, left - 1)
    ensures AttemptsEnd([q] + qs, r, net, at, next, offset, end, left)
  {
    OnePartMore(q, qs, net, at, offset, end);
    assert ([q] + qs)[|qs|] == qs[|qs| - 1];
  }

  lemma FirstAttempt(c: Counts, offset: nat, end: nat, net: Network, at: nat, left: nat)
    requires offset <= end && left > 0
    ensures var ((c', r), qs) := (Exchanged(c, offset, end, net(at)), Attempts(c, offset, end, net, at, left));
            var (_, r', next) := Retried(c, offset, end, net, at, left);
            if r.Retryable? && left > 1 then
              && qs == [Ask(c, offset, end, net, at)] + Attempts(c', offset, end, net, at + 1, left - 1)
              && Retried(c, offset, end, net, at, left) == Retried(c', offset, end, net, at + 1, left - 1)
            else AttemptsEnd(qs, r', net, at, next, offset, end, left)
  {
    OneAttempt(c, offset, end, net, at);
  }

  lemma {:induction false} AttemptsAre(c: Counts, offset: nat, end: nat, net: Network, at: nat, left: nat)
    requires offset <= end && left > 0
    ensures var (_, r, next) := Retried(c, offset, end, net, at, left);
            AttemptsEnd(Attempts(c, offset, end, net, at, left), r, net, at, next, offset, end, left)
    decreases left
  {
    var (c', r) := Exchanged(c, offset, end, net(at));
    FirstAttempt(c, offset, end, net, at, left);
    if r.Retryable? && left > 1 {
      var (_, r', next) := Retried(c', offset, end, net, at + 1, left - 1);
      AttemptsAre(c', offset, end, net, at + 1, left - 1);
      OneAttempt(c, offset, end, net, at);
      AttemptsEndMore(Ask(c, offset, end, net, at), Attempts(c', offset, end, net, at + 1, left - 1), r', net, at, next,
                   offset, end, left);
    }
  }

  /** What one answer does to the count of stalls. */
  function StallsNow(before: nat, q: Asked, w: Weather): nat {
    if !Heard(w) then before
    else match q.answer
      case Stored(_) => 0
      case Mismatch(n) => if n <= q.offset then before + 1 else before
      case _ => before
  }

  lemma {:induction false} StallsJoin(before: nat, qs: seq<Asked>, rest: seq<Asked>, net: Network)
    ensures Stalls(before, qs + rest, net) == Stalls(Stalls(before, qs, net), rest, net)
    decreases |qs|
  {
    if qs == [] {
      assert qs + rest == rest;
    } else {
      assert (qs + rest)[1..] == qs[1..] + rest;
      StallsJoin(StallsNow(before, qs[0], net(qs[0].at)), qs[1..], rest, net);
    }
  }

  /** Only the last of the attempts at one part counts. */
  lemma {:induction false} StallsOfPart(before: nat, qs: seq<Asked>, net: Network, at: nat, offset: nat, end: nat)
    requires OnePart(qs, net, at, offset, end) && qs != []
    ensures Stalls(before, qs, net) == StallsNow(before, qs[|qs| - 1], net(at + |qs| - 1))
    decreases |qs|
  {
    if |qs| > 1 {
      forall k | 0 <= k < |qs| - 1
        ensures qs[1..][k] == qs[k + 1] && (k < |qs| - 2 ==> Unanswered(qs[1..][k], net(at + 1 + k)))
      {
      }
      assert Unanswered(qs[0], net(at + 0));
      StallsOfPart(before, qs[1..], net, at + 1, offset, end);
    } else {
      assert qs[1..] == [];
    }
  }

  lemma PartDialogue(qs: seq<Asked>, net: Network, at: nat, offset: nat, end: nat, size: nat, partSize: nat)
    requires OnePart(qs, net, at, offset, end) && offset < end == Min(offset + partSize, size)
    ensures Dialogue(qs, net, size, partSize)
  {
  }

  lemma DialoguesJoin(qs: seq<Asked>, rest: seq<Asked>, net: Network, size: nat, partSize: nat)
    requires Dialogue(qs, net, size, partSize) && Dialogue(rest, net, size, partSize) && qs != []
    requires rest != [] ==> Goes(qs[|qs| - 1], net(qs[|qs| - 1].at), rest[0])
    ensures Dialogue(qs + rest, net, size, partSize)
  {
    var all := qs + rest;
    forall k | 0 <= k < |all| ensures all[k].offset < all[k].end == Min(all[k].offset + partSize, size) {
      if k >= |qs| { assert all[k] == rest[k - |qs|]; }
    }
    forall k | 0 <= k < |all| - 1 ensures Goes(all[k], net(all[k].at), all[k + 1]) {
      if k >= |qs| {
        assert all[k] == rest[k - |qs|] && all[k + 1] == rest[k - |qs| + 1];
      } else if k < |qs| - 1 {
        assert all[k] == qs[k] && all[k + 1] == qs[k + 1];
      } else {
        assert all[k] == qs[k] && all[k + 1] == rest[0];
      }
    }
  }

  /** The server has told that it has all, or it is over: finally, after six times no answer, or by a fourth stall. */
  ghost predicate LoopEnds(qs: seq<Asked>, net: Network, at: nat, offset: nat, size: nat, resyncs: nat, o: Outcome) {
    && o.next == at + |qs|
    && (if qs == [] then o.Sent? && offset == size
        else
          var q, w := qs[|qs| - 1], net(o.next - 1);
          && qs[0].at == at && qs[0].offset == offset && q.at == o.next - 1
          && (if o.Sent? then Told(q, w) == Some(size)
              else || Final(q, w) || Exhausted(qs, net)
                   || (Told(q, w).Some? && Told(q, w).value <= q.offset && Stalls(resyncs, qs, net) == 4)))
  }

  /** A round whose attempts end the loop. */
  lemma RoundQuits(qs: seq<Asked>, net: Network, at: nat, next: nat, offset: nat, end: nat, size: nat, resyncs: nat,
                   r: Exchange, c: Counts)
    requires AttemptsEnd(qs, r, net, at, next, offset, end, MaxAttempts)
    requires r.Thrown? || (r.Resynced? && r.received <= offset && resyncs == MaxResyncs)
    ensures LoopEnds(qs, net, at, offset, size, resyncs, GaveUp(c, next))
  {
    StallsOfPart(resyncs, qs, net, at, offset, end);
  }

  /** A round whose attempts end with an answer, and the rest of the loop. */
  lemma RoundGoesOn(qs: seq<Asked>, rest: seq<Asked>, net: Network, at: nat, next: nat, offset: nat, end: nat,
                    size: nat, resyncs: nat, r: Exchange, offset': nat, resyncs': nat, o: Outcome)
    requires AttemptsEnd(qs, r, net, at, next, offset, end, MaxAttempts)
    requires (r.Accepted? || r.Resynced?) && r.received == offset'
    requires resyncs' == if r.Accepted? then 0 else if offset' <= offset then resyncs + 1 else resyncs
    requires LoopEnds(rest, net, next, offset', size, resyncs', o)
    ensures LoopEnds(qs + rest, net, at, offset, size, resyncs, o)
    ensures rest != [] ==> Goes(qs[|qs| - 1], net(qs[|qs| - 1].at), rest[0])
  {
    StallsOfPart(resyncs, qs, net, at, offset, end);
    StallsJoin(resyncs, qs, rest, net);
    if rest == [] {
      assert qs + rest == qs;
    } else {
      assert (qs + rest)[|qs + rest| - 1] == rest[|rest| - 1];
      if Exhausted(rest, net) { ExhaustedLater(qs, rest, net); }
    }
  }

  lemma ExhaustedLater(qs: seq<Asked>, rest: seq<Asked>, net: Network)
    requires Exhausted(rest, net)
    ensures Exhausted(qs + rest, net)
  {
    var all := qs + rest;
    forall k | |all| - 6 <= k < |all|
      ensures Unanswered(all[k], net(all[k].at)) && all[k].offset == all[|all| - 1].offset
    {
      assert all[k] == rest[k - |qs|];
    }
  }

  /**
   On every network the requests of the loop are a dialogue: parts of the part size, the same part again
   when there is no answer, else the part the server asks for, nothing after a cancellation or refusal.
   It ends with all of the file told to be there, or finally, or because six attempts at one part went
   without an answer, or because the server asked four times for nothing further on.
   */
  lemma {:induction false} LoopIsDialogue(c: Counts, partSize: nat, net: Network, at: nat, offset: nat, resyncs: nat)
    requires Sound(c) && partSize > 0 && offset <= c.size && resyncs <= MaxResyncs
    ensures var qs := Requests(c, partSize, net, at, offset, resyncs);
            && Dialogue(qs, net, c.size, partSize)
            && LoopEnds(qs, net, at, offset, c.size, resyncs, Loop(c, partSize, net, at, offset, resyncs))
    decreases offset < c.size, c.size - c.received, MaxResyncs - resyncs, Phase(offset, c.received)
  {
    if offset < c.size {
      RoundAdvances(c, partSize, net, at, offset, resyncs);
      var end := PartEnd(c, partSize, offset);
      var (c', r, next) := Retried(c, offset, end, net, at, MaxAttempts);
      var qs := Attempts(c, offset, end, net, at, MaxAttempts);
      AttemptsAre(c, offset, end, net, at, MaxAttempts);
      PartDialogue(qs, net, at, offset, end, c.size, partSize);
      match OneRound(c, partSize, net, at, offset, resyncs)
      case Quit(_, _) =>
        RoundQuits(qs, net, at, next, offset, end, c.size, resyncs, r, c');
        assert Requests(c, partSize, net, at, offset, resyncs) == qs + [] == qs;
      case Again(_, _, offset', resyncs') =>
        LoopIsDialogue(c', partSize, net, next, offset', resyncs');
        var rest := Requests(c', partSize, net, next, offset', resyncs');
        RoundGoesOn(qs, rest, net, at, next, offset, end, c.size, resyncs, r, offset', resyncs',
                    Loop(c', partSize, net, next, offset', resyncs'));
        DialoguesJoin(qs, rest, net, c.size, partSize);
    }
  }

  /** A final request is the last one. */
  lemma DialogueStops(qs: seq<Asked>, net: Network, at: nat, offset: nat, size: nat, partSize: nat, resyncs: nat,
                      o: Outcome, k: nat)
    requires Dialogue(qs, net, size, partSize) && LoopEnds(qs, net, at, offset, size, resyncs, o)
    requires k < |qs| && Final(qs[k], net(at + k))
    ensures o == GaveUp(o.counts, at + k + 1)
  {
    NumbersRun(qs, net, size, partSize, at, k);
    if k < |qs| - 1 { NotFinalBefore(qs, net, size, partSize, k); }
  }

  lemma NotFinalBefore(qs: seq<Asked>, net: Network, size: nat, partSize: nat, k: nat)
    requires Dialogue(qs, net, size, partSize) && k < |qs| - 1
    ensures !Final(qs[k], net(qs[k].at))
  {
    assert Goes(qs[k], net(qs[k].at), qs[k + 1]);
  }

  lemma CancelledStops(qs: seq<Asked>, net: Network, at: nat, offset: nat, size: nat, partSize: nat, resyncs: nat,
                       o: Outcome, i: nat)
    requires Dialogue(qs, net, size, partSize) && LoopEnds(qs, net, at, offset, size, resyncs, o) && at <= i < o.next
    requires net(i).aborted || (net(i).refused && !net(i).requestLost && !net(i).replyLost)
    ensures o == GaveUp(o.counts, i + 1)
  {
    DialogueStops(qs, net, at, offset, size, partSize, resyncs, o, i - at);
  }

  /**
   Whatever the server does: a request that is cancelled, or refused with the browser being told, is the
   last one, and the file is given up.
   */
  lemma CancelledIsLast(c: Counts, partSize: nat, net: Network, at: nat, offset: nat, resyncs: nat, i: nat)
    requires Sound(c) && partSize > 0 && offset <= c.size && resyncs <= MaxResyncs
    requires at <= i < Loop(c, partSize, net, at, offset, resyncs).next
    requires net(i).aborted || (net(i).refused && !net(i).requestLost && !net(i).replyLost)
    ensures Loop(c, partSize, net, at, offset, resyncs).GaveUp?
    ensures Loop(c, partSize, net, at, offset, resyncs).next == i + 1
  {
    var qs, o := Requests(c, partSize, net, at, offset, resyncs), Loop(c, partSize, net, at, offset, resyncs);
    LoopIsDialogue(c, partSize, net, at, offset, resyncs);
    CancelledStops(qs, net, at, offset, c.size, partSize, resyncs, o, i);
  }

  /** So is one that the server rejects. */
  lemma RejectedIsLast(c: Counts, partSize: nat, net: Network, at: nat, offset: nat, resyncs: nat, k: nat)
    requires Sound(c) && partSize > 0 && offset <= c.size && resyncs <= MaxResyncs
    requires k < |Requests(c, partSize, net, at, offset, resyncs)| && Heard(net(at + k))
    requires Requests(c, partSize, net, at, offset, resyncs)[k].answer.Rejected?
    ensures Loop(c, partSize, net, at, offset, resyncs).GaveUp?
    ensures Loop(c, partSize, net, at, offset, resyncs).next == at + k + 1
  {
    var qs := Requests(c, partSize, net, at, offset, resyncs);
    LoopIsDialogue(c, partSize, net, at, offset, resyncs);
    DialogueStops(qs, net, at, offset, c.size, partSize, resyncs, Loop(c, partSize, net, at, offset, resyncs), k);
  }

  lemma {:induction false} NumbersRun(qs: seq<Asked>, net: Network, size: nat, partSize: nat, at: nat, k: nat)
    requires Dialogue(qs, net, size, partSize) && k < |qs| && qs[0].at == at
    ensures qs[k].at == at + k
  {
    if k > 0 {
      NumbersRun(qs, net, size, partSize, at, k - 1);
      assert Goes(qs[k - 1], net(qs[k - 1].at), qs[k]);
    }
  }

  // ---------------------------------------------------------------- counted as sent, but not stored

  function Fair(size: nat): Weather {
    Weather(false, false, size, NoFaults, false, false)
  }

  /** Nothing goes wrong but that request number m dies between its last write and the row update. */
  function LosingRow(m: nat, size: nat): Network {
    i => if i == m then Fair(size).(faults := NoFaults.(rowLost := true)) else Fair(size)
  }

  function Fresh(size: nat): Counts {
    Counts(size, 0, 0)
  }

  /** A part that is sent fairly moves both sides to its end. */
  lemma FairRound(c: Counts, k: nat, partSize: nat, net: Network, at: nat)
    requires Level(c, k) && partSize > 0 && partSize % ChunkSize == 0 && net(at) == Fair(c.size)
    ensures var end := PartEnd(c, partSize, c.received);
            OneRound(c, partSize, net, at, c.received, 0) == Again(Counts(c.size, end, end), at + 1, end, 0)
  {
  }

  /** How many parts come before the last one when x bytes are sent. */
  function PartsBeforeLast(size: nat, partSize: nat, x: nat): nat
    requires partSize > 0
    decreases size - x
  {
    if x + partSize >= size then 0 else 1 + PartsBeforeLast(size, partSize, x + partSize)
  }

  /** The last part reaches the disk, not the row; the retry is told that all of it is there. */
  lemma LastRowLost(c: Counts, k: nat, partSize: nat, net: Network, at: nat)
    requires Level(c, k) && k > 0 && c.size % ChunkSize == 0 && c.received + partSize >= c.size
    requires net == LosingRow(at, c.size)
    ensures OneRound(c, partSize, net, at, c.received, 0) == Again(c.(disk := c.size), at + 2, c.size, 0)
  {
    var len := c.size - c.received;
    assert net(at) == Fair(c.size).(faults := NoFaults.(rowLost := true));
    assert net(at + 1) == Fair(c.size);
    assert Arriving(len, net(at)) == len;
    assert FaultsOf(len, net(at)) == Faults(None, false, false, true);
    LostRowStrandsIff(c, k, len);
    var (c', r) := Exchanged(c, c.received, c.size, net(at));
    assert c' == c.(disk := c.size) && r.Retryable?;
    assert Exchanged(c', c.received, c.size, net(at + 1)) == (c', Resynced(c.size));
    assert Retried(c', c.received, c.size, net, at + 1, MaxAttempts - 1) == (c', Resynced(c.size), at + 2);
  }

  lemma {:induction false} LosingRowMiscounts(c: Counts, k: nat, partSize: nat, net: Network, at: nat)
    requires Level(c, k) && c.size % ChunkSize == 0 && partSize > 0 && partSize % ChunkSize == 0
    requires k > 0 || c.received + partSize < c.size
    requires net == LosingRow(at + PartsBeforeLast(c.size, partSize, c.received), c.size)
    ensures Sound(c)
    ensures var r := Loop(c, partSize, net, at, c.received, 0); r.Sent? && r.counts.received < c.size
    decreases c.size - c.received
  {
    Divides(c.received, k, 0);
    if c.received + partSize >= c.size {
      LastRowLost(c, k, partSize, net, at);
    } else {
      FairRound(c, k, partSize, net, at);
      var x := c.received + partSize;
      Divides(x, x / ChunkSize, 0);
      LosingRowMiscounts(Counts(c.size, x, x), x / ChunkSize, partSize, net, at + 1);
    }
  }

  /** On this network a new file is counted as sent although the server has not acknowledged all of it. */
  predicate Miscounted(size: nat, partSize: nat, net: Network)
    requires partSize > 0
  {
    var r := Loop(Fresh(size), partSize, net, 0, 0, 0);
    r.Sent? && r.counts.received < size
  }

  /**
   A file can be counted as sent without being acknowledged exactly when its size is a whole number
   of chunks and it takes more than one part.
   */
  lemma MiscountPossibleIff(size: nat, partSize: nat)
    requires partSize > 0 && partSize % ChunkSize == 0
    ensures (exists net: Network :: Miscounted(size, partSize, net)) <==> size % ChunkSize == 0 && partSize < size
  {
    if size % ChunkSize == 0 && partSize < size {
      var net := LosingRow(PartsBeforeLast(size, partSize, 0), size);
      LosingRowMiscounts(Fresh(size), 0, partSize, net, 0);
      assert Miscounted(size, partSize, net);
    } else {
      forall net: Network ensures !Miscounted(size, partSize, net) {
        if size > 0 { SentIsAccounted(Fresh(size), partSize, net, 0, 0, 0); }
        if 0 < size <= partSize { OnePartFile(Fresh(size), partSize, net, 0, 0, 0); }
      }
    }
  }

  // ---------------------------------------------------------------- uploads that get through

  /** A request that meets at most the loss of itself or of its reply. */
  predicate Harmless(w: Weather, partSize: nat) {
    !w.aborted && (w.requestLost || (!w.refused && w.delivered >= partSize && w.faults == NoFaults))
  }

  predicate Clear(w: Weather) {
    !w.requestLost && !w.replyLost
  }

  ghost predicate ClearWithin(net: Network, at: nat, left: nat) {
    exists i: nat :: at <= i < at + left && Clear(net(i))
  }

  /** Nobody cancels; requests and replies may be lost, but never all attempts at one part. */
  ghost predicate Patient(net: Network, partSize: nat) {
    && (forall i: nat :: Harmless(net(i), partSize))
    && (forall i: nat :: ClearWithin(net, i, MaxAttempts))
  }

  /** The attempts at a part end with both sides at its end, whether or not it had been stored before. */
  lemma {:induction false} PatientRetries(size: nat, x: nat, offset: nat, end: nat, partSize: nat, net: Network,
                                          at: nat, left: nat)
    requires offset < end == Min(offset + partSize, size) && (x == offset || x == end)
    requires offset % ChunkSize == partSize % ChunkSize == 0
    requires (forall i: nat :: Harmless(net(i), partSize)) && ClearWithin(net, at, left)
    ensures var (c', r, _) := Retried(Counts(size, x, x), offset, end, net, at, left);
            c' == Counts(size, end, end) && (r == Accepted(end) || r == Resynced(end))
    decreases left
  {
    var i: nat :| at <= i < at + left && Clear(net(i));
    assert Harmless(net(at), partSize);
    var (c', r) := Exchanged(Counts(size, x, x), offset, end, net(at));
    assert c' == Counts(size, x, x) || c' == Counts(size, end, end);
    if r.Retryable? {
      assert i != at;
      PatientRetries(size, c'.received, offset, end, partSize, net, at + 1, left - 1);
    }
  }

  /** On a patient network the loop ends with the whole file acknowledged. */
  lemma {:induction false} PatientFile(size: nat, x: nat, partSize: nat, net: Network, at: nat, resyncs: nat)
    requires x <= size && (x < size ==> x % ChunkSize == 0) && resyncs <= MaxResyncs
    requires partSize > 0 && partSize % ChunkSize == 0 && Patient(net, partSize)
    ensures Sound(Counts(size, x, x))
    ensures var r := Loop(Counts(size, x, x), partSize, net, at, x, resyncs);
            r.Sent? && r.counts == Counts(size, size, size)
    decreases size - x
  {
    if x < size {
      var end := Min(x + partSize, size);
      assert ClearWithin(net, at, MaxAttempts);
      PatientRetries(size, x, x, end, partSize, net, at, MaxAttempts);
      var r := OneRound(Counts(size, x, x), partSize, net, at, x, resyncs);
      if end < size { Divides(end, x / ChunkSize + partSize / ChunkSize, 0); }
      PatientFile(size, end, partSize, net, r.next, r.resyncs);
    }
  }

  // ---------------------------------------------------------------- the programs

  /** The file holds a prefix of d. */
  ghost predicate Holds(file: UploadFile, d: seq<byte>)
    reads file
  {
    file.Valid() && DiskBounded(file.State()) && |d| == file.size && file.acked <= d
  }

  lemma ExchangedAtServer(c: Counts, offset: nat, end: nat, w: Weather)
    requires offset <= end && !w.requestLost && !w.refused
    ensures Exchanged(c, offset, end, w)
         == var served := Served(c, offset, Arriving(end - offset, w), FaultsOf(end - offset, w));
            (served.0, Learned(AsExchange(served.1), w))
  {
  }

  /** One request for d[offset..end]. */
  method SendPart(file: UploadFile, d: seq<byte>, offset: nat, end: nat, sizes: nat -> nat, w: Weather,
                  draws: Draws, at: nat)
    returns (r: Exchange)
    requires Holds(file, d) && offset < end <= |d|
    requires AllPrefixes(draws) && forall i :: sizes(i) > 0
    modifies file
    ensures Holds(file, d)
    ensures Kept(old(file.State()), file.State(), d, draws, at, at + 1)
    ensures (CountsOf(file.State()), r) == Exchanged(CountsOf(old(file.State())), offset, end, w)
  {
    if w.requestLost || w.refused {
      NothingKept(file.State(), d, draws, at, at + 1);
      return Learned(Thrown, w);
    }
    ExchangedAtServer(CountsOf(file.State()), offset, end, w);
    var delivered := Arriving(end - offset, w);
    var reply := Deliver(file, d, offset, offset + delivered, sizes, FaultsOf(end - offset, w), draws, at);
    r := Learned(AsExchange(reply), w);
  }

  /** What arrives of a part, at the server. */
  method Deliver(file: UploadFile, d: seq<byte>, offset: nat, to: nat, sizes: nat -> nat, faults: Faults,
                 draws: Draws, at: nat)
    returns (reply: Reply)
    requires Holds(file, d) && offset <= to <= |d|
    requires AllPrefixes(draws) && forall i :: sizes(i) > 0
    modifies file
    ensures Holds(file, d)
    ensures Kept(old(file.State()), file.State(), d, draws, at, at + 1)
    ensures (CountsOf(file.State()), reply) == Served(CountsOf(old(file.State())), offset, to - offset, faults)
  {
    var body := d[offset..to];
    ghost var s := file.State();
    reply := file.WriteParts(offset, body, faults, sizes, draws(at));
    StepKeepsDiskBound(file.aead, s, offset, body, draws(at), file.State(), reply);
    StepKeepsSender(file.aead, s, d, offset, body, draws(at), file.State(), reply);
    StepKept(file.aead, s, d, offset, body, draws, at, file.State(), reply);
  }

  /** Parts cut from d keep the acknowledged bytes a prefix of d. */
  lemma StepKeepsSender(a: Aead, s: FileState, d: seq<byte>, offset: nat, body: seq<byte>, drawn: seq<byte>,
                        s': FileState, reply: Reply)
    requires Inv(a, s) && |d| == s.size && s.acked <= d && SliceOf(body, d, offset)
    requires PartStep(a, s, offset, body, drawn, s', reply)
    ensures s'.acked <= d
  {
    if s.received < s.size && offset == s.received && CanResume(s) { ExtendedIsPrefix(s, d, body); }
  }

  lemma ExtendedIsPrefix(s: FileState, d: seq<byte>, body: seq<byte>)
    requires |s.acked| == s.received <= s.size == |d| && s.acked <= d && SliceOf(body, d, s.received)
    ensures Extended(s, body) <= d
  {
    assert d == s.acked + d[s.received..];
  }

  /** Retries a part on transport and server failures, never on a refusal. */
  method SendPartWithRetry(file: UploadFile, d: seq<byte>, offset: nat, end: nat, sizes: nat -> nat,
                           net: Network, draws: Draws, at: nat)
    returns (r: Exchange, next: nat)
    requires Holds(file, d) && offset < end <= |d|
    requires AllPrefixes(draws) && forall i :: sizes(i) > 0
    modifies file
    ensures Holds(file, d)
    ensures Kept(old(file.State()), file.State(), d, draws, at, next)
    ensures (CountsOf(file.State()), r, next) == Retried(CountsOf(old(file.State())), offset, end, net, at, MaxAttempts)
  {
    ghost var meant := Retried(CountsOf(file.State()), offset, end, net, at, MaxAttempts);
    ghost var start := file.State();
    NothingKept(start, d, draws, at, at);
    var attempt := 1;
    next := at;
    while attempt <= MaxAttempts
      invariant 1 <= attempt <= MaxAttempts + 1 && Holds(file, d)
      invariant Kept(start, file.State(), d, draws, at, next)
      invariant Retried(CountsOf(file.State()), offset, end, net, next, MaxAttempts + 1 - attempt) == meant
    {
      ghost var s := file.State();
      r := SendPart(file, d, offset, end, sizes, net(next), draws, next);
      KeptAdds(start, s, file.State(), d, draws, at, next, next + 1);
      next := next + 1;
      if !r.Retryable? { return; }
      attempt := attempt + 1;
    }
    r := Thrown;
  }

  /** The body of the loop for one file: whether to go on, and where. */
  method SendNext(file: UploadFile, d: seq<byte>, partSize: nat, sizes: nat -> nat, net: Network,
                  draws: Draws, at: nat, offset: nat, resyncs: nat)
    returns (more: bool, offset': nat, resyncs': nat, next: nat)
    requires Holds(file, d) && offset < |d| && partSize > 0 && resyncs <= MaxResyncs
    requires AllPrefixes(draws) && forall i :: sizes(i) > 0
    modifies file
    ensures Holds(file, d)
    ensures Kept(old(file.State()), file.State(), d, draws, at, next)
    ensures OneRound(CountsOf(old(file.State())), partSize, net, at, offset, resyncs)
            == if more then Again(CountsOf(file.State()), next, offset', resyncs')
               else Quit(CountsOf(file.State()), next)
  {
    offset', resyncs' := offset, resyncs;
    var end := Min(offset + partSize, |d|);
    var r;
    r, next := SendPartWithRetry(file, d, offset, end, sizes, net, draws, at);
    if r.Thrown? || r.Retryable? { return false, offset', resyncs', next; }
    if r.Resynced? {
      if r.received <= offset {
        resyncs' := resyncs' + 1;
        if resyncs' > MaxResyncs { return false, offset', resyncs', next; }
      }
    } else {
      resyncs' := 0;
    }
    more, offset' := true, r.received;
  }

  /**
   Sends one file.  It ends as Loop says: normally only with the whole file counted in completed,
   and then either the server holds exactly d or the file is stuck with all its chunks on disk and
   not all of them acknowledged, which publishing will refuse.  A file that was sent from its
   beginning can only be stuck like that if it is whole chunks and took more than one part.
   */
  method UploadOne(file: UploadFile, d: seq<byte>, partSize: nat, completed: nat, sizes: nat -> nat,
                   net: Network, draws: Draws, at: nat)
    returns (ok: bool, completed': nat, next: nat)
    requires Holds(file, d) && partSize > 0 && partSize % ChunkSize == 0
    requires AllPrefixes(draws) && forall i :: sizes(i) > 0
    modifies file
    ensures Kept(old(file.State()), file.State(), d, draws, at, next)
    ensures Holds(file, d) && old(file.received) <= file.received
    ensures Sound(CountsOf(old(file.State())))
    ensures Loop(CountsOf(old(file.State())), partSize, net, at, 0, 0)
            == if ok then Sent(CountsOf(file.State()), next) else GaveUp(CountsOf(file.State()), next)
    ensures ok ==> completed' == completed + |d|
    ensures ok && file.received < file.size ==> Stuck(file.State()) && OnDisk(file.blob) == file.size
    ensures ok && file.received < file.size && old(file.received) == 0 ==> |d| % ChunkSize == 0 && partSize < |d|
    ensures ok && file.received == file.size ==> file.blob == Sealed(file.aead, file.prefix, d)
    ensures Patient(net, partSize) && old(file.received) == 0 ==> ok && file.received == file.size
  {
    var offset: nat, resyncs: nat := 0, 0;
    completed', next := completed, at;
    CountsAreSound(file.aead, file.State());
    ghost var first := file.State();
    NothingKept(first, d, draws, at, at);
    ghost var start := CountsOf(first);
    ghost var meant := Loop(start, partSize, net, at, 0, 0);
    EndOfFile(start, partSize, net, at);
    while offset < |d|
      invariant Holds(file, d) && old(file.received) <= file.received && Sound(CountsOf(file.State()))
      invariant offset <= |d| && resyncs <= MaxResyncs
      invariant completed' == completed + offset
      invariant Kept(first, file.State(), d, draws, at, next)
      invariant Loop(CountsOf(file.State()), partSize, net, next, offset, resyncs) == meant
      decreases offset < |d|, |d| - file.received, MaxResyncs - resyncs, Phase(offset, file.received)
    {
      ghost var s, asked, c := file.State(), next, CountsOf(file.State());
      RoundAdvances(c, partSize, net, next, offset, resyncs);
      var priorFiles := completed' - offset;
      var more;
      more, offset, resyncs, next := SendNext(file, d, partSize, sizes, net, draws, next, offset, resyncs);
      KeptAdds(first, s, file.State(), d, draws, at, asked, next);
      if !more { return false, completed', next; }
      completed' := priorFiles + offset;
    }
    ok := true;
    if file.received == file.size { assert file.acked == d; }
  }

  /** What a file counted as sent can look like. */
  lemma EndOfFile(c: Counts, partSize: nat, net: Network, at: nat)
    requires Sound(c) && partSize > 0 && partSize % ChunkSize == 0
    ensures var r := Loop(c, partSize, net, at, 0, 0);
            && (Patient(net, partSize) && c.received == 0 ==> r.Sent? && r.counts.received == c.size)
            && (r.Sent? ==> Accounted(r.counts))
            && (r.Sent? && r.counts.received < c.size && c.received == 0 ==>
                  c.size % ChunkSize == 0 && partSize < c.size)
  {
    SentIsAccounted(c, partSize, net, at, 0, 0);
    if c.received == 0 && 0 < c.size <= partSize { OnePartFile(c, partSize, net, at, 0, 0); }
    if Patient(net, partSize) && c.received == 0 { PatientFile(c.size, 0, partSize, net, at, 0); }
  }

  ghost function TotalSize(ds: seq<seq<byte>>): nat {
    if ds == [] then 0 else TotalSize(ds[..|ds| - 1]) + |ds[|ds| - 1]|
  }

  ghost function States(files: seq<UploadFile>): (states: seq<FileState>)
    reads files
    ensures |states| == |files| && forall i | 0 <= i < |files| :: states[i] == files[i].State()
  {
    seq(|files|, i requires 0 <= i < |files| reads files => files[i].State())
  }

  /** Finalize's check: no file is short of its declared size. */
  predicate AllReceived(files: seq<UploadFile>)
    reads files
  {
    forall i | 0 <= i < |files| :: files[i].received >= files[i].size
  }

  ghost predicate AllHold(files: seq<UploadFile>, ds: seq<seq<byte>>)
    reads files
  {
    && |files| == |ds|
    && (forall i, j | 0 <= i < j < |files| :: files[i] != files[j])
    && (forall i | 0 <= i < |files| :: Holds(files[i], ds[i]))
  }

  /** The first k files are complete, of the others nothing is acknowledged. */
  predicate Ahead(files: seq<UploadFile>, k: nat)
    reads files
  {
    forall i | 0 <= i < |files| :: files[i].received == if i < k then files[i].size else 0
  }

  /** File k of all. */
  method SendFile(files: seq<UploadFile>, ds: seq<seq<byte>>, k: nat, partSize: nat, completed: nat,
                  sizes: nat -> nat, net: Network, draws: Draws, at: nat)
    returns (ok: bool, completed': nat, next: nat)
    requires AllHold(files, ds) && k < |files| && partSize > 0 && partSize % ChunkSize == 0
    requires AllPrefixes(draws) && forall i :: sizes(i) > 0
    modifies files[k]
    ensures AllHold(files, ds)
    ensures old(Separate(States(files), ds, draws, at)) ==> Separate(States(files), ds, draws, next)
    ensures ok ==> completed' == completed + |ds[k]|
    ensures Patient(net, partSize) && old(Ahead(files, k)) ==> ok && Ahead(files, k + 1)
  {
    ghost var states := States(files);
    ok, completed', next := UploadOne(files[k], ds[k], partSize, completed, sizes, net, draws, at);
    forall i | 0 <= i < |files| ensures Holds(files[i], ds[i]) {
      assert old(Holds(files[i], ds[i]));
      assert i != k ==> files[i] != files[k];
    }
    forall i | 0 <= i < |files| ensures States(files)[i] == states[k := files[k].State()][i] {
      assert i != k ==> files[i] != files[k];
    }
    assert States(files) == states[k := files[k].State()];
    if Separate(states, ds, draws, at) { SeparateNext(states, k, files[k].State(), ds, draws, at, next); }
    if old(Ahead(files, k)) && Patient(net, partSize) {
      forall i | 0 <= i < |files| ensures files[i].received == if i < k + 1 then files[i].size else 0 {
        assert i != k ==> files[i] != files[k];
      }
    }
  }

  /**
   Sends all files, then asks once for publication.  Success is publication, which means that every
   blob is the sealed stream of the bytes the user chose and that the progress counter ends at their
   total.  New files on a network that loses requests and replies, but not all attempts at one part,
   are always published if the last request arrives, and that is success if its reply does.  If the
   prefixes drawn are all new, every published file reads back from every offset, whatever else
   was sealed under the key with other prefixes.
   */
  method StartUpload(files: seq<UploadFile>, ds: seq<seq<byte>>, partSize: nat, sizes: nat -> nat,
                     net: Network, draws: Draws, finish: Weather, ghost foreign: Log)
    returns (ok: bool, published: bool, completed: nat)
    requires AllHold(files, ds) && partSize > 0 && partSize % ChunkSize == 0
    requires AllPrefixes(draws) && forall i :: sizes(i) > 0
    modifies files
    ensures ok ==> published
    ensures published ==> completed == TotalSize(ds)
    ensures published ==> forall i | 0 <= i < |files| ::
              files[i].Valid() && files[i].blob == Sealed(files[i].aead, files[i].prefix, ds[i])
    ensures published && old(Separate(States(files), ds, draws, 0)) ==>
              forall i | 0 <= i < |files| && Known(files, i, foreign) :: ReadsBack(files[i], ds[i])
    ensures Patient(net, partSize) && old(Ahead(files, 0)) ==>
              && (published <==> !finish.requestLost && !finish.refused)
              && (ok <==> published && !finish.replyLost && !finish.aborted)
  {
    var sent, next;
    sent, completed, next := SendFiles(files, ds, partSize, sizes, net, draws);
    if !sent { return false, false, completed; }
    ok, published := Finish(files, ds, draws, next, finish, foreign);
  }

  /** All files, one after the other. */
  method SendFiles(files: seq<UploadFile>, ds: seq<seq<byte>>, partSize: nat, sizes: nat -> nat,
                   net: Network, draws: Draws)
    returns (ok: bool, completed: nat, next: nat)
    requires AllHold(files, ds) && partSize > 0 && partSize % ChunkSize == 0
    requires AllPrefixes(draws) && forall i :: sizes(i) > 0
    modifies files
    ensures AllHold(files, ds)
    ensures ok ==> completed == TotalSize(ds)
    ensures Patient(net, partSize) && old(Ahead(files, 0)) ==> ok && Ahead(files, |files|)
    ensures ok && old(Separate(States(files), ds, draws, 0)) ==> Separate(States(files), ds, draws, next)
  {
    ghost var willing := Patient(net, partSize) && Ahead(files, 0);
    ghost var separate := Separate(States(files), ds, draws, 0);
    ok, completed, next := true, 0, 0;
    for k := 0 to |files|
      invariant AllHold(files, ds) && ok
      invariant completed == TotalSize(ds[..k])
      invariant willing ==> Ahead(files, k)
      invariant separate ==> Separate(States(files), ds, draws, next)
    {
      ok, completed, next := SendFile(files, ds, k, partSize, completed, sizes, net, draws, next);
      if !ok { return; }
      assert ds[..k + 1][..k] == ds[..k];
    }
    assert ds[..|files|] == ds;
  }

  /** The request for publication, once nothing more is to be sent. */
  method Finish(files: seq<UploadFile>, ds: seq<seq<byte>>, ghost draws: Draws, ghost at: nat, finish: Weather,
                ghost foreign: Log)
    returns (ok: bool, published: bool)
    requires AllHold(files, ds)
    ensures published <==> AllReceived(files) && !finish.requestLost && !finish.refused
    ensures ok <==> published && !finish.replyLost && !finish.aborted
    ensures published ==> forall i | 0 <= i < |files| ::
              files[i].Valid() && files[i].blob == Sealed(files[i].aead, files[i].prefix, ds[i])
    ensures published && Separate(States(files), ds, draws, at) ==>
              forall i | 0 <= i < |files| && Known(files, i, foreign) :: ReadsBack(files[i], ds[i])
  {
    if finish.requestLost || finish.refused { return false, false; }
    published := AllReceived(files);
    ok := published && !finish.replyLost && !finish.aborted;
    if published {
      WholeFiles(files, ds);
      if Separate(States(files), ds, draws, at) { FilesReadBack(files, ds, draws, at, foreign); }
    }
  }

  /** The cipher of file i opens what was sealed for these files, or under other prefixes, and nothing else. */
  ghost predicate Known(files: seq<UploadFile>, i: nat, foreign: Log)
    requires i < |files|
    reads files
  {
    Ideal(files[i].aead, AllLogs(States(files)) + foreign) && Unused(foreign, files[i].prefix)
  }

  /** What a download of the file from any offset gives: d from there, to a clean end. */
  ghost predicate ReadsBack(file: UploadFile, d: seq<byte>)
    reads file
  {
    forall offset: nat | offset <= |d| ::
      Download.ReadsFrom(file.aead, file.blob, file.size, offset) == Some(Decoded(d[offset..], true))
  }

  lemma FilesReadBack(files: seq<UploadFile>, ds: seq<seq<byte>>, draws: Draws, at: nat, foreign: Log)
    requires AllHold(files, ds) && AllReceived(files) && Separate(States(files), ds, draws, at)
    ensures forall i | 0 <= i < |files| && Known(files, i, foreign) :: ReadsBack(files[i], ds[i])
  {
    forall i | 0 <= i < |files| && Known(files, i, foreign) ensures ReadsBack(files[i], ds[i]) {
      assert Holds(files[i], ds[i]);
      forall offset: nat | offset <= |ds[i]|
        ensures Download.ReadsFrom(files[i].aead, files[i].blob, files[i].size, offset)
             == Some(Decoded(ds[i][offset..], true))
      {
        SeparateReadsBack(files[i].aead, States(files), ds, draws, at, foreign, i, offset);
      }
    }
  }

  /** Files without anything missing are the sealed streams of the sender's bytes. */
  lemma WholeFiles(files: seq<UploadFile>, ds: seq<seq<byte>>)
    requires AllHold(files, ds) && AllReceived(files)
    ensures forall i | 0 <= i < |files| ::
              files[i].Valid() && files[i].blob == Sealed(files[i].aead, files[i].prefix, ds[i])
  {
    forall i | 0 <= i < |files|
      ensures files[i].Valid() && files[i].blob == Sealed(files[i].aead, files[i].prefix, ds[i])
    {
      assert Holds(files[i], ds[i]);
      assert files[i].acked == ds[i];
    }
  }
}
