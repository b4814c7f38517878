/** Expiry: which rows are due, what one sweep pass removes, and what a concurrent one can. */
module Sweeping {
  import opened Bytes
  import opened Lifecycle

  /** The expiry StartUpload stores for the upload session of a drop created at a moment. */
  function UploadSessionExpiry(created: int, ttl: nat): int {
    Unix(created + ttl)
  }

  /** UploadSessionByID still returns the session. */
  predicate UploadSessionAlive(created: int, ttl: nat, now: int) {
    UploadSessionExpiry(created, ttl) > Unix(now)
  }

  /** The clause that reaps a pending drop created at a moment. */
  predicate StalePending(created: int, ttl: nat, now: int) {
    Unix(created) <= Unix(now - ttl)
  }

  lemma WholeSeconds(t: int, k: int)
    ensures Unix(t + k * 1_000_000_000) == Unix(t) + k
  {
  }

  /**
   The clause for pending drops fires exactly when the upload session has expired, for all creation
   and current times, if and only if the session lifetime is a whole number of seconds.
   */
  lemma StalePendingIffExpired(ttl: nat)
    ensures (forall created, now :: StalePending(created, ttl, now) <==> !UploadSessionAlive(created, ttl, now))
            <==> ttl % Second == 0
  {
    var k := ttl / Second;
    if ttl % Second == 0 {
      assert ttl == k * Second;
      forall created, now ensures StalePending(created, ttl, now) <==> !UploadSessionAlive(created, ttl, now) {
        WholeSeconds(created, k);
        WholeSeconds(now - ttl, k);
        assert now == now - ttl + k * Second;
      }
    } else {
      // Created on a second: the session is over at the start of second k, the drop is due only later.
      WholeSeconds(ttl % Second, k);
      WholeSeconds(0, k);
      WholeSeconds(Second - ttl % Second, -1);
      assert ttl == ttl % Second + k * Second;
      assert !UploadSessionAlive(0, ttl, k * Second) && !StalePending(0, ttl, k * Second);
    }
  }

  /** The row of an unblocked pending drop created at a moment. */
  predicate PendingSince(d: Drop, created: int) {
    d.status.Pending? && !d.blocked && d.createdAt == Unix(created)
  }

  /** When the upload session ends, the drop becomes stale, and its retention is over, in seconds or not. */
  predicate EndsTogether(created: int, ttl: nat, expires: int) {
    var session := UploadSessionExpiry(created, ttl);
    if ttl % Second == 0 then session <= expires
    else created % Second + ttl % Second < Second && expires == session
  }

  lemma UnixIs(t: int, s: int)
    ensures Unix(t) >= s <==> t >= s * Second
    ensures s <= Unix(t) <==> s * Second <= t
  {
  }

  /** A pending drop is due from one moment on. */
  lemma PendingDueFrom(d: Drop, created: int, ttl: nat, now: int)
    requires PendingSince(d, created)
    ensures Reapable(d, now, now - ttl) <==> d.expiresAt * Second <= now || d.createdAt * Second + ttl <= now
  {
    UnixIs(now, d.expiresAt);
    UnixIs(now - ttl, d.createdAt);
  }

  lemma SessionOverFrom(created: int, ttl: nat, now: int)
    ensures !UploadSessionAlive(created, ttl, now) <==> UploadSessionExpiry(created, ttl) * Second <= now
  {
    UnixIs(now, UploadSessionExpiry(created, ttl));
  }

  /** The two moments, by seconds and fractions. */
  lemma EndsTogetherIff(created: int, ttl: nat, expires: int)
    ensures var (session, stale) := (UploadSessionExpiry(created, ttl) * Second, Unix(created) * Second + ttl);
            EndsTogether(created, ttl, expires)
            <==> session == if expires * Second <= stale then expires * Second else stale
  {
    var c, g, k, f := Unix(created), created % Second, ttl / Second, ttl % Second;
    assert created == c * Second + g && ttl == k * Second + f;
    if g + f < Second {
      WholeSeconds(g + f, c + k);
      assert created + ttl == (g + f) + (c + k) * Second;
    } else {
      WholeSeconds(g + f - Second, c + k + 1);
      assert created + ttl == (g + f - Second) + (c + k + 1) * Second;
    }
  }

  /**
   A pending drop is due, by either clause, exactly when its upload session has expired, if and only
   if its retention does not end before the session and the lifetime is whole seconds; or, by
   coincidence, both end together and creation and lifetime have fractions that do not carry.
   */
  lemma PendingDueIffExpired(d: Drop, created: int, ttl: nat)
    requires PendingSince(d, created)
    ensures (forall now :: Reapable(d, now, now - ttl) <==> !UploadSessionAlive(created, ttl, now))
            <==> EndsTogether(created, ttl, d.expiresAt)
  {
    var session, stale := UploadSessionExpiry(created, ttl) * Second, d.createdAt * Second + ttl;
    var due := if d.expiresAt * Second <= stale then d.expiresAt * Second else stale;
    EndsTogetherIff(created, ttl, d.expiresAt);
    if session == due {
      forall now ensures Reapable(d, now, now - ttl) <==> !UploadSessionAlive(created, ttl, now) {
        PendingDueFrom(d, created, ttl, now);
        SessionOverFrom(created, ttl, now);
      }
    } else {
      var now := if session < due then session else due;
      PendingDueFrom(d, created, ttl, now);
      SessionOverFrom(created, ttl, now);
      assert !(Reapable(d, now, now - ttl) <==> !UploadSessionAlive(created, ttl, now));
    }
  }

  /** A published, unblocked drop can be downloaded exactly while it is not due for removal. */
  lemma LiveOrDue(d: Drop, now: int, pendingCutoff: int)
    requires d.status.Ready? && !d.blocked
    ensures Live(d, now) <==> !Reapable(d, now, pendingCutoff)
  {
  }

  // ---------------------------------------------------------------- the tables in place

  /** The service's mutable tables: rows, sessions by token, tickets. */
  class Tables {
    var drops: map<nat, Drop>
    var sessions: map<nat, Session>
    var tickets: map<nat, Ticket>
    var claimed: set<nat>

    constructor ()
      ensures drops == map[] && sessions == map[] && tickets == map[] && claimed == {}
    {
      drops, sessions, tickets, claimed := map[], map[], map[], {};
    }

    /** The UPDATE of ClaimDownload, as one statement. */
    method TakeDownload(drop: nat, now: int) returns (found: bool)
      modifies this`drops
      ensures found <==> drop in old(drops) && Live(old(drops)[drop], now)
      ensures drops == if found then old(drops)[drop := old(drops)[drop].(downloads := old(drops)[drop].downloads + 1)]
                       else old(drops)
      ensures found ==> drops[drop].downloads <= drops[drop].maxDownloads
      ensures found ==> old(drops)[drop].status.Ready? && !old(drops)[drop].blocked
    {
      found := drop in drops && Live(drops[drop], now);
      if found { drops := drops[drop := drops[drop].(downloads := drops[drop].downloads + 1)]; }
    }

    /** claimOnce: a session that has claimed passes for nothing; another passes exactly if it takes a download. */
    method ClaimOnce(session: Session, now: int, rereadFails: bool) returns (ok: bool)
      modifies this`drops, this`claimed
      ensures (ok, drops, claimed) == Claimed(old(drops), old(claimed), session, now, rereadFails)
      ensures ok <==> session.id in claimed
      ensures claimed - {session.id} == old(claimed) - {session.id}
      ensures drops - {session.drop} == old(drops) - {session.drop}
      ensures session.id in old(claimed) ==> drops == old(drops)
      ensures session.id !in old(claimed) && ok ==>
                session.drop in drops && drops[session.drop].downloads == old(drops)[session.drop].downloads + 1
      ensures session.id !in old(claimed) && ok ==>
                old(drops)[session.drop].status.Ready? && !old(drops)[session.drop].blocked
      ensures !ok && (session.drop !in old(drops) || !Live(old(drops)[session.drop], now)) ==> drops == old(drops)
    {
      if session.id in claimed { return true; }
      var found := TakeDownload(session.drop, now);
      if !found || rereadFails { return false; }
      claimed := claimed + {session.id};
      ok := true;
    }

    /** sessionTable.get: a live session, dropping it if it has expired. */
    method Get(token: nat, now: int) returns (r: Option<Session>)
      modifies this`sessions
      ensures r.Some? <==> token in old(sessions) && now <= old(sessions)[token].expiresAt
      ensures r.Some? ==> r.value == old(sessions)[token]
      ensures r == FoundLive(old(sessions), token, now)
      ensures sessions == if r.Some? then old(sessions) else old(sessions) - {token}
    {
      if token !in sessions {
        assert sessions - {token} == sessions;
        return None;
      }
      var s := sessions[token];
      if now > s.expiresAt {
        sessions := sessions - {token};
        return None;
      }
      r := Some(s);
    }

    /** sessionTable.deleteByDrop. */
    method DeleteByDrop(drop: nat)
      modifies this`sessions
      ensures sessions == WithoutDrop(old(sessions), drop)
    {
      var todo := sessions.Keys;
      while todo != {}
        invariant todo <= old(sessions).Keys
        invariant sessions == map t | t in old(sessions) && (t in todo || old(sessions)[t].drop != drop)
                                :: old(sessions)[t]
        decreases todo
      {
        var token :| token in todo;
        if sessions[token].drop == drop { sessions := sessions - {token}; }
        todo := todo - {token};
      }
    }

    /** sessionTable.sweep: drops the expired sessions and says how many they were. */
    method SweepSessions(now: int) returns (n: nat)
      modifies this`sessions
      ensures sessions == Unexpired(old(sessions), now)
      ensures n == |old(sessions)| - |sessions|
    {
      var todo := sessions.Keys;
      n := 0;
      while todo != {}
        invariant todo <= old(sessions).Keys
        invariant sessions == map t | t in old(sessions) && (t in todo || now <= old(sessions)[t].expiresAt)
                                :: old(sessions)[t]
        invariant n + |sessions| == |old(sessions)|
        decreases todo
      {
        var token :| token in todo;
        if now > sessions[token].expiresAt {
          ghost var before := sessions.Keys;
          sessions := sessions - {token};
          assert sessions.Keys == before - {token};
          n := n + 1;
        }
        todo := todo - {token};
      }
    }

    /** ticketTable.sweep. */
    method SweepTickets(now: int) returns (n: nat)
      modifies this`tickets
      ensures tickets == UnexpiredTickets(old(tickets), now)
      ensures n == |old(tickets)| - |tickets|
    {
      var todo := tickets.Keys;
      n := 0;
      while todo != {}
        invariant todo <= old(tickets).Keys
        invariant tickets == map t | t in old(tickets) && (t in todo || now <= old(tickets)[t].expiresAt)
                               :: old(tickets)[t]
        invariant n + |tickets| == |old(tickets)|
        decreases todo
      {
        var id :| id in todo;
        if now > tickets[id].expiresAt {
          ghost var before := tickets.Keys;
          tickets := tickets - {id};
          assert tickets.Keys == before - {id};
          n := n + 1;
        }
        todo := todo - {id};
      }
    }

    /** The loop of a pass: removes the listed rows and every session of theirs. */
    method RemoveAll(due: set<nat>) returns (n: nat)
      modifies this`drops, this`sessions
      ensures drops == old(drops) - due && n == |due|
      ensures sessions == WithoutDrops(old(sessions), due)
    {
      var todo := due;
      n := 0;
      assert old(sessions) == WithoutDrops(old(sessions), due - todo);
      while todo != {}
        invariant todo <= due && n + |todo| == |due|
        invariant drops == old(drops) - (due - todo)
        invariant sessions == WithoutDrops(old(sessions), due - todo)
        decreases todo
      {
        var d :| d in todo;
        DeleteByDrop(d);
        drops := drops - {d};
        WithoutOneMore(old(sessions), due - todo, d);
        assert due - (todo - {d}) == (due - todo) + {d};
        n := n + 1;
        todo := todo - {d};
      }
      assert due - todo == due;
    }

    /**
     One sweep pass with nothing running beside it: exactly the due rows go, none of them blocked,
     and with them every session of theirs and every expired session and ticket.
     */
    method Sweep(now: int, uploadTtl: nat) returns (dropsDeleted: nat, sessionsExpired: nat, ticketsExpired: nat)
      modifies this
      ensures drops == old(drops) - Due(old(drops), now, now - uploadTtl)
      ensures dropsDeleted == |Due(old(drops), now, now - uploadTtl)|
      ensures forall d | d in old(drops) && old(drops)[d].blocked :: d in drops && drops[d] == old(drops)[d]
      ensures sessions == WithoutDrops(Unexpired(old(sessions), now), Due(old(drops), now, now - uploadTtl))
      ensures tickets == UnexpiredTickets(old(tickets), now)
      ensures sessionsExpired == |old(sessions)| - |Unexpired(old(sessions), now)|
      ensures ticketsExpired == |old(tickets)| - |tickets|
    {
      sessionsExpired := SweepSessions(now);
      ticketsExpired := SweepTickets(now);
      dropsDeleted := RemoveAll(Due(drops, now, now - uploadTtl));
    }
  }

  /** What claimOnce answers and leaves: nothing for a claimed session, no row, or one download taken. */
  function Claimed(drops: map<nat, Drop>, claimed: set<nat>, session: Session, now: int, rereadFails: bool)
    : (bool, map<nat, Drop>, set<nat>)
  {
    if session.id in claimed then (true, drops, claimed)
    else if session.drop !in drops || !Live(drops[session.drop], now) then (false, drops, claimed)
    else
      var taken := drops[session.drop := drops[session.drop].(downloads := drops[session.drop].downloads + 1)];
      if rereadFails then (false, taken, claimed) else (true, taken, claimed + {session.id})
  }

  /** From inside claimOnce, run without a break: the UPDATE, and the re-read if it found its row. */
  function InnerState(s: State, rid: nat, rereadFails: bool): State
    requires At(s, rid) && s.requests[rid].Claiming? && !s.requests[rid].updated
  {
    var updated := Apply(s, ClaimUpdate(rid));
    if Claimable(s, s.requests[rid].session.drop) then Apply(updated, ClaimReread(rid, !rereadFails)) else updated
  }

  /** All steps of one request through claimOnce, run without a break. */
  function ClaimState(s: State, rid: nat, rereadFails: bool): State
    requires At(s, rid) && s.requests[rid].Got? && s.mutex.None?
  {
    var entered := Apply(s, ClaimEnter(rid));
    if s.requests[rid].session.id in s.claimed then entered else InnerState(entered, rid, rereadFails)
  }

  lemma EnteringClaims(s: State, rid: nat)
    requires At(s, rid) && s.requests[rid].Got? && s.mutex.None?
    ensures var session, s' := s.requests[rid].session, Apply(s, ClaimEnter(rid));
            && s'.drops == s.drops && s'.claimed == s.claimed && s'.now == s.now && At(s', rid)
            && (if session.id in s.claimed then s'.mutex.None? && s'.requests[rid] == Cleared(session)
                else s'.mutex == Some(rid) && s'.requests[rid] == Claiming(session, false))
  {
  }

  lemma InnerStepsClaim(s: State, rid: nat, session: Session, rereadFails: bool)
    requires At(s, rid) && s.requests[rid] == Claiming(session, false) && session.id !in s.claimed
    ensures var s' := InnerState(s, rid, rereadFails);
            && s'.mutex.None?
            && (At(s', rid), s'.drops, s'.claimed) == Claimed(s.drops, s.claimed, session, s.now, rereadFails)
            && (At(s', rid) ==> s'.requests[rid] == Cleared(session))
  {
  }

  /** The steps release the mutex and come to what the method does: the request goes on exactly if it may. */
  lemma ClaimStepsAreClaimOnce(s: State, rid: nat, rereadFails: bool)
    requires At(s, rid) && s.requests[rid].Got? && s.mutex.None?
    ensures var session, s' := s.requests[rid].session, ClaimState(s, rid, rereadFails);
            && s'.mutex.None?
            && (At(s', rid), s'.drops, s'.claimed) == Claimed(s.drops, s.claimed, session, s.now, rereadFails)
            && (At(s', rid) ==> s'.requests[rid] == Cleared(session))
  {
    EnteringClaims(s, rid);
    var session := s.requests[rid].session;
    if session.id !in s.claimed { InnerStepsClaim(Apply(s, ClaimEnter(rid)), rid, session, rereadFails); }
  }

  /** The sessions of other drops. */
  function WithoutDrops(sessions: map<nat, Session>, gone: set<nat>): map<nat, Session> {
    map t | t in sessions && sessions[t].drop !in gone :: sessions[t]
  }

  lemma WithoutOneMore(sessions: map<nat, Session>, gone: set<nat>, d: nat)
    ensures WithoutDrop(WithoutDrops(sessions, gone), d) == WithoutDrops(sessions, gone + {d})
  {
  }

  // ---------------------------------------------------------------- a sweep among other requests

  /** What a sweeping request still has on its list. */
  function Listed(r: Request): set<nat> {
    match r
    case Sweeping(todo) => todo
    case SweepRemoving(drop, todo) => todo + {drop}
    case _ => {}
  }

  /** The request is at the point of its pass where it lists d: unblocked, and due since the pass began. */
  predicate ListsDue(s: State, rid: nat, d: nat) {
    && At(s, rid) && s.requests[rid].Listing? && s.requests[rid].at <= s.now
    && d in s.drops && Reapable(s.drops[d], s.requests[rid].at, s.requests[rid].at - s.uploadTtl)
  }

  /** The request listed d in its step i of the run, and has been at that list ever since. */
  ghost predicate ListedAt(states: seq<State>, steps: seq<Step>, i: nat, j: nat, rid: nat, d: nat)
    requires |states| == |steps| + 1 && i < j < |states|
  {
    && steps[i] == SweepList(rid) && ListsDue(states[i], rid, d)
    && forall k | i < k <= j :: At(states[k], rid) && d in Listed(states[k].requests[rid])
  }

  /** A drop is on a sweep's list because it was before, or because the list is being made and it is due. */
  lemma ListedBecause(s: State, step: Step, rid: nat, d: nat)
    requires ClocksSound(s) && Enabled(s, step) && At(Apply(s, step), rid) && d in Listed(Apply(s, step).requests[rid])
    ensures || (At(s, rid) && d in Listed(s.requests[rid]))
            || (step == SweepList(rid) && ListsDue(s, rid, d))
  {
    if Actor(step) != Some(rid) {
      OthersUnmoved(s, step, rid);
    } else {
      match step
      case SweepList(_) => assert ClockSound(s, s.requests[rid]);
      case _ =>
    }
  }

  /** No pass began in the future. */
  predicate ClockSound(s: State, r: Request) {
    r.Expiring? || r.ExpiringTickets? || r.Listing? ==> r.at <= s.now
  }

  ghost predicate ClocksSound(s: State) {
    forall rid | At(s, rid) :: ClockSound(s, s.requests[rid])
  }

  lemma StepKeepsClocks(s: State, step: Step)
    requires ClocksSound(s) && Enabled(s, step)
    ensures ClocksSound(Apply(s, step))
  {
    forall rid | At(Apply(s, step), rid) ensures ClockSound(Apply(s, step), Apply(s, step).requests[rid]) {
      if At(s, rid) { assert ClockSound(s, s.requests[rid]); }
      if Actor(step) != Some(rid) { OthersUnmoved(s, step, rid); }
    }
  }

  lemma {:induction false} RunKeepsClocks(states: seq<State>, steps: seq<Step>, j: nat)
    requires Run(states, steps) && Begins(states) && j < |states|
    ensures ClocksSound(states[j]) && states[j].uploadTtl == states[0].uploadTtl
  {
    if j > 0 {
      RunKeepsClocks(states, steps, j - 1);
      StepKeepsClocks(states[j - 1], steps[j - 1]);
    }
  }

  /**
   Whatever a sweep is about to remove was, when that sweep listed it, unblocked and due at the
   moment the pass began: past its expiry, used up, or pending for at least the upload lifetime.
   */
  lemma {:induction false} SweptWasDue(states: seq<State>, steps: seq<Step>, j: nat, rid: nat, d: nat)
    requires Run(states, steps) && Begins(states) && j < |states|
    requires At(states[j], rid) && d in Listed(states[j].requests[rid])
    ensures exists i: nat :: i < j && ListedAt(states, steps, i, j, rid, d)
  {
    var s, step := states[j - 1], steps[j - 1];
    RunKeepsClocks(states, steps, j - 1);
    ListedBecause(s, step, rid, d);
    if At(s, rid) && d in Listed(s.requests[rid]) {
      SweptWasDue(states, steps, j - 1, rid, d);
      var i: nat :| i < j - 1 && ListedAt(states, steps, i, j - 1, rid, d);
      assert ListedAt(states, steps, i, j, rid, d);
    } else {
      assert ListedAt(states, steps, j - 1, j, rid, d);
    }
  }

  /**
   A pending upload on the list is over, if its retention and lifetime are such that it becomes due
   just then; SweptWhileAlive is a run in which they are not.
   */
  lemma ListedUploadIsOver(s: State, rid: nat, d: nat, created: int)
    requires ListsDue(s, rid, d) && PendingSince(s.drops[d], created)
    requires EndsTogether(created, s.uploadTtl, s.drops[d].expiresAt)
    ensures !UploadSessionAlive(created, s.uploadTtl, s.requests[rid].at)
  {
    PendingDueIffExpired(s.drops[d], created, s.uploadTtl);
  }

  // ---------------------------------------------------------------- when a blocked share survives

  /** The request is on its way to delete the row of d. */
  predicate Threatens(r: Request, d: nat) {
    d in Listed(r) || ((r.Deleting? || r.Removing?) && r.drop == d)
  }

  ghost predicate Threatened(s: State, d: nat) {
    exists rid :: At(s, rid) && Threatens(s.requests[rid], d)
  }

  /** Steps that neither unblock d nor begin a deletion somebody asked for. */
  predicate Spares(step: Step, d: nat) {
    step != Unblock(d) && !(step.DeleteFind? && step.drop == d)
  }

  /** A row leaves the table only in the deleting step of a sweep or of a delete request. */
  lemma RowLeavesOnlySo(s: State, step: Step, d: nat)
    requires Enabled(s, step) && d in s.drops
    ensures d !in Apply(s, step).drops <==> (step.SweepRow? || step.DeleteRow?) && s.requests[step.rid].drop == d
  {
  }

  /** No step threatens a blocked share anew. */
  lemma NoNewThreat(s: State, step: Step, d: nat, rid: nat)
    requires Enabled(s, step) && Spares(step, d) && d in s.drops && s.drops[d].blocked
    requires At(Apply(s, step), rid) && Threatens(Apply(s, step).requests[rid], d)
    ensures At(s, rid) && Threatens(s.requests[rid], d)
  {
    if Actor(step) != Some(rid) {
      OthersUnmoved(s, step, rid);
    }
  }

  lemma StepKeepsBlocked(s: State, step: Step, d: nat)
    requires Enabled(s, step) && Spares(step, d) && d in s.used
    requires d in s.drops && s.drops[d].blocked && !Threatened(s, d)
    ensures var s' := Apply(s, step); d in s'.used && d in s'.drops && s'.drops[d].blocked && !Threatened(s', d)
  {
    var s' := Apply(s, step);
    RowLeavesOnlySo(s, step, d);
    if Threatened(s', d) {
      var rid :| At(s', rid) && Threatens(s'.requests[rid], d);
      NoNewThreat(s, step, d, rid);
      assert false;
    }
  }

  /** A run from s that spares d. */
  ghost predicate Continues(s: State, states: seq<State>, steps: seq<Step>, d: nat) {
    && Run(states, steps) && states[0] == s
    && forall k | 0 <= k < |steps| :: Spares(steps[k], d)
  }

  lemma {:induction false} BlockedStays(s: State, states: seq<State>, steps: seq<Step>, d: nat, j: nat)
    requires Continues(s, states, steps, d) && j < |states| && d in s.used
    requires d in s.drops && s.drops[d].blocked && !Threatened(s, d)
    ensures var s' := states[j]; d in s'.used && d in s'.drops && s'.drops[d].blocked && !Threatened(s', d)
  {
    if j > 0 {
      BlockedStays(s, states, steps, d, j - 1);
      StepKeepsBlocked(states[j - 1], steps[j - 1], d);
    }
  }

  /** How many steps the deletion is away, waiting for the mutex included. */
  function StepsLeft(s: State, rid: nat, d: nat): nat
    requires At(s, rid)
  {
    match s.requests[rid]
    case Removing(_) => 1
    case SweepRemoving(drop, _) => if drop == d then 1 else 5
    case _ => 2 + if s.mutex.None? then 0
                  else if At(s, s.mutex.value) && s.requests[s.mutex.value].Claiming?
                          && !s.requests[s.mutex.value].updated then 2 else 1
  }

  /** The next step towards the deletion. */
  function StepTowards(s: State, rid: nat, d: nat): Step
    requires MutexSound(s) && At(s, rid) && Threatens(s.requests[rid], d)
  {
    match s.requests[rid]
    case Removing(_) => DeleteRow(rid)
    case SweepRemoving(drop, _) => if drop == d then SweepRow(rid) else SweepSkip(rid)
    case r =>
      if s.mutex.None? then (if r.Deleting? then DeleteCut(rid) else SweepCut(rid, d))
      else if s.requests[s.mutex.value].updated then ClaimReread(s.mutex.value, false)
      else ClaimUpdate(s.mutex.value)
  }

  /** The threat to d is gone, carried out, or fewer steps away. */
  predicate Nearer(s: State, s': State, rid: nat, d: nat)
    requires At(s, rid)
  {
    d in s'.drops ==> At(s', rid) && Threatens(s'.requests[rid], d) && StepsLeft(s', rid, d) < StepsLeft(s, rid, d)
  }

  lemma StepGetsNearer(s: State, rid: nat, d: nat)
    requires MutexSound(s) && At(s, rid) && Threatens(s.requests[rid], d) && d in s.drops
    ensures var step := StepTowards(s, rid, d);
            Enabled(s, step) && Spares(step, d) && Nearer(s, Apply(s, step), rid, d)
  {
    var step := StepTowards(s, rid, d);
    if step.ClaimUpdate? || step.ClaimReread? {
      HolderLetsGo(s, step);
      OthersUnmoved(s, step, rid);
    } else if s.requests[rid].Removing? || s.requests[rid].SweepRemoving? {
      RemovalGetsNearer(s, rid, d, step);
    } else {
      CutGetsNearer(s, rid, d, step);
    }
  }

  lemma RemovalGetsNearer(s: State, rid: nat, d: nat, step: Step)
    requires At(s, rid) && Threatens(s.requests[rid], d) && d in s.drops && MutexSound(s)
    requires s.requests[rid].Removing? || s.requests[rid].SweepRemoving?
    requires step == StepTowards(s, rid, d)
    ensures Enabled(s, step) && Spares(step, d) && Nearer(s, Apply(s, step), rid, d)
  {
  }

  lemma CutGetsNearer(s: State, rid: nat, d: nat, step: Step)
    requires At(s, rid) && Threatens(s.requests[rid], d) && d in s.drops && s.mutex.None? && MutexSound(s)
    requires s.requests[rid].Deleting? || s.requests[rid].Sweeping?
    requires step == StepTowards(s, rid, d)
    ensures Enabled(s, step) && Spares(step, d) && Nearer(s, Apply(s, step), rid, d)
  {
  }

  /** The holder of the mutex gets nearer to releasing it. */
  lemma HolderLetsGo(s: State, step: Step)
    requires MutexSound(s) && s.mutex.Some? && Enabled(s, step)
    requires step == ClaimUpdate(s.mutex.value) || step == ClaimReread(s.mutex.value, false)
    ensures var s' := Apply(s, step);
            && s'.drops.Keys == s.drops.Keys
            && (s'.mutex.None? || (step.ClaimUpdate? && s'.mutex == s.mutex && At(s', s.mutex.value)
                                   && s'.requests[s.mutex.value].Claiming? && s'.requests[s.mutex.value].updated))
  {
  }

  /** Whoever is on the way to delete d can go on to do so. */
  lemma {:induction false} ThreatCarriedOut(s: State, rid: nat, d: nat) returns (states: seq<State>, steps: seq<Step>)
    requires MutexSound(s) && At(s, rid) && Threatens(s.requests[rid], d) && d in s.drops
    ensures Continues(s, states, steps, d) && d !in states[|steps|].drops
    decreases StepsLeft(s, rid, d)
  {
    var step := StepTowards(s, rid, d);
    StepGetsNearer(s, rid, d);
    StepKeepsMutex(s, step);
    var s' := Apply(s, step);
    if d in s'.drops {
      var rest, more := ThreatCarriedOut(s', rid, d);
      states, steps := [s] + rest, [step] + more;
    } else {
      states, steps := [s, s'], [step];
    }
  }

  /**
   A blocked share is certain to stay, while nobody unblocks it or asks for its deletion, exactly
   when no sweep had listed it and no delete had found it before it was blocked.
   */
  lemma BlockedSurvivesIff(s: State, d: nat)
    requires MutexSound(s) && d in s.used && d in s.drops && s.drops[d].blocked
    ensures (forall states: seq<State>, steps: seq<Step> ::
               Continues(s, states, steps, d) ==> d in states[|steps|].drops)
            <==> !Threatened(s, d)
  {
    if Threatened(s, d) {
      var rid :| At(s, rid) && Threatens(s.requests[rid], d);
      var states, steps := ThreatCarriedOut(s, rid, d);
      assert Continues(s, states, steps, d);
    } else {
      forall states: seq<State>, steps: seq<Step> | Continues(s, states, steps, d) ensures d in states[|steps|].drops {
        BlockedStays(s, states, steps, d, |steps|);
      }
    }
  }

  // ---------------------------------------------------------------- two runs

  const Day: int := 86_400 * Second

  /** A share kept for one day, with one download. */
  const Row := Drop(Pending, 0, 86_400, 1, 0, false)
  const Shared := Row.(status := Ready)
  const Reported := Shared.(blocked := true)

  /** The states of a small run, which differ only in the time, the row and the requests. */
  function RaceState(ttl: nat, now: int, drops: map<nat, Drop>, requests: map<nat, Request>): State {
    State(now, ttl, drops, map[], map[], {}, None, requests, {7}, map[], map[])
  }

  predicate Becomes(s: State, step: Step, s': State) {
    Enabled(s, step) && Apply(s, step) == s'
  }

  lemma RaceStarts(ttl: nat)
    ensures Becomes(Initial(0, ttl), Create(7, Row), RaceState(ttl, 0, map[7 := Row], map[]))
    ensures Becomes(RaceState(ttl, 0, map[7 := Row], map[]), Publish(7), RaceState(ttl, 0, map[7 := Shared], map[]))
    ensures forall row: Drop ::
              Becomes(RaceState(ttl, 0, map[7 := row], map[]), Tick(Day), RaceState(ttl, Day, map[7 := row], map[]))
  {
  }

  lemma RaceExpires(ttl: nat, row: Drop)
    ensures var s := RaceState(ttl, Day, map[7 := row], map[]);
            && Becomes(s, SweepStart(1), s.(requests := map[1 := Expiring(Day)]))
            && Becomes(s.(requests := map[1 := Expiring(Day)]), SweepSessions(1),
                       s.(requests := map[1 := ExpiringTickets(Day)]))
  {
    assert Unexpired(map[], Day) == map[];
  }

  lemma RaceLists(ttl: nat, row: Drop)
    requires Reapable(row, Day, Day - ttl)
    ensures var s := RaceState(ttl, Day, map[7 := row], map[]);
            && Becomes(s.(requests := map[1 := ExpiringTickets(Day)]), SweepTickets(1),
                       s.(requests := map[1 := Listing(Day)]))
            && Becomes(s.(requests := map[1 := Listing(Day)]), SweepList(1), s.(requests := map[1 := Sweeping({7})]))
  {
    assert UnexpiredTickets(map[], Day) == map[];
    assert Due(map[7 := row], Day, Day - ttl) == {7};
  }

  lemma RaceBlocks(ttl: nat)
    ensures var s := RaceState(ttl, Day, map[7 := Shared], map[1 := Sweeping({7})]);
            && Becomes(s, ReportFind(2, 7), s.(requests := map[1 := Sweeping({7}), 2 := Reporting(7)]))
            && Becomes(s.(requests := map[1 := Sweeping({7}), 2 := Reporting(7)]), ReportBlock(2),
                       RaceState(ttl, Day, map[7 := Reported], map[1 := Sweeping({7}), 2 := Blocking(7)]))
  {
  }

  /** Whoever else is on, the sweep cuts and removes what is on its list. */
  lemma RaceCuts(ttl: nat, row: Drop, others: map<nat, Request>)
    requires 1 !in others
    ensures var s := RaceState(ttl, Day, map[7 := row], others[1 := Sweeping({7})]);
            Becomes(s, SweepCut(1, 7), s.(requests := others[1 := SweepRemoving(7, {})]))
  {
    assert {7} - {7} == {};
    assert WithoutDrop(map[], 7) == map[];
    assert others[1 := Sweeping({7})][1 := SweepRemoving(7, {})] == others[1 := SweepRemoving(7, {})];
  }

  lemma RaceSweeps(ttl: nat, row: Drop, others: map<nat, Request>)
    requires 1 !in others
    ensures var s := RaceState(ttl, Day, map[7 := row], others[1 := SweepRemoving(7, {})]);
            Becomes(s, SweepRow(1), RaceState(ttl, Day, map[], others[1 := Sweeping({})]))
  {
    assert map[7 := row] - {7} == map[];
    assert others[1 := SweepRemoving(7, {})][1 := Sweeping({})] == others[1 := Sweeping({})];
  }

  /** A run from an empty service that ends in s. */
  ghost predicate LeadsTo(states: seq<State>, steps: seq<Step>, s: State) {
    Run(states, steps) && Begins(states) && states[|steps|] == s
  }

  lemma GoOn(states: seq<State>, steps: seq<Step>, s: State, step: Step, s': State)
    returns (states': seq<State>, steps': seq<Step>)
    requires LeadsTo(states, steps, s) && Becomes(s, step, s')
    ensures LeadsTo(states', steps', s') && states' == states + [s'] && states'[0] == states[0]
  {
    states', steps' := states + [s'], steps + [step];
  }

  /** One sweep up to its list, if the row is due after a day. */
  lemma RaceToTheList(ttl: nat, row: Drop, states0: seq<State>, steps0: seq<Step>)
    returns (states: seq<State>, steps: seq<Step>)
    requires LeadsTo(states0, steps0, RaceState(ttl, 0, map[7 := row], map[])) && Reapable(row, Day, Day - ttl)
    ensures LeadsTo(states, steps, RaceState(ttl, Day, map[7 := row], map[1 := Sweeping({7})]))
    ensures states[0] == states0[0]
  {
    RaceStarts(ttl);
    RaceExpires(ttl, row);
    RaceLists(ttl, row);
    var s := RaceState(ttl, Day, map[7 := row], map[]);
    states, steps := GoOn(states0, steps0, RaceState(ttl, 0, map[7 := row], map[]), Tick(Day), s);
    states, steps := GoOn(states, steps, s, SweepStart(1), s.(requests := map[1 := Expiring(Day)]));
    states, steps := GoOn(states, steps, s.(requests := map[1 := Expiring(Day)]), SweepSessions(1),
                          s.(requests := map[1 := ExpiringTickets(Day)]));
    states, steps := GoOn(states, steps, s.(requests := map[1 := ExpiringTickets(Day)]), SweepTickets(1),
                          s.(requests := map[1 := Listing(Day)]));
    states, steps := GoOn(states, steps, s.(requests := map[1 := Listing(Day)]), SweepList(1),
                          s.(requests := map[1 := Sweeping({7})]));
  }

  lemma RaceCreates(ttl: nat) returns (states: seq<State>, steps: seq<Step>)
    ensures LeadsTo(states, steps, RaceState(ttl, 0, map[7 := Row], map[])) && states[0] == Initial(0, ttl)
  {
    RaceStarts(ttl);
    states, steps := GoOn([Initial(0, ttl)], [], Initial(0, ttl), Create(7, Row),
                          RaceState(ttl, 0, map[7 := Row], map[]));
  }

  lemma RaceToTheBlock() returns (states: seq<State>, steps: seq<Step>)
    ensures LeadsTo(states, steps, RaceState(Day, Day, map[7 := Reported], map[1 := Sweeping({7}), 2 := Blocking(7)]))
  {
    RaceStarts(Day);
    RaceBlocks(Day);
    var listed := RaceState(Day, Day, map[7 := Shared], map[1 := Sweeping({7})]);
    var found := RaceState(Day, Day, map[7 := Shared], map[1 := Sweeping({7}), 2 := Reporting(7)]);
    states, steps := RaceCreates(Day);
    states, steps := GoOn(states, steps, RaceState(Day, 0, map[7 := Row], map[]), Publish(7),
                          RaceState(Day, 0, map[7 := Shared], map[]));
    states, steps := RaceToTheList(Day, Shared, states, steps);
    states, steps := GoOn(states, steps, listed, ReportFind(2, 7), found);
    states, steps := GoOn(states, steps, found, ReportBlock(2),
                          RaceState(Day, Day, map[7 := Reported], map[1 := Sweeping({7}), 2 := Blocking(7)]));
  }

  /** A share that expires is listed by a sweep, reported, blocked, and then swept all the same. */
  lemma BlockedShareCanBeSwept() returns (states: seq<State>, steps: seq<Step>)
    ensures Run(states, steps) && Begins(states) && |steps| > 0
    ensures var s := states[|steps| - 1]; 7 in s.drops && s.drops[7].blocked && 7 !in states[|steps|].drops
  {
    var others := map[2 := Blocking(7)];
    RaceCuts(Day, Reported, others);
    RaceSweeps(Day, Reported, others);
    var blocked := RaceState(Day, Day, map[7 := Reported], others[1 := Sweeping({7})]);
    assert map[1 := Sweeping({7}), 2 := Blocking(7)] == others[1 := Sweeping({7})];
    var cut := RaceState(Day, Day, map[7 := Reported], others[1 := SweepRemoving(7, {})]);
    states, steps := RaceToTheBlock();
    states, steps := GoOn(states, steps, blocked, SweepCut(1, 7), cut);
    states, steps := GoOn(states, steps, cut, SweepRow(1), RaceState(Day, Day, map[], others[1 := Sweeping({})]));
  }

  /** An upload whose session lives for two days is swept after one, because the share is kept no longer. */
  lemma SweptWhileAlive() returns (states: seq<State>, steps: seq<Step>)
    ensures Run(states, steps) && Begins(states) && |steps| > 0 && states[0].uploadTtl == 2 * Day
    ensures var s := states[|steps| - 1];
            && 7 in s.drops && PendingSince(s.drops[7], 0) && 7 !in states[|steps|].drops
            && UploadSessionAlive(0, 2 * Day, states[|steps|].now)
  {
    var ttl := 2 * Day;
    var none: map<nat, Request> := map[];
    RaceCuts(ttl, Row, none);
    RaceSweeps(ttl, Row, none);
    var listed := RaceState(ttl, Day, map[7 := Row], none[1 := Sweeping({7})]);
    assert map[1 := Sweeping({7})] == none[1 := Sweeping({7})];
    var cut := RaceState(ttl, Day, map[7 := Row], none[1 := SweepRemoving(7, {})]);
    states, steps := RaceCreates(ttl);
    states, steps := RaceToTheList(ttl, Row, states, steps);
    states, steps := GoOn(states, steps, listed, SweepCut(1, 7), cut);
    states, steps := GoOn(states, steps, cut, SweepRow(1), RaceState(ttl, Day, map[], none[1 := Sweeping({})]));
    assert UploadSessionAlive(0, 2 * Day, Day) by {
      WholeSeconds(0, 172_800);
      WholeSeconds(0, 86_400);
    }
  }
}
