/**
 What requests can always do: go on, or wait for one that can; look up what is live and nothing else; and
 never begin to read a drop that was deleted.
 */
module Progress {
  import opened Bytes
  import opened Lifecycle
  import opened Sweeping

  // ---------------------------------------------------------------- nobody is stuck

  /** The request can make a step. */
  ghost predicate CanStep(s: State, rid: nat) {
    exists step :: Actor(step) == Some(rid) && Enabled(s, step)
  }

  /** There is always a number not yet used. */
  lemma {:induction false} NewNumber(used: set<nat>) returns (n: nat)
    ensures n !in used && forall i | i in used :: i < n
    decreases used
  {
    if used == {} {
      n := 0;
    } else {
      var i :| i in used;
      var m := NewNumber(used - {i});
      n := if i < m then m else i + 1;
      assert forall x | x in used :: x == i || x in used - {i};
    }
  }

  lemma UnlockingGoesOn(s: State, rid: nat)
    requires At(s, rid) && s.requests[rid].Unlocking? && s.mutex.None?
    ensures CanStep(s, rid)
  {
    var token := NewNumber(s.table.Keys);
    var sid := NewNumber(s.born.Keys);
    var step := UnlockPut(rid, token, sid, 0);
    assert Actor(step) == Some(rid) && Enabled(s, step);
  }

  /** The next step of a request that need not wait. */
  lemma NextStep(s: State, rid: nat) returns (step: Step)
    requires At(s, rid) && !s.requests[rid].Unlocking? && (s.mutex.None? || s.mutex == Some(rid))
    requires MutexSound(s)
    ensures Actor(step) == Some(rid) && Enabled(s, step)
  {
    match s.requests[rid]
    case Got(_) => step := ClaimEnter(rid);
    case Claiming(_, updated) => step := if updated then ClaimReread(rid, false) else ClaimUpdate(rid);
    case Cleared(_) => step := OpenBlob(rid);
    case Reading(_) => step := Finish(rid);
    case Reporting(_) => step := ReportBlock(rid);
    case Blocking(_) => step := ReportCut(rid);
    case Deleting(_) => step := DeleteCut(rid);
    case Removing(_) => step := DeleteRow(rid);
    case Expiring(_) => step := SweepSessions(rid);
    case ExpiringTickets(_) => step := SweepTickets(rid);
    case Listing(_) => step := SweepList(rid);
    case Sweeping(todo) =>
      if todo == {} {
        step := Finish(rid);
      } else {
        var d :| d in todo;
        step := SweepCut(rid, d);
      }
    case SweepRemoving(_, _) => step := SweepRow(rid);
  }

  lemma GoesOn(s: State, rid: nat)
    requires MutexSound(s) && At(s, rid) && (s.mutex.None? || s.mutex == Some(rid))
    ensures CanStep(s, rid)
  {
    if s.requests[rid].Unlocking? {
      UnlockingGoesOn(s, rid);
    } else {
      var step := NextStep(s, rid);
    }
  }

  /**
   Under every interleaving nobody is stuck: every request can make a step, or waits for the session mutex,
   and then the request that holds it can.
   */
  lemma NobodyIsStuck(states: seq<State>, steps: seq<Step>, j: nat, rid: nat)
    requires Run(states, steps) && Begins(states) && j < |states| && At(states[j], rid)
    ensures || CanStep(states[j], rid)
            || (states[j].mutex.Some? && At(states[j], states[j].mutex.value)
                && CanStep(states[j], states[j].mutex.value))
  {
    DownloadsAccounted(states, steps, j);
    var s := states[j];
    GoesOn(s, if s.mutex.Some? then s.mutex.value else rid);
  }

  /** The step takes the mutex of the session table, reads or changes it. */
  predicate NeedsMutex(step: Step) {
    || step.UnlockPut? || step.LockToken? || step.IssueTicket? || step.Lookup? || step.ClaimEnter?
    || step.ReportCut? || step.DeleteCut? || step.SweepSessions? || step.SweepCut?
  }

  /** While a request is inside claimOnce, no other comes to the session table or to what is claimed. */
  lemma MutexProtects(s: State, step: Step)
    requires MutexSound(s) && s.mutex.Some? && Enabled(s, step)
    ensures !NeedsMutex(step)
    ensures Apply(s, step).table == s.table
    ensures Actor(step) != s.mutex ==> Apply(s, step).claimed == s.claimed && Apply(s, step).mutex == s.mutex
  {
  }

  // ---------------------------------------------------------------- whoever may read can

  /** The states that steps lead through, one after the other. */
  ghost predicate Leads(s: State, steps: seq<Step>, s': State)
    decreases |steps|
  {
    if steps == [] then s == s' else Enabled(s, steps[0]) && Leads(Apply(s, steps[0]), steps[1..], s')
  }

  lemma LeadsOn(s: State, step: Step, steps: seq<Step>, s': State)
    requires Enabled(s, step) && Leads(Apply(s, step), steps, s')
    ensures Leads(s, [step] + steps, s')
  {
    assert ([step] + steps)[1..] == steps;
  }

  /** A published drop that has neither expired nor been used up or blocked, by the clock of the machine. */
  predicate Available(s: State, d: nat) {
    && d in s.drops && s.drops[d].status.Ready? && !s.drops[d].blocked
    && s.now < s.drops[d].expiresAt * 1_000_000_000 && s.drops[d].downloads < s.drops[d].maxDownloads
  }

  lemma AvailableIsLive(s: State, d: nat)
    ensures Available(s, d) <==> d in s.drops && Live(s.drops[d], s.now)
  {
  }

  /** From a looked-up session through the claim to a reader. */
  lemma ClaimAndRead(s: State, rid: nat, session: Session) returns (steps: seq<Step>, s': State)
    requires At(s, rid) && s.requests[rid] == Got(session) && s.mutex.None?
    requires Available(s, session.drop) && session.id !in s.claimed
    ensures Leads(s, steps, s') && s'.requests == s.requests[rid := Reading(session)] && s'.mutex.None?
    ensures s'.drops == s.drops[session.drop :=
              s.drops[session.drop].(downloads := s.drops[session.drop].downloads + 1)]
  {
    AvailableIsLive(s, session.drop);
    var s1 := Apply(s, ClaimEnter(rid));
    var s2 := Apply(s1, ClaimUpdate(rid));
    var s3 := Apply(s2, ClaimReread(rid, true));
    s' := Apply(s3, OpenBlob(rid));
    LeadsOn(s3, OpenBlob(rid), [], s');
    LeadsOn(s2, ClaimReread(rid, true), [OpenBlob(rid)], s');
    LeadsOn(s1, ClaimUpdate(rid), [ClaimReread(rid, true)] + [OpenBlob(rid)], s');
    steps := [ClaimEnter(rid)] + ([ClaimUpdate(rid)] + ([ClaimReread(rid, true)] + [OpenBlob(rid)]));
    LeadsOn(s, ClaimEnter(rid), [ClaimUpdate(rid)] + ([ClaimReread(rid, true)] + [OpenBlob(rid)]), s');
  }

  /** From nothing to a session just looked up. */
  lemma UnlockAndLookUp(s: State, rid: nat, d: nat) returns (steps: seq<Step>, session: Session, s': State)
    requires !At(s, rid) && s.mutex.None? && Available(s, d)
    ensures |steps| == 3 && session.drop == d && session.id !in s.born
    ensures Leads(s, steps, s') && s'.requests == s.requests[rid := Got(session)]
    ensures s'.mutex.None? && s'.drops == s.drops && s'.now == s.now && s'.claimed == s.claimed
  {
    AvailableIsLive(s, d);
    var token := NewNumber(s.table.Keys);
    var sid := NewNumber(s.born.Keys);
    session := Session(sid, d, s.now);
    var put := UnlockPut(rid, token, sid, s.now);
    var s1 := Apply(s, UnlockFind(rid, d));
    var s2 := Apply(s1, put);
    s' := Apply(s2, Lookup(rid, token));
    LeadsOn(s2, Lookup(rid, token), [], s');
    LeadsOn(s1, put, [Lookup(rid, token)], s');
    steps := [UnlockFind(rid, d)] + ([put] + [Lookup(rid, token)]);
    LeadsOn(s, UnlockFind(rid, d), [put] + [Lookup(rid, token)], s');
  }

  lemma {:induction false} LeadsJoin(s: State, steps: seq<Step>, s': State, more: seq<Step>, s'': State)
    requires Leads(s, steps, s') && Leads(s', more, s'')
    ensures Leads(s, steps + more, s'')
    decreases |steps|
  {
    if steps == [] {
      assert steps + more == more;
    } else {
      assert (steps + more)[1..] == steps[1..] + more;
      LeadsJoin(Apply(s, steps[0]), steps[1..], s', more, s'');
    }
  }

  /**
   Whenever the session mutex is free, a new request can unlock and read every available drop, and that
   costs exactly one of its downloads.  Only sessions that were made have claimed, as Inv says.
   */
  lemma AvailableCanBeRead(s: State, rid: nat, d: nat) returns (steps: seq<Step>, s': State)
    requires s.claimed <= s.born.Keys && !At(s, rid) && s.mutex.None? && Available(s, d)
    ensures Leads(s, steps, s') && Reads(s', rid, d)
    ensures s'.drops == s.drops[d := s.drops[d].(downloads := s.drops[d].downloads + 1)]
  {
    var first, session, between := UnlockAndLookUp(s, rid, d);
    assert session.id !in s.claimed;
    var second, end := ClaimAndRead(between, rid, session);
    LeadsJoin(s, first, between, second, end);
    steps, s' := first + second, end;
  }

  // ---------------------------------------------------------------- lookups find what is live

  /** The machine's lookup is that of the tables: a live session, dropping an expired one. */
  lemma LookupFindsLive(s: State, rid: nat, token: nat)
    requires Enabled(s, Lookup(rid, token))
    ensures var found, s' := FoundLive(s.table, token, s.now), Apply(s, Lookup(rid, token));
            && (At(s', rid) <==> found.Some?) && (found.Some? ==> s'.requests[rid] == Got(found.value))
            && s'.table == if found.Some? then s.table else s.table - {token}
  {
  }

  /** Redeeming a ticket drops it exactly if it has expired, so no later redemption tells the difference. */
  lemma RedeemingIsUnseen(s: State, ticket: nat, t: nat, later: int)
    requires s.now <= later
    ensures var s' := Apply(s, Redeem(ticket));
            && FoundLiveTicket(s'.tickets, t, later) == FoundLiveTicket(s.tickets, t, later)
            && (ticket in s'.tickets <==> FoundLiveTicket(s.tickets, ticket, s.now).Some?)
            && (t != ticket ==> (t in s'.tickets <==> t in s.tickets))
  {
  }

  /** A ticket is issued exactly for a live session, and gives its token to whoever redeems it in time. */
  lemma IssuedTicketRedeems(s: State, ticket: nat, token: nat, expiresAt: int, other: nat, later: int)
    requires ticket !in s.tickets && s.mutex.None? && other != ticket
    ensures Enabled(s, IssueTicket(ticket, token, expiresAt)) <==> FoundLive(s.table, token, s.now).Some?
    ensures FoundLive(s.table, token, s.now).Some? ==>
            var tickets := Apply(s, IssueTicket(ticket, token, expiresAt)).tickets;
            && FoundLiveTicket(tickets, ticket, later)
               == (if later <= expiresAt then Some(Ticket(token, expiresAt)) else None)
            && FoundLiveTicket(tickets, other, later) == FoundLiveTicket(s.tickets, other, later)
  {
  }

  // ---------------------------------------------------------------- cutting off

  /** The step drops the sessions of d: a report, a deletion or a sweep does. */
  predicate Cuts(s: State, step: Step, d: nat) {
    match step
    case ReportCut(rid) => At(s, rid) && s.requests[rid] == Blocking(d)
    case DeleteCut(rid) => At(s, rid) && s.requests[rid] == Deleting(d)
    case SweepCut(_, drop) => drop == d
    case _ => false
  }

  /** After it no token leads to the drop; every other session is where it was. */
  lemma CutLeavesOthers(s: State, step: Step, d: nat, t: nat)
    requires Enabled(s, step) && Cuts(s, step, d)
    ensures t in Apply(s, step).table <==> t in s.table && s.table[t].drop != d
    ensures t in Apply(s, step).table ==> Apply(s, step).table[t] == s.table[t]
  {
  }

  /** The row goes only after its sessions were cut by the same request. */
  lemma RowGoesAfterCut(states: seq<State>, steps: seq<Step>, i: nat, d: nat)
    requires Run(states, steps) && Begins(states) && i < |steps| && Removes(states[i], steps[i], d)
    ensures exists k | 0 <= k < i :: Actor(steps[k]) == Actor(steps[i]) && Cuts(states[k], steps[k], d)
  {
    CutBefore(states, steps, i, steps[i].rid, d);
  }

  /** A request about to remove a row has cut its sessions. */
  lemma {:induction false} CutBefore(states: seq<State>, steps: seq<Step>, i: nat, rid: nat, d: nat)
    requires Run(states, steps) && Begins(states) && i < |states| && At(states[i], rid)
    requires var r := states[i].requests[rid]; r == Removing(d) || (r.SweepRemoving? && r.drop == d)
    ensures exists k | 0 <= k < i :: Actor(steps[k]) == Some(rid) && Cuts(states[k], steps[k], d)
  {
    if Actor(steps[i - 1]) != Some(rid) {
      OthersUnmoved(states[i - 1], steps[i - 1], rid);
      CutBefore(states, steps, i - 1, rid, d);
    } else {
      assert Cuts(states[i - 1], steps[i - 1], d);
    }
  }

  // ---------------------------------------------------------------- a sweep with nothing beside it

  /** One row goes, with its sessions. */
  lemma RowIsRemoved(s: State, rid: nat, d: nat, todo: set<nat>) returns (s': State)
    requires At(s, rid) && s.requests[rid] == Lifecycle.Sweeping(todo) && s.mutex.None? && d in todo
    ensures Enabled(s, SweepCut(rid, d)) && Enabled(Apply(s, SweepCut(rid, d)), SweepRow(rid))
    ensures s' == Apply(Apply(s, SweepCut(rid, d)), SweepRow(rid))
    ensures s'.requests == s.requests[rid := Lifecycle.Sweeping(todo - {d})] && s'.mutex.None?
    ensures s'.drops == s.drops - {d} && s'.table == WithoutDrop(s.table, d) && s'.tickets == s.tickets
  {
    s' := Apply(Apply(s, SweepCut(rid, d)), SweepRow(rid));
  }

  /** The listed rows go one after the other. */
  lemma {:induction false} ListedAreRemoved(s: State, rid: nat, todo: set<nat>) returns (steps: seq<Step>, s': State)
    requires At(s, rid) && s.requests[rid] == Lifecycle.Sweeping(todo) && s.mutex.None?
    ensures Leads(s, steps, s') && s'.requests == s.requests - {rid}
    ensures s'.drops == s.drops - todo && s'.table == WithoutDrops(s.table, todo) && s'.tickets == s.tickets
    decreases todo
  {
    if todo == {} {
      s' := Apply(s, Finish(rid));
      LeadsOn(s, Finish(rid), [], s');
      steps := [Finish(rid)];
    } else {
      var d :| d in todo;
      var next := RowIsRemoved(s, rid, d, todo);
      var rest;
      rest, s' := ListedAreRemoved(next, rid, todo - {d});
      LeadsOn(Apply(s, SweepCut(rid, d)), SweepRow(rid), rest, s');
      LeadsOn(s, SweepCut(rid, d), [SweepRow(rid)] + rest, s');
      steps := [SweepCut(rid, d)] + ([SweepRow(rid)] + rest);
      OneRemoved(s.table, d, todo);
    }
  }

  lemma OneRemoved(table: map<nat, Session>, d: nat, todo: set<nat>)
    requires d in todo
    ensures WithoutDrops(WithoutDrop(table, d), todo - {d}) == WithoutDrops(table, todo)
  {
  }

  /** The tables are cleared and the rows listed. */
  lemma SweepBegins(s: State, rid: nat) returns (steps: seq<Step>, s': State)
    requires !At(s, rid) && s.mutex.None?
    ensures Leads(s, steps, s') && s'.mutex.None? && s'.drops == s.drops
    ensures s'.requests == s.requests[rid := Lifecycle.Sweeping(Due(s.drops, s.now, s.now - s.uploadTtl))]
    ensures s'.table == Unexpired(s.table, s.now) && s'.tickets == UnexpiredTickets(s.tickets, s.now)
  {
    var s1 := Apply(s, SweepStart(rid));
    var s2 := Apply(s1, SweepSessions(rid));
    var rest;
    rest, s' := SweepLists(s2, rid, s.now);
    LeadsOn(s1, SweepSessions(rid), rest, s');
    LeadsOn(s, SweepStart(rid), [SweepSessions(rid)] + rest, s');
    steps := [SweepStart(rid)] + ([SweepSessions(rid)] + rest);
  }

  lemma SweepLists(s: State, rid: nat, at: int) returns (steps: seq<Step>, s': State)
    requires At(s, rid) && s.requests[rid] == ExpiringTickets(at)
    ensures Leads(s, steps, s') && s'.mutex == s.mutex && s'.drops == s.drops && s'.table == s.table
    ensures s'.requests == s.requests[rid := Lifecycle.Sweeping(Due(s.drops, at, at - s.uploadTtl))]
    ensures s'.tickets == UnexpiredTickets(s.tickets, at)
  {
    var s1 := Apply(s, SweepTickets(rid));
    s' := Apply(s1, SweepList(rid));
    LeadsOn(s1, SweepList(rid), [], s');
    LeadsOn(s, SweepTickets(rid), [SweepList(rid)], s');
    steps := [SweepTickets(rid)] + [SweepList(rid)];
  }

  /** The steps of a sweep, run without a break, leave the tables just as the method Sweep does. */
  lemma PassStepsAreSweep(s: State, rid: nat) returns (steps: seq<Step>, s': State)
    requires !At(s, rid) && s.mutex.None?
    ensures var due := Due(s.drops, s.now, s.now - s.uploadTtl);
            && Leads(s, steps, s') && s'.requests == s.requests
            && s'.drops == s.drops - due
            && s'.table == WithoutDrops(Unexpired(s.table, s.now), due)
            && s'.tickets == UnexpiredTickets(s.tickets, s.now)
  {
    var first, listed := SweepBegins(s, rid);
    var rest, end := ListedAreRemoved(listed, rid, Due(s.drops, s.now, s.now - s.uploadTtl));
    LeadsJoin(s, first, listed, rest, end);
    assert listed.requests - {rid} == s.requests;
    steps, s' := first + rest, end;
  }

  // ---------------------------------------------------------------- blocking can be undone

  /** Lifting a block restores the row as it was before the report. */
  lemma UnblockRestores(s: State, rid: nat, d: nat)
    requires Enabled(s, ReportBlock(rid)) && s.requests[rid].drop == d && d in s.drops && !s.drops[d].blocked
    ensures Enabled(Apply(s, ReportBlock(rid)), Unblock(d))
    ensures Apply(Apply(s, ReportBlock(rid)), Unblock(d)).drops == s.drops
  {
  }

  /** Under every interleaving a row is blocked only by a report on it. */
  lemma {:induction false} BlockedWasReported(states: seq<State>, steps: seq<Step>, j: nat, d: nat)
    requires Run(states, steps) && Begins(states) && j < |states|
    requires d in states[j].drops && states[j].drops[d].blocked
    ensures exists i | 0 <= i < j :: Blocks(states[i], steps[i], d)
  {
    if !Blocks(states[j - 1], steps[j - 1], d) {
      BlockedBefore(states[j - 1], steps[j - 1], d);
      BlockedWasReported(states, steps, j - 1, d);
    }
  }

  predicate Blocks(s: State, step: Step, d: nat) {
    step.ReportBlock? && At(s, step.rid) && s.requests[step.rid] == Reporting(d)
  }

  lemma BlockedBefore(s: State, step: Step, d: nat)
    requires Enabled(s, step) && !Blocks(s, step, d) && d in Apply(s, step).drops && Apply(s, step).drops[d].blocked
    ensures d in s.drops && s.drops[d].blocked
  {
  }

  // ---------------------------------------------------------------- deleted drops

  /** The row is gone for good: its id was used. */
  predicate Gone(s: State, d: nat) {
    d in s.used && d !in s.drops
  }

  predicate Reads(s: State, rid: nat, d: nat) {
    At(s, rid) && s.requests[rid].Reading? && s.requests[rid].session.drop == d
  }

  lemma StepKeepsGone(s: State, step: Step, d: nat, rid: nat)
    requires Enabled(s, step) && Gone(s, d)
    ensures Gone(Apply(s, step), d) && (Reads(Apply(s, step), rid, d) ==> Reads(s, rid, d))
  {
    if Actor(step) != Some(rid) { OthersUnmoved(s, step, rid); }
  }

  lemma {:induction false} GoneLasts(states: seq<State>, steps: seq<Step>, d: nat, i: nat, j: nat, rid: nat)
    requires Run(states, steps) && i <= j < |states| && Gone(states[i], d)
    ensures Gone(states[j], d)
    ensures Reads(states[j], rid, d) ==> forall k | i <= k <= j :: Reads(states[k], rid, d)
    decreases j
  {
    if i < j {
      GoneLasts(states, steps, d, i, j - 1, rid);
      StepKeepsGone(states[j - 1], steps[j - 1], d, rid);
    }
  }

  /** The step removes the row of d, by deletion or by a sweep. */
  predicate Removes(s: State, step: Step, d: nat) {
    match step
    case DeleteRow(rid) => At(s, rid) && s.requests[rid] == Removing(d)
    case SweepRow(rid) => At(s, rid) && s.requests[rid].SweepRemoving? && s.requests[rid].drop == d
    case _ => false
  }

  /** Under every interleaving: once a row was removed it never comes back, and nobody begins to read it. */
  lemma NoReaderAfterRemoval(states: seq<State>, steps: seq<Step>, d: nat, i: nat, j: nat, rid: nat)
    requires Run(states, steps) && Begins(states) && i < j < |states|
    requires Removes(states[i], steps[i], d)
    ensures d !in states[j].drops
    ensures Reads(states[j], rid, d) ==> forall k | i < k <= j :: Reads(states[k], rid, d)
  {
    DownloadsAccounted(states, steps, i);
    assert RequestKnown(states[i], states[i].requests[steps[i].rid]);
    MemoryGrows(states[i], steps[i]);
    assert Gone(states[i + 1], d);
    GoneLasts(states, steps, d, i + 1, j, rid);
  }
}
