/**
 The life of shares: drop rows, unlocked sessions, download tickets, reports and sweeps, as one
 concurrent machine.  A step is one SQL statement or one mutex-held block; the steps of different
 requests interleave freely.  Row ids, session objects and tokens are fresh.
 */
module Lifecycle {
  import opened Bytes

  const Second: int := 1_000_000_000

  /** time.Time.Unix of a nanosecond clock. */
  function Unix(t: int): int {
    t / Second
  }

  datatype Status = Pending | Ready

  /** A row of drops; times are whole seconds, as stored. */
  datatype Drop = Drop(status: Status, createdAt: int, expiresAt: int, maxDownloads: nat, downloads: nat, blocked: bool)

  /** The WHERE clause LiveDropByKey and ClaimDownload share. */
  predicate Live(d: Drop, now: int) {
    d.status.Ready? && d.expiresAt > Unix(now) && d.downloads < d.maxDownloads && !d.blocked
  }

  /** The WHERE clause of Reapable. */
  predicate Reapable(d: Drop, now: int, pendingCutoff: int) {
    && !d.blocked
    && (|| d.expiresAt <= Unix(now)
        || (d.status.Ready? && d.downloads >= d.maxDownloads)
        || (d.status.Pending? && d.createdAt <= Unix(pendingCutoff)))
  }

  /** A download session object; id is its identity, so holders keep it after it leaves the table. */
  datatype Session = Session(id: nat, drop: nat, expiresAt: int)

  datatype Ticket = Ticket(token: nat, expiresAt: int)

  /** Where a request stands between two of its steps. */
  datatype Request =
    | Unlocking(drop: nat)                     // found live, session not yet inserted
    | Got(session: Session)                    // session looked up, not yet claimed
    | Claiming(session: Session, updated: bool) // inside claimOnce, before or after the UPDATE
    | Cleared(session: Session)                // past claimOnce
    | Reading(session: Session)                // holds a reader over the plaintext
    | Reporting(drop: nat)                     // row found, not yet blocked
    | Blocking(drop: nat)                      // blocked, sessions not yet cut
    | Deleting(drop: nat)                      // row found, sessions not yet cut
    | Removing(drop: nat)                      // sessions cut, row not yet deleted
    | Expiring(at: int)                        // a sweep that began then, tables not yet cleared
    | ExpiringTickets(at: int)                 // expired sessions dropped
    | Listing(at: int)                         // expired tickets dropped too, rows not yet listed
    | Sweeping(todo: set<nat>)                 // reapable rows listed
    | SweepRemoving(drop: nat, todo: set<nat>) // sessions of one of them cut

  /**
   uploadTtl is the configured lifetime of an upload, which never changes.
   used and born remember every row id and session ever made; lost counts, per drop, downloads that
   were taken by the UPDATE whose session was then not marked because the re-read failed.
   */
  datatype State = State(
    now: int,
    uploadTtl: nat,
    drops: map<nat, Drop>,
    table: map<nat, Session>,
    tickets: map<nat, Ticket>,
    claimed: set<nat>,
    mutex: Option<nat>,
    requests: map<nat, Request>,
    used: set<nat>,
    born: map<nat, nat>,
    lost: map<nat, nat>)

  datatype Step =
    | Tick(to: int)
    | Create(drop: nat, row: Drop)
    | Publish(drop: nat)
    | Unblock(drop: nat)
    | UnlockFind(rid: nat, drop: nat)
    | UnlockPut(rid: nat, token: nat, sid: nat, expiresAt: int)
    | LockToken(token: nat)
    | IssueTicket(ticket: nat, token: nat, expiresAt: int)
    | Redeem(ticket: nat)
    | Lookup(rid: nat, token: nat)
    | ClaimEnter(rid: nat)
    | ClaimUpdate(rid: nat)
    | ClaimReread(rid: nat, found: bool)
    | OpenBlob(rid: nat)
    | Finish(rid: nat)
    | ReportFind(rid: nat, drop: nat)
    | ReportBlock(rid: nat)
    | ReportCut(rid: nat)
    | DeleteFind(rid: nat, drop: nat)
    | DeleteCut(rid: nat)
    | DeleteRow(rid: nat)
    | SweepStart(rid: nat)
    | SweepSessions(rid: nat)
    | SweepTickets(rid: nat)
    | SweepList(rid: nat)
    | SweepCut(rid: nat, drop: nat)
    | SweepRow(rid: nat)
    | SweepSkip(rid: nat)

  // ---------------------------------------------------------------- table operations

  /** deleteByDrop. */
  function WithoutDrop(table: map<nat, Session>, drop: nat): map<nat, Session> {
    map t | t in table && table[t].drop != drop :: table[t]
  }

  /** sweep: what is left once the expired entries are dropped. */
  function Unexpired(table: map<nat, Session>, now: int): map<nat, Session> {
    map t | t in table && now <= table[t].expiresAt :: table[t]
  }

  function UnexpiredTickets(tickets: map<nat, Ticket>, now: int): map<nat, Ticket> {
    map t | t in tickets && now <= tickets[t].expiresAt :: tickets[t]
  }

  /** The rows Reapable lists. */
  function Due(drops: map<nat, Drop>, now: int, pendingCutoff: int): set<nat> {
    set d | d in drops && Reapable(drops[d], now, pendingCutoff)
  }

  function LostOf(s: State, drop: nat): nat {
    if drop in s.lost then s.lost[drop] else 0
  }

  // ---------------------------------------------------------------- the steps

  predicate At(s: State, rid: nat) {
    rid in s.requests
  }

  /** Readers are closed, sweeps end, and a query or the removal of the blobs may fail. */
  predicate CanEnd(r: Request) {
    r.Reading? || r.Listing? || r.Sweeping? || r.Removing?
  }

  /** When a step can happen. */
  predicate Enabled(s: State, step: Step) {
    match step
    case Tick(to) => s.now <= to
    case Create(drop, row) =>
      && drop !in s.used && row.status.Pending? && row.downloads == 0 && !row.blocked
      && row.createdAt <= Unix(s.now) && row.createdAt < row.expiresAt && row.maxDownloads > 0
    case Publish(drop) => drop in s.drops
    case Unblock(drop) => drop in s.drops
    case UnlockFind(rid, drop) => !At(s, rid) && drop in s.drops && Live(s.drops[drop], s.now)
    case UnlockPut(rid, token, sid, _) =>
      At(s, rid) && s.requests[rid].Unlocking? && s.mutex.None? && token !in s.table && sid !in s.born
    case LockToken(_) => s.mutex.None?
    case IssueTicket(ticket, token, _) =>
      ticket !in s.tickets && s.mutex.None? && token in s.table && s.now <= s.table[token].expiresAt
    case Redeem(_) => true
    case Lookup(rid, token) => !At(s, rid) && s.mutex.None? && token in s.table
    case ClaimEnter(rid) => At(s, rid) && s.requests[rid].Got? && s.mutex.None?
    case ClaimUpdate(rid) => At(s, rid) && s.requests[rid].Claiming? && !s.requests[rid].updated
    case ClaimReread(rid, found) =>
      && At(s, rid) && s.requests[rid].Claiming? && s.requests[rid].updated
      && (found ==> s.requests[rid].session.drop in s.drops)
    case OpenBlob(rid) => At(s, rid) && s.requests[rid].Cleared?
    case Finish(rid) => At(s, rid) && CanEnd(s.requests[rid])
    case ReportFind(rid, drop) => !At(s, rid) && drop in s.drops
    case ReportBlock(rid) => At(s, rid) && s.requests[rid].Reporting?
    case ReportCut(rid) => At(s, rid) && s.requests[rid].Blocking? && s.mutex.None?
    case DeleteFind(rid, drop) => !At(s, rid) && drop in s.drops
    case DeleteCut(rid) => At(s, rid) && s.requests[rid].Deleting? && s.mutex.None?
    case DeleteRow(rid) => At(s, rid) && s.requests[rid].Removing?
    case SweepStart(rid) => !At(s, rid)
    case SweepSessions(rid) => At(s, rid) && s.requests[rid].Expiring? && s.mutex.None?
    case SweepTickets(rid) => At(s, rid) && s.requests[rid].ExpiringTickets?
    case SweepList(rid) => At(s, rid) && s.requests[rid].Listing?
    case SweepCut(rid, drop) => At(s, rid) && s.requests[rid].Sweeping? && drop in s.requests[rid].todo && s.mutex.None?
    case SweepRow(rid) => At(s, rid) && s.requests[rid].SweepRemoving?
    case SweepSkip(rid) => At(s, rid) && s.requests[rid].SweepRemoving?
  }

  /** Whether the UPDATE of ClaimDownload finds its row. */
  predicate Claimable(s: State, drop: nat) {
    drop in s.drops && Live(s.drops[drop], s.now)
  }

  function NextDrops(s: State, step: Step): map<nat, Drop>
    requires Enabled(s, step)
  {
    match step
    case Create(drop, row) => s.drops[drop := row]
    case Publish(drop) => s.drops[drop := s.drops[drop].(status := Ready)]
    case Unblock(drop) => s.drops[drop := s.drops[drop].(blocked := false)]
    case ClaimUpdate(rid) =>
      var d := s.requests[rid].session.drop;
      if Claimable(s, d) then s.drops[d := s.drops[d].(downloads := s.drops[d].downloads + 1)] else s.drops
    case ReportBlock(rid) =>
      var d := s.requests[rid].drop;
      if d in s.drops then s.drops[d := s.drops[d].(blocked := true)] else s.drops
    case DeleteRow(rid) => s.drops - {s.requests[rid].drop}
    case SweepRow(rid) => s.drops - {s.requests[rid].drop}
    case _ => s.drops
  }

  function NextTable(s: State, step: Step): map<nat, Session>
    requires Enabled(s, step)
  {
    match step
    case UnlockPut(rid, token, sid, expiresAt) => s.table[token := Session(sid, s.requests[rid].drop, expiresAt)]
    case LockToken(token) => s.table - {token}
    case Lookup(_, token) => if s.now > s.table[token].expiresAt then s.table - {token} else s.table
    case ReportCut(rid) => WithoutDrop(s.table, s.requests[rid].drop)
    case DeleteCut(rid) => WithoutDrop(s.table, s.requests[rid].drop)
    case SweepCut(_, drop) => WithoutDrop(s.table, drop)
    case SweepSessions(rid) => Unexpired(s.table, s.requests[rid].at)
    case _ => s.table
  }

  function NextTickets(s: State, step: Step): map<nat, Ticket>
    requires Enabled(s, step)
  {
    match step
    case IssueTicket(ticket, token, expiresAt) => s.tickets[ticket := Ticket(token, expiresAt)]
    case Redeem(ticket) =>
      if ticket in s.tickets && s.now > s.tickets[ticket].expiresAt then s.tickets - {ticket} else s.tickets
    case SweepTickets(rid) => UnexpiredTickets(s.tickets, s.requests[rid].at)
    case _ => s.tickets
  }

  function NextMutex(s: State, step: Step): Option<nat>
    requires Enabled(s, step)
  {
    match step
    case ClaimEnter(rid) => if s.requests[rid].session.id in s.claimed then None else Some(rid)
    case ClaimUpdate(rid) => if Claimable(s, s.requests[rid].session.drop) then s.mutex else None
    case ClaimReread(_, _) => None
    case _ => s.mutex
  }

  /** The only request a step can change. */
  function Actor(step: Step): Option<nat> {
    match step
    case UnlockFind(rid, _) => Some(rid)
    case UnlockPut(rid, _, _, _) => Some(rid)
    case Lookup(rid, _) => Some(rid)
    case ClaimEnter(rid) => Some(rid)
    case ClaimUpdate(rid) => Some(rid)
    case ClaimReread(rid, _) => Some(rid)
    case OpenBlob(rid) => Some(rid)
    case Finish(rid) => Some(rid)
    case ReportFind(rid, _) => Some(rid)
    case ReportBlock(rid) => Some(rid)
    case ReportCut(rid) => Some(rid)
    case DeleteFind(rid, _) => Some(rid)
    case DeleteCut(rid) => Some(rid)
    case DeleteRow(rid) => Some(rid)
    case SweepStart(rid) => Some(rid)
    case SweepSessions(rid) => Some(rid)
    case SweepTickets(rid) => Some(rid)
    case SweepList(rid) => Some(rid)
    case SweepCut(rid, _) => Some(rid)
    case SweepRow(rid) => Some(rid)
    case SweepSkip(rid) => Some(rid)
    case _ => None
  }

  /** Where a step leaves the request that makes it; None when the request is over. */
  function NextRequest(s: State, step: Step): Option<Request>
    requires Enabled(s, step) && Actor(step).Some?
  {
    match step
    case UnlockFind(_, drop) => Some(Unlocking(drop))
    case Lookup(_, token) => if s.now > s.table[token].expiresAt then None else Some(Got(s.table[token]))
    case ClaimEnter(rid) =>
      var session := s.requests[rid].session;
      Some(if session.id in s.claimed then Cleared(session) else Claiming(session, false))
    case ClaimUpdate(rid) =>
      var session := s.requests[rid].session;
      if Claimable(s, session.drop) then Some(Claiming(session, true)) else None
    case ClaimReread(rid, found) => if found then Some(Cleared(s.requests[rid].session)) else None
    case OpenBlob(rid) =>
      var session := s.requests[rid].session;
      if session.drop in s.drops then Some(Reading(session)) else None
    case ReportFind(_, drop) => Some(Reporting(drop))
    case ReportBlock(rid) => Some(Blocking(s.requests[rid].drop))
    case DeleteFind(_, drop) => Some(Deleting(drop))
    case DeleteCut(rid) => Some(Removing(s.requests[rid].drop))
    case SweepStart(_) => Some(Expiring(s.now))
    case SweepSessions(rid) => Some(ExpiringTickets(s.requests[rid].at))
    case SweepTickets(rid) => Some(Listing(s.requests[rid].at))
    case SweepList(rid) => Some(Sweeping(Due(s.drops, s.requests[rid].at, s.requests[rid].at - s.uploadTtl)))
    case SweepCut(rid, drop) => Some(SweepRemoving(drop, s.requests[rid].todo - {drop}))
    case SweepRow(rid) => Some(Sweeping(s.requests[rid].todo))
    case SweepSkip(rid) => Some(Sweeping(s.requests[rid].todo))
    case _ => None
  }

  function NextRequests(s: State, step: Step): map<nat, Request>
    requires Enabled(s, step)
  {
    match Actor(step)
    case None => s.requests
    case Some(rid) =>
      match NextRequest(s, step)
      case None => s.requests - {rid}
      case Some(r) => s.requests[rid := r]
  }

  /** What a step does, column by column. */
  function Apply(s: State, step: Step): State
    requires Enabled(s, step)
  {
    State(
      if step.Tick? then step.to else s.now,
      s.uploadTtl,
      NextDrops(s, step),
      NextTable(s, step),
      NextTickets(s, step),
      if step.ClaimReread? && step.found then s.claimed + {s.requests[step.rid].session.id} else s.claimed,
      NextMutex(s, step),
      NextRequests(s, step),
      if step.Create? then s.used + {step.drop} else s.used,
      if step.UnlockPut? then s.born[step.sid := s.requests[step.rid].drop] else s.born,
      if step.ClaimReread? && !step.found then
        (var d := s.requests[step.rid].session.drop; s.lost[d := LostOf(s, d) + 1])
      else s.lost)
  }

  // ---------------------------------------------------------------- what every step keeps

  predicate Known(s: State, session: Session) {
    session.id in s.born && s.born[session.id] == session.drop
  }

  predicate HoldsSession(r: Request) {
    r.Got? || r.Claiming? || r.Cleared? || r.Reading?
  }

  /** Sessions are the ones that were made, for the drops they were made for. */
  ghost predicate SessionsSound(s: State) {
    && (forall t | t in s.table :: Known(s, s.table[t]))
    && (forall rid | At(s, rid) :: RequestKnown(s, s.requests[rid]))
    && s.claimed <= s.born.Keys
    && (forall i | i in s.born :: s.born[i] in s.used)
    && s.drops.Keys <= s.used && s.lost.Keys <= s.used
  }

  predicate RequestKnown(s: State, r: Request) {
    && (HoldsSession(r) ==> Known(s, r.session))
    && (r.Unlocking? || r.Reporting? || r.Blocking? || r.Deleting? || r.Removing? || r.SweepRemoving? ==>
          r.drop in s.used)
    && (r.Sweeping? || r.SweepRemoving? ==> r.todo <= s.used)
  }

  /** The session mutex is held by exactly the request inside claimOnce. */
  ghost predicate MutexSound(s: State) {
    && (forall rid | At(s, rid) && s.requests[rid].Claiming? :: s.mutex == Some(rid))
    && (s.mutex.Some? ==> At(s, s.mutex.value) && s.requests[s.mutex.value].Claiming?)
  }

  /** No reader, and nothing past the claim, for a session that did not claim; no second claim. */
  predicate ClaimSound(s: State, r: Request) {
    && (r.Claiming? ==> r.session.id !in s.claimed)
    && (r.Cleared? || r.Reading? ==> r.session.id in s.claimed)
  }

  ghost predicate ClaimsSound(s: State) {
    forall rid | At(s, rid) :: ClaimSound(s, s.requests[rid])
  }

  /** The sessions of a drop that have claimed. */
  function ClaimedOf(s: State, drop: nat): set<nat> {
    set i | i in s.claimed && i in s.born && s.born[i] == drop
  }

  /** One while a request has taken a download of the drop and not yet marked its session. */
  function InFlight(s: State, drop: nat): nat {
    if s.mutex.Some? && At(s, s.mutex.value) && s.requests[s.mutex.value].Claiming?
       && s.requests[s.mutex.value].updated && s.requests[s.mutex.value].session.drop == drop then 1 else 0
  }

  /** Every download counted was taken by exactly one session, is being taken, or was lost; never too many. */
  predicate Balanced(s: State, drop: nat)
    requires drop in s.drops
  {
    |ClaimedOf(s, drop)| + InFlight(s, drop) + LostOf(s, drop) == s.drops[drop].downloads <= s.drops[drop].maxDownloads
  }

  ghost predicate Inv(s: State) {
    && SessionsSound(s) && MutexSound(s) && ClaimsSound(s)
    && forall d | d in s.drops :: Balanced(s, d)
  }

  function Initial(now: int, uploadTtl: nat): State {
    State(now, uploadTtl, map[], map[], map[], {}, None, map[], {}, map[], map[])
  }

  lemma OthersUnmoved(s: State, step: Step, rid: nat)
    requires Enabled(s, step) && Actor(step) != Some(rid)
    ensures At(Apply(s, step), rid) <==> At(s, rid)
    ensures At(s, rid) ==> Apply(s, step).requests[rid] == s.requests[rid]
  {
  }

  /** Sessions, claims and row ids are never forgotten. */
  lemma MemoryGrows(s: State, step: Step)
    requires Enabled(s, step)
    ensures var s' := Apply(s, step);
            && s.used <= s'.used && s.claimed <= s'.claimed
            && s.born.Keys <= s'.born.Keys && (forall i | i in s.born :: s'.born[i] == s.born[i])
  {
  }

  lemma StepKeepsSessions(s: State, step: Step)
    requires SessionsSound(s) && Enabled(s, step)
    ensures SessionsSound(Apply(s, step))
  {
    var s' := Apply(s, step);
    MemoryGrows(s, step);
    forall rid | At(s', rid) ensures RequestKnown(s', s'.requests[rid]) {
      if Actor(step) != Some(rid) {
        OthersUnmoved(s, step, rid);
        assert RequestKnown(s, s.requests[rid]);
      } else {
        ActorKnown(s, step, rid);
      }
    }
    TableKnown(s, step);
    IdsKnown(s, step);
  }

  lemma ActorKnown(s: State, step: Step, rid: nat)
    requires SessionsSound(s) && Enabled(s, step) && Actor(step) == Some(rid) && At(Apply(s, step), rid)
    ensures RequestKnown(Apply(s, step), Apply(s, step).requests[rid])
  {
    if At(s, rid) { assert RequestKnown(s, s.requests[rid]); }
  }

  lemma TableKnown(s: State, step: Step)
    requires SessionsSound(s) && Enabled(s, step)
    ensures forall t | t in Apply(s, step).table :: Known(Apply(s, step), Apply(s, step).table[t])
  {
    if !step.UnlockPut? { TableShrinks(s, step); }
    MemoryGrows(s, step);
  }

  /** Only unlocking adds a session. */
  lemma TableShrinks(s: State, step: Step)
    requires Enabled(s, step) && !step.UnlockPut?
    ensures forall t | t in Apply(s, step).table :: t in s.table && Apply(s, step).table[t] == s.table[t]
  {
  }

  lemma IdsKnown(s: State, step: Step)
    requires SessionsSound(s) && Enabled(s, step)
    ensures var s' := Apply(s, step);
            && s'.claimed <= s'.born.Keys
            && (forall i | i in s'.born :: s'.born[i] in s'.used)
            && s'.drops.Keys <= s'.used && s'.lost.Keys <= s'.used
  {
    if step.UnlockPut? || step.ClaimReread? {
      assert RequestKnown(s, s.requests[step.rid]);
    }
    RowsKnown(s, step);
  }

  lemma RowsKnown(s: State, step: Step)
    requires s.drops.Keys <= s.used && Enabled(s, step)
    ensures Apply(s, step).drops.Keys <= Apply(s, step).used
  {
  }

  lemma StepKeepsMutex(s: State, step: Step)
    requires MutexSound(s) && Enabled(s, step)
    ensures MutexSound(Apply(s, step))
  {
    var s' := Apply(s, step);
    forall rid | At(s', rid) && s'.requests[rid].Claiming? ensures s'.mutex == Some(rid) {
      if Actor(step) != Some(rid) { OthersUnmoved(s, step, rid); }
    }
    if s'.mutex.Some? && Actor(step) != s'.mutex { OthersUnmoved(s, step, s'.mutex.value); }
  }

  lemma StepKeepsClaims(s: State, step: Step)
    requires MutexSound(s) && ClaimsSound(s) && Enabled(s, step)
    ensures ClaimsSound(Apply(s, step))
  {
    var s' := Apply(s, step);
    forall rid | At(s', rid) ensures ClaimSound(s', s'.requests[rid]) {
      if Actor(step) != Some(rid) {
        OthersUnmoved(s, step, rid);
        assert ClaimSound(s, s.requests[rid]);
        OthersClaim(s, step, rid);
      } else {
        if At(s, rid) { assert ClaimSound(s, s.requests[rid]); }
        ActorClaim(s, step, rid);
      }
    }
  }

  /** A request waiting inside claimOnce keeps everyone else out of it. */
  lemma OthersClaim(s: State, step: Step, rid: nat)
    requires MutexSound(s) && Enabled(s, step) && At(s, rid) && Actor(step) != Some(rid)
    requires ClaimSound(s, s.requests[rid])
    ensures ClaimSound(Apply(s, step), s.requests[rid])
  {
  }

  lemma ActorClaim(s: State, step: Step, rid: nat)
    requires Enabled(s, step) && Actor(step) == Some(rid) && At(Apply(s, step), rid)
    requires At(s, rid) ==> ClaimSound(s, s.requests[rid])
    ensures ClaimSound(Apply(s, step), Apply(s, step).requests[rid])
  {
    match step
    case ClaimEnter(_) =>
    case ClaimUpdate(_) =>
    case ClaimReread(_, _) =>
    case OpenBlob(_) =>
    case _ =>
  }

  // ---------------------------------------------------------------- accounting

  /** Steps that neither make a row or session nor touch a claim. */
  predicate Quiet(step: Step) {
    !step.Create? && !step.UnlockPut? && !step.ClaimUpdate? && !step.ClaimReread?
  }

  /** Looking, unlocking, ticketing, opening, reporting and sweeping never change a download counter. */
  lemma OnlyClaimsCount(s: State, step: Step, d: nat)
    requires Enabled(s, step) && !step.ClaimUpdate? && !step.Create? && d in Apply(s, step).drops
    ensures d in s.drops
    ensures Apply(s, step).drops[d].downloads == s.drops[d].downloads
    ensures Apply(s, step).drops[d].maxDownloads == s.drops[d].maxDownloads
  {
  }

  lemma QuietKeepsMemory(s: State, step: Step)
    requires Enabled(s, step) && Quiet(step)
    ensures var s' := Apply(s, step); s'.claimed == s.claimed && s'.born == s.born && s'.lost == s.lost
  {
  }

  /** Nobody but the holder of the mutex can change what is in flight. */
  lemma OthersKeepInFlight(s: State, step: Step, d: nat)
    requires MutexSound(s) && Enabled(s, step) && !step.ClaimUpdate? && !step.ClaimReread?
    ensures InFlight(Apply(s, step), d) == InFlight(s, d)
  {
    if s.mutex.Some? {
      HolderStays(s, step);
      OthersUnmoved(s, step, s.mutex.value);
    }
  }

  lemma HolderStays(s: State, step: Step)
    requires MutexSound(s) && s.mutex.Some? && Enabled(s, step) && !step.ClaimUpdate? && !step.ClaimReread?
    ensures Actor(step) != s.mutex && Apply(s, step).mutex == s.mutex
  {
  }

  lemma QuietKeepsBalance(s: State, step: Step, d: nat)
    requires Inv(s) && Enabled(s, step) && Quiet(step) && d in Apply(s, step).drops
    ensures Balanced(Apply(s, step), d)
  {
    OnlyClaimsCount(s, step, d);
    QuietKeepsMemory(s, step);
    OthersKeepInFlight(s, step, d);
    assert Balanced(s, d);
    assert ClaimedOf(Apply(s, step), d) == ClaimedOf(s, d);
  }

  lemma PutKeepsBalance(s: State, step: Step, d: nat)
    requires Inv(s) && Enabled(s, step) && step.UnlockPut? && d in s.drops
    ensures Balanced(Apply(s, step), d)
  {
    OthersKeepInFlight(s, step, d);
    assert Balanced(s, d);
    assert ClaimedOf(Apply(s, step), d) == ClaimedOf(s, d);
  }

  lemma CreateBalances(s: State, step: Step, d: nat)
    requires Inv(s) && Enabled(s, step) && step.Create? && d in Apply(s, step).drops
    ensures Balanced(Apply(s, step), d)
  {
    OthersKeepInFlight(s, step, d);
    var s' := Apply(s, step);
    if d == step.drop {
      assert ClaimedOf(s', d) == {};
      if s.mutex.Some? { assert RequestKnown(s, s.requests[s.mutex.value]); }
    } else {
      assert Balanced(s, d);
      assert ClaimedOf(s', d) == ClaimedOf(s, d);
    }
  }

  lemma UpdateKeepsBalance(s: State, rid: nat, d: nat)
    requires Inv(s) && Enabled(s, ClaimUpdate(rid)) && d in s.drops
    ensures Balanced(Apply(s, ClaimUpdate(rid)), d)
  {
    var s' := Apply(s, ClaimUpdate(rid));
    assert Balanced(s, d);
    assert s.mutex == Some(rid) && InFlight(s, d) == 0;
    assert ClaimedOf(s', d) == ClaimedOf(s, d);
  }

  lemma RereadKeepsBalance(s: State, rid: nat, found: bool, d: nat)
    requires Inv(s) && Enabled(s, ClaimReread(rid, found)) && d in s.drops
    ensures Balanced(Apply(s, ClaimReread(rid, found)), d)
  {
    var s' := Apply(s, ClaimReread(rid, found));
    var session := s.requests[rid].session;
    assert Balanced(s, d) && RequestKnown(s, s.requests[rid]) && ClaimSound(s, s.requests[rid]);
    assert s.mutex == Some(rid);
    if found && session.drop == d {
      assert ClaimedOf(s', d) == ClaimedOf(s, d) + {session.id};
    } else {
      assert ClaimedOf(s', d) == ClaimedOf(s, d);
    }
  }

  /** Every step of every request keeps the books. */
  lemma StepKeepsInv(s: State, step: Step)
    requires Inv(s) && Enabled(s, step)
    ensures Inv(Apply(s, step))
  {
    StepKeepsSessions(s, step);
    StepKeepsMutex(s, step);
    StepKeepsClaims(s, step);
    forall d | d in Apply(s, step).drops ensures Balanced(Apply(s, step), d) {
      StepKeepsBalance(s, step, d);
    }
  }

  lemma StepKeepsBalance(s: State, step: Step, d: nat)
    requires Inv(s) && Enabled(s, step) && d in Apply(s, step).drops
    ensures Balanced(Apply(s, step), d)
  {
    if Quiet(step) {
      QuietKeepsBalance(s, step, d);
    } else if step.Create? {
      CreateBalances(s, step, d);
    } else if step.UnlockPut? {
      PutKeepsBalance(s, step, d);
    } else if step.ClaimUpdate? {
      UpdateKeepsBalance(s, step.rid, d);
    } else {
      RereadKeepsBalance(s, step.rid, step.found, d);
    }
  }

  // ---------------------------------------------------------------- runs

  /** The run begins with an empty service. */
  ghost predicate Begins(states: seq<State>) {
    |states| > 0 && states[0] == Initial(states[0].now, states[0].uploadTtl)
  }

  /** states[i] becomes states[i + 1] by steps[i]. */
  ghost predicate Run(states: seq<State>, steps: seq<Step>) {
    && |states| == |steps| + 1
    && forall i | 0 <= i < |steps| :: Enabled(states[i], steps[i]) && states[i + 1] == Apply(states[i], steps[i])
  }

  /**
   Under every interleaving, from an empty service: a drop's counter is exactly the sessions that
   claimed it, plus a claim in progress, plus claims lost to a failed re-read, and never exceeds
   its limit; and whoever reads belongs to a session that claimed.
   */
  lemma {:induction false} DownloadsAccounted(states: seq<State>, steps: seq<Step>, j: nat)
    requires Run(states, steps) && Begins(states) && j < |states|
    ensures Inv(states[j])
    ensures forall d | d in states[j].drops ::
              && |ClaimedOf(states[j], d)| <= states[j].drops[d].downloads <= states[j].drops[d].maxDownloads
              && (states[j].mutex.None? && LostOf(states[j], d) == 0 ==>
                    |ClaimedOf(states[j], d)| == states[j].drops[d].downloads)
  {
    if j > 0 {
      DownloadsAccounted(states, steps, j - 1);
      StepKeepsInv(states[j - 1], steps[j - 1]);
    }
    forall d | d in states[j].drops ensures Balanced(states[j], d) {
    }
  }

  // ---------------------------------------------------------------- nothing before publication

  /** Someone is past the search for a live drop: a download was counted, or a session made, held or about to be. */
  ghost predicate Opened(s: State, d: nat) {
    || (d in s.drops && s.drops[d].downloads > 0)
    || (exists i | i in s.born :: s.born[i] == d)
    || (exists t | t in s.table :: s.table[t].drop == d)
    || (exists rid | At(s, rid) :: HoldsSession(s.requests[rid]) && s.requests[rid].session.drop == d)
    || (exists rid | At(s, rid) :: s.requests[rid] == Unlocking(d))
  }

  /** Signs that the drop was published. */
  ghost predicate SignsOf(s: State, d: nat) {
    || (d in s.drops && (s.drops[d].status.Ready? || s.drops[d].downloads > 0))
    || (exists i | i in s.born :: s.born[i] == d)
    || (exists rid | At(s, rid) :: s.requests[rid] == Unlocking(d))
  }

  lemma NoSignBefore(s: State, step: Step, d: nat)
    requires Enabled(s, step) && step != Publish(d) && SignsOf(Apply(s, step), d)
    ensures SignsOf(s, d)
  {
    var s' := Apply(s, step);
    if rid :| At(s', rid) && s'.requests[rid] == Unlocking(d) {
      if Actor(step) != Some(rid) { OthersUnmoved(s, step, rid); }
    } else if i :| i in s'.born && s'.born[i] == d {
      if step.UnlockPut? && i == step.sid { assert At(s, step.rid) && s.requests[step.rid] == Unlocking(d); }
    } else {
      CountedWasReady(s, step, d);
    }
  }

  lemma CountedWasReady(s: State, step: Step, d: nat)
    requires Enabled(s, step) && step != Publish(d)
    requires d in Apply(s, step).drops
    requires Apply(s, step).drops[d].status.Ready? || Apply(s, step).drops[d].downloads > 0
    ensures d in s.drops && (s.drops[d].status.Ready? || s.drops[d].downloads > 0)
  {
  }

  lemma {:induction false} SignsNeedPublication(states: seq<State>, steps: seq<Step>, j: nat, d: nat)
    requires Run(states, steps) && Begins(states) && j < |states| && SignsOf(states[j], d)
    ensures exists i :: 0 <= i < j && steps[i] == Publish(d)
  {
    if steps[j - 1] != Publish(d) {
      NoSignBefore(states[j - 1], steps[j - 1], d);
      SignsNeedPublication(states, steps, j - 1, d);
    }
  }

  /**
   Under every interleaving, whoever finds a drop live, has a session of it or is counted as one of its
   downloads comes after its publication.
   */
  lemma NothingBeforePublication(states: seq<State>, steps: seq<Step>, j: nat, d: nat)
    requires Run(states, steps) && Begins(states) && j < |states| && Opened(states[j], d)
    ensures exists i :: 0 <= i < j && steps[i] == Publish(d)
  {
    var s := states[j];
    DownloadsAccounted(states, steps, j);
    if t :| t in s.table && s.table[t].drop == d {
      assert Known(s, s.table[t]);
    } else if rid :| At(s, rid) && HoldsSession(s.requests[rid]) && s.requests[rid].session.drop == d {
      assert RequestKnown(s, s.requests[rid]);
    }
    SignsNeedPublication(states, steps, j, d);
  }

  // ---------------------------------------------------------------- sweeping the tables

  /**
   Sweeping at a moment leaves no expired entry, and whoever looks later finds the same live sessions and
   tickets as without it.
   */
  lemma SweepingIsUnseen(table: map<nat, Session>, tickets: map<nat, Ticket>, now: int, t: nat, later: int)
    requires now <= later
    ensures t in Unexpired(table, now) ==> now <= Unexpired(table, now)[t].expiresAt
    ensures t in UnexpiredTickets(tickets, now) ==> now <= UnexpiredTickets(tickets, now)[t].expiresAt
    ensures FoundLive(Unexpired(table, now), t, later) == FoundLive(table, t, later)
    ensures FoundLiveTicket(UnexpiredTickets(tickets, now), t, later) == FoundLiveTicket(tickets, t, later)
  {
  }

  /** What a lookup gives that comes upon expired entries. */
  function FoundLive(table: map<nat, Session>, t: nat, now: int): Option<Session> {
    if t in table && !(now > table[t].expiresAt) then Some(table[t]) else None
  }

  function FoundLiveTicket(tickets: map<nat, Ticket>, t: nat, now: int): Option<Ticket> {
    if t in tickets && !(now > tickets[t].expiresAt) then Some(tickets[t]) else None
  }
}
