/** Taking a share down: what a report stops, for good, whatever else is running. */
module Takedown {
  import opened Bytes
  import opened Lifecycle

  /** The drop's row is blocked or gone; gone rows never come back under the same id. */
  predicate Down(s: State, d: nat) {
    d in s.used && (d in s.drops ==> s.drops[d].blocked)
  }

  /** The requests that hold a session. */
  function Holders(s: State): set<nat> {
    set rid | rid in s.requests && HoldsSession(s.requests[rid])
  }

  /** A request that has not claimed d and cannot be about to. */
  predicate Harmless(s: State, d: nat, r: Request) {
    HoldsSession(r) && r.session.drop == d ==>
      r.session.id !in s.claimed && (r.Got? || (r.Claiming? && !r.updated))
  }

  /** Only requests in early can still be reading d or on their way to it. */
  ghost predicate CutOff(s: State, d: nat, early: set<nat>) {
    && Down(s, d)
    && (forall t | t in s.table :: s.table[t].drop == d ==> s.table[t].id !in s.claimed)
    && (forall rid | At(s, rid) && rid !in early :: Harmless(s, d, s.requests[rid]))
    && (forall rid | At(s, rid) && s.requests[rid].Claiming? && s.requests[rid].updated ::
          s.requests[rid].session.drop != d)
  }

  /** The last step of a report on a drop that is still blocked. */
  lemma ReportCutsOff(s: State, rid: nat)
    requires Inv(s) && Enabled(s, ReportCut(rid)) && Down(s, s.requests[rid].drop)
    ensures CutOff(Apply(s, ReportCut(rid)), s.requests[rid].drop, Holders(Apply(s, ReportCut(rid))))
  {
    var s' := Apply(s, ReportCut(rid));
    forall r | At(s', r) && r !in Holders(s') ensures Harmless(s', s.requests[rid].drop, s'.requests[r]) {
    }
  }

  lemma DownStays(s: State, step: Step, d: nat)
    requires Enabled(s, step) && Down(s, d) && step != Unblock(d)
    ensures Down(Apply(s, step), d)
  {
  }

  /** While d is down and no claim of it is in progress, no session of d becomes claimed. */
  lemma ClaimedStays(s: State, step: Step, d: nat, early: set<nat>)
    requires Inv(s) && CutOff(s, d, early) && Enabled(s, step)
    ensures forall i | i in Apply(s, step).claimed && i !in s.claimed :: s.born[i] != d
    ensures ClaimedOf(Apply(s, step), d) == ClaimedOf(s, d)
  {
    var s' := Apply(s, step);
    MemoryGrows(s, step);
    if step.ClaimReread? {
      assert RequestKnown(s, s.requests[step.rid]);
    } else {
      assert s'.claimed == s.claimed;
    }
  }

  lemma TableStays(s: State, step: Step, d: nat, early: set<nat>)
    requires Inv(s) && CutOff(s, d, early) && Enabled(s, step)
    ensures var s' := Apply(s, step);
            forall t | t in s'.table :: s'.table[t].drop == d ==> s'.table[t].id !in s'.claimed
  {
    var s' := Apply(s, step);
    ClaimedStays(s, step, d, early);
    forall t | t in s'.table && s'.table[t].drop == d ensures s'.table[t].id !in s'.claimed {
      if t in s.table && s.table[t] == s'.table[t] {
        assert Known(s, s.table[t]);
      } else {
        assert step.UnlockPut? && s'.claimed == s.claimed && s'.table[t].id !in s.born;
      }
    }
  }

  /** The steps that leave a request with a session in hand. */
  predicate HandlesSession(step: Step) {
    step.Lookup? || step.ClaimEnter? || step.ClaimUpdate? || step.ClaimReread? || step.OpenBlob?
  }

  lemma OthersHoldNone(s: State, step: Step, rid: nat)
    requires Enabled(s, step) && Actor(step) == Some(rid) && At(Apply(s, step), rid) && !HandlesSession(step)
    ensures !HoldsSession(Apply(s, step).requests[rid])
  {
  }

  lemma LookupStaysHarmless(s: State, rid: nat, token: nat, d: nat, early: set<nat>)
    requires CutOff(s, d, early) && Enabled(s, Lookup(rid, token)) && At(Apply(s, Lookup(rid, token)), rid)
    ensures Harmless(Apply(s, Lookup(rid, token)), d, Apply(s, Lookup(rid, token)).requests[rid])
  {
  }

  lemma ClaimStaysHarmless(s: State, step: Step, d: nat, rid: nat)
    requires Down(s, d) && Enabled(s, step) && Actor(step) == Some(rid) && HandlesSession(step) && !step.Lookup?
    requires At(Apply(s, step), rid) && Harmless(s, d, s.requests[rid])
    ensures Harmless(Apply(s, step), d, Apply(s, step).requests[rid])
  {
  }

  /** Where the acting request ends up, if it was harmless or is new. */
  lemma ActorStaysHarmless(s: State, step: Step, d: nat, early: set<nat>, rid: nat)
    requires Inv(s) && CutOff(s, d, early) && Enabled(s, step) && Actor(step) == Some(rid)
    requires At(Apply(s, step), rid) && (At(s, rid) ==> Harmless(s, d, s.requests[rid]))
    ensures Harmless(Apply(s, step), d, Apply(s, step).requests[rid])
  {
    if !HandlesSession(step) {
      OthersHoldNone(s, step, rid);
    } else if step.Lookup? {
      LookupStaysHarmless(s, rid, step.token, d, early);
    } else {
      ClaimStaysHarmless(s, step, d, rid);
    }
  }

  lemma RequestsStayHarmless(s: State, step: Step, d: nat, early: set<nat>, rid: nat)
    requires Inv(s) && CutOff(s, d, early) && early <= Holders(s) && Enabled(s, step)
    requires At(Apply(s, step), rid) && rid !in early * Holders(Apply(s, step))
    ensures Harmless(Apply(s, step), d, Apply(s, step).requests[rid])
  {
    var s' := Apply(s, step);
    if rid in early {
      assert !HoldsSession(s'.requests[rid]);
    } else if Actor(step) == Some(rid) {
      ActorStaysHarmless(s, step, d, early, rid);
    } else {
      OthersUnmoved(s, step, rid);
      ClaimedStays(s, step, d, early);
      assert Harmless(s, d, s.requests[rid]) && RequestKnown(s, s.requests[rid]);
    }
  }

  lemma ClaimsStayElsewhere(s: State, step: Step, d: nat, early: set<nat>, rid: nat)
    requires Inv(s) && CutOff(s, d, early) && Enabled(s, step)
    requires At(Apply(s, step), rid)
    ensures var r := Apply(s, step).requests[rid]; r.Claiming? && r.updated ==> r.session.drop != d
  {
    if Actor(step) != Some(rid) { OthersUnmoved(s, step, rid); }
  }

  lemma StepKeepsCutOff(s: State, step: Step, d: nat, early: set<nat>)
    requires Inv(s) && CutOff(s, d, early) && early <= Holders(s) && Enabled(s, step) && step != Unblock(d)
    ensures CutOff(Apply(s, step), d, early * Holders(Apply(s, step)))
  {
    var s' := Apply(s, step);
    DownStays(s, step, d);
    TableStays(s, step, d, early);
    forall rid | At(s', rid) && rid !in early * Holders(s') ensures Harmless(s', d, s'.requests[rid]) {
      RequestsStayHarmless(s, step, d, early, rid);
    }
    forall rid | At(s', rid) && s'.requests[rid].Claiming? && s'.requests[rid].updated
      ensures s'.requests[rid].session.drop != d
    {
      ClaimsStayElsewhere(s, step, d, early, rid);
    }
  }

  // ---------------------------------------------------------------- whole runs

  /** The requests that have held their session without a break since states[i]. */
  function HeldSince(states: seq<State>, i: nat, j: nat): set<nat>
    requires i <= j < |states|
    decreases j
  {
    if i == j then Holders(states[i]) else HeldSince(states, i, j - 1) * Holders(states[j])
  }

  lemma {:induction false} CutOffLasts(states: seq<State>, steps: seq<Step>, d: nat, i: nat, j: nat)
    requires Run(states, steps) && Begins(states)
    requires i <= j < |states| && CutOff(states[i], d, Holders(states[i]))
    requires forall k | i <= k < j :: steps[k] != Unblock(d)
    ensures CutOff(states[j], d, HeldSince(states, i, j)) && HeldSince(states, i, j) <= Holders(states[j])
    ensures ClaimedOf(states[j], d) == ClaimedOf(states[i], d)
    decreases j
  {
    if i < j {
      CutOffLasts(states, steps, d, i, j - 1);
      DownloadsAccounted(states, steps, j - 1);
      StepKeepsCutOff(states[j - 1], steps[j - 1], d, HeldSince(states, i, j - 1));
      ClaimedStays(states[j - 1], steps[j - 1], d, HeldSince(states, i, j - 1));
    }
  }

  /** The row is blocked, or gone, once the report's own UPDATE has run. */
  lemma BlockTakesDown(s: State, rid: nat)
    requires Inv(s) && Enabled(s, ReportBlock(rid))
    ensures Down(Apply(s, ReportBlock(rid)), s.requests[rid].drop)
  {
    assert RequestKnown(s, s.requests[rid]);
  }

  /** A request that is blocking a drop at i still is at j, unless it took a step of its own. */
  lemma {:induction false} BlockingWaits(states: seq<State>, steps: seq<Step>, rid: nat, i: nat, j: nat)
    requires Run(states, steps) && i <= j < |states| && At(states[i], rid)
    requires forall k | i <= k < j :: Actor(steps[k]) != Some(rid)
    ensures At(states[j], rid) && states[j].requests[rid] == states[i].requests[rid]
    decreases j
  {
    if i < j {
      BlockingWaits(states, steps, rid, i, j - 1);
      OthersUnmoved(states[j - 1], steps[j - 1], rid);
    }
  }

  lemma {:induction false} DownLasts(states: seq<State>, steps: seq<Step>, d: nat, i: nat, j: nat)
    requires Run(states, steps) && i <= j < |states| && Down(states[i], d)
    requires forall k | i <= k < j :: steps[k] != Unblock(d)
    ensures Down(states[j], d)
    decreases j
  {
    if i < j {
      DownLasts(states, steps, d, i, j - 1);
      DownStays(states[j - 1], steps[j - 1], d);
    }
  }

  /** A report that was not undone between its two steps cuts the drop off. */
  lemma ReportDone(states: seq<State>, steps: seq<Step>, rid: nat, d: nat, b: nat, i: nat)
    requires Run(states, steps) && Begins(states)
    requires b < i < |steps| && steps[b] == ReportBlock(rid) && steps[i] == ReportCut(rid)
    requires At(states[b], rid) && states[b].requests[rid] == Reporting(d)
    requires forall k | b < k < i :: Actor(steps[k]) != Some(rid) && steps[k] != Unblock(d)
    ensures CutOff(states[i + 1], d, Holders(states[i + 1]))
  {
    DownloadsAccounted(states, steps, b);
    BlockTakesDown(states[b], rid);
    DownLasts(states, steps, d, b + 1, i);
    BlockingWaits(states, steps, rid, b + 1, i);
    DownloadsAccounted(states, steps, i);
    ReportCutsOff(states[i], rid);
  }

  /**
   The report rid blocks the drop in step b and cuts its sessions in step i.  Unless the drop is
   unblocked after the block, whoever holds a reader over it later already held its session, already
   claimed, when the report returned: no request that looks a session up later gets one, not even
   through a session that an earlier unlock inserts afterwards.
   */
  lemma NoReaderAfterReport(states: seq<State>, steps: seq<Step>, rid: nat, b: nat, i: nat, j: nat, reader: nat)
    requires Run(states, steps) && Begins(states)
    requires b < i < j < |states| && steps[b] == ReportBlock(rid) && steps[i] == ReportCut(rid)
    requires forall k | b < k < i :: Actor(steps[k]) != Some(rid)
    requires forall k | b < k < j :: steps[k] != Unblock(states[b].requests[rid].drop)
    requires At(states[j], reader) && states[j].requests[reader].Reading?
    requires states[j].requests[reader].session.drop == states[b].requests[rid].drop
    ensures reader in HeldSince(states, i + 1, j)
    ensures states[j].requests[reader].session.id in states[i + 1].claimed
  {
    var d := states[b].requests[rid].drop;
    ReportDone(states, steps, rid, d, b, i);
    CutOffLasts(states, steps, d, i + 1, j);
    ReaderWasClaimed(states, steps, d, i + 1, j, reader);
  }

  /** A reader among those who held their session all along reads a session claimed before. */
  lemma ReaderWasClaimed(states: seq<State>, steps: seq<Step>, d: nat, i: nat, j: nat, reader: nat)
    requires Run(states, steps) && Begins(states) && i <= j < |states|
    requires CutOff(states[j], d, HeldSince(states, i, j)) && ClaimedOf(states[j], d) == ClaimedOf(states[i], d)
    requires At(states[j], reader) && states[j].requests[reader].Reading?
    requires states[j].requests[reader].session.drop == d
    ensures reader in HeldSince(states, i, j)
    ensures states[j].requests[reader].session.id in states[i].claimed
  {
    DownloadsAccounted(states, steps, j);
    var r := states[j].requests[reader];
    assert RequestKnown(states[j], r) && ClaimSound(states[j], r);
    assert r.session.id in ClaimedOf(states[j], d);
  }
}
