/** What becomes of each request for a missing artifact, read off the actions of a run. */
module FillFates {
  import opened Options
  import opened Fill
  import Completion

  datatype Event = Event(pid: nat, action: Action)

  /** The world a run of events ends in, if every event is possible in its turn. */
  ghost function After(run: seq<Event>): Option<World> {
    if run == [] then Some(World(EMPTY, map[]))
    else
      var before, e := After(run[..|run| - 1]), run[|run| - 1];
      if before.Some? && Enabled(before.value, e.pid, e.action) then Some(Next(before.value, e.pid, e.action)) else None
  }

  /** A run goes on with any event that is possible, and with no other. */
  lemma AfterMore(run: seq<Event>, e: Event)
    requires After(run).Some?
    ensures After([]) == Some(World(EMPTY, map[]))
    ensures After(run + [e]) ==
      if Enabled(After(run).value, e.pid, e.action) then Some(Next(After(run).value, e.pid, e.action)) else None
  {
    assert (run + [e])[..|run|] == run;
  }

  lemma {:induction false} RunReaches(run: seq<Event>)
    requires After(run).Some?
    ensures Reaches(After(run).value, |run|)
  {
    if run != [] {
      hide Next, Enabled;
      var n := |run| - 1;
      RunReaches(run[..n]);
      assert Steps(After(run[..n]).value, run[n].pid, run[n].action, After(run).value);
    }
  }

  /** The process took this action somewhere in the run. */
  ghost predicate Did(run: seq<Event>, pid: nat, a: Action) {
    Event(pid, a) in run
  }

  ghost predicate Served(run: seq<Event>, pid: nat) {
    Did(run, pid, Wake(true)) || Did(run, pid, PollHit)
  }

  ghost predicate GaveUp(run: seq<Event>, pid: nat) {
    Did(run, pid, Abandon) || Did(run, pid, Cancelled) || Did(run, pid, LeaseError)
  }

  ghost predicate Fetched(run: seq<Event>, pid: nat) {
    Did(run, pid, GoAlone) || Did(run, pid, Acquired)
  }

  /** The process's latest action. */
  ghost function Last(run: seq<Event>, pid: nat): Option<Action> {
    if run == [] then None
    else if run[|run| - 1].pid == pid then Some(run[|run| - 1].action)
    else Last(run[..|run| - 1], pid)
  }

  /** What the latest action leaves a process in. */
  ghost predicate Follows(p: Phase, last: Action) {
    match p
    case Missing => last.Arrive? || last == Wake(false)
    case Waiting(_) => last.Join?
    case Leading(_, Polling) => last.Join? || last.PollMiss?
    case Leading(_, Backoff) => last.Refused?
    case Leading(_, Quitting) => last.LeaseError? || last.PollHit? || last.Cancelled?
    case Serving(_, _) => last.GoAlone? || last.Acquired? || last.Serve?
    case Quit(_) => last.FinishNow?
    case Left => last == Wake(true) || last.Abandon?
  }

  /** What the whole run says about a process. */
  ghost predicate Fate(run: seq<Event>, pid: nat, p: Phase) {
    && Last(run, pid).Some? && Follows(p, Last(run, pid).value)
    && (Did(run, pid, Wake(true)) || Did(run, pid, Abandon) <==> p.Left?)
    && (Did(run, pid, PollHit) || Did(run, pid, Cancelled) || Did(run, pid, LeaseError) <==>
          p.Quit? || (p.Leading? && p.lead.Quitting?))
    && (Fetched(run, pid) <==> p.Serving?)
    && (p.Serving? ==> (Did(run, pid, Acquired) <==> !p.run.lease.NoLease?))
  }

  lemma DidMore(run: seq<Event>, e: Event)
    ensures forall pid, a :: Did(run + [e], pid, a) <==> Did(run, pid, a) || e == Event(pid, a)
  {
  }

  /** The process that acts. */
  lemma FateMoves(run: seq<Event>, w: World, pid: nat, a: Action)
    requires Enabled(w, pid, a) && pid in w.procs && Fate(run, pid, w.procs[pid].phase)
    ensures Fate(run + [Event(pid, a)], pid, Next(w, pid, a).procs[pid].phase)
  {
    var more, before, after := run + [Event(pid, a)], w.procs[pid].phase, NextPhase(w.group, w.procs[pid], a);
    assert more[..|more| - 1] == run;
    assert Last(more, pid) == Some(a);
    DidMore(run, Event(pid, a));
    hide Did, Last, Completion.Next, Completion.Enabled, NextGroup;
    assert Next(w, pid, a).procs[pid].phase == after;
    if before.Serving? {
      Completion.LeaseStays(before.run, a.move);
    } else if before.Leading? {
      assert !a.Wake? && !a.Abandon? && !a.Join?;
    } else {
      assert a.Join? || a.Wake? || a.Abandon?;
    }
  }

  /** A request that arrives. */
  lemma FateArrives(run: seq<Event>, pid: nat, key: string)
    requires forall a :: !Did(run, pid, a)
    ensures Fate(run + [Event(pid, Arrive(key))], pid, Missing)
  {
    var e := Event(pid, Arrive(key));
    assert (run + [e])[..|run|] == run;
    DidMore(run, e);
    hide Did;
  }

  /** A process that does not act. */
  lemma FateStays(run: seq<Event>, e: Event, pid: nat, p: Phase)
    requires Fate(run, pid, p) && e.pid != pid
    ensures Fate(run + [e], pid, p)
  {
    assert (run + [e])[..|run|] == run;
    DidMore(run, e);
    hide Did, Follows;
  }

  ghost predicate Fates(run: seq<Event>, w: World) {
    && (forall pid :: pid in w.procs ==> Fate(run, pid, w.procs[pid].phase))
    && (forall pid: nat, a: Action :: pid !in w.procs ==> !Did(run, pid, a))
  }

  lemma FatesStep(run: seq<Event>, w: World, e: Event)
    requires Fates(run, w) && Enabled(w, e.pid, e.action)
    ensures Fates(run + [e], Next(w, e.pid, e.action))
  {
    var v := Next(w, e.pid, e.action);
    assert v.procs == w.procs[e.pid := v.procs[e.pid]];
    forall pid | pid in v.procs ensures Fate(run + [e], pid, v.procs[pid].phase) {
      if pid != e.pid {
        FateStays(run, e, pid, w.procs[pid].phase);
      } else if e.action.Arrive? {
        FateArrives(run, pid, e.action.key);
      } else {
        FateMoves(run, w, pid, e.action);
      }
    }
    DidMore(run, e);
    hide Did;
  }

  /** Every process of a run has met the fate its actions tell. */
  lemma {:induction false} FatesHold(run: seq<Event>)
    requires After(run).Some?
    ensures Fates(run, After(run).value)
  {
    if run != [] {
      hide Fates, Next, Enabled;
      var n := |run| - 1;
      FatesHold(run[..n]);
      FatesStep(run[..n], After(run[..n]).value, run[n]);
      assert run[..n] + [run[n]] == run;
    }
  }

  /** A request that is done was served from the cache, gave up, or fetched the artifact itself, and only one of these;
      so one that is neither cancelled nor failed by the coordinator ends with a hit or with an answer from upstream. A
      lease it acquired has been released. */
  lemma EveryRequestEnds(run: seq<Event>, pid: nat)
    requires After(run).Some? && pid in After(run).value.procs && Done(After(run).value.procs[pid].phase)
    ensures Served(run, pid) || GaveUp(run, pid) || Fetched(run, pid)
    ensures Fetched(run, pid) ==> !Served(run, pid) && !GaveUp(run, pid)
    ensures var phase := After(run).value.procs[pid].phase;
      Fetched(run, pid) ==>
        && phase.Serving? && Completion.Ended(phase.run) && phase.run.closes == 1
        && (Did(run, pid, Acquired) ==> phase.run.lease.Released?)
  {
    FatesHold(run);
    RunReaches(run);
    var w := After(run).value;
    Invariant(w, |run|);
    hide Did, Reaches, After;
    assert Fate(run, pid, w.procs[pid].phase);
    assert Fits(w.group, w.procs[pid]);
  }

  /** A waiter leaves only served or cancelled. Woken to a miss it is back where it started: it joins again, as the leader
      of a new call or as a waiter of the open one. */
  lemma WaitersGoOn(run: seq<Event>, pid: nat)
    requires After(run).Some? && pid in After(run).value.procs
    ensures var w := After(run).value;
      && (w.procs[pid].phase.Left? <==> Did(run, pid, Wake(true)) || Did(run, pid, Abandon))
      && (Last(run, pid) == Some(Wake(false)) ==> Enabled(w, pid, Join))
      && (Enabled(w, pid, Join) ==>
            var next := Next(w, pid, Join).procs[pid].phase;
            if w.procs[pid].key in w.group.calls then next == Waiting(w.group.calls[w.procs[pid].key])
            else next.Leading? && next.call == w.group.created)
  {
    FatesHold(run);
    hide After, Did;
    assert Fate(run, pid, After(run).value.procs[pid].phase);
  }
}
