/** Cache fills inside one process: the first request for a missing key leads, the others wait for its
    call to be closed, and responsibility for closing it passes from the handler to the background store. */
module Fill {
  import Completion

  /** calls: the open call of each key; created: how many calls there have been; closed: the calls whose done
      signal is closed; panicked: some signal was closed a second time. */
  datatype Group = Group(calls: map<string, nat>, created: nat, closed: set<nat>, panicked: bool)

  const EMPTY := Group(map[], 0, {}, false)

  function Joined(g: Group, key: string): Group {
    if key in g.calls then g else g.(calls := g.calls[key := g.created], created := g.created + 1)
  }

  function Finished(g: Group, key: string, call: nat): Group {
    if key in g.calls && g.calls[key] == call
    then Group(g.calls - {key}, g.created, g.closed + {call}, g.panicked || call in g.closed)
    else g
  }

  ghost predicate Open(g: Group, call: nat) {
    exists k :: k in g.calls && g.calls[k] == call
  }

  /** Open calls are unclosed and belong to one key each; every call is open or closed, and none was closed twice. */
  ghost predicate Sound(g: Group) {
    && (forall k :: k in g.calls ==> g.calls[k] < g.created && g.calls[k] !in g.closed)
    && (forall k, l :: k in g.calls && l in g.calls && g.calls[k] == g.calls[l] ==> k == l)
    && (forall c :: c in g.closed ==> c < g.created)
    && (forall c: nat :: c < g.created ==> c in g.closed || Open(g, c))
    && !g.panicked
  }

  class FillGroup {
    var calls: map<string, nat>
    var created: nat
    var closed: set<nat>
    var panicked: bool

    ghost function Value(): Group
      reads this
    {
      Group(calls, created, closed, panicked)
    }

    constructor ()
      ensures Value() == EMPTY && Sound(Value())
    {
      calls, created, closed, panicked := map[], 0, {}, false;
    }

    method Begin(key: string) returns (call: nat, leader: bool)
      requires Sound(Value())
      modifies this
      ensures Value() == Joined(old(Value()), key) && Sound(Value())
      ensures leader == (key !in old(calls))
      ensures key in calls && calls[key] == call && call !in closed
      ensures leader ==> call == old(created)
    {
      leader := key !in calls;
      if leader {
        ghost var before := Value();
        calls, created := calls[key := created], created + 1;
        JoinedSound(before, key);
      }
      call := calls[key];
    }

    /** Closing twice would panic; the done signal is closed only by the call still in the map. */
    method Finish(key: string, call: nat)
      requires Sound(Value())
      modifies this
      ensures Value() == Finished(old(Value()), key, call) && Sound(Value())
      ensures key in old(calls) && old(calls)[key] == call ==> call !in old(closed) && call in closed
    {
      if key !in calls || calls[key] != call {
        return;
      }
      ghost var before := Value();
      panicked := panicked || call in closed;
      calls, closed := calls - {key}, closed + {call};
      FinishedSound(before, key, call);
    }
  }

  lemma JoinedSound(g: Group, key: string)
    requires Sound(g)
    ensures Sound(Joined(g, key))
  {
    var h := Joined(g, key);
    if key !in g.calls {
      forall c: nat | c < h.created ensures c in h.closed || Open(h, c) {
        if c == g.created {
          assert h.calls[key] == c;
        } else if c !in g.closed {
          var k :| k in g.calls && g.calls[k] == c;
          assert h.calls[k] == c;
        }
      }
    }
  }

  lemma FinishedSound(g: Group, key: string, call: nat)
    requires Sound(g)
    ensures Sound(Finished(g, key, call))
  {
    var h := Finished(g, key, call);
    if h != g {
      forall c: nat | c < h.created ensures c in h.closed || Open(h, c) {
        if c != call && c !in g.closed {
          var k :| k in g.calls && g.calls[k] == c;
          assert h.calls[k] == c;
        }
      }
    }
  }

  /** Finishing an open call whose signal is already closed would panic, and the group would know it. */
  lemma ClosingTwicePanics(g: Group, key: string, call: nat)
    requires key in g.calls && g.calls[key] == call
    ensures Finished(g, key, call).panicked <==> g.panicked || call in g.closed
    ensures Finished(g, key, call).closed == g.closed + {call} && key !in Finished(g, key, call).calls
  {
  }

  // ---- every interleaving of requests ----

  /** Where a leader is before it enters serveUpstream. */
  datatype Lead =
    | Polling    // about to try for the lease, or to go on without a coordinator
    | Backoff    // the lease is another replica's: waiting for the poll interval
    | Quitting   // lease error, cancellation or a hit: about to finish the call

  datatype Phase =
    | Missing                          // about to join the key's fill
    | Waiting(call: nat)               // on the call's done signal
    | Leading(call: nat, lead: Lead)
    | Serving(call: nat, run: Completion.Run)     // in serveUpstream and the store it leaves behind
    | Quit(call: nat)                  // led, and finished its call itself
    | Left                             // waited, and was served or went away

  datatype Proc = Proc(key: string, phase: Phase)

  datatype World = World(group: Group, procs: map<nat, Proc>)

  datatype Action =
    | Arrive(key: string)    // a request finds no cached artifact
    | Join
    | Wake(hit: bool)        // the signal is closed; the cache is read again
    | Abandon                // the waiting request is cancelled
    | GoAlone                // there is no coordinator
    | Acquired | Refused | LeaseError
    | PollMiss | PollHit | Cancelled
    | FinishNow
    | Serve(move: Completion.Move)

  /** The process owes its call a completion. */
  predicate Owes(p: Phase) {
    p.Leading? || (p.Serving? && p.run.closes == 0)
  }

  predicate Led(p: Phase) {
    p.Leading? || p.Serving? || p.Quit?
  }

  predicate Done(p: Phase) {
    p.Quit? || p.Left? || (p.Serving? && Completion.Ended(p.run))
  }

  predicate Enabled(w: World, pid: nat, a: Action) {
    if pid !in w.procs then a.Arrive?
    else
      var phase := w.procs[pid].phase;
      match a
      case Arrive(_) => false
      case Join => phase.Missing?
      case Wake(_) => phase.Waiting? && phase.call in w.group.closed
      case Abandon => phase.Waiting?
      case GoAlone => phase.Leading? && phase.lead.Polling?
      case Acquired => phase.Leading? && phase.lead.Polling?
      case Refused => phase.Leading? && phase.lead.Polling?
      case LeaseError => phase.Leading? && phase.lead.Polling?
      case PollMiss => phase.Leading? && phase.lead.Backoff?
      case PollHit => phase.Leading? && phase.lead.Backoff?
      case Cancelled => phase.Leading? && phase.lead.Backoff?
      case FinishNow => phase.Leading? && phase.lead.Quitting?
      case Serve(move) => phase.Serving? && Completion.Enabled(phase.run, move)
  }

  function NextPhase(g: Group, p: Proc, a: Action): Phase {
    match a
    case Join => if p.key in g.calls then Waiting(g.calls[p.key]) else Leading(g.created, Polling)
    case Wake(hit) => if hit then Left else Missing
    case Abandon => Left
    case _ =>
      match p.phase
      case Leading(call, _) => (
        match a
        case GoAlone => Serving(call, Completion.Start(false))
        case Acquired => Serving(call, Completion.Start(true))
        case Refused => Leading(call, Backoff)
        case PollMiss => Leading(call, Polling)
        case FinishNow => Quit(call)
        case _ => Leading(call, Quitting))
      case Serving(call, run) => if a.Serve? then Serving(call, Completion.Next(run, a.move)) else p.phase
      case _ => p.phase
  }

  /** The group sees a join, a finish called directly, and every finish a completion goes on to make. */
  function NextGroup(g: Group, p: Proc, a: Action): Group {
    if a.Join? then Joined(g, p.key)
    else if a.FinishNow? && p.phase.Leading? then Finished(g, p.key, p.phase.call)
    else if a.Serve? && p.phase.Serving? && Completion.Next(p.phase.run, a.move).closes > p.phase.run.closes then
      Finished(g, p.key, p.phase.call)
    else g
  }

  function Next(w: World, pid: nat, a: Action): World
    requires Enabled(w, pid, a)
  {
    if a.Arrive? then w.(procs := w.procs[pid := Proc(a.key, Missing)])
    else
      var p := w.procs[pid];
      World(NextGroup(w.group, p, a), w.procs[pid := Proc(p.key, NextPhase(w.group, p, a))])
  }

  ghost predicate Reaches(w: World, n: nat)
    decreases n
  {
    if n == 0 then w == World(EMPTY, map[])
    else exists before, pid, a :: Reaches(before, n - 1) && Steps(before, pid, a, w)
  }

  ghost predicate Steps(before: World, pid: nat, a: Action, w: World) {
    Enabled(before, pid, a) && w == Next(before, pid, a)
  }

  // ---- what every step keeps ----

  /** The process led this call. */
  ghost predicate Leads(w: World, pid: nat, call: nat) {
    pid in w.procs && Led(w.procs[pid].phase) && w.procs[pid].phase.call == call
  }

  ghost predicate HasLeader(w: World, call: nat) {
    exists p :: Leads(w, p, call)
  }

  /** What a process's phase says about the group. */
  ghost predicate Fits(g: Group, p: Proc) {
    match p.phase
    case Waiting(call) => (p.key in g.calls && g.calls[p.key] == call) || call in g.closed
    case Leading(call, _) => p.key in g.calls && g.calls[p.key] == call
    case Serving(call, run) =>
      Completion.Inv(run) && if run.closes == 0 then p.key in g.calls && g.calls[p.key] == call else call in g.closed
    case Quit(call) => call in g.closed
    case _ => true
  }

  ghost predicate Inv(w: World) {
    && Sound(w.group)
    && (forall p :: p in w.procs ==> Fits(w.group, w.procs[p]))
    // no call has two leaders, and none more than there are calls
    && (forall p, q, c :: Leads(w, p, c) && Leads(w, q, c) ==> p == q)
    && (forall p: nat, c: nat :: Leads(w, p, c) ==> c < w.group.created)
    // every call was led
    && (forall c: nat :: c < w.group.created ==> HasLeader(w, c))
  }

  /** A step that opens no call keeps the leaders. */
  lemma LeadersKept(w: World, v: World, pid: nat)
    requires Inv(w) && pid in w.procs && pid in v.procs && v.procs == w.procs[pid := v.procs[pid]]
    requires v.group.created == w.group.created
    requires Led(v.procs[pid].phase) <==> Led(w.procs[pid].phase)
    requires Led(v.procs[pid].phase) ==> v.procs[pid].phase.call == w.procs[pid].phase.call
    ensures forall p, c :: Leads(v, p, c) <==> Leads(w, p, c)
    ensures forall c: nat :: c < v.group.created ==> HasLeader(v, c)
  {
    hide Sound, Fits;
    forall c: nat | c < v.group.created ensures HasLeader(v, c) {
      assert HasLeader(w, c);
      var p :| Leads(w, p, c);
      assert Leads(v, p, c);
    }
  }

  lemma InvArrive(w: World, pid: nat, key: string)
    requires Inv(w) && pid !in w.procs
    ensures Inv(Next(w, pid, Arrive(key)))
  {
    hide Sound;
    var v := Next(w, pid, Arrive(key));
    forall p, c ensures Leads(v, p, c) <==> Leads(w, p, c) {
    }
    forall c: nat | c < v.group.created ensures HasLeader(v, c) {
      assert HasLeader(w, c);
      var p :| Leads(w, p, c);
      assert Leads(v, p, c);
    }
  }

  /** A process that joins becomes a waiter of the open call, or the leader of a new one. */
  lemma InvJoin(w: World, pid: nat)
    requires Inv(w) && Enabled(w, pid, Join)
    ensures Inv(Next(w, pid, Join))
  {
    var v, key := Next(w, pid, Join), w.procs[pid].key;
    JoinedSound(w.group, key);
    if key in w.group.calls {
      LeadersKept(w, v, pid);
      hide Sound, Leads;
      forall p | p in v.procs ensures Fits(v.group, v.procs[p]) {
        assert p != pid ==> Fits(w.group, w.procs[p]);
      }
    } else {
      OpenedLeaders(w, pid);
      OpenedFits(w, pid);
    }
  }

  lemma OpenedLeaders(w: World, pid: nat)
    requires Inv(w) && Enabled(w, pid, Join) && w.procs[pid].key !in w.group.calls
    ensures var v := Next(w, pid, Join);
      && (forall p, q, c :: Leads(v, p, c) && Leads(v, q, c) ==> p == q)
      && (forall p: nat, c: nat :: Leads(v, p, c) ==> c < v.group.created)
      && (forall c: nat :: c < v.group.created ==> HasLeader(v, c))
  {
    hide Sound, Fits;
    var v := Next(w, pid, Join);
    forall p, c ensures Leads(v, p, c) <==> if p == pid then c == w.group.created else Leads(w, p, c) {
    }
    forall c: nat | c < v.group.created ensures HasLeader(v, c) {
      if c == w.group.created {
        assert Leads(v, pid, c);
      } else {
        assert HasLeader(w, c);
        var p :| Leads(w, p, c);
        assert Leads(v, p, c);
      }
    }
  }

  lemma OpenedFits(w: World, pid: nat)
    requires Inv(w) && Enabled(w, pid, Join) && w.procs[pid].key !in w.group.calls
    ensures var v := Next(w, pid, Join); forall p :: p in v.procs ==> Fits(v.group, v.procs[p])
  {
    hide Sound, Leads, Completion.Inv;
    var v := Next(w, pid, Join);
    forall p | p in v.procs ensures Fits(v.group, v.procs[p]) {
      if p != pid {
        assert Fits(w.group, w.procs[p]);
      }
    }
  }

  /** A finish that removes the process's own open call. */
  lemma InvClose(w: World, pid: nat, v: World)
    requires Inv(w) && pid in w.procs && Owes(w.procs[pid].phase) && pid in v.procs
    requires v == World(Finished(w.group, w.procs[pid].key, w.procs[pid].phase.call), w.procs[pid := v.procs[pid]])
    requires var p, q := w.procs[pid], v.procs[pid];
      q.key == p.key && Led(q.phase) && q.phase.call == p.phase.call && !Owes(q.phase)
      && (q.phase.Serving? ==> Completion.Inv(q.phase.run))
    ensures Inv(v) && w.procs[pid].phase.call !in w.group.closed && w.procs[pid].phase.call in v.group.closed
  {
    var key, call := w.procs[pid].key, w.procs[pid].phase.call;
    assert Fits(w.group, w.procs[pid]);
    assert key in w.group.calls && w.group.calls[key] == call;
    FinishedSound(w.group, key, call);
    LeadersKept(w, v, pid);
    assert Leads(w, pid, call);
    forall p | p in v.procs ensures Fits(v.group, v.procs[p]) {
      if p != pid {
        assert Fits(w.group, w.procs[p]);
        if Owes(w.procs[p].phase) {
          OthersKeep(w, pid, p);
        }
      }
    }
  }

  /** Another process that still owes a call owes it under another key. */
  lemma OthersKeep(w: World, pid: nat, p: nat)
    requires Inv(w) && pid in w.procs && p in w.procs && p != pid
    requires Owes(w.procs[pid].phase) && Owes(w.procs[p].phase)
    ensures w.procs[p].key != w.procs[pid].key && w.procs[p].phase.call != w.procs[pid].phase.call
  {
    hide Sound;
    assert Fits(w.group, w.procs[p]) && Fits(w.group, w.procs[pid]);
    assert Leads(w, p, w.procs[p].phase.call) && Leads(w, pid, w.procs[pid].phase.call);
  }

  /** A step that leaves the group alone and the process's call as it was. */
  lemma InvMove(w: World, pid: nat, v: World)
    requires Inv(w) && pid in w.procs && pid in v.procs && v == World(w.group, w.procs[pid := v.procs[pid]])
    requires Led(v.procs[pid].phase) <==> Led(w.procs[pid].phase)
    requires Led(v.procs[pid].phase) ==> v.procs[pid].phase.call == w.procs[pid].phase.call
    requires Fits(w.group, v.procs[pid])
    ensures Inv(v)
  {
    LeadersKept(w, v, pid);
  }

  lemma InvServe(w: World, pid: nat, move: Completion.Move)
    requires Inv(w) && Enabled(w, pid, Serve(move))
    ensures Inv(Next(w, pid, Serve(move)))
  {
    hide Sound, Leads, Completion.Inv, Completion.Enabled, Completion.Next, Finished;
    var v := Next(w, pid, Serve(move));
    var run := w.procs[pid].phase.run;
    assert Fits(w.group, w.procs[pid]);
    Completion.InvStep(run, move);
    ClosesOnce(run, move);
    if Completion.Next(run, move).closes > run.closes {
      InvClose(w, pid, v);
    } else {
      InvMove(w, pid, v);
    }
  }

  lemma ClosesOnce(run: Completion.Run, move: Completion.Move)
    requires Completion.Inv(run) && Completion.Enabled(run, move)
    ensures run.closes <= Completion.Next(run, move).closes <= 1
  {
    Completion.InvStep(run, move);
    hide Completion.Next;
    CountsClose(run);
    CountsClose(Completion.Next(run, move));
    Completion.ClosesGrow(run, move);
  }

  lemma CountsClose(run: Completion.Run)
    requires Completion.Inv(run)
    ensures run.closes <= 1
  {
  }

  lemma InvLead(w: World, pid: nat, a: Action)
    requires Inv(w) && Enabled(w, pid, a) && pid in w.procs && w.procs[pid].phase.Leading?
    ensures Inv(Next(w, pid, a))
  {
    hide Sound, Leads, Completion.Inv, Finished;
    var v := Next(w, pid, a);
    assert Fits(w.group, w.procs[pid]);
    if a.FinishNow? {
      InvClose(w, pid, v);
    } else {
      Completion.InvStart(true);
      Completion.InvStart(false);
      InvMove(w, pid, v);
    }
  }

  lemma InvStep(w: World, pid: nat, a: Action)
    requires Inv(w) && Enabled(w, pid, a)
    ensures Inv(Next(w, pid, a))
  {
    hide Inv, Completion.Enabled;
    if a.Arrive? {
      InvArrive(w, pid, a.key);
    } else if a.Join? {
      InvJoin(w, pid);
    } else if a.Serve? {
      InvServe(w, pid, a.move);
    } else if w.procs[pid].phase.Leading? {
      InvLead(w, pid, a);
    } else {
      InvMove(w, pid, Next(w, pid, a));
    }
  }

  lemma {:induction false} Invariant(w: World, n: nat)
    requires Reaches(w, n)
    ensures Inv(w)
    decreases n
  {
    if n == 0 {
      NothingYet();
    } else {
      hide Inv, Enabled, Next;
      var before, pid, a :| Reaches(before, n - 1) && Steps(before, pid, a, w);
      Invariant(before, n - 1);
      InvStep(before, pid, a);
    }
  }

  lemma NothingYet()
    ensures Inv(World(EMPTY, map[]))
  {
  }

  // ---- results ----

  /** In every interleaving one key has at most one process that leads, fetches, captures or stores. */
  lemma OneFillPerKey(w: World, n: nat, p: nat, q: nat)
    requires Reaches(w, n) && p in w.procs && q in w.procs && Owes(w.procs[p].phase) && Owes(w.procs[q].phase)
    requires w.procs[p].key == w.procs[q].key
    ensures p == q
  {
    Invariant(w, n);
    hide Inv, Reaches;
    if p != q {
      OthersKeep(w, p, q);
    }
  }

  /** No signal is ever closed a second time. Every call has one leader, and is closed exactly when that leader has quit
      or its completion has run to the end; by then a started Put has returned, the lease is not held, and the handler
      has nothing left but deferred calls. */
  lemma ClosedExactlyOnce(w: World, n: nat, call: nat) returns (pid: nat)
    requires Reaches(w, n) && call < w.group.created
    ensures !w.group.panicked && Leads(w, pid, call) && (forall q :: Leads(w, q, call) ==> q == pid)
    ensures var phase := w.procs[pid].phase;
      && (call in w.group.closed <==> phase.Quit? || (phase.Serving? && phase.run.closes == 1))
      && (call in w.group.closed && phase.Serving? ==>
            && !phase.run.lease.Held?
            && phase.run.place in {Completion.CleanUp, Completion.InnerDone, Completion.OuterDone, Completion.Returned}
            && (phase.run.store.NoStore? || phase.run.putReturned))
  {
    Invariant(w, n);
    assert HasLeader(w, call);
    pid :| Leads(w, pid, call);
    assert Fits(w.group, w.procs[pid]);
  }

  /** A leader that is done has closed its call, and every call still open has a leader that is not done. */
  lemma DoneMeansClosed(w: World, n: nat)
    requires Reaches(w, n)
    ensures forall p :: p in w.procs && Led(w.procs[p].phase) && Done(w.procs[p].phase) ==>
      w.procs[p].phase.call in w.group.closed
    ensures forall key :: key in w.group.calls ==>
      exists p :: Leads(w, p, w.group.calls[key]) && Owes(w.procs[p].phase) && !Done(w.procs[p].phase)
  {
    Invariant(w, n);
    forall p | p in w.procs && Led(w.procs[p].phase) && Done(w.procs[p].phase)
      ensures w.procs[p].phase.call in w.group.closed
    {
      assert Fits(w.group, w.procs[p]);
    }
    forall key | key in w.group.calls
      ensures exists p :: Leads(w, p, w.group.calls[key]) && Owes(w.procs[p].phase) && !Done(w.procs[p].phase)
    {
      assert HasLeader(w, w.group.calls[key]);
      var p :| Leads(w, p, w.group.calls[key]);
      assert Fits(w.group, w.procs[p]);
    }
  }

  /** Steps still to come for a leader, not counting polls. */
  ghost function StepsLeft(p: Phase): nat {
    match p
    case Leading(_, lead) => if lead.Quitting? then 1 else 100
    case Serving(_, run) => Completion.Left(run)
    case _ => 0
  }

  /** A refused lease and the poll that follows it. */
  predicate Polls(a: Action) {
    a.Refused? || a.PollMiss?
  }

  predicate CallsAgain(a: Action) {
    a.Serve? && a.move.CallAgain?
  }

  /** Every step of a leader brings it closer to its end, except that a leader another replica keeps waiting may poll as
      long as it likes, and calling a completion again changes nothing. */
  lemma LeadersProgress(w: World, n: nat, pid: nat, a: Action)
    requires Reaches(w, n) && pid in w.procs && Led(w.procs[pid].phase) && Enabled(w, pid, a)
    ensures var before, after := w.procs[pid].phase, Next(w, pid, a).procs[pid].phase;
      if Polls(a) then StepsLeft(after) == StepsLeft(before)
      else if CallsAgain(a) then Next(w, pid, a).group == w.group && StepsLeft(after) == StepsLeft(before)
      else StepsLeft(after) < StepsLeft(before)
  {
    assert Fits(w.group, w.procs[pid]) by {
      Invariant(w, n);
    }
    hide Reaches, Completion.Left, Completion.Inv, Completion.Next, Completion.Enabled;
    if a.Serve? {
      var run := w.procs[pid].phase.run;
      if a.move.CallAgain? {
        AgainIsNothing(run);
      } else {
        Completion.LeftDecreases(run, a.move);
      }
    } else {
      StartLeft();
    }
  }

  lemma AgainIsNothing(run: Completion.Run)
    requires Completion.Enabled(run, Completion.CallAgain)
    ensures var r := Completion.Next(run, Completion.CallAgain);
      r.closes == run.closes && Completion.Left(r) == Completion.Left(run)
  {
  }

  lemma StartLeft()
    ensures forall leased :: Completion.Left(Completion.Start(leased)) < 100
  {
  }

  /** No wake-up is lost: a waiter can go on, or the process that leads the call it waits for can take a step that brings
      it closer to closing it. */
  lemma NoLostWakeup(w: World, n: nat, pid: nat) returns (p: nat, a: Action)
    requires Reaches(w, n) && pid in w.procs && w.procs[pid].phase.Waiting?
    ensures Enabled(w, p, a)
    ensures if p == pid then a.Wake? else Leads(w, p, w.procs[pid].phase.call) && !Polls(a) && !CallsAgain(a)
  {
    Invariant(w, n);
    hide Reaches;
    var call := w.procs[pid].phase.call;
    assert Fits(w.group, w.procs[pid]);
    if call in w.group.closed {
      p, a := pid, Wake(false);
    } else {
      assert HasLeader(w, call);
      p :| Leads(w, p, call);
      a := NextOf(w, p);
    }
  }

  lemma NextOf(w: World, p: nat) returns (a: Action)
    requires Inv(w) && p in w.procs && Led(w.procs[p].phase) && w.procs[p].phase.call !in w.group.closed
    ensures Enabled(w, p, a) && !Polls(a) && !CallsAgain(a)
  {
    hide Sound, Leads;
    assert Fits(w.group, w.procs[p]);
    match w.procs[p].phase
    case Leading(_, lead) =>
      a := if lead.Polling? then LeaseError else if lead.Backoff? then Cancelled else FinishNow;
    case Serving(_, run) =>
      var move := Completion.NeverStuck(run);
      a := Serve(move);
  }

  /** A waiter goes on only when the fill it waited for is over: its leader has quit or completed. */
  lemma WakesAfterCompletion(w: World, n: nat, pid: nat, hit: bool) returns (leader: nat)
    requires Reaches(w, n) && pid in w.procs && Enabled(w, pid, Wake(hit))
    ensures var call := w.procs[pid].phase.call;
      && call in w.group.closed && Leads(w, leader, call)
      && (w.procs[leader].phase.Quit? || (w.procs[leader].phase.Serving? && w.procs[leader].phase.run.closes == 1))
  {
    assert w.procs[pid].phase.call < w.group.created by {
      Invariant(w, n);
    }
    leader := ClosedExactlyOnce(w, n, w.procs[pid].phase.call);
  }

  /** A process is done exactly when there is nothing it could still do but call a completion again. */
  lemma DoneIsDone(w: World, n: nat, pid: nat)
    requires Reaches(w, n) && pid in w.procs
    ensures Done(w.procs[pid].phase) <==> forall a :: Enabled(w, pid, a) ==> CallsAgain(a)
  {
    assert Fits(w.group, w.procs[pid]) by {
      Invariant(w, n);
    }
    hide Reaches;
    var phase := w.procs[pid].phase;
    if !Done(phase) {
      var a := SomethingToDo(w, pid);
      assert Enabled(w, pid, a) && !CallsAgain(a);
    }
  }

  lemma SomethingToDo(w: World, pid: nat) returns (a: Action)
    requires pid in w.procs && Fits(w.group, w.procs[pid]) && !Done(w.procs[pid].phase)
    ensures Enabled(w, pid, a) && !CallsAgain(a)
  {
    match w.procs[pid].phase
    case Missing => a := Join;
    case Waiting(_) => a := Abandon;
    case Leading(_, lead) => a := if lead.Polling? then LeaseError else if lead.Backoff? then Cancelled else FinishNow;
    case Serving(_, run) =>
      var move := Completion.NeverStuck(run);
      a := Serve(move);
  }
}
