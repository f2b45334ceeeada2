/** The slots an upstream call takes and the layers of closing functions wrapped around its response body. Releasing a
    slot, closing a layer and cancelling the context are separate effects; only once flags keep them from repeating. */
module Slots {
  import opened Options

  /** released: the once flag of the release function; wrapped: the response body got the layer whose Close releases the
      slot; closed: the once flag of that layer. */
  datatype Attempt = Attempt(released: bool, wrapped: bool, closed: bool)

  const DONE := Attempt(true, true, true)

  datatype Place =
    | Cooling     // before a slot: cooldown and queue
    | Requesting  // the request is out
    | Erring      // it failed and its slot was released; the context is still to be cancelled
    | Inspecting  // the body is wrapped once
    | Resting     // drained, between attempts
    | Answered    // a body is with the caller
    | Failed

  /** The body handed to the caller: over the attempt's layer, or over a made-up body; cancelled is its once flag. */
  datatype Body = NoBody | Body(overAttempt: bool, cancelled: bool)

  /** past, current: the attempts; given: how often a slot was put back; cancels: how often the context was cancelled. */
  datatype Call = Call(registry: string, place: Place, past: seq<Attempt>, current: Option<Attempt>, body: Body,
                       given: nat, cancels: nat)

  function Start(registry: string): Call {
    Call(registry, Cooling, [], None, NoBody, 0, 0)
  }

  /** Slots taken so far. */
  function Taken(c: Call): nat {
    |c.past| + if c.current.Some? then 1 else 0
  }

  datatype Action =
    | Admit             // a slot is free
    | Refuse            // the cooldown answers
    | GiveUp            // cancel and return the error
    | Break             // the request fails: release
    | Reply             // wrap the response's body
    | HandOver          // wrap it again and return it
    | Drain             // close the first layer
    | Again             // the next attempt, with new variables
    | CloseFirst(i: nat) // somebody closes the first layer of an attempt
    | CloseBody         // the caller closes the body it was given

  predicate Enabled(c: Call, a: Action) {
    match a
    case Admit => c.place.Cooling?
    case Refuse => c.place.Cooling?
    case GiveUp => c.place.Cooling? || c.place.Erring? || c.place.Resting?
    case Break => c.place.Requesting? && c.current.Some?
    case Reply => c.place.Requesting? && c.current.Some?
    case HandOver => c.place.Inspecting?
    case Drain => c.place.Inspecting? && c.current.Some?
    case Again => c.place.Resting? && c.current.Some?
    case CloseFirst(i) => if i < |c.past| then c.past[i].wrapped else c.current.Some? && c.current.value.wrapped
    case CloseBody => c.body.Body?
  }

  /** The release function of one attempt. */
  function Release(a: Attempt): (Attempt, nat) {
    if a.released then (a, 0) else (a.(released := true), 1)
  }

  /** Close of the layer around it. */
  function CloseLayer(a: Attempt): (Attempt, nat) {
    if a.closed then (a, 0) else Release(a.(closed := true))
  }

  /** Each once flag alone makes a second call do nothing, and the first gives back one slot that is held. */
  lemma OnceOnly(a: Attempt)
    ensures Release(Release(a).0) == (Release(a).0, 0) && Release(a).1 == if a.released then 0 else 1
    ensures CloseLayer(CloseLayer(a).0) == (CloseLayer(a).0, 0)
    ensures CloseLayer(a).1 == if a.released || a.closed then 0 else 1
  {
  }

  function CloseCurrent(c: Call): Call {
    if c.current.None? then c
    else
      var (a, n) := CloseLayer(c.current.value);
      c.(current := Some(a), given := c.given + n)
  }

  function ClosePast(c: Call, i: nat): Call
    requires i < |c.past|
  {
    var (a, n) := CloseLayer(c.past[i]);
    c.(past := c.past[i := a], given := c.given + n)
  }

  function Cancel(c: Call): Call {
    c.(cancels := c.cancels + 1)
  }

  function Act(c: Call, a: Action): Call
    requires Enabled(c, a)
  {
    match a
    case Admit => c.(place := Requesting, current := Some(Attempt(false, false, false)))
    case Refuse => c.(place := Answered, body := Body(false, false))
    case GiveUp => Cancel(c).(place := Failed)
    case Break =>
      var (freed, n) := Release(c.current.value);
      c.(place := Erring, current := Some(freed), given := c.given + n)
    case Reply => c.(place := Inspecting, current := Some(c.current.value.(wrapped := true)))
    case HandOver => c.(place := Answered, body := Body(true, false))
    case Drain => CloseCurrent(c).(place := Resting)
    case Again => c.(place := Cooling, past := c.past + [c.current.value], current := None)
    case CloseFirst(i) => if i < |c.past| then ClosePast(c, i) else CloseCurrent(c)
    case CloseBody =>
      var closed := if c.body.overAttempt then CloseCurrent(c) else c;
      if c.body.cancelled then closed else Cancel(closed).(body := c.body.(cancelled := true))
  }

  // ---- one call ----

  /** The call holds a slot. */
  predicate Holds(c: Call) {
    c.current.Some? && !c.current.value.released
  }

  ghost predicate AllDone(attempts: seq<Attempt>) {
    forall i :: 0 <= i < |attempts| ==> attempts[i] == DONE
  }

  /** What each place says about the current attempt. */
  ghost predicate Placed(c: Call) {
    match c.place
    case Cooling => c.current == None
    case Requesting => c.current == Some(Attempt(false, false, false))
    case Erring => c.current == Some(Attempt(true, false, false))
    case Inspecting => c.current.Some? && Wrapped(c.current.value)
    case Resting => c.current == Some(DONE)
    case Answered =>
      if c.body.Body? && c.body.overAttempt then c.current.Some? && Wrapped(c.current.value) else c.current == None
    case Failed => c.current.Some? ==> c.current.value.released && (c.current.value.wrapped ==> c.current.value == DONE)
  }

  /** A wrapped attempt holds its slot until its layer is closed. */
  predicate Wrapped(a: Attempt) {
    a == Attempt(false, true, false) || a == DONE
  }

  ghost predicate Ok(c: Call) {
    && AllDone(c.past) && Placed(c) && (c.body.Body? <==> c.place.Answered?)
    && (c.body.Body? && c.body.cancelled && c.body.overAttempt ==> c.current == Some(DONE))
    && c.given == Taken(c) - (if Holds(c) then 1 else 0)
    && c.cancels == (if c.place.Failed? || (c.body.Body? && c.body.cancelled) then 1 else 0)
  }

  lemma OkStep(c: Call, a: Action)
    requires Ok(c) && Enabled(c, a)
    ensures Ok(Act(c, a))
  {
    match a
    case CloseFirst(i) =>
      if i < |c.past| {
        assert c.past[i] == DONE;
        assert c.past[i := DONE] == c.past;
      }
    case Again => assert AllDone(c.past + [c.current.value]);
    case _ =>
  }

  ghost function After(registry: string, actions: seq<Action>): Option<Call> {
    if actions == [] then Some(Start(registry))
    else
      var before := After(registry, actions[..|actions| - 1]);
      if before.Some? && Enabled(before.value, actions[|actions| - 1]) then Some(Act(before.value, actions[|actions| - 1]))
      else None
  }


  lemma {:induction false} AlwaysOk(registry: string, actions: seq<Action>)
    requires After(registry, actions).Some?
    ensures Ok(After(registry, actions).value)
  {
    if actions != [] {
      hide Ok, Enabled, Act;
      var n := |actions| - 1;
      AlwaysOk(registry, actions[..n]);
      OkStep(After(registry, actions[..n]).value, actions[n]);
    } else {
      assert Ok(Start(registry));
    }
  }

  /** Nobody owes anything any more: the call failed, or the caller has closed the body it was given. */
  predicate Over(c: Call) {
    c.place.Failed? || (c.body.Body? && c.body.cancelled)
  }

  /** However often either layer is closed and by whomever: no slot is given back twice, the context is never cancelled
      twice; and once the call is over every slot it took has been given back and its context cancelled. */
  lemma ReleasedExactlyOnce(registry: string, actions: seq<Action>)
    requires After(registry, actions).Some?
    ensures var c := After(registry, actions).value;
      && c.given + (if Holds(c) then 1 else 0) == Taken(c) && c.cancels <= 1
      && (Holds(c) <==> c.place.Requesting? || (c.current.Some? && c.current.value.wrapped && !c.current.value.closed))
      && (c.cancels == 1 <==> Over(c)) && (Over(c) ==> c.given == Taken(c))
  {
    AlwaysOk(registry, actions);
  }

  // ---- all calls together ----

  /** slots: how many tokens each registry's limiter holds. */
  datatype World = World(calls: map<nat, Call>, slots: map<string, int>)

  datatype Event = Begin(registry: string) | Do(action: Action)

  function Used(w: World, registry: string): int {
    if registry in w.slots then w.slots[registry] else 0
  }

  /** A slot is free only while the limiter has room. */
  predicate CanMove(capacity: nat, w: World, id: nat, e: Event) {
    if id !in w.calls then e.Begin?
    else e.Do? && Enabled(w.calls[id], e.action) && (e.action.Admit? ==> Used(w, w.calls[id].registry) < capacity)
  }

  /** Taking a slot puts a token into the limiter; every release that runs takes one out. */
  function Move(capacity: nat, w: World, id: nat, e: Event): World
    requires CanMove(capacity, w, id, e)
  {
    if e.Begin? then w.(calls := w.calls[id := Start(e.registry)])
    else
      var c := w.calls[id];
      var d := Act(c, e.action);
      World(w.calls[id := d], w.slots[c.registry := Used(w, c.registry) + (Taken(d) - Taken(c)) - (d.given - c.given)])
  }

  /** A call can begin at any time, and a waiting one is given a slot exactly while the limiter has room. */
  lemma SlotsAreGranted(capacity: nat, w: World, id: nat, registry: string)
    ensures id !in w.calls ==> CanMove(capacity, w, id, Begin(registry))
    ensures id in w.calls && w.calls[id].place.Cooling? ==>
      (CanMove(capacity, w, id, Do(Admit)) <==> Used(w, w.calls[id].registry) < capacity)
    ensures id in w.calls && w.calls[id].body.Body? ==> CanMove(capacity, w, id, Do(CloseBody))
  {
  }

  ghost function Holders(calls: map<nat, Call>, registry: string): set<nat> {
    set id | id in calls && Holds(calls[id]) && calls[id].registry == registry
  }

  ghost predicate Inv(capacity: nat, w: World) {
    && (forall id :: id in w.calls ==> Ok(w.calls[id]))
    && (forall r :: Used(w, r) == |Holders(w.calls, r)| <= capacity)
  }

  lemma HoldersMove(calls: map<nat, Call>, after: map<nat, Call>, id: nat, r: string)
    requires id in after && after == calls[id := after[id]]
    ensures |Holders(after, r)| == |Holders(calls, r)|
      - (if id in Holders(calls, r) then 1 else 0) + (if id in Holders(after, r) then 1 else 0)
  {
    forall i ensures i in Holders(after, r) - {id} <==> i in Holders(calls, r) - {id} {
    }
    assert Holders(after, r) - {id} == Holders(calls, r) - {id};
    hide Holders;
    SetMinus(Holders(calls, r), id);
    SetMinus(Holders(after, r), id);
  }

  lemma SetMinus(s: set<nat>, id: nat)
    ensures |s| == |s - {id}| + (if id in s then 1 else 0)
  {
    if id !in s {
      assert s - {id} == s;
    }
  }

  /** The slots a call's step takes and gives are the change in what it holds. */
  lemma StepBalances(c: Call, a: Action)
    requires Ok(c) && Enabled(c, a)
    ensures var d := Act(c, a);
      && d.registry == c.registry
      && (Taken(d) - Taken(c)) - (d.given - c.given) == (if Holds(d) then 1 else 0) - (if Holds(c) then 1 else 0)
      && (Holds(d) && !Holds(c) ==> a.Admit?)
  {
    OkStep(c, a);
    hide AllDone, Placed;
    if !a.Admit? {
      NothingNewHeld(c, a);
    }
  }

  lemma NothingNewHeld(c: Call, a: Action)
    requires Ok(c) && Enabled(c, a) && !a.Admit?
    ensures Act(c, a).registry == c.registry && (Holds(Act(c, a)) ==> Holds(c))
  {
  }

  lemma InvMove(capacity: nat, w: World, id: nat, e: Event)
    requires Inv(capacity, w) && CanMove(capacity, w, id, e)
    ensures Inv(capacity, Move(capacity, w, id, e))
  {
    hide Ok, Holds, Enabled, Act;
    var v := Move(capacity, w, id, e);
    if e.Do? {
      OkStep(w.calls[id], e.action);
      StepBalances(w.calls[id], e.action);
    } else {
      StartsOk(e.registry);
    }
    forall r ensures Used(v, r) == |Holders(v.calls, r)| <= capacity {
      HoldersMove(w.calls, v.calls, id, r);
    }
  }

  lemma StartsOk(registry: string)
    ensures Ok(Start(registry)) && !Holds(Start(registry))
  {
  }

  ghost predicate Reaches(capacity: nat, w: World, n: nat)
    decreases n
  {
    if n == 0 then w == World(map[], map[])
    else exists before, id, e :: Reaches(capacity, before, n - 1) && Moves(capacity, before, id, e, w)
  }

  ghost predicate Moves(capacity: nat, before: World, id: nat, e: Event, w: World) {
    CanMove(capacity, before, id, e) && w == Move(capacity, before, id, e)
  }

  /** Across all runs the tokens in a registry's limiter are its calls that are being requested or whose body is not
      closed, never more than its capacity and never fewer than none. */
  lemma {:induction false} SlotsAreBodies(capacity: nat, w: World, n: nat)
    requires Reaches(capacity, w, n)
    ensures Inv(capacity, w)
    decreases n
  {
    if n > 0 {
      hide Inv, CanMove, Move;
      var before, id, e :| Reaches(capacity, before, n - 1) && Moves(capacity, before, id, e, w);
      SlotsAreBodies(capacity, before, n - 1);
      InvMove(capacity, before, id, e);
    } else {
      NothingUsed(capacity);
    }
  }

  lemma NothingUsed(capacity: nat)
    ensures Inv(capacity, World(map[], map[]))
  {
    assert forall r :: Holders(map[], r) == {};
  }

  /** In every reachable world each call has come to where it is by a run of its own. */
  lemma {:induction false} CallsAreRuns(capacity: nat, w: World, n: nat, id: nat) returns (actions: seq<Action>)
    requires Reaches(capacity, w, n) && id in w.calls
    ensures After(w.calls[id].registry, actions) == Some(w.calls[id])
    decreases n
  {
    hide Act, Enabled, After;
    var before, i, e :| Reaches(capacity, before, n - 1) && Moves(capacity, before, i, e, w);
    if id != i {
      actions := CallsAreRuns(capacity, before, n - 1, id);
    } else if e.Begin? {
      actions := [];
      StartsEmpty(e.registry);
    } else {
      var earlier := CallsAreRuns(capacity, before, n - 1, id);
      actions := earlier + [e.action];
      Longer(before.calls[id], earlier, e.action);
    }
  }

  lemma StartsEmpty(registry: string)
    ensures After(registry, []) == Some(Start(registry))
  {
  }

  lemma Longer(c: Call, actions: seq<Action>, a: Action)
    requires After(c.registry, actions) == Some(c) && Enabled(c, a)
    ensures Act(c, a).registry == c.registry && After(c.registry, actions + [a]) == Some(Act(c, a))
  {
    assert (actions + [a])[..|actions|] == actions;
  }

  /** When every call is over, every slot is free again. */
  lemma AllSlotsReturn(capacity: nat, w: World, n: nat, registry: string)
    requires Reaches(capacity, w, n) && forall id :: id in w.calls ==> Over(w.calls[id])
    ensures Used(w, registry) == 0
  {
    SlotsAreBodies(capacity, w, n);
    assert Holders(w.calls, registry) == {};
  }
}
