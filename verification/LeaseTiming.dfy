/** Replicas filling one cache key under a renewed lease, with a clock: when can two downloads overlap?
    A renewal is attempted every third of the lease and given up after the poll interval;
    a renewal that fails cancels the download. */
module LeaseTiming {
  import opened Options
  import opened Coordination

  /** lease: the lease duration; timeout: how long a renewal may take;
      latency: how long the response to a successful acquisition may take. */
  datatype Config = Config(lease: int, timeout: int, latency: int)

  ghost predicate Accepted(c: Config) {
    c.lease >= 3 * SECOND && 0 < c.timeout < c.lease && c.latency >= 0
  }

  function Period(c: Config): int {
    c.lease / 3
  }

  /** `base` is the clock reading carried by the owner's last applied write. */
  datatype Holder =
    | Acquiring(base: int)
    | Idle(base: int, due: int)
    | Renewing(base: int, sent: int, applied: bool)
    | Stopped

  /** The replica is downloading under its lease. */
  predicate Fetching(h: Holder) {
    h.Idle? || h.Renewing?
  }

  datatype World = World(clock: int, item: Option<Lease>, holders: map<string, Holder>)

  datatype Step =
    | Acquire(owner: string, now: int)
    | Return(owner: string)
    | Fire(owner: string)
    | Apply(owner: string)
    | Confirm(owner: string, due: int)
    | Cancel(owner: string)
    | Finish(owner: string)
    | LateApply(owner: string, now: int)
    | Release(owner: string)
    | Expire
    | Wait(until: int)

  /** How long the holder can stay in this phase. */
  ghost predicate InTime(c: Config, h: Holder, clock: int) {
    match h
    case Acquiring(base) => clock <= base + c.latency
    case Idle(_, due) => clock <= due
    case Renewing(_, sent, _) => clock <= sent + c.timeout
    case Stopped => true
  }

  ghost predicate Enabled(c: Config, w: World, step: Step) {
    match step
    case Acquire(o, now) => o !in w.holders && w.clock - c.latency <= now <= w.clock && CanAcquire(w.item, now)
    case Return(o) => o in w.holders && w.holders[o].Acquiring?
    case Fire(o) => o in w.holders && w.holders[o].Idle? && w.clock == w.holders[o].due
    case Apply(o) =>
      o in w.holders && w.holders[o].Renewing? && !w.holders[o].applied && CanRenew(w.item, o, w.holders[o].sent)
    case Confirm(o, due) =>
      && o in w.holders && w.holders[o].Renewing? && w.holders[o].applied
      && w.clock <= due && (due <= w.clock || due <= w.holders[o].sent + Period(c))
    case Cancel(o) => o in w.holders && (w.holders[o].Acquiring? || w.holders[o].Renewing?)
    case Finish(o) => o in w.holders && Fetching(w.holders[o])
    case LateApply(o, now) => o in w.holders && w.holders[o].Stopped? && now <= w.clock && CanRenew(w.item, o, now)
    case Release(o) => o in w.holders && w.holders[o].Stopped? && CanRelease(w.item, o)
    case Expire => w.item.Some? && w.item.value.expires * SECOND <= w.clock
    case Wait(until) => w.clock <= until && forall o :: o in w.holders ==> InTime(c, w.holders[o], until)
  }

  ghost function Next(c: Config, w: World, step: Step): World
    requires Enabled(c, w, step)
  {
    match step
    case Acquire(o, now) =>
      w.(item := Some(Lease(o, Unix(now + c.lease))), holders := w.holders[o := Acquiring(now)])
    case Return(o) =>
      w.(holders := w.holders[o := Idle(w.holders[o].base, w.clock + Period(c))])
    case Fire(o) =>
      w.(holders := w.holders[o := Renewing(w.holders[o].base, w.clock, false)])
    case Apply(o) =>
      var sent := w.holders[o].sent;
      w.(item := Some(Lease(o, Unix(sent + c.lease))), holders := w.holders[o := Renewing(sent, sent, true)])
    case Confirm(o, due) =>
      w.(holders := w.holders[o := Idle(w.holders[o].base, due)])
    case Cancel(o) => w.(holders := w.holders[o := Stopped])
    case Finish(o) => w.(holders := w.holders[o := Stopped])
    case LateApply(o, now) => w.(item := Some(Lease(o, Unix(now + c.lease))))
    case Release(_) => w.(item := None)
    case Expire => w.(item := None)
    case Wait(until) => w.(clock := until)
  }

  /** w is reached by n steps from a world with no lease and no replica. */
  ghost predicate Reaches(c: Config, w: World, n: nat)
    decreases n
  {
    if n == 0 then w.item == None && w.holders == map[]
    else exists before, step :: Reaches(c, before, n - 1) && Enabled(c, before, step) && w == Next(c, before, step)
  }

  /** Two replicas are downloading the key. */
  ghost predicate Overlap(w: World) {
    exists a, b :: a != b && a in w.holders && b in w.holders && Fetching(w.holders[a]) && Fetching(w.holders[b])
  }

  ghost predicate NoOverlap(c: Config) {
    forall w, n: nat :: Reaches(c, w, n) ==> !Overlap(w)
  }

  /** A renewal started after the slowest acquisition, or right behind the slowest renewal,
      is decided a full second before the lease it extends runs out. */
  predicate Safe(c: Config) {
    c.latency + Period(c) + c.timeout <= c.lease - SECOND && 2 * c.timeout <= c.lease - SECOND
  }

  // ---- safe configurations never overlap ----

  /** When the holder will have renewed or stopped, at the latest. */
  ghost function Limit(c: Config, h: Holder): int
    requires !h.Stopped?
  {
    match h
    case Acquiring(base) => base + c.latency + Period(c) + c.timeout
    case Idle(_, due) => due + c.timeout
    case Renewing(_, sent, _) => sent + c.timeout
  }

  ghost predicate Secure(c: Config, w: World, o: string)
    requires o in w.holders && !w.holders[o].Stopped?
  {
    var h := w.holders[o];
    && CanRelease(w.item, o) && w.item.value.expires >= Unix(h.base + c.lease)
    && h.base <= w.clock && InTime(c, h, w.clock)
    && Limit(c, h) <= h.base + c.lease - SECOND
    && (h.Renewing? ==> h.sent <= w.clock && (h.applied ==> h.base == h.sent))
  }

  ghost predicate AllSecure(c: Config, w: World) {
    forall o :: o in w.holders && !w.holders[o].Stopped? ==> Secure(c, w, o)
  }

  lemma SecureStep(c: Config, w: World, step: Step)
    requires Accepted(c) && Safe(c) && AllSecure(c, w) && Enabled(c, w, step)
    ensures AllSecure(c, Next(c, w, step))
  {
    var v := Next(c, w, step);
    forall o | o in v.holders && !v.holders[o].Stopped? ensures Secure(c, v, o) {
      if o in w.holders && !w.holders[o].Stopped? {
        assert Secure(c, w, o);
        SecureKept(c, w, o, step);
      }
    }
  }

  lemma SecureKept(c: Config, w: World, o: string, step: Step)
    requires Accepted(c) && Safe(c) && Enabled(c, w, step) && o in w.holders && !w.holders[o].Stopped? && Secure(c, w, o)
    ensures var v := Next(c, w, step); o in v.holders && (!v.holders[o].Stopped? ==> Secure(c, v, o))
  {
    StillOwns(c, w, o, step);
  }

  /** Nobody can take or delete a secure holder's record. */
  lemma StillOwns(c: Config, w: World, o: string, step: Step)
    requires Accepted(c) && Enabled(c, w, step) && o in w.holders && !w.holders[o].Stopped? && Secure(c, w, o)
    ensures CanRelease(Next(c, w, step).item, o)
    ensures !step.Acquire? && !step.Expire?
  {
    var h := w.holders[o];
    assert w.clock <= h.base + c.lease - SECOND;
    assert Unix(w.clock) < Unix(h.base + c.lease);
  }

  lemma {:induction false} ReachedIsSecure(c: Config, w: World, n: nat)
    requires Accepted(c) && Safe(c) && Reaches(c, w, n)
    ensures AllSecure(c, w)
    decreases n
  {
    if n > 0 {
      var before, step :| Reaches(c, before, n - 1) && Enabled(c, before, step) && w == Next(c, before, step);
      ReachedIsSecure(c, before, n - 1);
      SecureStep(c, before, step);
    }
  }

  // ---- every other configuration has an overlapping run ----

  lemma Extend(c: Config, before: World, n: nat, step: Step) returns (w: World)
    requires Reaches(c, before, n) && Enabled(c, before, step)
    ensures w == Next(c, before, step) && Reaches(c, w, n + 1)
  {
    w := Next(c, before, step);
  }

  /** A clock reading after the epoch, by more than a lease, whose lease expiry loses the most to truncation. */
  lemma UnluckyClock(c: Config) returns (t: int)
    ensures Unix(t + c.lease) * SECOND == t + c.lease - SECOND + 1 && t > c.lease
  {
    t := (2 * c.lease / SECOND + 2) * SECOND - 1 - c.lease;
  }

  /** Replica a in some phase, the table naming it. */
  ghost function Held(clock: int, expires: int, h: Holder): World {
    World(clock, Some(Lease("a", expires)), map["a" := h])
  }

  lemma Began(c: Config, t: int, late: int)
    requires Accepted(c) && t <= late <= t + c.latency
    ensures Reaches(c, Held(late, Unix(t + c.lease), Idle(t, late + Period(c))), 3)
  {
    hide Reaches;
    StartReached(c, t);
    var w := Extend(c, Start(t), 0, Step.Acquire("a", t));
    assert w == Held(t, Unix(t + c.lease), Acquiring(t));
    w := Extend(c, w, 1, Wait(late));
    w := Extend(c, w, 2, Return("a"));
    assert w == Held(late, Unix(t + c.lease), Idle(t, late + Period(c)));
  }

  lemma StartReached(c: Config, t: int)
    ensures Reaches(c, Start(t), 0)
  {
  }

  lemma Waited(c: Config, clock: int, expires: int, h: Holder, n: nat, until: int)
    requires Reaches(c, Held(clock, expires, h), n) && clock <= until && InTime(c, h, until)
    ensures Reaches(c, Held(until, expires, h), n + 1)
  {
    hide Reaches;
    var w := Extend(c, Held(clock, expires, h), n, Wait(until));
  }

  /** The renewal falls due and is sent. */
  lemma Fired(c: Config, clock: int, expires: int, base: int, due: int, n: nat)
    requires Reaches(c, Held(clock, expires, Idle(base, due)), n) && clock <= due
    ensures Reaches(c, Held(due, expires, Renewing(base, due, false)), n + 2)
  {
    hide Reaches;
    Waited(c, clock, expires, Idle(base, due), n, due);
    var w := Extend(c, Held(due, expires, Idle(base, due)), n + 1, Fire("a"));
    assert w == Held(due, expires, Renewing(base, due, false));
  }

  /** The renewal is applied at once and confirmed as late as it may be, behind the next tick. */
  lemma SlowlyRenewed(c: Config, sent: int, expires: int, base: int, n: nat)
    requires Accepted(c) && Reaches(c, Held(sent, expires, Renewing(base, sent, false)), n)
    requires expires >= Unix(sent) && Period(c) <= c.timeout
    ensures var late := sent + c.timeout; Reaches(c, Held(late, Unix(sent + c.lease), Idle(sent, late)), n + 3)
  {
    hide Reaches;
    var late := sent + c.timeout;
    var w := Extend(c, Held(sent, expires, Renewing(base, sent, false)), n, Apply("a"));
    assert w == Held(sent, Unix(sent + c.lease), Renewing(sent, sent, true));
    Waited(c, sent, Unix(sent + c.lease), Renewing(sent, sent, true), n + 1, late);
    w := Extend(c, Held(late, Unix(sent + c.lease), Renewing(sent, sent, true)), n + 2, Confirm("a", late));
    assert w == Held(late, Unix(sent + c.lease), Idle(sent, late));
  }

  /** While a downloads under a lease that has run out, another replica acquires the key and starts too. */
  lemma Intrude(c: Config, clock: int, expires: int, h: Holder, n: nat) returns (w: World)
    requires Accepted(c) && Reaches(c, Held(clock, expires, h), n) && Fetching(h) && expires * SECOND == clock
    ensures Reaches(c, w, n + 2) && Overlap(w)
  {
    hide Reaches;
    assert expires <= Unix(clock);
    w := Extend(c, Held(clock, expires, h), n, Step.Acquire("b", clock));
    w := Extend(c, w, n + 1, Return("b"));
    assert "a" != "b" && Fetching(w.holders["a"]) && Fetching(w.holders["b"]);
  }

  /** The first renewal can come too late. */
  lemma FirstRenewalLate(c: Config) returns (w: World, n: nat)
    requires Accepted(c) && c.latency + Period(c) + c.timeout > c.lease - SECOND
    ensures Reaches(c, w, n) && Overlap(w)
  {
    hide Reaches, Unix, Overlap;
    var t := UnluckyClock(c);
    var lost, expires := t + c.lease - SECOND + 1, Unix(t + c.lease);
    var late := if c.latency < lost - t then t + c.latency else lost;
    var due := late + Period(c);
    Began(c, t, late);
    if due < lost {
      Fired(c, late, expires, t, due, 3);
      Waited(c, due, expires, Renewing(t, due, false), 5, lost);
      w := Intrude(c, lost, expires, Renewing(t, due, false), 6);
      n := 8;
    } else {
      Waited(c, late, expires, Idle(t, due), 3, lost);
      w := Intrude(c, lost, expires, Idle(t, due), 4);
      n := 6;
    }
  }

  /** A renewal sent right after a slow one can come too late. */
  lemma SecondRenewalLate(c: Config) returns (w: World, n: nat)
    requires Accepted(c) && c.latency + Period(c) + c.timeout <= c.lease - SECOND && 2 * c.timeout > c.lease - SECOND
    ensures Reaches(c, w, n) && Overlap(w)
  {
    hide Reaches, Overlap;
    var sent := UnluckyClock(c);
    var lost, t, expires := sent + c.lease - SECOND + 1, sent - Period(c), Unix(sent + c.lease);
    var late := sent + c.timeout;
    Began(c, t, t);
    Fired(c, t, Unix(t + c.lease), t, sent, 3);
    SlowlyRenewed(c, sent, Unix(t + c.lease), t, 5);
    Fired(c, late, expires, sent, late, 8);
    Waited(c, late, expires, Renewing(sent, late, false), 10, lost);
    w := Intrude(c, lost, expires, Renewing(sent, late, false), 11);
    n := 13;
  }

  ghost function Start(t: int): World {
    World(t, None, map[])
  }

  /** Two replicas never download one key at once, before a failed renewal has cancelled the first,
      exactly when the configuration is safe. */
  lemma ExclusiveExactlyWhenSafe(c: Config)
    requires Accepted(c)
    ensures NoOverlap(c) <==>
      c.latency + c.lease / 3 + c.timeout <= c.lease - SECOND && 2 * c.timeout <= c.lease - SECOND
  {
    if Safe(c) {
      forall w, n: nat | Reaches(c, w, n) ensures !Overlap(w) {
        ReachedIsSecure(c, w, n);
      }
    } else if c.latency + Period(c) + c.timeout > c.lease - SECOND {
      var w, n := FirstRenewalLate(c);
    } else {
      var w, n := SecondRenewalLate(c);
    }
  }

  /** The bound on the first renewal alone does not suffice: with a 30s lease, a 19s poll interval and instant
      acquisitions the first renewal always fits, yet two downloads can overlap. */
  lemma FirstRenewalBoundIsNotEnough()
    ensures var c := Config(30 * SECOND, 19 * SECOND, 0);
      Accepted(c) && c.latency + c.lease / 3 + c.timeout <= c.lease - SECOND && !NoOverlap(c)
  {
    ExclusiveExactlyWhenSafe(Config(30 * SECOND, 19 * SECOND, 0));
  }

  /** What a step asks of the shared table, if anything. */
  ghost function Asks(c: Config, w: World, step: Step, key: string): Option<Event>
    requires Enabled(c, w, step)
  {
    match step
    case Acquire(o, now) => Some(Event.Acquire(key, o, now, c.lease))
    case Apply(o) => Some(Event.Renew(key, o, w.holders[o].sent, c.lease))
    case LateApply(o, now) => Some(Event.Renew(key, o, now, c.lease))
    case Release(o) => Some(Event.Release(key, o))
    case Expire => Some(Event.Expire(key))
    case _ => None
  }

  /** Every step does to the record of the key what the table does for the request it makes, and no other step touches
      it. */
  lemma StepsAreTableEvents(c: Config, w: World, step: Step, key: string, owners: set<string>)
    requires Enabled(c, w, step)
    ensures var table := if w.item.Some? then map[key := w.item.value] else map[];
      var e := Asks(c, w, step, key);
      Next(c, w, step).item == if e.None? then w.item
        else Get(Coordination.Next(State(w.clock, table, owners), e.value).table, key)
  {
  }
}
