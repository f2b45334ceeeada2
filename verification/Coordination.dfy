/** The shared coordination table: leases and cooldowns kept by conditional writes.
    Times are nanoseconds; the table stores whole seconds. */
module Coordination {
  import opened Options

  const SECOND := 1_000_000_000

  function Unix(t: int): (s: int)
    ensures s * SECOND <= t < (s + 1) * SECOND
  {
    t / SECOND
  }

  datatype Lease = Lease(owner: string, expires: int)

  /** The three condition expressions. */
  predicate CanAcquire(item: Option<Lease>, now: int) {
    item.None? || item.value.expires <= Unix(now)
  }

  predicate CanRenew(item: Option<Lease>, owner: string, now: int) {
    item.Some? && item.value.owner == owner && item.value.expires >= Unix(now)
  }

  predicate CanRelease(item: Option<Lease>, owner: string) {
    item.Some? && item.value.owner == owner
  }

  function Get(table: map<string, Lease>, key: string): Option<Lease> {
    if key in table then Some(table[key]) else None
  }

  // ---- histories of the lease table ----

  /** One request as the table applies it, or the passing of time. A request carries the clock its client
      read before sending it, which may be older than the clock at which the table applies it. */
  datatype Event =
    | Acquire(key: string, owner: string, now: int, duration: int)
    | Renew(key: string, owner: string, now: int, duration: int)
    | Release(key: string, owner: string)
    | Expire(key: string)  // deletion of an expired record, at any later time
    | Tick(until: int)

  datatype State = State(clock: int, table: map<string, Lease>, owners: set<string>)

  predicate Enabled(s: State, e: Event) {
    match e
    case Acquire(_, owner, now, _) => owner !in s.owners && now <= s.clock
    case Renew(_, owner, now, _) => owner in s.owners && now <= s.clock
    case Release(_, owner) => owner in s.owners
    case Expire(key) => key in s.table && s.table[key].expires * SECOND <= s.clock
    case Tick(until) => s.clock <= until
  }

  predicate Succeeds(s: State, e: Event) {
    match e
    case Acquire(key, _, now, _) => CanAcquire(Get(s.table, key), now)
    case Renew(key, owner, now, _) => CanRenew(Get(s.table, key), owner, now)
    case Release(key, owner) => CanRelease(Get(s.table, key), owner)
    case _ => true
  }

  function Next(s: State, e: Event): State {
    match e
    case Acquire(key, owner, now, duration) =>
      var t := s.(owners := s.owners + {owner});
      if Succeeds(s, e) then t.(table := s.table[key := Lease(owner, Unix(now + duration))]) else t
    case Renew(key, owner, now, duration) =>
      if Succeeds(s, e) then s.(table := s.table[key := Lease(owner, Unix(now + duration))]) else s
    case Release(key, _) => if Succeeds(s, e) then s.(table := s.table - {key}) else s
    case Expire(key) => s.(table := s.table - {key})
    case Tick(until) => s.(clock := until)
  }

  ghost function After(s: State, events: seq<Event>): State {
    if events == [] then s else Next(After(s, events[..|events| - 1]), events[|events| - 1])
  }

  ghost function At(s: State, events: seq<Event>, i: nat): State
    requires i <= |events|
  {
    After(s, events[..i])
  }

  ghost predicate Run(s: State, events: seq<Event>) {
    && (forall key :: key in s.table ==> s.table[key].owner in s.owners)
    && forall i :: 0 <= i < |events| ==> Enabled(At(s, events, i), events[i])
  }

  lemma AtNext(s: State, events: seq<Event>, i: nat)
    requires i < |events|
    ensures At(s, events, i + 1) == Next(At(s, events, i), events[i])
  {
    assert events[..i + 1][..i] == events[..i];
  }

  /** At any point of a run a fresh owner may try to acquire, a known one to renew or release, each with a clock reading not
      after now, an expired record may be deleted, and time may pass. */
  lemma RunsGoOn(s: State, events: seq<Event>, e: Event)
    requires Run(s, events)
    requires var t := After(s, events);
      match e
      case Acquire(_, owner, now, _) => owner !in t.owners && now <= t.clock
      case Renew(_, owner, now, _) => owner in t.owners && now <= t.clock
      case Release(_, owner) => owner in t.owners
      case Expire(key) => key in t.table && t.table[key].expires * SECOND <= t.clock
      case Tick(until) => t.clock <= until
    ensures Run(s, events + [e]) && After(s, events + [e]) == Next(After(s, events), e)
  {
    var more := events + [e];
    assert more[..|events|] == events && events[..|events|] == events;
    forall i | 0 <= i < |more| ensures Enabled(At(s, more, i), more[i]) {
      assert more[..i] == events[..i];
    }
  }

  /** Every owner named in the table is known, and a known owner that does not hold a key never will again. */
  lemma {:induction false} NeverAgain(s: State, events: seq<Event>, key: string, owner: string, i: nat, j: nat)
    requires Run(s, events) && i <= j <= |events|
    requires owner in At(s, events, i).owners && !CanRelease(Get(At(s, events, i).table, key), owner)
    ensures owner in At(s, events, j).owners && !CanRelease(Get(At(s, events, j).table, key), owner)
    decreases j
  {
    if i < j {
      hide At, Next;
      NeverAgain(s, events, key, owner, i, j - 1);
      AtNext(s, events, j - 1);
      assert Enabled(At(s, events, j - 1), events[j - 1]);
      NotGained(At(s, events, j - 1), events[j - 1], key, owner);
    }
  }

  lemma NotGained(t: State, e: Event, key: string, owner: string)
    requires Enabled(t, e) && owner in t.owners && !CanRelease(Get(t.table, key), owner)
    ensures owner in Next(t, e).owners && !CanRelease(Get(Next(t, e).table, key), owner)
  {
  }

  /** A successful renewal means nobody else has acquired the key since this lease was acquired. */
  lemma RenewMeansUnbroken(s: State, events: seq<Event>, i: nat, m: nat, j: nat)
    requires Run(s, events) && i < m < j < |events|
    requires events[i].Acquire? && events[m].Acquire? && events[j].Renew?
    requires events[i].key == events[m].key == events[j].key && events[i].owner == events[j].owner
    requires Succeeds(At(s, events, i), events[i]) && Succeeds(At(s, events, j), events[j])
    ensures !Succeeds(At(s, events, m), events[m])
  {
    var key, owner := events[i].key, events[i].owner;
    AtNext(s, events, i);
    OwnersGrow(s, events, i + 1, m);
    assert Enabled(At(s, events, m), events[m]);
    AtNext(s, events, m);
    if Succeeds(At(s, events, m), events[m]) {
      NeverAgain(s, events, key, owner, m + 1, j);
    }
  }

  lemma {:induction false} OwnersGrow(s: State, events: seq<Event>, i: nat, j: nat)
    requires Run(s, events) && i <= j <= |events|
    ensures At(s, events, i).owners <= At(s, events, j).owners
    ensures At(s, events, i).clock <= At(s, events, j).clock
    decreases j
  {
    if i < j {
      OwnersGrow(s, events, i, j - 1);
      AtNext(s, events, j - 1);
      assert Enabled(At(s, events, j - 1), events[j - 1]);
    }
  }

  /** The event wrote a lease on the key for this owner, valid for `duration` from `now`. */
  ghost predicate Wrote(s: State, events: seq<Event>, i: nat, key: string, owner: string, now: int, duration: int) {
    && i < |events| && Succeeds(At(s, events, i), events[i])
    && (events[i] == Acquire(key, owner, now, duration) || events[i] == Renew(key, owner, now, duration))
  }

  /** Between the two indices the owner neither releases the key nor shortens its lease. */
  ghost predicate Undisturbed(events: seq<Event>, i: nat, j: nat, key: string, owner: string, until: int) {
    forall m | i < m < j && m < |events| ::
      && events[m] != Release(key, owner)
      && (events[m].Renew? && events[m].key == key && events[m].owner == owner ==>
            events[m].now + events[m].duration >= until)
  }

  ghost predicate Holds(t: State, key: string, owner: string, until: int) {
    key in t.table && t.table[key].owner == owner && t.table[key].expires >= Unix(until)
  }

  lemma HoldStep(t: State, e: Event, key: string, owner: string, until: int)
    requires Enabled(t, e) && Holds(t, key, owner, until) && t.clock <= until - SECOND
    requires e != Release(key, owner)
    requires e.Renew? && e.key == key && e.owner == owner ==> e.now + e.duration >= until
    ensures Holds(Next(t, e), key, owner, until)
  {
  }

  /** Whatever other owners try, including releases of superseded leases, and whenever expired records are
      deleted, a lease stays with its owner until more than its duration less one second has passed. */
  lemma {:induction false} LeaseHolds(s: State, events: seq<Event>, i: nat, j: nat,
                                      key: string, owner: string, now: int, duration: int)
    requires Run(s, events) && i < j <= |events| && Wrote(s, events, i, key, owner, now, duration)
    requires Undisturbed(events, i, j, key, owner, now + duration)
    requires At(s, events, j).clock <= now + duration - SECOND
    ensures Holds(At(s, events, j), key, owner, now + duration)
    decreases j
  {
    hide After, Run, Enabled, Unix;
    AtNext(s, events, j - 1);
    if i + 1 < j {
      OwnersGrow(s, events, j - 1, j);
      LeaseHolds(s, events, i, j - 1, key, owner, now, duration);
      RunEnabled(s, events, j - 1);
      HoldStep(At(s, events, j - 1), events[j - 1], key, owner, now + duration);
    }
  }

  lemma RunEnabled(s: State, events: seq<Event>, i: nat)
    requires Run(s, events) && i < |events|
    ensures Enabled(At(s, events, i), events[i])
  {
  }

  /** A lease written at `now` cannot be taken by anyone else until strictly after now + duration - 1s. */
  lemma TakeoverIsLate(s: State, events: seq<Event>, i: nat, j: nat,
                       key: string, owner: string, now: int, duration: int)
    requires Run(s, events) && i < j < |events| && Wrote(s, events, i, key, owner, now, duration)
    requires Undisturbed(events, i, j, key, owner, now + duration)
    requires events[j].Acquire? && events[j].key == key && Succeeds(At(s, events, j), events[j])
    ensures At(s, events, j).clock > now + duration - SECOND
    ensures duration >= 3 * SECOND ==> At(s, events, j).clock > now + 2 * (duration / 3)
  {
    assert Enabled(At(s, events, j), events[j]);
    if At(s, events, j).clock <= now + duration - SECOND {
      LeaseHolds(s, events, i, j, key, owner, now, duration);
    }
  }

  // ---- cooldowns ----

  /** One registry's shared cooldown, the largest value ever set, and the clock. */
  datatype Cooldown = Cooldown(clock: int, item: Option<int>, largest: Option<int>)

  datatype CooldownEvent = SetUntil(until: int) | ExpireCooldown | Advance(to: int)

  predicate CooldownEnabled(c: Cooldown, e: CooldownEvent) {
    match e
    case SetUntil(_) => true
    case ExpireCooldown => c.item.Some? && c.item.value * SECOND <= c.clock
    case Advance(to) => c.clock <= to
  }

  function Raised(item: Option<int>, until: int): Option<int> {
    if item.None? || item.value < Unix(until) then Some(Unix(until)) else item
  }

  function CooldownNext(c: Cooldown, e: CooldownEvent): Cooldown {
    match e
    case SetUntil(until) => Cooldown(c.clock, Raised(c.item, until), Raised(c.largest, until))
    case ExpireCooldown => c.(item := None)
    case Advance(to) => c.(clock := to)
  }

  /** What Cooldown returns when the clock reads `now`. */
  function ReadCooldown(item: Option<int>, now: int): Option<int> {
    if item.Some? && item.value * SECOND > now then Some(item.value * SECOND) else None
  }

  ghost function CooldownAfter(clock: int, events: seq<CooldownEvent>): Cooldown {
    if events == [] then Cooldown(clock, None, None)
    else CooldownNext(CooldownAfter(clock, events[..|events| - 1]), events[|events| - 1])
  }

  ghost predicate CooldownRun(clock: int, events: seq<CooldownEvent>) {
    forall i :: 0 <= i < |events| ==> CooldownEnabled(CooldownAfter(clock, events[..i]), events[i])
  }

  /** `largest` is the maximum of all whole-second values set so far. */
  lemma {:induction false} LargestIsMaximum(clock: int, events: seq<CooldownEvent>)
    ensures var m := CooldownAfter(clock, events).largest;
      && (forall i :: 0 <= i < |events| && events[i].SetUntil? ==> m.Some? && Unix(events[i].until) <= m.value)
      && (m.Some? ==> exists i :: 0 <= i < |events| && events[i].SetUntil? && Unix(events[i].until) == m.value)
  {
    if events != [] {
      var n := |events| - 1;
      LargestIsMaximum(clock, events[..n]);
      assert events[..n] + [events[n]] == events;
      var before, m := CooldownAfter(clock, events[..n]).largest, CooldownAfter(clock, events).largest;
      if m == before && m.Some? {
        var i :| 0 <= i < n && events[..n][i].SetUntil? && Unix(events[..n][i].until) == m.value;
        assert events[i] == events[..n][i];
      } else if m.Some? {
        assert events[n].SetUntil? && Unix(events[n].until) == m.value;
      }
    }
  }

  lemma {:induction false} CooldownInvariant(clock: int, events: seq<CooldownEvent>)
    requires CooldownRun(clock, events)
    ensures var c := CooldownAfter(clock, events);
      c.item == c.largest
      || (c.largest.Some? && c.largest.value * SECOND <= c.clock && (c.item.Some? ==> c.item.value <= c.largest.value))
  {
    if events != [] {
      var n := |events| - 1;
      forall i | 0 <= i < n
        ensures CooldownEnabled(CooldownAfter(clock, events[..n][..i]), events[..n][i])
      {
        assert events[..n][..i] == events[..i];
      }
      CooldownInvariant(clock, events[..n]);
      assert CooldownEnabled(CooldownAfter(clock, events[..n]), events[n]);
    }
  }

  /** For every order of writes and deletions, a read returns the largest value ever set
      if that still lies in the future, and nothing otherwise. */
  lemma CooldownReadsMaximum(clock: int, events: seq<CooldownEvent>, now: int)
    requires CooldownRun(clock, events) && now >= CooldownAfter(clock, events).clock
    ensures ReadCooldown(CooldownAfter(clock, events).item, now) == ReadCooldown(CooldownAfter(clock, events).largest, now)
  {
    CooldownInvariant(clock, events);
  }

  /** What a read returns, told by the cooldowns set: the latest whole second any of them was set to, if that is still to
      come; nothing exactly when none of them is. */
  lemma CooldownIsLatestSet(clock: int, events: seq<CooldownEvent>, now: int, until: int)
    requires CooldownRun(clock, events) && now >= CooldownAfter(clock, events).clock
    ensures ReadCooldown(CooldownAfter(clock, events).item, now) == Some(until) <==>
      && until > now && (exists i :: 0 <= i < |events| && events[i].SetUntil? && Whole(events[i].until) == until)
      && (forall i :: 0 <= i < |events| && events[i].SetUntil? ==> Whole(events[i].until) <= until)
    ensures ReadCooldown(CooldownAfter(clock, events).item, now) == None <==>
      forall i :: 0 <= i < |events| && events[i].SetUntil? ==> Whole(events[i].until) <= now
  {
    CooldownReadsMaximum(clock, events, now);
    LargestIsMaximum(clock, events);
    LatestSet(events, CooldownAfter(clock, events).largest, now, until);
  }

  lemma LatestSet(events: seq<CooldownEvent>, m: Option<int>, now: int, until: int)
    requires forall i :: 0 <= i < |events| && events[i].SetUntil? ==> m.Some? && Unix(events[i].until) <= m.value
    requires m.Some? ==> exists i :: 0 <= i < |events| && events[i].SetUntil? && Unix(events[i].until) == m.value
    ensures ReadCooldown(m, now) == Some(until) <==>
      && until > now && (exists i :: 0 <= i < |events| && events[i].SetUntil? && Whole(events[i].until) == until)
      && (forall i :: 0 <= i < |events| && events[i].SetUntil? ==> Whole(events[i].until) <= until)
    ensures ReadCooldown(m, now) == None <==>
      forall i :: 0 <= i < |events| && events[i].SetUntil? ==> Whole(events[i].until) <= now
  {
    hide Unix;
    if m.Some? {
      var i :| 0 <= i < |events| && events[i].SetUntil? && Unix(events[i].until) == m.value;
      assert Whole(events[i].until) == m.value * SECOND;
      forall k | 0 <= k < |events| && events[k].SetUntil? ensures Whole(events[k].until) <= m.value * SECOND {
        assert Unix(events[k].until) <= m.value;
      }
    }
  }

  /** A cooldown can be set at any time. */
  lemma CooldownCanBeSet(clock: int, events: seq<CooldownEvent>, until: int)
    requires CooldownRun(clock, events)
    ensures CooldownRun(clock, events + [SetUntil(until)])
  {
    var more := events + [SetUntil(until)];
    forall i | 0 <= i < |more| ensures CooldownEnabled(CooldownAfter(clock, more[..i]), more[i]) {
      assert more[..i] == events[..i];
    }
  }

  /** The whole second a time lies in. */
  function Whole(t: int): (w: int)
    ensures w % SECOND == 0 && w <= t < w + SECOND
  {
    Unix(t) * SECOND
  }

  // ---- the coordinator's own operations ----

  class Coordinator {
    var leases: map<string, Lease>
    var cooldowns: map<string, int>

    constructor ()
      ensures leases == map[] && cooldowns == map[]
    {
      leases, cooldowns := map[], map[];
    }

    method TryAcquire(key: string, owner: string, now: int, duration: int) returns (acquired: bool)
      modifies this`leases
      ensures acquired == CanAcquire(Get(old(leases), key), now)
      ensures leases == if acquired then old(leases)[key := Lease(owner, Unix(now + duration))] else old(leases)
      ensures forall clock, owners ::
        leases == Next(State(clock, old(leases), owners), Acquire(key, owner, now, duration)).table
    {
      acquired := key !in leases || leases[key].expires <= Unix(now);
      if acquired {
        leases := leases[key := Lease(owner, Unix(now + duration))];
      }
    }

    method Renew(key: string, owner: string, now: int, duration: int) returns (kept: bool)
      modifies this`leases
      ensures kept == CanRenew(Get(old(leases), key), owner, now)
      ensures forall clock, owners ::
        leases == Next(State(clock, old(leases), owners), Event.Renew(key, owner, now, duration)).table
    {
      kept := key in leases && leases[key].owner == owner && leases[key].expires >= Unix(now);
      if kept {
        leases := leases[key := leases[key].(expires := Unix(now + duration))];
      }
    }

    method Release(key: string, owner: string) returns (released: bool)
      modifies this`leases
      ensures released == CanRelease(Get(old(leases), key), owner)
      ensures forall clock, owners ::
        leases == Next(State(clock, old(leases), owners), Event.Release(key, owner)).table
    {
      released := key in leases && leases[key].owner == owner;
      if released {
        leases := leases - {key};
      }
    }

    method SetCooldown(route: string, until: int)
      modifies this`cooldowns
      ensures route in cooldowns && cooldowns.Keys == old(cooldowns).Keys + {route}
      ensures Some(cooldowns[route]) == Raised(if route in old(cooldowns) then Some(old(cooldowns)[route]) else None, until)
      ensures forall r :: r in old(cooldowns) && r != route ==> cooldowns[r] == old(cooldowns)[r]
    {
      if route !in cooldowns || cooldowns[route] < Unix(until) {
        cooldowns := cooldowns[route := Unix(until)];
      }
    }

    method Cooldown(route: string, now: int) returns (until: Option<int>)
      ensures until == ReadCooldown(if route in cooldowns then Some(cooldowns[route]) else None, now)
      ensures until.Some? ==> until.value > now
    {
      if route !in cooldowns || cooldowns[route] * SECOND <= now {
        return None;
      }
      return Some(cooldowns[route] * SECOND);
    }
  }
}
