/** One upstream request with its cooldown, queue, rate-limit retries and the slot its response body holds.
    Times are nanoseconds. */
module Upstream {
  import opened Options
  import opened Coordination
  import Slots

  const MILLISECOND := 1_000_000

  datatype Config = Config(capacity: nat, queueTimeout: nat, retries: nat, maxRetryAfter: nat)

  function Min(a: int, b: int): int {
    if a < b then a else b
  }

  // ---- the environment ----

  method Now(previous: int) returns (now: int)
    ensures now >= previous
  {
    now :| now >= previous;
  }

  datatype RetryAfter = Absent | Seconds(n: int) | When(date: int) | Garbage
  datatype Reply = Error | Status(limited: bool, header: RetryAfter)
  datatype Remote = Unavailable | Nothing | Until(t: int)

  /** What a call meets in its n-th attempt: the shared cooldown it would read, whether a wait for the cooldown runs to its
      end, whether it is given a slot, the reply, whether a cooldown can be written to the shared table, and whether the
      wait between attempts runs to its end; and the random delays drawn below a maximum. */
  datatype Env = Env(remote: nat -> Remote, cooled: nat -> bool, admitted: nat -> bool, reply: nat -> Reply,
                     written: nat -> bool, rested: nat -> bool, draw: int -> int)

  ghost predicate Draws(env: Env) {
    forall m :: if m <= 0 then env.draw(m) == 0 else 0 <= env.draw(m) < m
  }

  // ---- delays ----

  function RetryAfterDelay(header: RetryAfter, now: int): (delay: Option<int>)
    ensures delay.None? <==> header.Absent? || header.Garbage? || (header.Seconds? && header.n < 0)
    ensures delay.Some? ==> delay.value >= 0
    ensures delay.Some? && header.Seconds? ==> delay.value == header.n * SECOND
    ensures delay.Some? && header.When? ==> delay.value == if now <= header.date then header.date - now else 0
  {
    match header
    case Seconds(n) => if n < 0 then None else Some(n * SECOND)
    case When(date) => Some(if date - now < 0 then 0 else date - now)
    case _ => None
  }

  /** The whole seconds to announce: at least one, and no sooner than the delay. */
  function RetryAfterSeconds(delay: int): (seconds: int)
    ensures seconds >= 1 && seconds * SECOND >= delay
    ensures (seconds - 1) * SECOND < delay || seconds == 1
  {
    var seconds := (delay + SECOND - 1) / SECOND;
    if seconds < 1 then 1 else seconds
  }

  function Doubling(attempt: nat): (d: int)
    ensures d >= SECOND
  {
    if attempt == 0 then SECOND else 2 * Doubling(attempt - 1)
  }

  /** The most a backoff may take. */
  function BackoffLimit(c: Config, attempt: nat): int {
    Min(Doubling(Min(attempt, 5)), c.maxRetryAfter)
  }

  /** One second, doubled with each attempt up to the sixth, and never more than the configured maximum. */
  lemma BackoffLimits(c: Config, attempt: nat)
    ensures var doubled := if attempt == 0 then 1 else if attempt == 1 then 2 else if attempt == 2 then 4
                           else if attempt == 3 then 8 else if attempt == 4 then 16 else 32;
      && (doubled * SECOND <= c.maxRetryAfter ==> BackoffLimit(c, attempt) == doubled * SECOND)
      && (doubled * SECOND >= c.maxRetryAfter ==> BackoffLimit(c, attempt) == c.maxRetryAfter)
  {
    assert Doubling(1) == 2 * SECOND && Doubling(2) == 4 * SECOND && Doubling(3) == 8 * SECOND;
    assert Doubling(4) == 16 * SECOND && Doubling(5) == 32 * SECOND;
  }

  /** A random delay below the limit, raised to a tenth of a second where the limit allows. */
  method RateLimitBackoff(c: Config, env: Env, attempt: nat) returns (delay: int)
    requires Draws(env)
    ensures 0 <= delay <= BackoffLimit(c, attempt) <= c.maxRetryAfter
    ensures delay >= 100 * MILLISECOND || delay == c.maxRetryAfter
    ensures delay == Backoff(c, env, attempt)
  {
    var maximum := BackoffLimit(c, attempt);
    delay := env.draw(maximum);
    var minimum := Min(100 * MILLISECOND, maximum);
    if delay < minimum {
      delay := minimum;
    }
  }

  function Backoff(c: Config, env: Env, attempt: nat): int {
    var limit := BackoffLimit(c, attempt);
    Larger(env.draw(limit), Min(100 * MILLISECOND, limit))
  }

  function Larger(a: int, b: int): int {
    if a < b then b else a
  }

  // ---- one call ----

  function Sum(waits: seq<int>): int {
    if waits == [] then 0 else Sum(waits[..|waits| - 1]) + waits[|waits| - 1]
  }

  /** A sum of waits: one is itself, and what is waited one after the other adds up. */
  lemma {:induction false} SumAdds(a: seq<int>, b: seq<int>, wait: int)
    ensures Sum([wait]) == wait && Sum(a + b) == Sum(a) + Sum(b)
    decreases |b|
  {
    if b == [] {
      assert a + b == a;
    } else {
      var n := |b| - 1;
      SumAdds(a, b[..n], wait);
      assert (a + b)[..|a + b| - 1] == a + b[..n];
    }
    assert [wait][..0] == a[..0];
    assert Sum(a[..0]) == 0;
  }

  ghost predicate Each(waits: seq<int>, least: int, most: int) {
    forall w :: w in waits ==> least <= w <= most
  }

  lemma EachAppend(a: seq<int>, b: seq<int>, least: int, most: int)
    requires Each(a, least, most) && Each(b, least, most)
    ensures Each(a + b, least, most)
  {
  }

  lemma {:induction false} SumBound(waits: seq<int>, least: int, most: nat)
    requires Each(waits, least, most)
    ensures Sum(waits) <= |waits| * most
  {
    if waits != [] {
      var before, last := waits[..|waits| - 1], waits[|waits| - 1];
      assert forall w :: w in before ==> w in waits;
      assert last in waits;
      SumBound(before, least, most);
      assert |waits| * most == |before| * most + most;
    }
  }

  /** What a call did: its upstream requests, the delay each 429 asked for, the cooldown it set locally and the whole
      seconds it wrote to the shared table, and its waits on a cooldown, between retries and in the queue. */
  datatype Account = Account(attempts: nat, delays: seq<int>, deadlines: seq<int>, shared: seq<int>,
                             cooldownWaits: seq<int>, retryWaits: seq<int>, queued: nat)

  const NOTHING := Account(0, [], [], [], [], [], 0)

  /** The caller gets an error, or a body whose closing cancels the context and, when it came from upstream,
      gives the slot back. */
  datatype Result = Failure | Response(limited: bool, holdsSlot: bool)

  ghost predicate Bounded(c: Config, a: Account) {
    && a.attempts <= c.retries + 1 && a.queued <= c.retries + 1
    && |a.cooldownWaits| <= c.retries + 1 && |a.retryWaits| <= c.retries
    && Each(a.cooldownWaits, 1, c.maxRetryAfter) && Each(a.retryWaits, 0, c.maxRetryAfter)
  }

  /** Time spent waiting, counting every queueing at its timeout. */
  ghost function Waiting(c: Config, a: Account): int {
    Sum(a.cooldownWaits) + Sum(a.retryWaits) + a.queued * c.queueTimeout
  }

  lemma WaitingBound(c: Config, a: Account)
    requires Bounded(c, a)
    ensures Waiting(c, a) == Sum(a.cooldownWaits) + Sum(a.retryWaits) + a.queued * c.queueTimeout
    ensures Waiting(c, a) <= (c.retries + 1) * (c.maxRetryAfter + c.queueTimeout) + c.retries * c.maxRetryAfter
  {
    hide Sum, Each;
    SumBound(a.cooldownWaits, 1, c.maxRetryAfter);
    SumBound(a.retryWaits, 0, c.maxRetryAfter);
    Grows(|a.cooldownWaits|, c.retries + 1, c.maxRetryAfter);
    Grows(|a.retryWaits|, c.retries, c.maxRetryAfter);
    Grows(a.queued, c.retries + 1, c.queueTimeout);
    assert (c.retries + 1) * (c.maxRetryAfter + c.queueTimeout)
        == (c.retries + 1) * c.maxRetryAfter + (c.retries + 1) * c.queueTimeout;
  }

  lemma Grows(a: nat, b: nat, x: nat)
    requires a <= b
    ensures a * x <= b * x
  {
    assert b * x == a * x + (b - a) * x;
  }

  class RouteCooldowns {
    var byRoute: map<string, int>

    constructor ()
      ensures byRoute == map[]
    {
      byRoute := map[];
    }

    /** The recorded time never decreases. */
    method Set(route: string, until: int)
      modifies this
      ensures AtLeast(byRoute, route, until) && Dominates(byRoute, old(byRoute))
      ensures byRoute == old(byRoute) || byRoute == old(byRoute)[route := until]
    {
      if route !in byRoute || until > byRoute[route] {
        byRoute := byRoute[route := until];
      }
    }
  }

  ghost predicate AtLeast(byRoute: map<string, int>, route: string, until: int) {
    route in byRoute && byRoute[route] >= until
  }

  /** Every time recorded before is recorded or exceeded. */
  ghost predicate Dominates(after: map<string, int>, before: map<string, int>) {
    forall r :: r in before ==> AtLeast(after, r, before[r])
  }

  /** Nothing changed but the route's time, to one of these values. */
  ghost predicate Only(after: map<string, int>, before: map<string, int>, route: string, values: seq<int>) {
    forall r :: r in after ==> (r in before && after[r] == before[r]) || (r == route && after[r] in values)
  }

  lemma StillOnly(first: map<string, int>, before: map<string, int>, after: map<string, int>, route: string,
                  values: seq<int>, more: seq<int>)
    requires Only(before, first, route, values) && Only(after, before, route, more)
    ensures Only(after, first, route, values + more)
  {
  }

  ghost predicate Remembers(byRoute: map<string, int>, route: string, deadlines: seq<int>) {
    forall u :: u in deadlines ==> AtLeast(byRoute, route, u)
  }

  lemma StillRemembers(first: map<string, int>, before: map<string, int>, after: map<string, int>, route: string,
                       deadlines: seq<int>)
    requires Dominates(before, first) && Remembers(before, route, deadlines) && Dominates(after, before)
    ensures Dominates(after, first) && Remembers(after, route, deadlines)
  {
    forall r | r in first ensures AtLeast(after, r, first[r]) {
      assert AtLeast(before, r, first[r]);
      assert AtLeast(after, r, before[r]);
    }
    forall u | u in deadlines ensures AtLeast(after, route, u) {
      assert AtLeast(before, route, u);
      assert AtLeast(after, route, before[route]);
    }
  }

  lemma RemembersAppend(byRoute: map<string, int>, route: string, deadlines: seq<int>, until: int)
    requires Remembers(byRoute, route, deadlines) && AtLeast(byRoute, route, until)
    ensures Remembers(byRoute, route, deadlines + [until])
  {
  }

  datatype Gate = Proceed | Throttled | Interrupted

  /** Waits out a short cooldown, refuses a long one. The local time afterwards dominates the remote one read. */
  method WaitForCooldown(c: Config, env: Env, n: nat, cooldowns: RouteCooldowns, coordinated: bool, registry: string, now: int)
      returns (gate: Gate, waits: seq<int>, remote: Remote)
    modifies cooldowns
    ensures Dominates(cooldowns.byRoute, old(cooldowns.byRoute))
    ensures Only(cooldowns.byRoute, old(cooldowns.byRoute), registry, if remote.Until? then [remote.t] else [])
    ensures remote == if coordinated then env.remote(n) else Nothing
    ensures remote.Until? ==> AtLeast(cooldowns.byRoute, registry, remote.t)
    ensures gate == Throttled <==> AtLeast(cooldowns.byRoute, registry, now + c.maxRetryAfter + 1)
    ensures gate == Interrupted <==>
      gate != Throttled && AtLeast(cooldowns.byRoute, registry, now + 1) && !env.cooled(n)
    ensures |waits| <= 1 && (waits != [] <==> gate != Throttled && AtLeast(cooldowns.byRoute, registry, now + 1))
    ensures Each(waits, 1, c.maxRetryAfter)
    ensures waits != [] ==> registry in cooldowns.byRoute && waits == [cooldowns.byRoute[registry] - now]
  {
    remote := Nothing;
    if coordinated {
      remote := env.remote(n);
    }
    if remote.Until? {
      cooldowns.Set(registry, remote.t);
    }
    if registry !in cooldowns.byRoute {
      return Proceed, [], remote;
    }
    var remaining := cooldowns.byRoute[registry] - now;
    if remaining <= 0 {
      return Proceed, [], remote;
    }
    if remaining > c.maxRetryAfter {
      return Throttled, [], remote;
    }
    return if env.cooled(n) then Proceed else Interrupted, [remaining], remote;
  }

  /** Remembers a cooldown locally and, if the write succeeds, in the shared table, which no write lowers. */
  method SetCooldown(cooldowns: RouteCooldowns, shared: Coordinator?, registry: string, until: int, written: bool)
      returns (wrote: bool)
    modifies cooldowns, shared
    ensures AtLeast(cooldowns.byRoute, registry, until) && Dominates(cooldowns.byRoute, old(cooldowns.byRoute))
    ensures Only(cooldowns.byRoute, old(cooldowns.byRoute), registry, [until])
    ensures wrote <==> shared != null && written
    ensures wrote ==>
      && AtLeast(shared.cooldowns, "upstream:" + registry, Unix(until))
      && Only(shared.cooldowns, old(shared.cooldowns), "upstream:" + registry, [Unix(until)])
    ensures shared != null ==> Dominates(shared.cooldowns, old(shared.cooldowns))
    ensures shared != null && !wrote ==> shared.cooldowns == old(shared.cooldowns)
    ensures shared != null ==> shared.leases == old(shared.leases)
  {
    cooldowns.Set(registry, until);
    wrote := false;
    if shared != null {
      wrote := written;
      if wrote {
        shared.SetCooldown("upstream:" + registry, until);
      }
    }
  }

  /** How long a 429 with this header may make its n-th attempt wait: as asked, up to a tenth or a quarter of a second
      longer, but not past the maximum if what was asked is within it; without a usable header, a backoff. */
  ghost predicate DelayFor(c: Config, header: RetryAfter, now: int, n: nat, delay: int) {
    var asked := RetryAfterDelay(header, now);
    if asked.None? then
      0 <= delay <= BackoffLimit(c, n) && (delay >= 100 * MILLISECOND || delay == c.maxRetryAfter)
    else
      && asked.value <= delay <= asked.value + Min(asked.value / 10, 250 * MILLISECOND)
      && (asked.value <= c.maxRetryAfter ==> delay <= c.maxRetryAfter)
  }

  /** The delay itself, once the random part is drawn. */
  function DelayOf(c: Config, env: Env, header: RetryAfter, now: int, n: nat): int {
    var asked := RetryAfterDelay(header, now);
    if asked.None? then Backoff(c, env, n)
    else
      var jittered := asked.value + env.draw(Min(asked.value / 10, 250 * MILLISECOND));
      if asked.value <= c.maxRetryAfter then Min(jittered, c.maxRetryAfter) else jittered
  }

  /** The delay a 429 asks for. */
  method LimitedDelay(c: Config, env: Env, header: RetryAfter, now: int, attempt: nat) returns (delay: int)
    requires Draws(env)
    ensures delay >= 0 && DelayFor(c, header, now, attempt, delay) && delay == DelayOf(c, env, header, now, attempt)
  {
    var asked := RetryAfterDelay(header, now);
    if asked.None? {
      delay := RateLimitBackoff(c, env, attempt);
    } else {
      delay := asked.value;
      if delay > 0 {
        delay := delay + env.draw(Min(delay / 10, 250 * MILLISECOND));
        if asked.value <= c.maxRetryAfter && delay > c.maxRetryAfter {
          delay := c.maxRetryAfter;
        }
      }
    }
  }

  // what a call sees

  /** A 429: its header, when it came, the delay it led to, and the cooldown set, at which time and until when. */
  datatype Limit = Limit(header: RetryAfter, received: int, delay: int, marked: int, deadline: int)

  /** The readings at which the cooldown was looked at, the shared cooldowns read then, the replies and the 429s. */
  datatype Log = Log(checked: seq<int>, remotes: seq<int>, replies: seq<Reply>, limits: seq<Limit>)

  const SILENCE := Log([], [], [], [])

  ghost predicate Timed(c: Config, env: Env, n: nat, l: Limit) {
    && l.received <= l.marked && l.deadline == l.marked + l.delay
    && DelayFor(c, l.header, l.received, n, l.delay) && l.delay == DelayOf(c, env, l.header, l.received, n)
  }

  /** The account lists exactly the 429s' delays and deadlines, and each 429 set its cooldown to end its delay after it
      came. */
  ghost predicate Told(c: Config, env: Env, replies: seq<Reply>, limits: seq<Limit>, a: Account) {
    && |replies| == a.attempts && |limits| == |a.delays| == |a.deadlines| <= a.attempts
    && forall i :: 0 <= i < |limits| ==> TellsOf(c, env, replies[i], limits[i], i, a.delays[i], a.deadlines[i])
  }

  ghost predicate TellsOf(c: Config, env: Env, reply: Reply, l: Limit, n: nat, delay: int, deadline: int) {
    reply == Status(true, l.header) && Timed(c, env, n, l) && delay == l.delay && deadline == l.deadline
  }

  /** The reading before the i-th 429: the start, or when the one before it set its cooldown. */
  ghost function Earlier(start: int, limits: seq<Limit>, i: nat): int
    requires i <= |limits|
  {
    if i == 0 then start else limits[i - 1].marked
  }

  /** The readings follow one another from the start on. */
  ghost predicate InOrder(start: int, limits: seq<Limit>) {
    forall i :: 0 <= i < |limits| ==> Earlier(start, limits, i) <= limits[i].received
  }

  ghost predicate Logged(c: Config, env: Env, start: int, log: Log, a: Account) {
    Told(c, env, log.replies, log.limits, a) && InOrder(start, log.limits)
  }

  /** The time up to which the log reaches. */
  ghost function Latest(start: int, log: Log): int {
    Earlier(start, log.limits, |log.limits|)
  }

  /** Why the call ended as it did: refused for a cooldown longer than the maximum; interrupted while waiting for a
      shorter one or for a slot; or with the last reply, which is an error, a response, a 429 handed on because the
      request cannot be repeated, the retries are spent or the delay is too long, or a 429 whose wait was interrupted. */
  ghost predicate Explained(c: Config, env: Env, retryable: bool, byRoute: map<string, int>, registry: string,
                            result: Result, log: Log)
  {
    var n := |log.checked| - 1;
    && n >= 0 && (forall i :: 0 <= i < |log.replies| ==> log.replies[i] == env.reply(i))
    && if |log.replies| == n then
         var now := log.checked[n];
         && |log.limits| == n
         && if AtLeast(byRoute, registry, now + c.maxRetryAfter + 1) then result == Response(true, false)
            else result == Failure && ((AtLeast(byRoute, registry, now + 1) && !env.cooled(n)) || !env.admitted(n))
       else
         && |log.replies| == n + 1
         && match env.reply(n)
            case Error => |log.limits| == n && result == Failure
            case Status(limited, _) =>
              if !limited then |log.limits| == n && result == Response(false, true)
              else
                && |log.limits| == n + 1
                && if !retryable || n >= c.retries || log.limits[n].delay > c.maxRetryAfter then result == Response(true, true)
                   else result == Failure && !env.rested(n)
  }

  /** The shared cooldowns read in the first n attempts. */
  ghost function Reads(env: Env, coordinated: bool, n: nat): seq<int> {
    if n == 0 then []
    else
      var read := if coordinated && env.remote(n - 1).Until? then [env.remote(n - 1).t] else [];
      Reads(env, coordinated, n - 1) + read
  }

  /** The whole seconds written to the shared table for these deadlines. */
  ghost function Writes(env: Env, coordinated: bool, deadlines: seq<int>): seq<int> {
    if deadlines == [] then []
    else
      var n := |deadlines| - 1;
      Writes(env, coordinated, deadlines[..n]) + if coordinated && env.written(n) then [Unix(deadlines[n])] else []
  }

  /** After n attempts the log holds exactly what the environment showed. */
  ghost predicate Seen(env: Env, coordinated: bool, checks: nat, log: Log, a: Account) {
    && |log.checked| == checks && log.remotes == Reads(env, coordinated, checks)
    && (forall i :: 0 <= i < |log.replies| ==> log.replies[i] == env.reply(i))
    && a.shared == Writes(env, coordinated, a.deadlines)
  }

  lemma LogQueued(c: Config, env: Env, start: int, log: Log, a: Account, b: Account)
    requires Logged(c, env, start, log, a) && b.attempts == a.attempts && b.delays == a.delays && b.deadlines == a.deadlines
    ensures Logged(c, env, start, log, b)
  {
    hide InOrder, TellsOf;
  }

  lemma LogChecked(c: Config, env: Env, start: int, log: Log, a: Account, now: int, remotes: seq<int>)
    requires Logged(c, env, start, log, a)
    ensures Logged(c, env, start, log.(checked := log.checked + [now], remotes := log.remotes + remotes), a)
  {
    hide InOrder, Told;
  }

  lemma LogReply(c: Config, env: Env, start: int, log: Log, a: Account, reply: Reply)
    requires Logged(c, env, start, log, a) && |log.limits| == |log.replies|
    ensures Logged(c, env, start, log.(replies := log.replies + [reply]), Requested(a))
  {
    hide InOrder, TellsOf;
  }

  lemma LogLimit(c: Config, env: Env, start: int, log: Log, a: Account, l: Limit, wrote: bool)
    requires Logged(c, env, start, log, a) && |log.replies| == |log.limits| + 1
    requires log.replies[|log.limits|] == Status(true, l.header) && Timed(c, env, |log.limits|, l)
    requires l.received >= Latest(start, log)
    ensures Logged(c, env, start, log.(limits := log.limits + [l]), Limited(a, l.delay, l.deadline, wrote))
  {
    hide Told, InOrder;
    ToldMore(c, env, log, a, l, wrote);
    OrderMore(start, log.limits, l);
  }

  lemma ToldMore(c: Config, env: Env, log: Log, a: Account, l: Limit, wrote: bool)
    requires Told(c, env, log.replies, log.limits, a) && |log.replies| == |log.limits| + 1
    requires log.replies[|log.limits|] == Status(true, l.header) && Timed(c, env, |log.limits|, l)
    ensures Told(c, env, log.replies, log.limits + [l], Limited(a, l.delay, l.deadline, wrote))
  {
    assert TellsOf(c, env, log.replies[|log.limits|], l, |log.limits|, l.delay, l.deadline);
    hide TellsOf, Timed, Unix;
  }

  lemma OrderMore(start: int, limits: seq<Limit>, l: Limit)
    requires InOrder(start, limits) && l.received >= Earlier(start, limits, |limits|)
    ensures InOrder(start, limits + [l])
  {
    var more := limits + [l];
    forall i | 0 <= i < |more| ensures Earlier(start, more, i) <= more[i].received {
      assert Earlier(start, more, i) == Earlier(start, limits, i);
    }
  }

  // what each stage of an attempt adds to the account

  function Waited(a: Account, waits: seq<int>): Account {
    a.(cooldownWaits := a.cooldownWaits + waits)
  }

  function Requested(a: Account): Account {
    a.(queued := a.queued + 1, attempts := a.attempts + 1)
  }

  function Limited(a: Account, delay: int, deadline: int, wrote: bool): Account {
    a.(delays := a.delays + [delay], deadlines := a.deadlines + [deadline],
       shared := if wrote then a.shared + [Unix(deadline)] else a.shared)
  }

  function Rested(a: Account, delay: int): Account {
    a.(retryWaits := a.retryWaits + [delay])
  }

  /** After n attempts, all of them rate limited and waited out. */
  ghost predicate Ready(c: Config, retryable: bool, n: nat, a: Account) {
    && n <= c.retries && (n > 0 ==> retryable) && a.attempts == a.queued == n
    && |a.cooldownWaits| <= n && a.delays == a.retryWaits && |a.retryWaits| == |a.deadlines| == n
    && Each(a.cooldownWaits, 1, c.maxRetryAfter) && Each(a.retryWaits, 0, c.maxRetryAfter)
  }

  /** The same, past the cooldown. */
  ghost predicate Cooled(c: Config, retryable: bool, n: nat, a: Account) {
    && Ready(c, retryable, n, a.(cooldownWaits := [])) && |a.cooldownWaits| <= n + 1
    && Each(a.cooldownWaits, 1, c.maxRetryAfter)
  }

  /** The account of a finished call: at most retries + 1 requests, no wait longer than maxRetryAfter, a bounded total;
      and all 429s but the last waited out in full. */
  ghost predicate Accounted(c: Config, retryable: bool, result: Result, a: Account) {
    && Bounded(c, a)
    && Waiting(c, a) <= (c.retries + 1) * (c.maxRetryAfter + c.queueTimeout) + c.retries * c.maxRetryAfter
    && (!retryable ==> a.attempts <= 1 && a.retryWaits == [])
    && |a.deadlines| == |a.delays| <= a.attempts
    && a.retryWaits <= a.delays && |a.delays| <= |a.retryWaits| + 1
    && (result.Response? && !result.limited ==> a.attempts > 0 && result.holdsSlot)
    && (result.Response? ==> |a.delays| == a.attempts - (if result.limited then 0 else 1))
    && (result.Response? && result.limited && result.holdsSlot ==> |a.delays| == |a.retryWaits| + 1)
  }

  lemma Cools(c: Config, retryable: bool, n: nat, a: Account, waits: seq<int>)
    requires Ready(c, retryable, n, a) && |waits| <= 1 && Each(waits, 1, c.maxRetryAfter)
    ensures Cooled(c, retryable, n, Waited(a, waits))
  {
    EachAppend(a.cooldownWaits, waits, 1, c.maxRetryAfter);
    NoWaits(c);
    hide Each;
  }

  /** The cooldown refuses or interrupts the call. */
  lemma RefusedIsAccounted(c: Config, retryable: bool, n: nat, a: Account)
    requires Cooled(c, retryable, n, a)
    ensures Accounted(c, retryable, Response(true, false), a) && Accounted(c, retryable, Failure, a)
  {
    hide Each, Waiting;
    WaitingBound(c, a);
  }

  /** The queue interrupts it. */
  lemma QueuedIsAccounted(c: Config, retryable: bool, n: nat, a: Account)
    requires Cooled(c, retryable, n, a)
    ensures Accounted(c, retryable, Failure, a.(queued := a.queued + 1))
  {
    hide Each, Waiting;
    WaitingBound(c, a.(queued := a.queued + 1));
  }

  lemma ReplyIsAccounted(c: Config, retryable: bool, n: nat, a: Account)
    requires Cooled(c, retryable, n, a)
    ensures Accounted(c, retryable, Failure, Requested(a)) && Accounted(c, retryable, Response(false, true), Requested(a))
  {
    hide Each, Waiting;
    WaitingBound(c, Requested(a));
  }

  lemma LimitIsAccounted(c: Config, retryable: bool, n: nat, a: Account, delay: int, deadline: int, wrote: bool)
    requires Cooled(c, retryable, n, a) && (!retryable || n >= c.retries || delay > c.maxRetryAfter)
    ensures Accounted(c, retryable, Response(true, true), Limited(Requested(a), delay, deadline, wrote))
  {
    hide Each, Waiting;
    WaitingBound(c, Limited(Requested(a), delay, deadline, wrote));
  }

  lemma RestIsAccounted(c: Config, retryable: bool, n: nat, a: Account, delay: int, deadline: int, wrote: bool)
    requires Cooled(c, retryable, n, a) && retryable && n < c.retries && 0 <= delay <= c.maxRetryAfter
    ensures var rested := Rested(Limited(Requested(a), delay, deadline, wrote), delay);
      Ready(c, retryable, n + 1, rested) && Accounted(c, retryable, Failure, rested)
  {
    OneWait(delay, 0, c.maxRetryAfter);
    EachAppend(a.retryWaits, [delay], 0, c.maxRetryAfter);
    hide Each, Waiting;
    WaitingBound(c, Rested(Limited(Requested(a), delay, deadline, wrote), delay));
  }

  /** What the caller is left with: a failed call that owes nothing, or one unclosed body over a held slot or over none. */
  ghost predicate Left(call: Slots.Call, result: Result, attempts: nat) {
    && Slots.Taken(call) == attempts
    && call.given == attempts - (if result.Response? && result.holdsSlot then 1 else 0)
    && call.cancels == (if result.Failure? then 1 else 0)
    && (result.Failure? ==> call.place.Failed?)
    && (result.Response? ==> call.place.Answered? && call.body == Slots.Body(result.holdsSlot, false))
  }

  /** The call's slots and bodies are at this place, having got there by this history. */
  ghost predicate At(call: Slots.Call, registry: string, place: Slots.Place, n: nat, history: seq<Slots.Action>) {
    && call.place == place && !place.Answered? && !place.Failed? && Slots.Taken(call) == n && Slots.Ok(call)
    && (place.Inspecting? ==> Slots.Holds(call)) && call.registry == registry && Slots.After(registry, history) == Some(call)
  }

  function From(action: Slots.Action): Slots.Place {
    match action
    case Break => Slots.Requesting
    case Reply => Slots.Requesting
    case Drain => Slots.Inspecting
    case Again => Slots.Resting
    case _ => Slots.Cooling
  }

  function To(action: Slots.Action): Slots.Place {
    match action
    case Break => Slots.Erring
    case Reply => Slots.Inspecting
    case Drain => Slots.Resting
    case Again => Slots.Cooling
    case _ => Slots.Requesting
  }

  /** Does one thing to the call's slots and bodies, and adds it to their history. */
  method Perform(call: Slots.Call, action: Slots.Action, ghost registry: string, ghost n: nat, ghost history: seq<Slots.Action>)
      returns (next: Slots.Call, ghost longer: seq<Slots.Action>)
    requires action.Admit? || action.Break? || action.Reply? || action.Drain? || action.Again?
    requires At(call, registry, From(action), n, history)
    ensures At(next, registry, To(action), if action.Admit? then n + 1 else n, longer)
  {
    Slots.OkStep(call, action);
    next, longer := Slots.Act(call, action), history + [action];
    Slots.Longer(call, history, action);
  }

  /** Returns an error after cancelling, the cooldown's answer, or the upstream's body wrapped again. */
  method Conclude(call: Slots.Call, result: Result, ghost registry: string, ghost place: Slots.Place, ghost n: nat,
                  ghost history: seq<Slots.Action>) returns (next: Slots.Call, ghost longer: seq<Slots.Action>)
    requires At(call, registry, place, n, history)
    requires
      match result
      case Failure => place.Cooling? || place.Erring? || place.Resting?
      case Response(_, holdsSlot) => if holdsSlot then place.Inspecting? else place.Cooling?
    ensures Slots.After(registry, longer) == Some(next) && Left(next, result, n)
  {
    var action := if result.Failure? then Slots.GiveUp else if result.holdsSlot then Slots.HandOver else Slots.Refuse;
    Slots.OkStep(call, action);
    next, longer := Slots.Act(call, action), history + [action];
    Slots.Longer(call, history, action);
  }

  /** The shared table's cooldowns, none without a coordinator. */
  ghost function Table(shared: Coordinator?): map<string, int>
    reads shared
  {
    if shared == null then map[] else shared.cooldowns
  }

  /** Both the local times and the shared table hold every cooldown set or read, forget none they held at first, and hold
      nothing else. */
  ghost predicate Kept(local: map<string, int>, table: map<string, int>, registry: string,
                       first: map<string, int>, firstTable: map<string, int>, a: Account, remotes: seq<int>)
  {
    && Remembers(local, registry, a.deadlines) && Remembers(local, registry, remotes) && Dominates(local, first)
    && OnlyThese(local, first, registry, remotes, a.deadlines)
    && Remembers(table, "upstream:" + registry, a.shared) && Dominates(table, firstTable)
    && Only(table, firstTable, "upstream:" + registry, a.shared)
  }

  ghost predicate OnlyThese(local: map<string, int>, first: map<string, int>, registry: string,
                            remotes: seq<int>, deadlines: seq<int>)
  {
    forall r :: r in local ==>
      || (r in first && local[r] == first[r])
      || (r == registry && (local[r] in remotes || local[r] in deadlines))
  }

  lemma KeptGrows(local: map<string, int>, after: map<string, int>, table: map<string, int>, registry: string,
                  first: map<string, int>, firstTable: map<string, int>, a: Account, remotes: seq<int>, read: seq<int>)
    requires Kept(local, table, registry, first, firstTable, a, remotes) && Dominates(after, local)
    requires Only(after, local, registry, read) && Remembers(after, registry, read)
    ensures Kept(after, table, registry, first, firstTable, a, remotes + read)
  {
    StillRemembers(first, local, after, registry, a.deadlines);
    StillRemembers(first, local, after, registry, remotes);
    hide Dominates;
  }

  /** Adding to the account what is no cooldown keeps it. */
  lemma KeptSame(local: map<string, int>, table: map<string, int>, registry: string, first: map<string, int>,
                 firstTable: map<string, int>, a: Account, b: Account, remotes: seq<int>)
    requires Kept(local, table, registry, first, firstTable, a, remotes)
    requires b.deadlines == a.deadlines && b.shared == a.shared
    ensures Kept(local, table, registry, first, firstTable, b, remotes)
  {
  }

  lemma LocalSet(first: map<string, int>, local: map<string, int>, after: map<string, int>, registry: string,
                 remotes: seq<int>, deadlines: seq<int>, until: int)
    requires Remembers(local, registry, deadlines) && Remembers(local, registry, remotes) && Dominates(local, first)
    requires OnlyThese(local, first, registry, remotes, deadlines)
    requires Dominates(after, local) && Only(after, local, registry, [until]) && AtLeast(after, registry, until)
    ensures Remembers(after, registry, deadlines + [until]) && Remembers(after, registry, remotes) && Dominates(after, first)
    ensures OnlyThese(after, first, registry, remotes, deadlines + [until])
  {
    StillRemembers(first, local, after, registry, deadlines);
    StillRemembers(first, local, after, registry, remotes);
    RemembersAppend(after, registry, deadlines, until);
    hide Dominates, Remembers;
  }

  lemma TableSet(first: map<string, int>, table: map<string, int>, after: map<string, int>, route: string,
                 written: seq<int>, until: int)
    requires Remembers(table, route, written) && Dominates(table, first) && Only(table, first, route, written)
    requires Dominates(after, table) && Only(after, table, route, [until]) && AtLeast(after, route, until)
    ensures Remembers(after, route, written + [until]) && Dominates(after, first)
    ensures Only(after, first, route, written + [until])
  {
    StillRemembers(first, table, after, route, written);
    RemembersAppend(after, route, written, until);
    StillOnly(first, table, after, route, written, [until]);
  }

  /** Sets a 429's cooldown and adds it to the account. */
  method Cool(cooldowns: RouteCooldowns, shared: Coordinator?, registry: string, delay: int, until: int, written: bool, a: Account,
              ghost first: map<string, int>, ghost firstTable: map<string, int>, ghost remotes: seq<int>)
      returns (b: Account, wrote: bool)
    requires Kept(cooldowns.byRoute, Table(shared), registry, first, firstTable, a, remotes)
    modifies cooldowns, shared
    ensures b == Limited(a, delay, until, wrote) && (wrote <==> shared != null && written)
    ensures Kept(cooldowns.byRoute, Table(shared), registry, first, firstTable, b, remotes)
  {
    hide Remembers, Dominates, AtLeast, Unix, Only, OnlyThese;
    ghost var known, table := cooldowns.byRoute, Table(shared);
    wrote := SetCooldown(cooldowns, shared, registry, until, written);
    b := Limited(a, delay, until, wrote);
    LocalSet(first, known, cooldowns.byRoute, registry, remotes, a.deadlines, until);
    if wrote {
      TableSet(firstTable, table, shared.cooldowns, "upstream:" + registry, a.shared, Unix(until));
    }
  }

  /** The call is over: its account is in order and tells what was seen, and what the call did with slots, bodies and its
      context is a run of their own model that leaves the caller with at most one body. */
  ghost predicate Finished(c: Config, env: Env, start: int, retryable: bool, coordinated: bool, registry: string,
                           result: Result, a: Account, log: Log, call: Slots.Call, history: seq<Slots.Action>)
  {
    && Accounted(c, retryable, result, a) && Logged(c, env, start, log, a)
    && Seen(env, coordinated, |log.checked|, log, a)
    && Slots.After(registry, history) == Some(call) && Left(call, result, a.attempts)
  }

  lemma SeenCheck(env: Env, coordinated: bool, n: nat, log: Log, a: Account, b: Account, now: int, read: seq<int>)
    requires Seen(env, coordinated, n, log, a) && b.shared == a.shared && b.deadlines == a.deadlines
    requires read == if coordinated && env.remote(n).Until? then [env.remote(n).t] else []
    ensures Seen(env, coordinated, n + 1, log.(checked := log.checked + [now], remotes := log.remotes + read), b)
  {
  }

  lemma SeenReply(env: Env, coordinated: bool, n: nat, log: Log, a: Account, b: Account)
    requires Seen(env, coordinated, n, log, a) && b.shared == a.shared && b.deadlines == a.deadlines
    ensures Seen(env, coordinated, n, log, b)
    ensures Seen(env, coordinated, n, log.(replies := log.replies + [env.reply(|log.replies|)]), b)
  {
    hide Reads, Writes;
  }

  lemma SeenLimit(env: Env, coordinated: bool, n: nat, log: Log, a: Account, l: Limit)
    requires Seen(env, coordinated, n, log, a)
    ensures Seen(env, coordinated, n, log.(limits := log.limits + [l]),
                 Limited(a, l.delay, l.deadline, coordinated && env.written(|a.deadlines|)))
  {
    assert (a.deadlines + [l.deadline])[..|a.deadlines|] == a.deadlines;
    hide Reads, Unix;
  }

  /** The first half of an attempt: the cooldown, then the queue for a slot. */
  method Enter(c: Config, env: Env, cooldowns: RouteCooldowns, shared: Coordinator?, registry: string, retryable: bool,
               now: int, n: nat, a0: Account, log0: Log, call0: Slots.Call, ghost history0: seq<Slots.Action>,
               ghost start: int, ghost first: map<string, int>, ghost firstTable: map<string, int>)
      returns (through: bool, result: Result, a: Account, log: Log, call: Slots.Call, ghost history: seq<Slots.Action>)
    requires Ready(c, retryable, n, a0) && a0.attempts == n && At(call0, registry, Slots.Cooling, n, history0)
    requires Logged(c, env, start, log0, a0) && |log0.limits| == n && Seen(env, shared != null, n, log0, a0)
    requires Kept(cooldowns.byRoute, Table(shared), registry, first, firstTable, a0, log0.remotes)
    modifies cooldowns
    ensures Kept(cooldowns.byRoute, Table(shared), registry, first, firstTable, a, log.remotes)
    ensures log == log0.(checked := log0.checked + [now], remotes := log.remotes)
    ensures !through ==> Finished(c, env, start, retryable, shared != null, registry, result, a, log, call, history)
    ensures !through ==> Explained(c, env, retryable, cooldowns.byRoute, registry, result, log)
    ensures through ==>
      && Cooled(c, retryable, n, a) && a.attempts == n && Logged(c, env, start, log, a)
      && Seen(env, shared != null, n + 1, log, a) && At(call, registry, Slots.Requesting, n + 1, history)
  {
    hide Each, Kept, Dominates, AtLeast, Only, Ready, Cooled, Accounted, Logged, At, Left, Table, Slots.After, Reads, Writes;
    ghost var known, table := cooldowns.byRoute, Table(shared);
    var gate, waits, remote := WaitForCooldown(c, env, n, cooldowns, shared != null, registry, now);
    var read := if remote.Until? then [remote.t] else [];
    log := log0.(checked := log0.checked + [now], remotes := log0.remotes + read);
    LogLength(c, env, start, log0, a0);
    LogChecked(c, env, start, log0, a0, now, read);
    KeptGrows(known, cooldowns.byRoute, table, registry, first, firstTable, a0, log0.remotes, read);
    Cools(c, retryable, n, a0, waits);
    KeptSame(cooldowns.byRoute, table, registry, first, firstTable, a0, Waited(a0, waits), log.remotes);
    LogQueued(c, env, start, log, a0, Waited(a0, waits));
    SeenCheck(env, shared != null, n, log0, a0, Waited(a0, waits), now, read);
    a, through, result := Waited(a0, waits), false, Failure;
    if gate != Proceed {
      RefusedIsAccounted(c, retryable, n, a);
      result := if gate == Throttled then Response(true, false) else Failure;
      call, history := Conclude(call0, result, registry, Slots.Cooling, n, history0);
      return;
    }
    through := env.admitted(n);
    if through {
      call, history := Perform(call0, Slots.Admit, registry, n, history0);
    } else {
      QueuedIsAccounted(c, retryable, n, a);
      KeptSame(cooldowns.byRoute, table, registry, first, firstTable, a, a.(queued := a.queued + 1), log.remotes);
      LogQueued(c, env, start, log, a, a.(queued := a.queued + 1));
      SeenReply(env, shared != null, n + 1, log, a, a.(queued := a.queued + 1));
      a := a.(queued := a.queued + 1);
      call, history := Conclude(call0, result, registry, Slots.Cooling, n, history0);
    }
  }

  lemma LogLength(c: Config, env: Env, start: int, log: Log, a: Account)
    requires Logged(c, env, start, log, a)
    ensures |log.replies| == a.attempts && |log.limits| == |a.deadlines|
  {
  }

  lemma IsTimed(c: Config, env: Env, n: nat, l: Limit)
    requires l.received <= l.marked && l.deadline == l.marked + l.delay
    requires DelayFor(c, l.header, l.received, n, l.delay) && l.delay == DelayOf(c, env, l.header, l.received, n)
    ensures Timed(c, env, n, l)
  {
  }

  /** Reads the clock, decides a 429's delay and sets its cooldown. */
  method Note(c: Config, env: Env, cooldowns: RouteCooldowns, shared: Coordinator?, registry: string, header: RetryAfter,
              now: int, n: nat, a0: Account, log0: Log, ghost start: int,
              ghost first: map<string, int>, ghost firstTable: map<string, int>)
      returns (a: Account, log: Log, limit: Limit, wrote: bool)
    requires Draws(env) && Logged(c, env, start, log0, a0) && |log0.limits| == n && |log0.replies| == n + 1
    requires log0.replies[n] == Status(true, header) && Latest(start, log0) <= now && Seen(env, shared != null, n + 1, log0, a0)
    requires Kept(cooldowns.byRoute, Table(shared), registry, first, firstTable, a0, log0.remotes)
    modifies cooldowns, shared
    ensures limit.delay >= 0 && a == Limited(a0, limit.delay, limit.deadline, wrote)
    ensures log == log0.(limits := log0.limits + [limit]) && limit.marked >= now
    ensures Logged(c, env, start, log, a)
    ensures Seen(env, shared != null, n + 1, log, a)
    ensures Kept(cooldowns.byRoute, Table(shared), registry, first, firstTable, a, log.remotes)
  {
    hide Kept, Logged, DelayFor, DelayOf, Draws, Table, RetryAfterDelay, Unix, Seen, Timed, Limited;
    LogLength(c, env, start, log0, a0);
    var received := Now(now);
    var delay := LimitedDelay(c, env, header, received, n);
    var later := Now(received);
    a, wrote := Cool(cooldowns, shared, registry, delay, later + delay, env.written(n), a0, first, firstTable, log0.remotes);
    limit := Limit(header, received, delay, later, later + delay);
    IsTimed(c, env, n, limit);
    LogLimit(c, env, start, log0, a0, limit, wrote);
    SeenLimit(env, shared != null, n + 1, log0, a0, limit);
    log := log0.(limits := log0.limits + [limit]);
  }

  /** The second half: the request, and the wait after a 429 that may be repeated. */
  method Exchange(c: Config, env: Env, cooldowns: RouteCooldowns, shared: Coordinator?, registry: string, retryable: bool,
                  now: int, n: nat, a0: Account, log0: Log, call0: Slots.Call, ghost history0: seq<Slots.Action>,
                  ghost start: int, ghost first: map<string, int>, ghost firstTable: map<string, int>)
      returns (again: bool, result: Result, a: Account, log: Log, call: Slots.Call, ghost history: seq<Slots.Action>,
               later: int)
    requires Draws(env) && n <= c.retries && Cooled(c, retryable, n, a0) && a0.attempts == n
    requires Logged(c, env, start, log0, a0) && |log0.limits| == n && Latest(start, log0) <= now
    requires Seen(env, shared != null, n + 1, log0, a0) && At(call0, registry, Slots.Requesting, n + 1, history0)
    requires Kept(cooldowns.byRoute, Table(shared), registry, first, firstTable, a0, log0.remotes)
    modifies cooldowns, shared
    ensures Kept(cooldowns.byRoute, Table(shared), registry, first, firstTable, a, log.remotes)
    ensures !again ==> Finished(c, env, start, retryable, shared != null, registry, result, a, log, call, history)
    ensures !again ==> Explained(c, env, retryable, cooldowns.byRoute, registry, result, log)
    ensures again ==>
      && n < c.retries && Ready(c, retryable, n + 1, a) && a.attempts == n + 1
      && Logged(c, env, start, log, a) && |log.limits| == n + 1 && Latest(start, log) <= later
      && Seen(env, shared != null, n + 1, log, a) && At(call, registry, Slots.Cooling, n + 1, history)
      && env.reply(n).Status? && env.reply(n).limited && env.rested(n)
  {
    hide Each, Kept, Ready, Cooled, Accounted, Logged, DelayFor, DelayOf, At, Left, Table, RetryAfterDelay, Unix, AtLeast,
      Slots.After, Reads, Writes, Draws;
    LogLength(c, env, start, log0, a0);
    again, result, a, later := false, Failure, Requested(a0), now;
    ReplyIsAccounted(c, retryable, n, a0);
    KeptSame(cooldowns.byRoute, Table(shared), registry, first, firstTable, a0, a, log0.remotes);
    var reply := env.reply(n);
    log := log0.(replies := log0.replies + [reply]);
    LogReply(c, env, start, log0, a0, reply);
    SeenReply(env, shared != null, n + 1, log0, a0, a);
    if reply.Error? {
      call, history := Perform(call0, Slots.Break, registry, n + 1, history0);
      call, history := Conclude(call, result, registry, Slots.Erring, n + 1, history);
      return;
    }
    call, history := Perform(call0, Slots.Reply, registry, n + 1, history0);
    if !reply.limited {
      result := Response(false, true);
      call, history := Conclude(call, result, registry, Slots.Inspecting, n + 1, history);
      return;
    }
    var limit, wrote;
    a, log, limit, wrote :=
      Note(c, env, cooldowns, shared, registry, reply.header, now, n, a, log, start, first, firstTable);
    later := limit.marked;
    if !retryable || n >= c.retries || limit.delay > c.maxRetryAfter {
      LimitIsAccounted(c, retryable, n, a0, limit.delay, limit.deadline, wrote);
      result := Response(true, true);
      call, history := Conclude(call, result, registry, Slots.Inspecting, n + 1, history);
      return;
    }
    RestIsAccounted(c, retryable, n, a0, limit.delay, limit.deadline, wrote);
    KeptSame(cooldowns.byRoute, Table(shared), registry, first, firstTable, a, Rested(a, limit.delay), log.remotes);
    LogQueued(c, env, start, log, a, Rested(a, limit.delay));
    SeenReply(env, shared != null, n + 1, log, a, Rested(a, limit.delay));
    a := Rested(a, limit.delay);
    call, history := Perform(call, Slots.Drain, registry, n + 1, history);
    again := env.rested(n);
    if again {
      call, history := Perform(call, Slots.Again, registry, n + 1, history);
    } else {
      call, history := Conclude(call, result, registry, Slots.Resting, n + 1, history);
    }
  }

  /** One upstream call, made not before `start`. Every 429 it saw sets a cooldown that lasts its delay, remembered locally
      and in the shared table where the write succeeded; neither forgets a longer cooldown, and nothing else is set. */
  method Do(c: Config, env: Env, cooldowns: RouteCooldowns, shared: Coordinator?, registry: string, retryable: bool, start: int)
      returns (result: Result, a: Account, log: Log, call: Slots.Call, ghost history: seq<Slots.Action>)
    requires Draws(env)
    modifies cooldowns, shared
    ensures Finished(c, env, start, retryable, shared != null, registry, result, a, log, call, history)
    ensures Explained(c, env, retryable, cooldowns.byRoute, registry, result, log)
    ensures Kept(cooldowns.byRoute, Table(shared), registry, old(cooldowns.byRoute), old(Table(shared)), a, log.remotes)
  {
    hide Kept, Ready, Cooled, At, Finished, Explained, Table, Logged, AtLeast, Seen, Draws;
    var attempt := 0;
    var now := Now(start);
    ghost var first, firstTable := cooldowns.byRoute, Table(shared);
    a, log, call, history := NOTHING, SILENCE, Slots.Start(registry), [];
    NothingYet(c, env, start, retryable, first, firstTable, registry, shared != null);
    while true
      invariant attempt <= c.retries && Ready(c, retryable, attempt, a) && a.attempts == attempt
      invariant Logged(c, env, start, log, a) && |log.limits| == attempt && Latest(start, log) <= now
      invariant Seen(env, shared != null, attempt, log, a)
      invariant Kept(cooldowns.byRoute, Table(shared), registry, first, firstTable, a, log.remotes)
      invariant At(call, registry, Slots.Cooling, attempt, history)
      decreases c.retries - attempt
    {
      var through, again;
      through, result, a, log, call, history :=
        Enter(c, env, cooldowns, shared, registry, retryable, now, attempt, a, log, call, history, start, first, firstTable);
      if !through {
        return;
      }
      now := Now(now);
      again, result, a, log, call, history, now :=
        Exchange(c, env, cooldowns, shared, registry, retryable, now, attempt, a, log, call, history, start, first, firstTable);
      if !again {
        return;
      }
      now := Now(now);
      attempt := attempt + 1;
    }
  }

  /** The readings of a call follow one another: none before the start, and no 429 comes before the cooldown of an earlier
      one was set. */
  lemma ReadingsFollow(c: Config, env: Env, start: int, a: Account, log: Log, i: nat, j: nat)
    requires Logged(c, env, start, log, a) && i <= j < |log.limits|
    ensures start <= log.limits[i].received <= log.limits[i].marked
    ensures i < j ==> log.limits[i].marked <= log.limits[j].received
  {
    hide DelayFor, DelayOf;
    forall k | 0 <= k < |log.limits| ensures log.limits[k].received <= log.limits[k].marked {
      assert TellsOf(c, env, log.replies[k], log.limits[k], k, a.delays[k], a.deadlines[k]);
    }
    hide Told, InOrder;
    LimitsFollow(start, log.limits, i, j);
  }

  lemma {:induction false} LimitsFollow(start: int, limits: seq<Limit>, i: nat, j: nat)
    requires InOrder(start, limits) && i <= j < |limits|
    requires forall k :: 0 <= k < |limits| ==> limits[k].received <= limits[k].marked
    ensures start <= limits[i].received && (i < j ==> limits[i].marked <= limits[j].received)
    decreases i + j
  {
    assert Earlier(start, limits, i) <= limits[i].received;
    assert Earlier(start, limits, j) <= limits[j].received;
    if i > 0 {
      LimitsFollow(start, limits, i - 1, i - 1);
    }
    if i < j {
      LimitsFollow(start, limits, i, j - 1);
    }
  }

  /** After the call, until a 429's delay has passed since it came, the cooldown is in force: a request for the registry
      waits or is refused. */
  lemma StillCooling(c: Config, env: Env, start: int, a: Account, log: Log, i: nat, byRoute: map<string, int>, table: map<string, int>,
                     registry: string, first: map<string, int>, firstTable: map<string, int>, now: int)
    requires Logged(c, env, start, log, a) && Kept(byRoute, table, registry, first, firstTable, a, log.remotes)
    requires i < |log.limits| && now < log.limits[i].received + log.limits[i].delay
    ensures AtLeast(byRoute, registry, now + 1)
  {
    hide DelayFor, DelayOf, InOrder;
    assert TellsOf(c, env, log.replies[i], log.limits[i], i, a.delays[i], a.deadlines[i]);
    assert a.deadlines[i] in a.deadlines;
  }

  /** Closing the body the caller is left with, any number of times, gives the last slot back and cancels once. */
  lemma {:induction false} CallerSettles(call: Slots.Call, result: Result, attempts: nat, closes: nat) returns (after: Slots.Call)
    requires Slots.Ok(call) && Left(call, result, attempts) && result.Response? && closes >= 1
    ensures after == ClosedTimes(call, closes) && after.given == Slots.Taken(after) == attempts && after.cancels == 1
    decreases closes
  {
    after := ClosedTimes(call, closes);
    if closes > 1 {
      var before := CallerSettles(call, result, attempts, closes - 1);
      ClosedKeeps(call, closes - 1);
    }
  }

  ghost function ClosedTimes(call: Slots.Call, n: nat): Slots.Call
    requires call.body.Body?
    ensures ClosedTimes(call, n).body.Body?
  {
    if n == 0 then call else Slots.Act(ClosedTimes(call, n - 1), Slots.CloseBody)
  }

  lemma {:induction false} ClosedKeeps(call: Slots.Call, n: nat)
    requires Slots.Ok(call) && call.body.Body?
    ensures Slots.Ok(ClosedTimes(call, n))
    decreases n
  {
    if n > 0 {
      ClosedKeeps(call, n - 1);
      Slots.OkStep(ClosedTimes(call, n - 1), Slots.CloseBody);
    }
  }

  lemma OneWait(wait: int, least: int, most: int)
    requires least <= wait <= most
    ensures Each([wait], least, most)
  {
  }

  lemma NoWaits(c: Config)
    ensures Each([], 1, c.maxRetryAfter) && Each([], 0, c.maxRetryAfter)
  {
  }

  lemma NothingYet(c: Config, env: Env, start: int, retryable: bool, first: map<string, int>, table: map<string, int>,
                   registry: string, coordinated: bool)
    ensures Ready(c, retryable, 0, NOTHING) && Kept(first, table, registry, first, table, NOTHING, [])
    ensures At(Slots.Start(registry), registry, Slots.Cooling, 0, []) && Logged(c, env, start, SILENCE, NOTHING)
    ensures Seen(env, coordinated, 0, SILENCE, NOTHING)
  {
    NoWaits(c);
    Slots.StartsOk(registry);
  }
}
