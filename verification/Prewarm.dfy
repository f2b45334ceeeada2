/** One prewarm pass: a sender hands artifacts to workers over an unbuffered channel, workers retry rate-limited fetches,
    and the first failure cancels the pass. Every interleaving is considered. */
module Prewarm {
  import opened Options

  datatype Status = HIT | MISS | OTHER

  datatype Artifact = Artifact(pluginMarker: bool)

  /** What the checkpoint of an earlier run recorded for an artifact. */
  datatype Saved = Saved(route: string, status: Status)

  datatype Config = Config(artifacts: seq<Artifact>, concurrency: nat, retries: nat, route: string, pluginRoute: string,
                           selected: Option<seq<string>>, requireHit: bool, checkpoint: map<nat, Saved>)

  /** The route an artifact is fetched from. */
  function Route(c: Config, i: nat): string {
    if c.selected.Some? && i < |c.selected.value| then c.selected.value[i]
    else if i < |c.artifacts| && c.artifacts[i].pluginMarker && c.pluginRoute != "" then c.pluginRoute
    else c.route
  }

  /** What Run has checked before a pass: a worker, one selected route per artifact, and a checkpoint, read only by the
      first pass, whose routes are the declared ones. */
  ghost predicate Accepted(c: Config) {
    && c.concurrency >= 1 && (c.selected.Some? ==> |c.selected.value| == |c.artifacts|)
    && (c.requireHit ==> c.checkpoint == map[])
    && (forall i :: i in c.checkpoint && i < |c.artifacts| ==> c.checkpoint[i].route == Route(c, i))
  }

  datatype Worker =
    | Idle
    | Fetching(job: nat, attempts: nat)
    | Sleeping(job: nat, attempts: nat)
    | Exited

  predicate Busy(w: Worker) {
    w.Fetching? || w.Sleeping?
  }

  datatype Stats = Stats(artifacts: nat, hits: nat, misses: nat)

  /** sent: artifacts handed out; closed: the channel is closed; done, missing: artifacts counted and not found;
      fetches: requests made per artifact. */
  datatype Pass = Pass(sent: nat, closed: bool, parentGone: bool, failed: bool, workers: seq<Worker>,
                       done: set<nat>, missing: set<nat>, stats: Stats, routes: map<nat, string>, fetches: map<nat, nat>)

  /** The pass context is cancelled by its parent or by the first failure. */
  predicate Cancelled(p: Pass) {
    p.failed || p.parentGone
  }

  function Start(c: Config): Pass {
    Pass(0, false, false, false, seq(c.concurrency, i => Idle), {}, {}, Stats(0, 0, 0), map[], map[])
  }

  /** How one fetch ends; Failure also stands for a checkpoint that cannot be saved. */
  datatype Reply = RateLimited | Failure | NotFound | Found(status: Status)

  datatype Event =
    | Send(w: nat)
    | StopSending
    | CloseJobs
    | Fetch(w: nat, reply: Reply)
    | Wake(w: nat)
    | Interrupt(w: nat)
    | Leave(w: nat)
    | CancelParent

  predicate Enabled(c: Config, p: Pass, e: Event) {
    match e
    case Send(w) => !p.closed && p.sent < |c.artifacts| && w < |p.workers| && p.workers[w].Idle?
    case StopSending => !p.closed && Cancelled(p)
    case CloseJobs => !p.closed && p.sent == |c.artifacts|
    case Fetch(w, _) => w < |p.workers| && p.workers[w].Fetching?
    case Wake(w) => w < |p.workers| && p.workers[w].Sleeping?
    case Interrupt(w) => w < |p.workers| && p.workers[w].Sleeping? && Cancelled(p)
    case Leave(w) => p.closed && w < |p.workers| && p.workers[w].Idle?
    case CancelParent => !p.parentGone
  }

  function Counted(s: Stats, status: Status): Stats {
    Stats(s.artifacts + 1, s.hits + if status == HIT then 1 else 0, s.misses + if status == MISS then 1 else 0)
  }

  /** A worker that has found its artifact counts it, or fails the pass. */
  function Finish(p: Pass, w: nat, job: nat, route: string, status: Status, mustHit: bool): Pass
    requires w < |p.workers|
  {
    var routed := p.(routes := p.routes[job := route]);
    if mustHit && status != HIT then routed.(failed := true, workers := p.workers[w := Exited])
    else
      var counted := routed.(stats := Counted(p.stats, status), done := p.done + {job});
      if status == OTHER then counted.(failed := true, workers := p.workers[w := Exited])
      else counted.(workers := p.workers[w := Idle])
  }

  function Fetched(p: Pass, job: nat): Pass {
    p.(fetches := p.fetches[job := 1 + if job in p.fetches then p.fetches[job] else 0])
  }

  function Next(c: Config, p: Pass, e: Event): Pass
    requires Enabled(c, p, e)
  {
    match e
    case Send(w) =>
      var job := p.sent;
      var q := p.(sent := job + 1);
      if job in c.checkpoint then Finish(q, w, job, c.checkpoint[job].route, c.checkpoint[job].status, false)
      else q.(workers := p.workers[w := Fetching(job, 0)])
    case StopSending => p.(closed := true)
    case CloseJobs => p.(closed := true)
    case Fetch(w, reply) =>
      var Fetching(job, attempts) := p.workers[w];
      var q := Fetched(p, job);
      (match reply
       case RateLimited =>
         if attempts >= c.retries then q.(failed := true, workers := p.workers[w := Exited])
         else q.(workers := p.workers[w := Sleeping(job, attempts + 1)])
       case Failure => q.(failed := true, workers := p.workers[w := Exited])
       case NotFound => q.(missing := p.missing + {job}, workers := p.workers[w := Idle])
       case Found(status) => Finish(q, w, job, Route(c, job), status, c.requireHit))
    case Wake(w) => p.(workers := p.workers[w := Fetching(p.workers[w].job, p.workers[w].attempts)])
    case Interrupt(w) => p.(workers := p.workers[w := Exited])
    case Leave(w) => p.(workers := p.workers[w := Exited])
    case CancelParent => p.(parentGone := true)
  }

  predicate Ended(p: Pass) {
    p.closed && forall w :: 0 <= w < |p.workers| ==> p.workers[w].Exited?
  }

  /** The pass returns its statistics and routes rather than an error. */
  predicate Succeeded(p: Pass) {
    Ended(p) && !p.failed && !p.parentGone && p.missing == {}
  }

  // ---- what every step keeps ----

  /** A worker's artifact was handed out, is not settled, and is no other worker's; its requests are counted. */
  ghost predicate Working(c: Config, p: Pass) {
    Exclusive(p.workers) && forall w :: 0 <= w < |p.workers| && Busy(p.workers[w]) ==> Holds(c, p, p.workers[w])
  }

  ghost predicate Exclusive(workers: seq<Worker>) {
    forall v, w :: 0 <= v < w < |workers| && Busy(workers[v]) && Busy(workers[w]) ==> workers[v].job != workers[w].job
  }

  lemma ExclusiveUpdate(workers: seq<Worker>, w: nat, to: Worker)
    requires Exclusive(workers) && w < |workers|
    requires Busy(to) ==> forall v :: 0 <= v < |workers| && v != w && Busy(workers[v]) ==> workers[v].job != to.job
    ensures Exclusive(workers[w := to])
  {
  }

  ghost predicate Holds(c: Config, p: Pass, w: Worker)
    requires Busy(w)
  {
    && w.job < p.sent && w.job !in p.done && w.job !in p.missing && w.attempts <= c.retries
    && w.attempts == if w.job in p.fetches then p.fetches[w.job] else 0
  }

  ghost predicate HeldBy(p: Pass, job: nat) {
    exists w :: 0 <= w < |p.workers| && Busy(p.workers[w]) && p.workers[w].job == job
  }

  ghost predicate Settled(c: Config, p: Pass) {
    && p.sent <= |c.artifacts| && (p.closed && !Cancelled(p) ==> p.sent == |c.artifacts|)
    && (forall i :: i in p.done || i in p.missing || i in p.fetches ==> i < p.sent)
    && (forall i :: i in p.fetches ==> p.fetches[i] <= c.retries + 1)
    && (forall i :: i in p.done ==> i in p.routes && p.routes[i] == Route(c, i))
  }

  /** Nothing handed out is lost while the pass is not cancelled. */
  ghost predicate Accounted(p: Pass) {
    !Cancelled(p) ==> forall i: nat :: i < p.sent ==> i in p.done || i in p.missing || HeldBy(p, i)
  }

  /** A worker that exits before the channel is closed leaves the context cancelled. */
  ghost predicate Guarded(p: Pass) {
    forall w :: 0 <= w < |p.workers| && p.workers[w].Exited? ==> p.closed || Cancelled(p)
  }

  ghost predicate Counts(c: Config, p: Pass) {
    !p.failed ==>
      p.stats.artifacts == |p.done| == p.stats.hits + p.stats.misses && (c.requireHit ==> p.stats.misses == 0)
  }

  ghost predicate Inv(c: Config, p: Pass) {
    && |p.workers| == c.concurrency
    && Working(c, p) && Settled(c, p) && Accounted(p) && Guarded(p) && Counts(c, p)
  }

  /** The worker at w no longer works on anything. */
  ghost function Released(p: Pass, w: nat): Pass
    requires w < |p.workers|
  {
    p.(workers := p.workers[w := Idle])
  }

  /** A worker that has found its artifact counts it or fails the pass, and keeps the invariant. */
  lemma FinishKeeps(c: Config, p: Pass, w: nat, job: nat, status: Status, mustHit: bool)
    requires Accepted(c) && |p.workers| == c.concurrency && w < |p.workers|
    requires job < p.sent && job !in p.done && mustHit == c.requireHit
    requires Working(c, Released(p, w)) && Settled(c, p) && Guarded(Released(p, w)) && Counts(c, p)
    requires forall v :: 0 <= v < |p.workers| && v != w && Busy(p.workers[v]) ==> p.workers[v].job != job
    requires !Cancelled(p) ==>
      forall i: nat :: i < p.sent && i != job ==> i in p.done || i in p.missing || HeldBy(Released(p, w), i)
    ensures Inv(c, Finish(p, w, job, Route(c, job), status, mustHit))
  {
    hide Inv, Working, Settled, Guarded, Counts, HeldBy, Accounted, Route;
    var routed := p.(routes := p.routes[job := Route(c, job)]);
    if mustHit && status != HIT {
      RoutedReady(c, p, w, job);
      FailKeeps(c, routed, w);
    } else {
      var counted := routed.(stats := Counted(p.stats, status), done := p.done + {job});
      CountedReady(c, p, counted, w, job);
      if status == OTHER {
        FailKeeps(c, counted, w);
      } else {
        CountKeeps(c, p, counted, w, job, status);
      }
    }
  }

  lemma RoutedReady(c: Config, p: Pass, w: nat, job: nat)
    requires w < |p.workers| && job < p.sent && job !in p.done
    requires Working(c, Released(p, w)) && Settled(c, p) && Guarded(Released(p, w))
    ensures var q := p.(routes := p.routes[job := Route(c, job)]);
      Working(c, Released(q, w)) && Settled(c, q) && Guarded(Released(q, w))
  {
    hide Route;
    var idle, q := Released(p, w), Released(p.(routes := p.routes[job := Route(c, job)]), w);
    forall v | 0 <= v < |q.workers| && Busy(q.workers[v]) ensures Holds(c, q, q.workers[v]) {
      assert Holds(c, idle, idle.workers[v]);
    }
  }

  lemma CountedReady(c: Config, p: Pass, q: Pass, w: nat, job: nat)
    requires w < |p.workers| && job < p.sent
    requires q == p.(routes := p.routes[job := Route(c, job)], stats := q.stats, done := p.done + {job})
    requires Working(c, Released(p, w)) && Settled(c, p) && Guarded(Released(p, w))
    requires forall v :: 0 <= v < |p.workers| && v != w && Busy(p.workers[v]) ==> p.workers[v].job != job
    ensures Working(c, Released(q, w)) && Settled(c, q) && Guarded(Released(q, w))
  {
    hide Route;
    var idle, counted := Released(p, w), Released(q, w);
    forall v | 0 <= v < |counted.workers| && Busy(counted.workers[v]) ensures Holds(c, counted, counted.workers[v]) {
      assert Holds(c, idle, idle.workers[v]);
    }
  }

  lemma CountKeeps(c: Config, p: Pass, q: Pass, w: nat, job: nat, status: Status)
    requires |p.workers| == c.concurrency && w < |p.workers| && job !in p.done
    requires q == p.(routes := q.routes, stats := Counted(p.stats, status), done := p.done + {job})
    requires status != OTHER && (c.requireHit ==> status == HIT) && Counts(c, p)
    requires Working(c, Released(q, w)) && Settled(c, q) && Guarded(Released(q, w))
    requires !Cancelled(p) ==>
      forall i: nat :: i < p.sent && i != job ==> i in p.done || i in p.missing || HeldBy(Released(p, w), i)
    ensures Inv(c, q.(workers := q.workers[w := Idle]))
  {
    var idle, counted := Released(p, w), Released(q, w);
    assert Accounted(counted) by {
      hide Working, Settled, Guarded, Counts;
      forall i: nat | HeldBy(idle, i) ensures HeldBy(counted, i) {
        StillHeld(idle, counted, w, i);
      }
    }
    hide Working, HeldBy, Accounted;
    assert Working(c, counted) && Settled(c, counted);
    assert |p.done + {job}| == |p.done| + 1;
  }

  /** An artifact held by another worker stays held when one worker moves. */
  lemma StillHeld(p: Pass, q: Pass, w: nat, job: nat)
    requires |q.workers| == |p.workers| && HeldBy(p, job) && w < |p.workers|
    requires forall v :: 0 <= v < |p.workers| && v != w ==> q.workers[v] == p.workers[v]
    requires Busy(p.workers[w]) ==> Busy(q.workers[w]) && q.workers[w].job == p.workers[w].job
    ensures HeldBy(q, job)
  {
    var v :| 0 <= v < |p.workers| && Busy(p.workers[v]) && p.workers[v].job == job;
    assert Busy(q.workers[v]) && q.workers[v].job == job;
  }

  lemma SendKeeps(c: Config, p: Pass, w: nat)
    requires Accepted(c) && Inv(c, p) && Enabled(c, p, Send(w))
    ensures Inv(c, Next(c, p, Send(w)))
  {
    hide Working, Settled, Guarded, Counts, HeldBy, Accounted, Finish, Route;
    var job := p.sent;
    var q := p.(sent := job + 1);
    SendReady(c, p, w);
    if job in c.checkpoint {
      FinishKeeps(c, q, w, job, c.checkpoint[job].status, false);
    } else {
      HandOut(c, p, w);
    }
  }

  lemma SendReady(c: Config, p: Pass, w: nat)
    requires Accepted(c) && Inv(c, p) && Enabled(c, p, Send(w))
    ensures var q := p.(sent := p.sent + 1);
      && Working(c, Released(q, w)) && Settled(c, q) && Guarded(Released(q, w)) && Counts(c, q)
      && (forall v :: 0 <= v < |q.workers| && Busy(q.workers[v]) ==> q.workers[v].job != p.sent)
      && (!Cancelled(q) ==>
            forall i: nat :: i < q.sent && i != p.sent ==> i in q.done || i in q.missing || HeldBy(Released(q, w), i))
    ensures p.sent !in p.done && p.sent !in p.missing && p.sent !in p.fetches
  {
    var q := p.(sent := p.sent + 1);
    assert q.workers[w := Idle] == p.workers;
    forall i: nat | HeldBy(p, i) ensures HeldBy(Released(q, w), i) {
      StillHeld(p, Released(q, w), w, i);
    }
    forall v | 0 <= v < |p.workers| && Busy(p.workers[v]) ensures Holds(c, Released(q, w), p.workers[v]) {
      assert Holds(c, p, p.workers[v]);
    }
  }

  lemma HandOut(c: Config, p: Pass, w: nat)
    requires Accepted(c) && Inv(c, p) && Enabled(c, p, Send(w)) && p.sent !in c.checkpoint
    requires p.sent !in p.done && p.sent !in p.missing && p.sent !in p.fetches
    requires forall v :: 0 <= v < |p.workers| && Busy(p.workers[v]) ==> p.workers[v].job != p.sent
    ensures Inv(c, Next(c, p, Send(w)))
  {
    var q := Next(c, p, Send(w));
    assert q.workers[w] == Fetching(p.sent, 0);
    ExclusiveUpdate(p.workers, w, Fetching(p.sent, 0));
    forall v | 0 <= v < |q.workers| && Busy(q.workers[v]) ensures Holds(c, q, q.workers[v]) {
      assert v != w ==> Holds(c, p, p.workers[v]);
    }
    forall i: nat | HeldBy(p, i) ensures HeldBy(q, i) {
      StillHeld(p, q, w, i);
    }
    assert HeldBy(q, p.sent);
  }

  lemma FetchKeeps(c: Config, p: Pass, w: nat, reply: Reply)
    requires Accepted(c) && Inv(c, p) && Enabled(c, p, Fetch(w, reply))
    ensures Inv(c, Next(c, p, Fetch(w, reply)))
  {
    hide Working, Settled, Guarded, Counts, HeldBy, Accounted;
    FetchedReady(c, p, w);
    var job := p.workers[w].job;
    var q := Fetched(p, job);
    match reply
    case Found(status) => FinishKeeps(c, q, w, job, status, c.requireHit);
    case NotFound => NotFoundKeeps(c, q, w, job);
    case RateLimited =>
      if p.workers[w].attempts >= c.retries {
        FailKeeps(c, q, w);
      } else {
        RateLimitKeeps(c, p, w);
      }
    case Failure => FailKeeps(c, q, w);
  }

  lemma FetchedReady(c: Config, p: Pass, w: nat)
    requires Accepted(c) && Inv(c, p) && w < |p.workers| && p.workers[w].Fetching?
    ensures var q, job := Fetched(p, p.workers[w].job), p.workers[w].job;
      && |q.workers| == c.concurrency && job < q.sent && job !in q.done && job !in q.missing
      && Working(c, Released(q, w)) && Settled(c, q) && Guarded(Released(q, w)) && Counts(c, q)
      && (forall v :: 0 <= v < |q.workers| && v != w && Busy(q.workers[v]) ==> q.workers[v].job != job)
      && (!Cancelled(q) ==>
            forall i: nat :: i < q.sent && i != job ==> i in q.done || i in q.missing || HeldBy(Released(q, w), i))
  {
    var job := p.workers[w].job;
    assert Holds(c, p, p.workers[w]);
    var q := Fetched(p, job);
    var idle := Released(q, w);
    ExclusiveUpdate(p.workers, w, Idle);
    forall v | 0 <= v < |idle.workers| && Busy(idle.workers[v]) ensures Holds(c, idle, idle.workers[v]) {
      assert Holds(c, p, p.workers[v]);
    }
    forall i: nat | HeldBy(p, i) && i != job ensures HeldBy(idle, i) {
      var v :| 0 <= v < |p.workers| && Busy(p.workers[v]) && p.workers[v].job == i;
      assert idle.workers[v] == p.workers[v];
    }
  }

  lemma NotFoundKeeps(c: Config, p: Pass, w: nat, job: nat)
    requires |p.workers| == c.concurrency && w < |p.workers| && job < p.sent
    requires Working(c, Released(p, w)) && Settled(c, p) && Guarded(Released(p, w)) && Counts(c, p)
    requires forall v :: 0 <= v < |p.workers| && v != w && Busy(p.workers[v]) ==> p.workers[v].job != job
    requires !Cancelled(p) ==>
      forall i: nat :: i < p.sent && i != job ==> i in p.done || i in p.missing || HeldBy(Released(p, w), i)
    ensures Inv(c, p.(missing := p.missing + {job}, workers := p.workers[w := Idle]))
  {
    var idle := Released(p, w);
    var q := idle.(missing := p.missing + {job});
    forall v | 0 <= v < |q.workers| && Busy(q.workers[v]) ensures Holds(c, q, q.workers[v]) {
      assert Holds(c, idle, idle.workers[v]);
    }
    forall i: nat | HeldBy(idle, i) ensures HeldBy(q, i) {
      StillHeld(idle, q, w, i);
    }
  }

  lemma FailKeeps(c: Config, p: Pass, w: nat)
    requires |p.workers| == c.concurrency && w < |p.workers|
    requires Working(c, Released(p, w)) && Settled(c, p) && Guarded(Released(p, w))
    ensures Inv(c, p.(failed := true, workers := p.workers[w := Exited]))
  {
    var idle := Released(p, w);
    var q := p.(failed := true, workers := p.workers[w := Exited]);
    assert q.workers == idle.workers[w := Exited];
    ExclusiveUpdate(idle.workers, w, Exited);
    forall v | 0 <= v < |q.workers| && Busy(q.workers[v]) ensures Holds(c, q, q.workers[v]) {
      assert Holds(c, idle, idle.workers[v]);
    }
  }

  lemma RateLimitKeeps(c: Config, p: Pass, w: nat)
    requires Accepted(c) && Inv(c, p) && Enabled(c, p, Fetch(w, RateLimited)) && p.workers[w].attempts < c.retries
    ensures Inv(c, Next(c, p, Fetch(w, RateLimited)))
  {
    var job := p.workers[w].job;
    var q := Next(c, p, Fetch(w, RateLimited));
    assert Holds(c, p, p.workers[w]);
    ExclusiveUpdate(p.workers, w, q.workers[w]);
    forall v | 0 <= v < |q.workers| && Busy(q.workers[v]) ensures Holds(c, q, q.workers[v]) {
      assert Holds(c, p, p.workers[v]);
    }
    forall i: nat | HeldBy(p, i) ensures HeldBy(q, i) {
      StillHeld(p, q, w, i);
    }
  }

  /** Closing and cancelling touch no worker. */
  lemma SignalKeeps(c: Config, p: Pass, e: Event)
    requires Accepted(c) && Inv(c, p) && Enabled(c, p, e) && (e.StopSending? || e.CloseJobs? || e.CancelParent?)
    ensures Inv(c, Next(c, p, e))
  {
    hide Exclusive, Counts;
    var q := Next(c, p, e);
    assert q == p.(closed := q.closed, parentGone := q.parentGone);
    assert Counts(c, q) by {
      SameCounts(c, p, q);
    }
    forall v | 0 <= v < |q.workers| && Busy(q.workers[v]) ensures Holds(c, q, q.workers[v]) {
      assert Holds(c, p, p.workers[v]);
    }
    forall i: nat | HeldBy(p, i) ensures HeldBy(q, i) {
      SameHeld(p, q, i);
    }
  }

  lemma SameCounts(c: Config, p: Pass, q: Pass)
    requires Counts(c, p) && q.failed == p.failed && q.stats == p.stats && q.done == p.done
    ensures Counts(c, q)
  {
  }

  lemma SameHeld(p: Pass, q: Pass, job: nat)
    requires q.workers == p.workers && HeldBy(p, job)
    ensures HeldBy(q, job)
  {
  }

  /** A worker wakes, is interrupted or leaves. */
  lemma WorkerKeeps(c: Config, p: Pass, e: Event)
    requires Accepted(c) && Inv(c, p) && Enabled(c, p, e) && (e.Wake? || e.Interrupt? || e.Leave?)
    ensures Inv(c, Next(c, p, e))
  {
    hide Exclusive, Counts, HeldBy;
    var q, w := Next(c, p, e), e.w;
    assert q == p.(workers := p.workers[w := q.workers[w]]);
    SameCounts(c, p, q);
    if Busy(q.workers[w]) {
      OthersDiffer(p.workers, w);
    }
    ExclusiveUpdate(p.workers, w, q.workers[w]);
    forall v | 0 <= v < |q.workers| && Busy(q.workers[v]) ensures Holds(c, q, q.workers[v]) {
      assert Holds(c, p, p.workers[v]);
    }
    if !Cancelled(q) {
      forall i: nat | HeldBy(p, i) ensures HeldBy(q, i) {
        StillHeld(p, q, w, i);
      }
    }
  }

  lemma OthersDiffer(workers: seq<Worker>, w: nat)
    requires Exclusive(workers) && w < |workers| && Busy(workers[w])
    ensures forall v :: 0 <= v < |workers| && v != w && Busy(workers[v]) ==> workers[v].job != workers[w].job
  {
  }

  ghost predicate Reaches(c: Config, p: Pass, n: nat)
    decreases n
  {
    if n == 0 then p == Start(c)
    else exists before, e :: Reaches(c, before, n - 1) && Steps(c, before, e, p)
  }

  ghost predicate Steps(c: Config, before: Pass, e: Event, p: Pass) {
    Enabled(c, before, e) && p == Next(c, before, e)
  }

  lemma {:induction false} Invariant(c: Config, p: Pass, n: nat)
    requires Accepted(c) && Reaches(c, p, n)
    ensures Inv(c, p)
    decreases n
  {
    hide Inv, Steps, Accepted;
    if n == 0 {
      StartKeeps(c);
    } else {
      var before, e :| Reaches(c, before, n - 1) && Steps(c, before, e, p);
      Invariant(c, before, n - 1);
      StepKeeps(c, before, e, p);
    }
  }

  lemma StartKeeps(c: Config)
    requires Accepted(c)
    ensures Inv(c, Start(c))
  {
  }

  lemma StepKeeps(c: Config, before: Pass, e: Event, p: Pass)
    requires Accepted(c) && Inv(c, before) && Steps(c, before, e, p)
    ensures Inv(c, p)
  {
    hide Inv, Next, Accepted;
    if e.Send? {
      SendKeeps(c, before, e.w);
    } else if e.Fetch? {
      FetchKeeps(c, before, e.w, e.reply);
    } else if e.Wake? || e.Interrupt? || e.Leave? {
      WorkerKeeps(c, before, e);
    } else {
      SignalKeeps(c, before, e);
    }
  }

  // ---- results ----

  lemma {:induction false} RangeSize(s: set<nat>, n: nat)
    requires forall i: nat :: i in s <==> i < n
    ensures |s| == n
  {
    if n == 0 {
      assert s == {};
    } else {
      var less := s - {n - 1};
      RangeSize(less, n - 1);
    }
  }

  /** A pass that returns no error has counted every artifact exactly once, as a hit or a miss, under its own route and
      after at most retries + 1 requests; a pass that demands hits has nothing but hits. */
  lemma PassIsComplete(c: Config, p: Pass, n: nat)
    requires Accepted(c) && Reaches(c, p, n) && Succeeded(p)
    ensures p.stats.artifacts == p.stats.hits + p.stats.misses == |c.artifacts|
    ensures forall i: nat :: i < |c.artifacts| ==> i in p.done && i in p.routes && p.routes[i] == Route(c, i)
    ensures forall i: nat :: i < |c.artifacts| && c.selected.None? ==>
      && (c.artifacts[i].pluginMarker && c.pluginRoute != "" ==> p.routes[i] == c.pluginRoute)
      && (!c.artifacts[i].pluginMarker || c.pluginRoute == "" ==> p.routes[i] == c.route)
    ensures forall i: nat :: i < |c.artifacts| && c.selected.Some? ==> p.routes[i] == c.selected.value[i]
    ensures c.requireHit ==> p.stats.hits == p.stats.artifacts
    ensures forall i :: i in p.fetches ==> p.fetches[i] <= c.retries + 1
  {
    Invariant(c, p, n);
    forall i: nat | i < |c.artifacts| ensures i in p.done {
      assert !HeldBy(p, i);
    }
    RangeSize(p.done, |c.artifacts|);
  }

  /** The sender never blocks for good: in every reachable state that has not ended, something other than the parent
      can act, because workers that exit before the channel is closed leave the context cancelled. */
  lemma NeverStuck(c: Config, p: Pass, n: nat) returns (e: Event)
    requires Accepted(c) && Reaches(c, p, n) && !Ended(p)
    ensures Enabled(c, p, e) && !e.CancelParent?
  {
    Invariant(c, p, n);
    if !p.closed && Cancelled(p) {
      e := StopSending;
    } else if !p.closed && p.sent == |c.artifacts| {
      e := CloseJobs;
    } else {
      var w := 0;
      if p.closed {
        w :| 0 <= w < |p.workers| && !p.workers[w].Exited?;
      }
      assert !p.workers[w].Exited?;
      e := if p.workers[w].Fetching? then Fetch(w, Failure)
        else if p.workers[w].Sleeping? then Wake(w)
        else if p.closed then Leave(w) else Send(w);
    }
  }

  ghost function Rank(c: Config, w: Worker): int {
    match w
    case Exited => 0
    case Idle => 1
    case Fetching(_, attempts) => 2 + 2 * (c.retries - attempts)
    case Sleeping(_, attempts) => 3 + 2 * (c.retries - attempts)
  }

  ghost function Ranks(c: Config, workers: seq<Worker>): int {
    if workers == [] then 0 else Ranks(c, workers[..|workers| - 1]) + Rank(c, workers[|workers| - 1])
  }

  lemma {:induction false} RanksUpdate(c: Config, workers: seq<Worker>, w: nat, to: Worker)
    requires w < |workers|
    ensures Ranks(c, workers[w := to]) == Ranks(c, workers) - Rank(c, workers[w]) + Rank(c, to)
  {
    var last := |workers| - 1;
    if w == last {
      assert workers[w := to][..last] == workers[..last];
    } else {
      RanksUpdate(c, workers[..last], w, to);
      assert workers[w := to][..last] == workers[..last][w := to];
    }
  }

  lemma {:induction false} RanksPositive(c: Config, workers: seq<Worker>)
    requires forall w :: 0 <= w < |workers| && Busy(workers[w]) ==> workers[w].attempts <= c.retries
    ensures Ranks(c, workers) >= 0
  {
    if workers != [] {
      RanksPositive(c, workers[..|workers| - 1]);
    }
  }

  lemma {:induction false} RanksAtStart(c: Config, n: nat)
    ensures Ranks(c, seq(n, i => Idle)) == n
  {
    if n > 0 {
      RanksAtStart(c, n - 1);
      assert seq(n, i => Idle)[..n - 1] == seq(n - 1, i => Idle);
    }
  }

  /** Bounds the steps still to come. */
  ghost function Measure(c: Config, p: Pass): int {
    Unsent(c, p) + Ranks(c, p.workers) + (if p.closed then 0 else 1) + (if p.parentGone then 0 else 1)
  }

  ghost function Unsent(c: Config, p: Pass): int {
    (|c.artifacts| - p.sent) * (2 * c.retries + 2)
  }

  /** A worker's own step, other than taking an artifact, lowers its rank and touches no other worker. */
  lemma WorkerSteps(c: Config, p: Pass, e: Event, w: nat)
    requires Enabled(c, p, e) && (e.Fetch? || e.Wake? || e.Interrupt? || e.Leave?) && w == e.w
    requires Busy(p.workers[w]) ==> p.workers[w].attempts <= c.retries
    ensures var q := Next(c, p, e);
      && |q.workers| == |p.workers| && q.workers == p.workers[w := q.workers[w]]
      && q.closed == p.closed && q.parentGone == p.parentGone && q.sent == p.sent
      && Rank(c, q.workers[w]) < Rank(c, p.workers[w])
  {
    hide Route, Finish;
    if e.Fetch? {
      hide Next, Rank;
      FetchSteps(c, p, w, e.reply);
    }
  }

  lemma FetchSteps(c: Config, p: Pass, w: nat, reply: Reply)
    requires Enabled(c, p, Fetch(w, reply)) && p.workers[w].attempts <= c.retries
    ensures var q := Next(c, p, Fetch(w, reply));
      && q.workers == p.workers[w := q.workers[w]]
      && q.closed == p.closed && q.parentGone == p.parentGone && q.sent == p.sent
      && Rank(c, q.workers[w]) < Rank(c, p.workers[w])
  {
    hide Route, Finish;
    if reply.Found? {
      FinishSteps(Fetched(p, p.workers[w].job), w, p.workers[w].job, Route(c, p.workers[w].job), reply.status, c.requireHit);
    }
  }

  lemma FinishSteps(p: Pass, w: nat, job: nat, route: string, status: Status, mustHit: bool)
    requires w < |p.workers|
    ensures var q := Finish(p, w, job, route, status, mustHit);
      && |q.workers| == |p.workers| && q.workers == p.workers[w := q.workers[w]] && q.workers[w] in {Idle, Exited}
      && q.closed == p.closed && q.parentGone == p.parentGone && q.sent == p.sent
  {
  }

  /** Taking an artifact costs what one artifact may cost. */
  lemma SendSteps(c: Config, p: Pass, w: nat)
    requires Enabled(c, p, Send(w))
    ensures var q := Next(c, p, Send(w));
      && |q.workers| == |p.workers| && q.workers == p.workers[w := q.workers[w]]
      && q.closed == p.closed && q.parentGone == p.parentGone && q.sent == p.sent + 1
      && Rank(c, q.workers[w]) <= 2 + 2 * c.retries && Rank(c, p.workers[w]) == 1
  {
    hide Route;
  }

  lemma UnsentStep(c: Config, p: Pass, q: Pass)
    requires q.sent == p.sent + 1
    ensures Unsent(c, q) == Unsent(c, p) - (2 * c.retries + 2)
  {
    var each, left := 2 * c.retries + 2, |c.artifacts| - p.sent;
    assert (left - 1) * each == left * each - each;
  }

  lemma SameUnsent(c: Config, p: Pass, q: Pass)
    requires q.sent == p.sent
    ensures Unsent(c, q) == Unsent(c, p)
  {
  }

  lemma AttemptsBounded(c: Config, p: Pass, w: nat)
    requires Inv(c, p) && w < |p.workers| && Busy(p.workers[w])
    ensures p.workers[w].attempts <= c.retries
  {
    assert Holds(c, p, p.workers[w]);
  }

  lemma StepDecreases(c: Config, p: Pass, e: Event)
    requires Accepted(c) && Inv(c, p) && Enabled(c, p, e)
    ensures Measure(c, Next(c, p, e)) < Measure(c, p)
  {
    hide Inv, Ranks, Accepted, Rank, Unsent, Route, Finish;
    var q := Next(c, p, e);
    if e.Send? {
      SendSteps(c, p, e.w);
      UnsentStep(c, p, q);
      RanksUpdate(c, p.workers, e.w, q.workers[e.w]);
    } else if e.Fetch? || e.Wake? || e.Interrupt? || e.Leave? {
      if Busy(p.workers[e.w]) {
        AttemptsBounded(c, p, e.w);
      }
      WorkerSteps(c, p, e, e.w);
      RanksUpdate(c, p.workers, e.w, q.workers[e.w]);
      SameUnsent(c, p, q);
    } else {
      SameUnsent(c, p, q);
    }
  }

  /** Every run of a pass ends: it has at most this many steps. */
  lemma {:induction false} RunsAreBounded(c: Config, p: Pass, n: nat)
    requires Accepted(c) && Reaches(c, p, n)
    ensures n + Measure(c, p) <= |c.artifacts| * (2 * c.retries + 2) + c.concurrency + 2
    ensures n <= |c.artifacts| * (2 * c.retries + 2) + c.concurrency + 2
    decreases n
  {
    hide Inv, Steps, Measure, Accepted, Start;
    MeasurePositive(c, p, n);
    if n == 0 {
      MeasureAtStart(c);
    } else {
      var before, e :| Reaches(c, before, n - 1) && Steps(c, before, e, p);
      RunsAreBounded(c, before, n - 1);
      Invariant(c, before, n - 1);
      DecreaseAlong(c, before, e, p);
    }
  }

  lemma MeasureAtStart(c: Config)
    ensures Measure(c, Start(c)) == |c.artifacts| * (2 * c.retries + 2) + c.concurrency + 2
  {
    hide Ranks;
    RanksAtStart(c, c.concurrency);
  }

  lemma DecreaseAlong(c: Config, before: Pass, e: Event, p: Pass)
    requires Accepted(c) && Inv(c, before) && Steps(c, before, e, p)
    ensures Measure(c, p) < Measure(c, before)
  {
    hide Inv, Next, Measure, Accepted, Enabled;
    StepDecreases(c, before, e);
  }

  lemma MeasurePositive(c: Config, p: Pass, n: nat)
    requires Accepted(c) && Reaches(c, p, n)
    ensures Measure(c, p) >= 0
  {
    hide Reaches, Ranks, Inv, Unsent, Accepted;
    Invariant(c, p, n);
    forall w | 0 <= w < |p.workers| && Busy(p.workers[w]) ensures p.workers[w].attempts <= c.retries {
      AttemptsBounded(c, p, w);
    }
    RanksPositive(c, p.workers);
    UnsentPositive(c, p);
  }

  lemma UnsentPositive(c: Config, p: Pass)
    requires Inv(c, p)
    ensures Unsent(c, p) >= 0
  {
    var each, left := 2 * c.retries + 2, |c.artifacts| - p.sent;
    assert left >= 0;
    assert left * each >= 0;
  }

  /** A second pass over the routes the first one returned fetches every artifact from its declared route again,
      and succeeds only if all of them are hits. */
  lemma TwoPasses(first: Config, p: Pass, n: nat, second: Config, q: Pass, m: nat)
    requires Accepted(first) && Reaches(first, p, n) && Succeeded(p) && first.selected.None? && !first.requireHit
    requires second == first.(selected := Some(seq(|first.artifacts|, i => if i in p.routes then p.routes[i] else "")),
                              requireHit := true, checkpoint := map[])
    requires Accepted(second) && Reaches(second, q, m) && Succeeded(q)
    ensures q.stats.hits == q.stats.artifacts == p.stats.artifacts == |first.artifacts| && q.stats.misses == 0
    ensures forall i: nat :: i < |first.artifacts| ==> i in q.routes && q.routes[i] == Route(first, i)
  {
    PassIsComplete(first, p, n);
    PassIsComplete(second, q, m);
    forall i: nat | i < |first.artifacts| ensures Route(second, i) == Route(first, i) {
      assert p.routes[i] == Route(first, i);
    }
  }

  // ---- when a pass succeeds ----

  /** Nothing went wrong in this event: a reply is a hit, or a miss where no hit is required, or a rate limit that may still
      be retried; a checkpoint says hit or miss; and nobody cancels. */
  predicate Benign(c: Config, p: Pass, e: Event)
    requires Enabled(c, p, e)
  {
    match e
    case CancelParent => false
    case Send(_) => p.sent in c.checkpoint ==> c.checkpoint[p.sent].status in {HIT, MISS}
    case Fetch(w, reply) => (
      match reply
      case Found(status) => status == HIT || (status == MISS && !c.requireHit)
      case RateLimited => p.workers[w].attempts < c.retries
      case _ => false)
    case _ => true
  }

  predicate Troubled(p: Pass) {
    p.failed || p.parentGone || p.missing != {}
  }

  lemma TroubleStep(c: Config, p: Pass, e: Event)
    requires Enabled(c, p, e)
    ensures Troubled(Next(c, p, e)) <==> Troubled(p) || !Benign(c, p, e)
  {
    hide Route;
    match e
    case Fetch(w, reply) => TroubleFetch(c, p, w, reply);
    case _ =>
  }

  lemma TroubleFetch(c: Config, p: Pass, w: nat, reply: Reply)
    requires Enabled(c, p, Fetch(w, reply))
    ensures Troubled(Next(c, p, Fetch(w, reply))) <==> Troubled(p) || !Benign(c, p, Fetch(w, reply))
  {
    hide Route;
    if reply.NotFound? {
      assert p.workers[w].job in Next(c, p, Fetch(w, reply)).missing;
    }
  }

  /** The pass after these events, if each is possible in its turn. */
  ghost function After(c: Config, events: seq<Event>): Option<Pass> {
    if events == [] then Some(Start(c))
    else
      var before, e := After(c, events[..|events| - 1]), events[|events| - 1];
      if before.Some? && Enabled(c, before.value, e) then Some(Next(c, before.value, e)) else None
  }

  /** A run goes on with any event that is possible, and with no other. */
  lemma AfterMore(c: Config, events: seq<Event>, e: Event)
    requires After(c, events).Some?
    ensures After(c, []) == Some(Start(c))
    ensures After(c, events + [e]) ==
      if Enabled(c, After(c, events).value, e) then Some(Next(c, After(c, events).value, e)) else None
  {
    assert (events + [e])[..|events|] == events;
  }

  ghost predicate AllBenign(c: Config, events: seq<Event>)
    requires After(c, events).Some?
  {
    events == [] || var before, e := events[..|events| - 1], events[|events| - 1];
      After(c, before).Some? && AllBenign(c, before) && Benign(c, After(c, before).value, e)
  }

  lemma {:induction false} TroubleHasACause(c: Config, events: seq<Event>)
    requires After(c, events).Some?
    ensures Troubled(After(c, events).value) <==> !AllBenign(c, events)
  {
    if events != [] {
      hide Next, Enabled, Benign, Troubled;
      TroubleHasACause(c, events[..|events| - 1]);
      TroubleStep(c, After(c, events[..|events| - 1]).value, events[|events| - 1]);
    } else {
      NoTrouble(c);
    }
  }

  lemma NoTrouble(c: Config)
    ensures !Troubled(Start(c))
  {
  }

  /** A pass that has ended succeeds exactly when nothing went wrong in any of its events. */
  lemma SucceedsExactlyIfBenign(c: Config, events: seq<Event>)
    requires After(c, events).Some? && Ended(After(c, events).value)
    ensures Succeeded(After(c, events).value) <==> AllBenign(c, events)
  {
    hide After, AllBenign;
    TroubleHasACause(c, events);
  }

  lemma {:induction false} EventsReach(c: Config, events: seq<Event>)
    requires After(c, events).Some?
    ensures Reaches(c, After(c, events).value, |events|)
  {
    if events != [] {
      hide Next, Enabled;
      var n := |events| - 1;
      EventsReach(c, events[..n]);
      assert Steps(c, After(c, events[..n]).value, events[n], After(c, events).value);
    }
  }

  /** Once the parent is cancelled or a worker failed, the sender can stop and no worker has to sit out its wait. */
  lemma CancellationEndsWaits(c: Config, p: Pass, w: nat)
    requires p.parentGone || p.failed
    ensures !p.closed ==> Enabled(c, p, StopSending) && Next(c, p, StopSending).closed
    ensures w < |p.workers| && p.workers[w].Sleeping? ==>
      Enabled(c, p, Interrupt(w)) && Next(c, p, Interrupt(w)).workers[w].Exited?
  {
  }
}
