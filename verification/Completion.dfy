/** One fill from the moment serveUpstream is entered: the handler runs statement by statement, returns through its
    deferred calls, and may leave a background store behind; whoever the ownership flags name calls the completion,
    which stops the lease and closes the call behind a once flag. */
module Completion {
  /** Where the handler is: the next statement or deferred call to run. */
  datatype Place =
    | Request    // build the upstream request
    | Ask        // send it
    | Classify   // rewrite, bypass or store
    | Forward    // copy or rewrite the body to the client
    | Mark       // serveUpstream gives the completion away
    | Create     // serveAndStore opens a temporary file
    | FallBack   // it could not: copy without storing
    | Stream     // stream and capture
    | Inspect    // spool error, overflow, seek error, expired on arrival
    | KeepFile   // the store will remove the temporary file
    | Hand       // serveAndStore gives the completion away
    | Launch     // start the store
    | CleanUp    // deferred by serveAndStore: remove the temporary file if still its own
    | InnerDone  // deferred by serveAndStore: complete if still its own
    | OuterDone  // deferred by serveUpstream: complete if still its own
    | Returned

  datatype StorePlace = NoStore | Putting | Removing | Completing | Stored

  datatype Thread = Handler | Store

  /** The once-only completion: not called, running in some thread, or over. */
  datatype Once = Unused | Running(caller: Thread) | Over

  datatype Temp = NoFile | Spooled | Removed
  datatype Lease = NoLease | Held | Released

  /** outerGiven, innerGiven: the two storeOwnsCompletion flags; cleanup: serveAndStore's own; calls: how often the
      completion was called; closes: how often it went on to finish the call; putReturned: Put has returned; broken: some
      statement failed, or the response is not to be stored; passed: the statements and deferred calls behind the
      handler. */
  datatype Run = Run(place: Place, outerGiven: bool, innerGiven: bool, cleanup: bool, temp: Temp, lease: Lease,
                     store: StorePlace, putReturned: bool, once: Once, calls: nat, closes: nat, broken: bool,
                     passed: set<Place>)

  function Start(leased: bool): Run {
    Run(Request, false, false, false, NoFile, if leased then Held else NoLease, NoStore, false, Unused, 0, 0, false, {})
  }

  /** How a statement ends; statements that cannot fail ignore it. */
  datatype Outcome = Fine | Broken | Bypassed

  datatype Move = Step(outcome: Outcome) | StoreStep | CallAgain

  /** The handler is at a deferred call that calls the completion. */
  predicate HandlerCalls(r: Run) {
    (r.place.InnerDone? && !r.innerGiven) || (r.place.OuterDone? && !r.outerGiven)
  }

  /** A second caller waits while the completion runs in the other thread. */
  predicate Enabled(r: Run, m: Move) {
    match m
    case Step(_) => r.place != Returned && (HandlerCalls(r) ==> r.once != Running(Store))
    case StoreStep => r.store in {Putting, Removing, Completing} && (r.store.Completing? ==> r.once != Running(Handler))
    case CallAgain => r.once.Over?
  }

  /** One step of a thread inside the completion: entering it stops the lease, leaving it finishes the call. */
  function Call(r: Run, caller: Thread): Run {
    match r.once
    case Unused => r.(once := Running(caller), calls := r.calls + 1, lease := if r.lease.Held? then Released else r.lease)
    case Running(_) => r.(once := Over, closes := r.closes + 1)
    case Over => r.(calls := r.calls + 1)
  }

  function AfterPlace(place: Place, outcome: Outcome): Place {
    match place
    case Request => if outcome.Broken? then OuterDone else Ask
    case Ask => if outcome.Broken? then OuterDone else Classify
    case Classify => if outcome.Broken? then OuterDone else if outcome.Bypassed? then Forward else Mark
    case Forward => OuterDone
    case Mark => Create
    case Create => if outcome.Broken? then FallBack else Stream
    case FallBack => InnerDone
    case Stream => if outcome.Broken? then CleanUp else Inspect
    case Inspect => if outcome.Broken? then CleanUp else KeepFile
    case KeepFile => Hand
    case Hand => Launch
    case Launch => CleanUp
    case CleanUp => InnerDone
    case InnerDone => OuterDone
    case OuterDone => Returned
    case Returned => Returned
  }

  /** What the handler's statement changes besides its place. */
  function Effect(r: Run, outcome: Outcome): Run {
    match r.place
    case Mark => r.(outerGiven := true)
    case Create => if outcome.Broken? then r else r.(temp := Spooled, cleanup := true)
    case KeepFile => r.(cleanup := false)
    case Hand => r.(innerGiven := true)
    case Launch => r.(store := Putting)
    case CleanUp => if r.cleanup then r.(temp := Removed) else r
    case _ => r
  }

  function StepHandler(r: Run, outcome: Outcome): Run {
    if HandlerCalls(r) then
      var called := Call(r, Handler);
      if called.once.Running? then called else called.(place := AfterPlace(r.place, outcome), passed := r.passed + {r.place})
    else
      Effect(r, outcome).(place := AfterPlace(r.place, outcome), broken := r.broken || Breaks(r.place, outcome),
                          passed := r.passed + {r.place})
  }

  /** The statement ended in a way that rules storing out. */
  predicate Breaks(place: Place, outcome: Outcome) {
    match place
    case Classify => !outcome.Fine?
    case Request | Ask | Create | Stream | Inspect => outcome.Broken?
    case _ => false
  }

  /** Put returns; the store's deferred calls then remove the file and complete. */
  function StepStore(r: Run): Run {
    match r.store
    case Putting => r.(store := Removing, putReturned := true)
    case Removing => r.(store := Completing, temp := Removed)
    case Completing =>
      var called := Call(r, Store);
      if called.once.Running? then called else called.(store := Stored)
    case _ => r
  }

  function Next(r: Run, m: Move): Run {
    match m
    case Step(outcome) => StepHandler(r, outcome)
    case StoreStep => StepStore(r)
    case CallAgain => Call(r, Handler)
  }

  predicate Ended(r: Run) {
    r.place.Returned? && (r.store.NoStore? || r.store.Stored?)
  }

  // ---- what every step keeps ----

  predicate InServeUpstream(p: Place) {
    p.Request? || p.Ask? || p.Classify? || p.Forward? || p.Mark?
  }

  predicate Returning(p: Place) {
    p.OuterDone? || p.Returned?
  }

  /** Where the flags can be set, and what they are set with. */
  ghost predicate Flags(r: Run) {
    && (r.outerGiven ==> !InServeUpstream(r.place))
    && (!r.outerGiven ==> InServeUpstream(r.place) || Returning(r.place))
    && (r.innerGiven ==> r.outerGiven && (r.place.Launch? || r.place.CleanUp? || r.place.InnerDone? || Returning(r.place)))
    && (!r.innerGiven ==> !r.place.Launch?)
    && (r.store.NoStore? <==> !r.innerGiven || r.place.Launch?)
  }

  /** Who has called the completion. */
  ghost predicate Called(r: Run) {
    && (r.once.Unused? <==> r.calls == 0) && r.closes == (if r.once.Over? then 1 else 0)
    && (r.once == Running(Handler) ==> HandlerCalls(r))
    && (r.once == Running(Store) ==> r.store.Completing?)
    && (r.once.Over? && r.innerGiven ==> r.store.Stored?)
    && (r.once.Over? && !r.innerGiven ==> Returning(r.place))
    && (r.store.Stored? ==> r.once.Over?)
    && (r.place.Returned? && !r.innerGiven ==> r.once.Over?)
    && (r.place.OuterDone? && r.outerGiven && !r.innerGiven ==> r.once.Over?)
    && (r.place.OuterDone? && !r.outerGiven ==> !r.once.Over?)
  }

  /** The temporary file, the lease and Put. */
  ghost predicate Resources(r: Run) {
    && (r.once.Unused? || !r.lease.Held?)
    && (r.putReturned <==> r.store in {Removing, Completing, Stored})
    && (r.temp.NoFile? ==> InServeUpstream(r.place) || r.place in {Create, FallBack, InnerDone, OuterDone, Returned})
    && (r.temp.NoFile? ==> !r.innerGiven)
    && (r.cleanup && r.temp.Spooled? ==>
          r.store.NoStore? && !r.innerGiven && (r.place in {Stream, Inspect, KeepFile, CleanUp}))
    && (!r.cleanup && r.temp.Spooled? ==> r.place.Hand? || r.place.Launch? || r.store in {Putting, Removing})
    && (r.place in {Hand, Launch} || r.store.Putting? ==> r.temp.Spooled? && !r.cleanup)
    && (r.place in {Stream, Inspect, KeepFile} ==> r.temp.Spooled? && r.cleanup)
    && (r.innerGiven ==> !r.cleanup)
    && (InServeUpstream(r.place) || r.place in {Create, FallBack} || !r.outerGiven ==> r.temp.NoFile?)
  }

  /** The store is where the unbroken path leads, and nowhere else. */
  ghost predicate Path(r: Run) {
    if r.broken then !r.innerGiven && r.place in {Forward, FallBack, CleanUp, InnerDone, OuterDone, Returned}
    else
      r.innerGiven || r.place in {Request, Ask, Classify, Mark, Create, Stream, Inspect, KeepFile, Hand, Launch}
  }

  /** How far along the way to the store a place is. */
  function Stage(p: Place): nat {
    match p
    case Request => 0
    case Ask => 1
    case Classify => 2
    case Mark => 3
    case Create => 4
    case Stream => 5
    case Inspect => 6
    case KeepFile => 7
    case Hand => 8
    case Launch => 9
    case _ => 10
  }

  /** No statement on the way to the store was left out, nor a deferred call on the way back. */
  ghost predicate Passed(r: Run) {
    && (!r.broken ==> forall p: Place :: Stage(p) < Stage(r.place) && Stage(p) < 10 ==> p in r.passed)
    && (r.place.Returned? ==> OuterDone in r.passed)
    && (r.outerGiven && Returning(r.place) ==> InnerDone in r.passed)
    && (!r.temp.NoFile? && (r.place.InnerDone? || Returning(r.place)) ==> CleanUp in r.passed)
  }

  ghost predicate Inv(r: Run) {
    Flags(r) && Called(r) && Resources(r) && Path(r) && Passed(r)
  }

  lemma InvStart(leased: bool)
    ensures Inv(Start(leased))
  {
  }

  // a statement of the handler, or a deferred call that calls nothing

  ghost predicate AtStatement(r: Run) {
    !HandlerCalls(r) && r.place != Returned
  }

  lemma FlagsStatement(r: Run, outcome: Outcome)
    requires AtStatement(r) && Flags(r)
    ensures Flags(StepHandler(r, outcome))
  {
    hide Breaks;
  }

  lemma CalledStatement(r: Run, outcome: Outcome)
    requires AtStatement(r) && Flags(r) && Called(r)
    ensures Called(StepHandler(r, outcome))
  {
    hide Breaks;
  }

  lemma ResourcesStatement(r: Run, outcome: Outcome)
    requires AtStatement(r) && Flags(r) && Resources(r)
    ensures Resources(StepHandler(r, outcome))
  {
    hide Breaks;
  }

  lemma PathStatement(r: Run, outcome: Outcome)
    requires AtStatement(r) && Flags(r) && Path(r)
    ensures Path(StepHandler(r, outcome))
  {
  }

  lemma PassedStatement(r: Run, outcome: Outcome)
    requires AtStatement(r) && Flags(r) && Resources(r) && Path(r) && Passed(r)
    ensures Passed(StepHandler(r, outcome))
  {
  }

  lemma StatementKept(r: Run, outcome: Outcome)
    requires AtStatement(r) && Inv(r)
    ensures Inv(StepHandler(r, outcome))
  {
    hide Flags, Called, Resources, Path, Passed, StepHandler;
    FlagsStatement(r, outcome);
    CalledStatement(r, outcome);
    ResourcesStatement(r, outcome);
    PathStatement(r, outcome);
    PassedStatement(r, outcome);
  }

  // a deferred call of the handler that calls the completion, and the steps of the store

  lemma CallKept(r: Run, outcome: Outcome)
    requires HandlerCalls(r) && Inv(r) && Enabled(r, Step(outcome))
    ensures Inv(StepHandler(r, outcome))
  {
    hide Effect, Breaks, Stage, Passed;
    PassedCall(r, outcome);
  }

  lemma PassedCall(r: Run, outcome: Outcome)
    requires HandlerCalls(r) && Inv(r)
    ensures Passed(StepHandler(r, outcome))
  {
    hide Called, Effect, Breaks;
  }

  lemma StoreKept(r: Run)
    requires Inv(r) && Enabled(r, StoreStep)
    ensures Inv(StepStore(r))
  {
    assert Passed(StepStore(r)) by {
      hide Called, Path, Flags;
    }
    hide Passed;
  }

  lemma AgainKept(r: Run)
    requires Inv(r) && Enabled(r, CallAgain)
    ensures Inv(Call(r, Handler))
  {
    assert Passed(Call(r, Handler));
    hide Passed;
  }

  lemma InvStep(r: Run, m: Move)
    requires Inv(r) && Enabled(r, m)
    ensures Inv(Next(r, m))
  {
    hide Inv, StepHandler, StepStore, Call;
    match m
    case Step(outcome) =>
      if HandlerCalls(r) {
        CallKept(r, outcome);
      } else {
        StatementKept(r, outcome);
      }
    case StoreStep => StoreKept(r);
    case CallAgain => AgainKept(r);
  }

  /** Finishes are counted, never taken back. */
  lemma ClosesGrow(r: Run, m: Move)
    ensures r.closes <= Next(r, m).closes
  {
    hide AfterPlace, Breaks, Effect;
    if m.Step? {
      EffectCalls(r, m.outcome);
    }
  }

  ghost function After(leased: bool, moves: seq<Move>): Run {
    if moves == [] then Start(leased) else Next(After(leased, moves[..|moves| - 1]), moves[|moves| - 1])
  }

  ghost predicate Possible(leased: bool, moves: seq<Move>) {
    forall i :: 0 <= i < |moves| ==> Enabled(After(leased, moves[..i]), moves[i])
  }

  /** A run goes on step by step. */
  lemma AfterMore(leased: bool, moves: seq<Move>, m: Move)
    ensures After(leased, []) == Start(leased) && After(leased, moves + [m]) == Next(After(leased, moves), m)
  {
    assert (moves + [m])[..|moves|] == moves;
  }

  lemma {:induction false} Invariant(leased: bool, moves: seq<Move>)
    requires Possible(leased, moves)
    ensures Inv(After(leased, moves))
  {
    if moves == [] {
      InvStart(leased);
    } else {
      hide Inv, Enabled, Next;
      var n := |moves| - 1;
      forall i | 0 <= i < n ensures Enabled(After(leased, moves[..n][..i]), moves[..n][i]) {
        assert moves[..n][..i] == moves[..i];
      }
      Invariant(leased, moves[..n]);
      InvStep(After(leased, moves[..n]), moves[n]);
    }
  }

  /** On every path through both handlers and the store, in every interleaving of the two threads: the call is never
      finished twice; once it is finished nothing of the fill still runs and a started Put has returned; and when all is
      over it has been finished, a lease is released, the temporary file is gone, and the artifact was put exactly if no
      statement failed and the response was to be stored. While Put runs its file is there. */
  lemma CompletesExactlyOnce(leased: bool, moves: seq<Move>)
    requires Possible(leased, moves)
    ensures var r := After(leased, moves);
      && r.closes <= 1
      && (r.closes == 1 ==>
            && !r.lease.Held? && r.place in {CleanUp, InnerDone, OuterDone, Returned}
            && (r.store.NoStore? || (r.store.Stored? && r.putReturned)))
      && (Ended(r) ==> r.calls >= 1 && r.closes == 1 && !r.temp.Spooled? && (r.putReturned <==> !r.broken))
      && (Ended(r) ==> r.lease == if leased then Released else NoLease)
      && (!r.store.NoStore? ==> !r.broken && {Request, Ask, Classify, Create, Stream, Inspect} <= r.passed)
      && (r.place.Returned? ==> OuterDone in r.passed)
      && (r.store.Putting? ==> r.temp.Spooled? && r.closes == 0)
  {
    Invariant(leased, moves);
    LeaseKnown(leased, moves);
    hide After, Possible;
    StoreIsEarned(After(leased, moves));
    hide Passed;
  }

  /** What lies behind a store. */
  lemma StoreIsEarned(r: Run)
    requires Inv(r)
    ensures !r.store.NoStore? ==> !r.broken && {Request, Ask, Classify, Create, Stream, Inspect} <= r.passed
    ensures r.place.Returned? ==> OuterDone in r.passed
  {
    hide Called, Resources;
    if !r.store.NoStore? {
      assert Stage(r.place) == 10;
      assert Stage(Request) == 0 && Stage(Ask) == 1 && Stage(Classify) == 2 && Stage(Create) == 4 && Stage(Stream) == 5;
    }
  }

  /** A thread's step calls the completion at most once, and only if nobody has yet. */
  lemma CallsStep(r: Run, m: Move)
    requires Inv(r) && Enabled(r, m)
    ensures Next(r, m).calls == r.calls + (if m.CallAgain? || (r.calls == 0 && !Next(r, m).once.Unused?) then 1 else 0)
  {
    hide Resources, Path, Passed, AfterPlace, Breaks;
    match m
    case Step(outcome) =>
      if HandlerCalls(r) {
        hide Effect;
      } else {
        EffectCalls(r, outcome);
        hide Effect;
      }
    case _ =>
  }

  lemma EffectCalls(r: Run, outcome: Outcome)
    ensures var e := Effect(r, outcome); e.calls == r.calls && e.once == r.once && e.closes == r.closes
  {
  }

  /** Apart from calls made again, the completion is called once. */
  lemma {:induction false} CalledOnce(leased: bool, moves: seq<Move>)
    requires Possible(leased, moves) && forall i :: 0 <= i < |moves| ==> !moves[i].CallAgain?
    ensures After(leased, moves).calls <= 1
    ensures Ended(After(leased, moves)) ==> After(leased, moves).calls == 1
  {
    hide Inv, Enabled, Next;
    if moves != [] {
      var n := |moves| - 1;
      forall i | 0 <= i < n ensures Enabled(After(leased, moves[..n][..i]), moves[..n][i]) {
        assert moves[..n][..i] == moves[..i];
      }
      CalledOnce(leased, moves[..n]);
      Invariant(leased, moves[..n]);
      CallsStep(After(leased, moves[..n]), moves[n]);
    }
    EndedWasCalled(leased, moves);
  }

  lemma EndedWasCalled(leased: bool, moves: seq<Move>)
    requires Possible(leased, moves)
    ensures Ended(After(leased, moves)) ==> After(leased, moves).calls >= 1
  {
    hide After, Possible;
    CompletesExactlyOnce(leased, moves);
  }

  lemma {:induction false} LeaseKnown(leased: bool, moves: seq<Move>)
    ensures After(leased, moves).lease.NoLease? <==> !leased
  {
    if moves != [] {
      hide Next;
      LeaseKnown(leased, moves[..|moves| - 1]);
      LeaseStays(After(leased, moves[..|moves| - 1]), moves[|moves| - 1]);
    }
  }

  lemma LeaseStays(r: Run, m: Move)
    ensures Next(r, m).lease.NoLease? <==> r.lease.NoLease?
  {
    hide AfterPlace, Breaks, Call, Effect;
    CallLease(r, Handler);
    CallLease(r, Store);
    if m.Step? {
      EffectLease(r, m.outcome);
    }
  }

  lemma CallLease(r: Run, caller: Thread)
    ensures Call(r, caller).lease.NoLease? <==> r.lease.NoLease?
  {
  }

  lemma EffectLease(r: Run, outcome: Outcome)
    ensures Effect(r, outcome).lease == r.lease
  {
  }

  ghost function HandlerLeft(r: Run): nat {
    match r.place
    case Request => 40
    case Ask => 38
    case Classify => 36
    case Mark => 34
    case Create => 32
    case Stream => 30
    case Inspect => 28
    case KeepFile => 26
    case Hand => 24
    case Launch => 22
    case CleanUp => 12
    case FallBack => 12
    case InnerDone => if r.once == Running(Handler) then 9 else 10
    case Forward => 8
    case OuterDone => if r.once == Running(Handler) then 5 else 6
    case Returned => 0
  }

  ghost function StoreLeft(r: Run): nat {
    match r.store
    case NoStore => 0
    case Putting => 5
    case Removing => 4
    case Completing => if r.once == Running(Store) then 1 else 2
    case Stored => 0
  }

  /** Steps still to come. */
  ghost function Left(r: Run): nat {
    HandlerLeft(r) + StoreLeft(r)
  }

  lemma LeftDecreases(r: Run, m: Move)
    requires Inv(r) && Enabled(r, m) && !m.CallAgain?
    ensures Left(Next(r, m)) < Left(r)
  {
    hide Resources, Path, Passed;
    if m.Step? {
      if HandlerCalls(r) {
        CallShortens(r, m.outcome);
      } else {
        StatementShortens(r, m.outcome);
      }
    }
  }

  lemma CallShortens(r: Run, outcome: Outcome)
    requires Called(r) && HandlerCalls(r) && Enabled(r, Step(outcome))
    ensures Left(StepHandler(r, outcome)) < Left(r)
  {
  }

  lemma StatementShortens(r: Run, outcome: Outcome)
    requires Flags(r) && Called(r) && !HandlerCalls(r) && Enabled(r, Step(outcome))
    ensures Left(StepHandler(r, outcome)) < Left(r)
  {
  }

  /** Neither thread can block the other for good: until all is over some step is possible. */
  lemma NeverStuck(r: Run) returns (m: Move)
    requires Inv(r) && !Ended(r)
    ensures Enabled(r, m) && !m.CallAgain?
  {
    m := if r.place != Returned && (HandlerCalls(r) ==> r.once != Running(Store)) then Step(Fine) else StoreStep;
  }
}
