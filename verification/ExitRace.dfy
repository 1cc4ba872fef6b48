/** Watcher, run, clock and main as interleaved steps over the shared signal state
    (src/main.rs). */
module ExitRace {
  import opened Text
  import opened ExitSignal

  /** Where the watcher stands: waiting, or inside the recording of one arrival. */
  datatype Watcher = Idle | Storing(signal: Signal) | Requesting | Forcing | Gone

  datatype RunOutcome = Completed | Signalled

  /** Where main stands: before the race, waiting for run or request, in the grace, after the
      race, after the watcher was told to stop, after the exit (`None`: the run's own verdict). */
  datatype Main =
    | Boot | Waiting | Grace(deadline: nat)
    | Returned(outcome: RunOutcome) | Stopped(outcome: RunOutcome) | Exited(code: Option<int>)

  /** `arrivals` and the fields behind it record history; no step depends on them.  `lag` is the
      time the clock ran while the watcher was inside a recording. */
  datatype System = System(
    shared: Signals, watcher: Watcher, main: Main, runDone: bool, now: nat, grace: nat,
    arrivals: seq<Signal>, stores: nat, requests: nat,
    begunAt: nat, arrivedAt: Option<nat>, againAt: Option<nat>, requestedAt: Option<nat>, forcedAt: Option<nat>,
    lag: nat, raced: bool)

  datatype Step =
    | Arrive(signal: Signal) | Store | Request | Force | Leave
    | Finish | Tick
    | Begin | TakeRequest | TakeRun | TakeForce | Elapse | StopWatching | Exit

  function Start(grace: nat): System {
    System(NO_SIGNALS, Idle, Boot, false, 0, grace, [], 0, 0, 0, None, None, None, None, 0, false)
  }

  predicate Racing(s: System) { s.main.Waiting? || s.main.Grace? }

  /** The race has something to take; it takes it before the clock moves on. */
  predicate RaceIsWoken(s: System) {
    || (s.main.Waiting? && (s.runDone || s.shared.exitPermit))
    || (s.main.Grace? && (s.runDone || s.shared.forcePermit || s.main.deadline <= s.now))
  }

  /** The watcher has counted an arrival and not yet notified anyone. */
  predicate InsideRecording(s: System) { s.watcher.Storing? || s.watcher.Requesting? || s.watcher.Forcing? }

  predicate Enabled(s: System, step: Step) {
    && !s.main.Exited?
    && match step
       case Arrive(_) => s.watcher.Idle?
       case Store => s.watcher.Storing?
       case Request => s.watcher.Requesting?
       case Force => s.watcher.Forcing?
       case Leave => s.watcher.Idle?
       case Finish => Racing(s)
       case Tick => !RaceIsWoken(s)
       case Begin => s.main.Boot?
       case TakeRequest => s.main.Waiting? && s.shared.exitPermit
       case TakeRun => Racing(s) && s.runDone
       case TakeForce => s.main.Grace? && s.shared.forcePermit
       case Elapse => s.main.Grace? && s.main.deadline <= s.now && !s.runDone
       case StopWatching => s.main.Returned?
       case Exit => s.main.Stopped?
  }

  function Earliest(t: Option<nat>, now: nat): Option<nat> { if t.Some? then t else Some(now) }

  function Take(s: System, step: Step): System
    requires Enabled(s, step)
  {
    match step
    case Arrive(signal) =>
      s.(shared := Counted(s.shared), watcher := if Seen(s.shared) == 1 then Storing(signal) else Forcing,
         arrivals := s.arrivals + [signal], arrivedAt := Earliest(s.arrivedAt, s.now),
         againAt := if s.arrivals == [] then None else Earliest(s.againAt, s.now))
    case Store => s.(shared := Stored(s.shared, s.watcher.signal), watcher := Requesting, stores := s.stores + 1)
    case Request =>
      s.(shared := ExitRequested(s.shared), watcher := Idle, requests := s.requests + 1,
         requestedAt := Earliest(s.requestedAt, s.now))
    case Force =>
      s.(shared := ForceRequested(s.shared), watcher := Idle, forcedAt := Earliest(s.forcedAt, s.now))
    case Leave => s.(watcher := Gone)
    case Finish => s.(runDone := true)
    case Tick => s.(now := s.now + 1, lag := s.lag + (if InsideRecording(s) then 1 else 0))
    case Begin => s.(main := if s.shared.count > 0 then Returned(Signalled) else Waiting, begunAt := s.now)
    case TakeRequest =>
      s.(shared := s.shared.(exitPermit := false), main := Grace(s.now + s.grace), raced := true)
    case TakeRun => s.(main := Returned(Completed))
    case TakeForce => s.(shared := s.shared.(forcePermit := false), main := Returned(Signalled))
    case Elapse => s.(main := Returned(Signalled))
    case StopWatching => s.(main := Stopped(s.main.outcome))
    case Exit =>
      s.(main := Exited(if s.main.outcome == Signalled then Some(ExitCode(ExitArrival(s.shared))) else None))
  }

  /** The steps can be taken one after the other. */
  predicate CanTake(s: System, steps: seq<Step>)
    decreases |steps|
  {
    steps == [] || (Enabled(s, steps[0]) && CanTake(Take(s, steps[0]), steps[1..]))
  }

  function After(s: System, steps: seq<Step>): System
    requires CanTake(s, steps)
    decreases |steps|
  {
    if steps == [] then s else After(Take(s, steps[0]), steps[1..])
  }

  // ----- What every step keeps

  predicate Recording(s: System) { s.watcher.Storing? || s.watcher.Requesting? }

  /** The counter, the marker and the number of requests are functions of the arrivals and of
      how far the watcher is with the last one. */
  predicate Bookkeeping(s: System) {
    var n := |s.arrivals|;
    && s.shared.count == n % WIDTH
    && s.stores == Laps(n) - (if s.watcher.Storing? then 1 else 0)
    && s.requests == Laps(n) - (if Recording(s) then 1 else 0)
    && s.shared.marker == Recorded(s.arrivals, s.stores)
    && (Recording(s) ==> n > 0 && (n - 1) % WIDTH == 0)
    && (s.watcher.Storing? ==> s.watcher.signal == s.arrivals[n - 1])
  }

  /** No arrival is lost: while the race waits, a recorded request is there to take. */
  predicate Woken(s: System) {
    && (s.requestedAt.Some? <==> s.requests > 0)
    && (s.shared.exitPermit ==> s.requests > 0)
    && (s.main.Boot? || s.main.Waiting? ==> (s.requests > 0 ==> s.shared.exitPermit))
    && (s.forcedAt.Some? ==> s.requests > 0)
    && (!s.forcedAt.Some? ==> !s.shared.forcePermit)
    && (s.main.Boot? || Racing(s) ==> (s.forcedAt.Some? ==> s.shared.forcePermit))
    && (s.watcher.Forcing? ==> s.requests > 0)
  }

  function Later(a: nat, b: nat): nat { if a < b then b else a }

  /** The grace runs for as long as it should; the race is over when it ends, and at once when
      forced. */
  predicate InTime(s: System) {
    && (s.requestedAt.Some? ==> s.requestedAt.value <= s.now)
    && (s.forcedAt.Some? ==> s.forcedAt.value <= s.now)
    && (Racing(s) ==> s.begunAt <= s.now)
    && (s.main.Waiting? && s.requestedAt.Some? ==> s.now <= Later(s.requestedAt.value, s.begunAt))
    && (s.main.Grace? ==> s.requestedAt.Some? && s.main.deadline <= Later(s.requestedAt.value, s.begunAt) + s.grace
                          && Later(s.requestedAt.value, s.begunAt) + s.grace <= s.main.deadline
                          && s.now <= s.main.deadline)
    && (Racing(s) && s.forcedAt.Some? ==> s.now <= Later(s.forcedAt.value, s.begunAt))
  }

  function OutcomeOf(main: Main): Option<RunOutcome> {
    match main
    case Returned(o) => Some(o)
    case Stopped(o) => Some(o)
    case Exited(code) => Some(if code.Some? then Signalled else Completed)
    case _ => None
  }

  /** The first request follows the first arrival, and the first force the second arrival, with
      no more delay than the watcher spent inside recordings. */
  predicate Prompt(s: System) {
    && (s.arrivedAt.Some? <==> s.arrivals != []) && (s.againAt.Some? <==> |s.arrivals| > 1)
    && (s.watcher.Forcing? ==> |s.arrivals| > 1)
    && (s.arrivedAt.Some? && s.requestedAt.None? ==> Recording(s) && s.now <= s.arrivedAt.value + s.lag)
    && (s.requestedAt.Some? ==> s.arrivedAt.Some? && s.requestedAt.value <= s.arrivedAt.value + s.lag)
    && (s.againAt.Some? && s.forcedAt.None? ==> s.watcher.Forcing? && s.now <= s.againAt.value + s.lag)
    && (s.forcedAt.Some? ==> s.againAt.Some? && s.forcedAt.value <= s.againAt.value + s.lag)
  }

  /** What the way the race ended says about signals and run. */
  predicate OutcomeJustified(s: System) {
    && (OutcomeOf(s.main) == Some(Signalled) ==> s.arrivals != [])
    && (OutcomeOf(s.main) == Some(Completed) ==> s.runDone)
    && (s.raced || s.main.Grace? ==> s.requests > 0)
    && (s.main.Exited? && s.main.code.Some? ==> s.main.code.value == ExitCode(ExitArrival(s.shared)))
  }

  predicate Invariant(s: System) { Bookkeeping(s) && Woken(s) && InTime(s) && Prompt(s) && OutcomeJustified(s) }

  lemma StartKeepsInvariant(grace: nat)
    ensures Invariant(Start(grace))
  {}

  lemma RecordedGrows(arrivals: seq<Signal>, signal: Signal, stores: nat)
    requires stores == 0 || (stores - 1) * WIDTH < |arrivals|
    ensures Recorded(arrivals + [signal], stores) == Recorded(arrivals, stores)
  {}

  lemma ArrivalKeepsBookkeeping(s: System, signal: Signal)
    requires Bookkeeping(s) && Enabled(s, Arrive(signal))
    ensures Bookkeeping(Take(s, Arrive(signal)))
  {
    var n := |s.arrivals|;
    NextArrival(n);
    assert s.stores == Laps(n) && (n == 0 ==> Laps(n) == 0);
    RecordedGrows(s.arrivals, signal, s.stores);
    hide Laps, Recorded;
  }

  lemma StoreKeepsBookkeeping(s: System)
    requires Bookkeeping(s) && Enabled(s, Store)
    ensures Bookkeeping(Take(s, Store))
  {
    var n := |s.arrivals|;
    NextArrival(n - 1);
    assert Laps(n) == Laps(n - 1) + 1 && (Laps(n) - 1) * WIDTH == n - 1;
    hide Laps;
  }

  lemma StepKeepsBookkeeping(s: System, step: Step)
    requires Bookkeeping(s) && Enabled(s, step)
    ensures Bookkeeping(Take(s, step))
  {
    match step
    case Arrive(signal) => ArrivalKeepsBookkeeping(s, signal);
    case Store => StoreKeepsBookkeeping(s);
    case _ => hide Laps, Recorded;
  }

  lemma ArrivalKeepsWoken(s: System, signal: Signal)
    requires Bookkeeping(s) && Woken(s) && Enabled(s, Arrive(signal))
    ensures Woken(Take(s, Arrive(signal)))
  {
    NextArrival(|s.arrivals|);
    assert Laps(0) == 0 && s.requests == Laps(|s.arrivals|);
    assert s.shared.count == |s.arrivals| % WIDTH;
    hide Laps, Recorded, Bookkeeping;
  }

  lemma StepKeepsWoken(s: System, step: Step)
    requires Bookkeeping(s) && Woken(s) && Enabled(s, step)
    ensures Woken(Take(s, step))
  {
    match step
    case Arrive(signal) => ArrivalKeepsWoken(s, signal);
    case _ => hide Bookkeeping;
  }

  lemma StepKeepsInTime(s: System, step: Step)
    requires Bookkeeping(s) && Woken(s) && InTime(s) && Enabled(s, step)
    ensures InTime(Take(s, step))
  {
    hide Bookkeeping;
  }

  lemma ArrivalKeepsPrompt(s: System, signal: Signal)
    requires Bookkeeping(s) && Woken(s) && Prompt(s) && Enabled(s, Arrive(signal))
    ensures Prompt(Take(s, Arrive(signal)))
  {
    NextArrival(|s.arrivals|);
    assert s.shared.count == |s.arrivals| % WIDTH && 1 % WIDTH == 1;
    assert s.requests == Laps(|s.arrivals|);
    hide Laps, Recorded, InTime;
  }

  lemma StepKeepsPrompt(s: System, step: Step)
    requires Bookkeeping(s) && Woken(s) && Prompt(s) && Enabled(s, step)
    ensures Prompt(Take(s, step))
  {
    match step
    case Arrive(signal) => ArrivalKeepsPrompt(s, signal);
    case _ => hide Bookkeeping;
  }

  lemma StepKeepsOutcome(s: System, step: Step)
    requires Invariant(s) && Enabled(s, step)
    ensures OutcomeJustified(Take(s, step))
  {
    NextArrival(|s.arrivals|);
    assert Laps(0) == 0;
    assert s.arrivals == [] ==> s.shared.count == 0 && s.requests == 0;
    hide Bookkeeping, InTime, Prompt, Laps, Recorded;
  }

  lemma {:induction false} RunKeepsInvariant(s: System, steps: seq<Step>)
    requires Invariant(s) && CanTake(s, steps)
    ensures Invariant(After(s, steps))
    decreases |steps|
  {
    hide Bookkeeping, Woken, InTime, Prompt, OutcomeJustified, Enabled, Take;
    if steps != [] {
      StepKeepsBookkeeping(s, steps[0]);
      StepKeepsWoken(s, steps[0]);
      StepKeepsInTime(s, steps[0]);
      StepKeepsPrompt(s, steps[0]);
      StepKeepsOutcome(s, steps[0]);
      RunKeepsInvariant(Take(s, steps[0]), steps[1..]);
    }
  }

  // ----- The protocol's promises, for every run

  ghost predicate Reachable(s: System) {
    exists grace, steps | CanTake(Start(grace), steps) :: s == After(Start(grace), steps)
  }

  lemma ReachableKeepsInvariant(s: System)
    requires Reachable(s)
    ensures Invariant(s)
  {
    hide Invariant, Enabled, Take, After, CanTake;
    var grace, steps :| CanTake(Start(grace), steps) && s == After(Start(grace), steps);
    StartKeepsInvariant(grace);
    RunKeepsInvariant(Start(grace), steps);
  }

  lemma RunCons(s: System, step: Step, rest: seq<Step>)
    requires Enabled(s, step) && CanTake(Take(s, step), rest)
    ensures CanTake(s, [step] + rest) && After(s, [step] + rest) == After(Take(s, step), rest)
  {
    assert ([step] + rest)[1..] == rest;
    hide Take, Enabled;
  }

  /** The watcher's steps, uninterrupted, are what the method on the shared state does. */
  lemma UninterruptedObserve(s: System, signal: Signal)
    requires s.watcher.Idle? && !s.main.Exited?
    ensures var steps := if Seen(s.shared) == 1 then [Arrive(signal), Store, Request] else [Arrive(signal), Force];
            CanTake(s, steps) && After(s, steps).shared == Observed(s.shared, signal) && After(s, steps).watcher.Idle?
  {
    var s1 := Take(s, Arrive(signal));
    if Seen(s.shared) == 1 {
      var s2 := Take(s1, Store);
      RunCons(s2, Request, []);
      RunCons(s1, Store, [Request]);
      RunCons(s, Arrive(signal), [Store, Request]);
      assert [Arrive(signal)] + [Store, Request] == [Arrive(signal), Store, Request];
    } else {
      RunCons(s1, Force, []);
      RunCons(s, Arrive(signal), [Force]);
    }
  }

  /** Between the race's first look at the counter and its wait no arrival is lost: either the
      request is there to take, or the watcher is about to issue it for the first arrival. */
  lemma NoArrivalIsLost(s: System)
    requires Reachable(s) && s.main.Waiting? && s.arrivals != []
    ensures Enabled(s, TakeRequest) || (|s.arrivals| == 1 && Recording(s))
  {
    ReachableKeepsInvariant(s);
    NextArrival(|s.arrivals|);
  }

  /** One exit request per lap of the counter, so one at most up to 2^32 arrivals. */
  lemma ExitIsRequestedOncePerLap(s: System)
    requires Reachable(s)
    ensures s.requests + (if Recording(s) then 1 else 0) == Laps(|s.arrivals|)
    ensures |s.arrivals| <= WIDTH ==> s.requests <= 1
  {
    ReachableKeepsInvariant(s);
    NextArrival(|s.arrivals|);
  }

  lemma {:induction false} ArrivalsOnlyGrow(s: System, steps: seq<Step>)
    requires CanTake(s, steps)
    ensures s.arrivals <= After(s, steps).arrivals && s.stores <= After(s, steps).stores
    decreases |steps|
  {
    hide Take, Enabled;
    if steps != [] {
      StepGrows(s, steps[0]);
      ArrivalsOnlyGrow(Take(s, steps[0]), steps[1..]);
    }
  }

  lemma StepGrows(s: System, step: Step)
    requires Enabled(s, step)
    ensures s.arrivals <= Take(s, step).arrivals && s.stores <= Take(s, step).stores
  {}

  /** Once recorded, the first signal stays recorded whatever arrives later. */
  lemma LaterArrivalsKeepTheSignal(s: System, steps: seq<Step>)
    requires Reachable(s) && CanTake(s, steps)
    requires s.stores > 0 && |After(s, steps).arrivals| <= WIDTH
    ensures s.arrivals != [] && s.shared.marker == After(s, steps).shared.marker == Signum(s.arrivals[0])
  {
    ReachableKeepsInvariant(s);
    RunKeepsInvariant(s, steps);
    ArrivalsOnlyGrow(s, steps);
    var s' := After(s, steps);
    assert Bookkeeping(s) && Bookkeeping(s');
    hide *;
    RecordedIsFirst(s);
    RecordedIsFirst(s');
  }

  lemma RecordedIsFirst(s: System)
    requires Bookkeeping(s) && s.stores > 0 && |s.arrivals| <= WIDTH
    ensures s.arrivals != [] && s.stores == 1 && s.shared.marker == Signum(s.arrivals[0])
  {
    NextArrival(|s.arrivals|);
    assert Laps(0) == 0;
  }

  /** A run is only cut short when a signal arrived; otherwise it finished. */
  lemma SignalledMeansAnArrival(s: System)
    requires Reachable(s) && OutcomeOf(s.main).Some?
    ensures if OutcomeOf(s.main) == Some(Signalled) then s.arrivals != [] else s.runDone
  {
    ReachableKeepsInvariant(s);
    var outcome := OutcomeOf(s.main).value;
    assert outcome.Signalled? || outcome.Completed?;
  }

  /** The last moment at which the race can still be on. */
  function Due(s: System): Option<nat> {
    if s.forcedAt.Some? then Some(Later(s.forcedAt.value, s.begunAt))
    else if s.requestedAt.Some? then Some(Later(s.requestedAt.value, s.begunAt) + s.grace)
    else None
  }

  /** The race is never on after it is due: a grace after the request, at once when forced;
      when the moment has come, the race has a step to take and the clock waits for it. */
  lemma RaceEndsWhenDue(s: System)
    requires Reachable(s) && Racing(s) && Due(s).Some?
    ensures s.now <= Due(s).value
    ensures s.now == Due(s).value ==>
            && !Enabled(s, Tick)
            && (Enabled(s, TakeRequest) || Enabled(s, TakeRun) || Enabled(s, TakeForce) || Enabled(s, Elapse))
  {
    ReachableKeepsInvariant(s);
  }

  /** Counted from the signals themselves: the race is never on later than a grace after the
      first arrival, nor after the second one, by more than the time the watcher spent between
      counting an arrival and passing it on. */
  lemma RaceEndsAfterArrival(s: System)
    requires Reachable(s) && Racing(s) && s.arrivals != []
    ensures s.arrivedAt.Some? && s.now <= Later(s.arrivedAt.value, s.begunAt) + s.lag + s.grace
    ensures |s.arrivals| > 1 ==> s.againAt.Some? && s.now <= Later(s.againAt.value, s.begunAt) + s.lag
  {
    ReachableKeepsInvariant(s);
    hide Bookkeeping, Woken, OutcomeJustified;
  }

  /** The signal the exit code stands for: none stored yet means termination, otherwise the
      arrival that opened the last lap of the counter to be recorded. */
  lemma ExitCodeExactly(s: System)
    requires Reachable(s) && s.main.Exited? && s.main.code.Some?
    ensures s.stores > 0 ==> (s.stores - 1) * WIDTH < |s.arrivals|
    ensures s.main.code.value == ExitCode(if s.stores == 0 then Terminate else s.arrivals[(s.stores - 1) * WIDTH])
    ensures s.raced ==> s.stores > 0
  {
    ReachableKeepsInvariant(s);
    NextArrival(|s.arrivals|);
    assert Laps(0) == 0;
  }

  /** Until the counter wraps, the exit code names the first signal exactly when its recording
      was over, or when it is the one the code falls back to. */
  lemma ExitCodeNamesTheFirstSignal(s: System)
    requires Reachable(s) && s.main.Exited? && s.main.code.Some? && |s.arrivals| <= WIDTH
    ensures s.arrivals != []
    ensures s.main.code.value == ExitCode(s.arrivals[0]) <==> s.stores > 0 || s.arrivals[0] == Terminate
  {
    ReachableKeepsInvariant(s);
    ExitCodeExactly(s);
    if s.stores > 0 { RecordedIsFirst(s); }
  }

  /** The process exits between the counting and the storing of the first arrival: an
      interrupt is reported as a termination. */
  lemma InterruptReportedAsTermination(grace: nat)
    ensures var steps := [Arrive(Interrupt), Begin, StopWatching, Exit];
            CanTake(Start(grace), steps) && After(Start(grace), steps).main == Exited(Some(143))
            && ExitCode(Interrupt) == 130
  {
    var s1 := Take(Start(grace), Arrive(Interrupt));
    var s2 := Take(s1, Begin);
    var s3 := Take(s2, StopWatching);
    RunCons(s3, Exit, []);
    RunCons(s2, StopWatching, [Exit]);
    RunCons(s1, Begin, [StopWatching, Exit]);
    RunCons(Start(grace), Arrive(Interrupt), [Begin, StopWatching, Exit]);
    assert [Arrive(Interrupt)] + [Begin, StopWatching, Exit] == [Arrive(Interrupt), Begin, StopWatching, Exit];
    assert [Begin] + [StopWatching, Exit] == [Begin, StopWatching, Exit];
  }
}
