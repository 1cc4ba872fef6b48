/** How the race ends, and what main makes of it (src/main.rs). */
module ExitEnding {
  import opened Text
  import opened ExitSignal
  import opened ExitRace

  /** Which way a step ends the race, if it does: the run's own end, a signal seen before the
      race began, a second signal, or the end of the grace. */
  function Ending(s: System, step: Step): Option<RunOutcome> {
    match step
    case TakeRun => Some(Completed)
    case TakeForce => Some(Signalled)
    case Elapse => Some(Signalled)
    case Begin => if s.shared.count > 0 then Some(Signalled) else None
    case _ => None
  }

  /** The endings along a run, in order. */
  function Endings(s: System, steps: seq<Step>): seq<RunOutcome>
    requires CanTake(s, steps)
    decreases |steps|
  {
    if steps == [] then []
    else (match Ending(s, steps[0]) case None => [] case Some(o) => [o]) + Endings(Take(s, steps[0]), steps[1..])
  }

  lemma StepEnds(s: System, step: Step)
    requires Enabled(s, step)
    ensures if OutcomeOf(s.main).Some? then
              Ending(s, step) == None && OutcomeOf(Take(s, step).main) == OutcomeOf(s.main)
            else OutcomeOf(Take(s, step).main) == Ending(s, step)
  {}

  lemma {:induction false} EndingsFrom(s: System, steps: seq<Step>)
    requires CanTake(s, steps)
    ensures if OutcomeOf(s.main).Some? then
              Endings(s, steps) == [] && OutcomeOf(After(s, steps).main) == OutcomeOf(s.main)
            else
              |Endings(s, steps)| <= 1
              && OutcomeOf(After(s, steps).main) ==
                 (if Endings(s, steps) == [] then None else Some(Endings(s, steps)[0]))
    decreases |steps|
  {
    hide Take, Enabled, OutcomeOf, Ending;
    if steps != [] {
      StepEnds(s, steps[0]);
      EndingsFrom(Take(s, steps[0]), steps[1..]);
    }
  }

  /** Every run of the protocol ends its race at most once, and its outcome is that ending:
      completed through the run's own end and through nothing else. */
  lemma OutcomeIsTheEnding(grace: nat, steps: seq<Step>)
    requires CanTake(Start(grace), steps)
    ensures var endings, main := Endings(Start(grace), steps), After(Start(grace), steps).main;
            && |endings| <= 1
            && OutcomeOf(main) == (if endings == [] then None else Some(endings[0]))
            && (main.Exited? ==> |endings| == 1 && (main.code == None <==> endings[0] == Completed))
  {
    EndingsFrom(Start(grace), steps);
    hide Take, Enabled, Endings, After;
  }

  /** Splitting a run at one of its steps. */
  lemma {:induction false} RunSplits(s: System, steps: seq<Step>, i: nat)
    requires CanTake(s, steps) && i < |steps|
    ensures CanTake(s, steps[..i]) && Enabled(After(s, steps[..i]), steps[i])
    ensures forall o :: Ending(After(s, steps[..i]), steps[i]) == Some(o) ==> o in Endings(s, steps)
    decreases |steps|
  {
    hide Take, Enabled, Ending;
    if i > 0 {
      RunSplits(Take(s, steps[0]), steps[1..], i - 1);
      assert steps[..i][1..] == steps[1..][..i - 1] && steps[1..][i - 1] == steps[i];
      assert steps[..i][0] == steps[0];
    } else {
      assert steps[..0] == [];
    }
  }

  /** In particular a run that takes its own end anywhere is completed, and one that meets the
      end of the grace, a second signal or an early one is not. */
  lemma AnyEndingDecides(grace: nat, steps: seq<Step>, i: nat)
    requires CanTake(Start(grace), steps) && i < |steps|
    ensures var s := Start(grace);
            CanTake(s, steps[..i])
            && (Ending(After(s, steps[..i]), steps[i]).Some? ==>
                  OutcomeOf(After(s, steps).main) == Ending(After(s, steps[..i]), steps[i]))
  {
    hide Take, Enabled, Endings, After, Ending, OutcomeOf;
    RunSplits(Start(grace), steps, i);
    OutcomeIsTheEnding(grace, steps);
  }

  /** The run gets its whole grace: the race is not given up before, nor when the run is done. */
  lemma GraceIsGranted(s: System)
    requires Reachable(s) && Enabled(s, Elapse)
    ensures s.requestedAt.Some? && Later(s.requestedAt.value, s.begunAt) + s.grace <= s.now && !s.runDone
  {
    ReachableKeepsInvariant(s);
    hide Bookkeeping, Woken, Prompt, OutcomeJustified;
  }

  // ----- What a step of a run needs

  /** The signals of a run, in order. */
  function SignalsOf(steps: seq<Step>): seq<Signal> {
    if steps == [] then []
    else (match steps[0] case Arrive(signal) => [signal] case _ => []) + SignalsOf(steps[1..])
  }

  lemma StepHistory(s: System, step: Step)
    requires Enabled(s, step)
    ensures Take(s, step).arrivals == s.arrivals + (match step case Arrive(signal) => [signal] case _ => [])
    ensures Take(s, step).runDone <==> s.runDone || step == Finish
  {}

  lemma {:induction false} HistoryFrom(s: System, steps: seq<Step>)
    requires CanTake(s, steps)
    ensures After(s, steps).arrivals == s.arrivals + SignalsOf(steps)
    ensures After(s, steps).runDone <==> s.runDone || Finish in steps
    decreases |steps|
  {
    hide Take, Enabled;
    if steps == [] {
      assert s.arrivals + SignalsOf(steps) == s.arrivals;
    } else {
      StepHistory(s, steps[0]);
      HistoryFrom(Take(s, steps[0]), steps[1..]);
      assert steps == [steps[0]] + steps[1..];
    }
  }

  /** A run is cut off only for cause: before it began if a signal had arrived, at a second signal,
      or at the end of a whole grace that it did not finish in; it is completed only when it
      finished. */
  lemma EndingsAreEarned(grace: nat, steps: seq<Step>, step: Step)
    requires CanTake(Start(grace), steps) && Enabled(After(Start(grace), steps), step)
    ensures var s := After(Start(grace), steps);
            && (step == TakeRun ==> Finish in steps)
            && (step == TakeForce ==> |SignalsOf(steps)| > 1)
            && (step == Elapse ==> Finish !in steps && s.requestedAt.Some?
                                   && Later(s.requestedAt.value, s.begunAt) + s.grace <= s.now)
            && (step == Begin && Ending(s, step).Some? ==> SignalsOf(steps) != [])
  {
    hide Take, Enabled, Invariant, SignalsOf, Ending;
    var s := RunHistory(grace, steps);
    Earned(s, step);
  }

  lemma RunHistory(grace: nat, steps: seq<Step>) returns (s: System)
    requires CanTake(Start(grace), steps)
    ensures s == After(Start(grace), steps) && Invariant(s)
    ensures s.arrivals == SignalsOf(steps) && (s.runDone <==> Finish in steps)
  {
    hide Take, Enabled, Invariant, SignalsOf;
    s := After(Start(grace), steps);
    HistoryFrom(Start(grace), steps);
    assert Start(grace).arrivals + SignalsOf(steps) == SignalsOf(steps);
    StartKeepsInvariant(grace);
    RunKeepsInvariant(Start(grace), steps);
  }

  lemma Earned(s: System, step: Step)
    requires Invariant(s) && Enabled(s, step)
    ensures step == TakeRun ==> s.runDone
    ensures step == TakeForce ==> |s.arrivals| > 1
    ensures step == Elapse ==> !s.runDone && s.requestedAt.Some?
                               && Later(s.requestedAt.value, s.begunAt) + s.grace <= s.now
    ensures step == Begin && Ending(s, step).Some? ==> s.arrivals != []
  {
    hide OutcomeJustified, Laps, Recorded;
  }

  /** No second signal is lost either: in the grace, with two signals in, the race can be forced,
      or the watcher is about to see to it. */
  lemma NoForceIsLost(grace: nat, steps: seq<Step>)
    requires CanTake(Start(grace), steps) && After(Start(grace), steps).main.Grace? && |SignalsOf(steps)| > 1
    ensures var s := After(Start(grace), steps); Enabled(s, TakeForce) || s.watcher.Forcing?
  {
    hide Take, Enabled, Invariant, SignalsOf;
    var s := RunHistory(grace, steps);
    ForceIsComing(s);
  }

  lemma ForceIsComing(s: System)
    requires Invariant(s) && s.main.Grace? && |s.arrivals| > 1
    ensures Enabled(s, TakeForce) || s.watcher.Forcing?
  {
    hide OutcomeJustified, Bookkeeping, InTime;
  }
}
