/**
 The Linux timer: a controlling thread that calls Start and Stop, and the loop thread that Start
 creates. The loop holds the mutex except while it waits on the condition variable, and it runs the
 callback with the mutex held; Stop sets `cancel`, signals, and joins the loop.
 */
module Timer {
  /** Where the loop thread stands. The mutex is held from Check, Returned and Callback. */
  datatype LoopPc =
    | Absent    // no thread: never started, or joined
    | Created   // created, has not locked the mutex yet
    | Check     // at the test of the while loop
    | Asleep    // in the timed wait
    | Woken     // signalled, timed out or woken spuriously; the mutex is still to be taken again
    | Returned  // back from the wait
    | Callback  // inside the user's callback
    | Exited    // the routine has returned, not joined yet

  datatype ControlPc =
    | Idle      // between calls
    | Locking   // in Stop, before the mutex is taken
    | Joining   // in Stop, cancel set and signal sent, waiting for the loop to exit

  datatype State = State(cancel: bool, autoreload: bool, loop: LoopPc, ctl: ControlPc, begun: nat)
  {
    /** `begun` counts the callbacks begun since the last Start that created a thread. */
    predicate LoopHoldsMutex() { loop.Check? || loop.Returned? || loop.Callback? }

    predicate HasThread() { !loop.Absent? }
  }

  datatype Step =
    | Start(timeoutMs: nat, autoreload: bool, threadCreated: bool)
    | StopCalled
    | StopCancels
    | StopReturns
    | LoopLocks
    | LoopChecks
    | WaitTimesOut
    | WaitEndsSpuriously
    | LoopRelocks
    | LoopDecides
    | CallbackEnds

  predicate Enabled(s: State, e: Step) {
    match e
    case Start(_, _, _) => s.ctl.Idle?
    case StopCalled => s.ctl.Idle?
    case StopCancels => s.ctl.Locking? && !s.LoopHoldsMutex()
    case StopReturns => s.ctl.Joining? && s.loop.Exited?
    case LoopLocks => s.loop.Created?
    case LoopChecks => s.loop.Check?
    case WaitTimesOut => s.loop.Asleep?
    case WaitEndsSpuriously => s.loop.Asleep?
    case LoopRelocks => s.loop.Woken?
    case LoopDecides => s.loop.Returned?
    case CallbackEnds => s.loop.Callback?
  }

  function Apply(s: State, e: Step): (r: State) {
    match e
    case Start(ms, auto, created) =>
      if s.HasThread() then s
      else if ms == 0 || !created then s.(cancel := false, autoreload := auto)
      else s.(cancel := false, autoreload := auto, loop := Created, begun := 0)
    case StopCalled => if s.HasThread() then s.(ctl := Locking) else s
    case StopCancels => s.(cancel := true, ctl := Joining, loop := if s.loop.Asleep? then Woken else s.loop)
    case StopReturns => s.(loop := Absent, ctl := Idle)
    case LoopLocks => s.(loop := Check)
    case LoopChecks => s.(loop := if s.cancel then Exited else Asleep)
    case WaitTimesOut => s.(loop := Woken)
    case WaitEndsSpuriously => s.(loop := Woken)
    case LoopRelocks => s.(loop := Returned)
    case LoopDecides =>
      if !s.cancel then s.(loop := Callback, begun := s.begun + 1)
      else if s.autoreload then s.(loop := Check)
      else s.(loop := Exited)
    case CallbackEnds => s.(loop := if s.autoreload then Check else Exited)
  }

  const INITIAL := State(false, false, Absent, Idle, 0)

  predicate IsRun(s: State, steps: seq<Step>)
    decreases |steps|
  {
    steps != [] ==> Enabled(s, steps[0]) && IsRun(Apply(s, steps[0]), steps[1..])
  }

  function After(s: State, steps: seq<Step>): (r: State)
    decreases |steps|
  {
    if steps == [] then s else After(Apply(s, steps[0]), steps[1..])
  }

  /** What every reachable state satisfies. */
  predicate Inv(s: State) {
    // A loop exists while Stop is under way, and a cancelled loop is neither asleep nor in the callback.
    && (s.ctl.Locking? ==> s.HasThread() && !s.cancel)
    && (s.ctl.Joining? ==> s.HasThread() && s.cancel && !s.loop.Asleep? && !s.loop.Callback?)
    && (s.ctl.Idle? && s.HasThread() ==> !s.cancel)
    // A one-shot loop that has fired is in its callback or done.
    && (s.HasThread() && !s.autoreload ==> s.begun <= 1 && (s.begun == 1 ==> s.loop.Callback? || s.loop.Exited?))
  }

  lemma {:induction false} RunKeepsInv(s: State, steps: seq<Step>)
    requires Inv(s) && IsRun(s, steps)
    ensures Inv(After(s, steps))
    decreases |steps|
  {
    if steps != [] {
      RunKeepsInv(Apply(s, steps[0]), steps[1..]);
    }
  }

  /** This Start creates a loop thread, so callbacks may follow. */
  predicate Effective(s: State, e: Step) {
    e.Start? && !s.HasThread() && e.timeoutMs != 0 && e.threadCreated
  }

  predicate NoEffectiveStart(s: State, steps: seq<Step>)
    decreases |steps|
  {
    steps != [] ==> !Effective(s, steps[0]) && NoEffectiveStart(Apply(s, steps[0]), steps[1..])
  }

  /** Stop has set `cancel`, or no loop exists: nothing may call back until the next effective Start. */
  predicate Silenced(s: State) {
    Inv(s) && (s.ctl.Joining? || !s.HasThread())
  }

  /**
   From the step in which Stop sets `cancel` until the next effective Start, through the return of
   Stop and beyond, no callback begins and none is running.
   */
  lemma {:induction false} NoCallbackAfterCancel(s: State, steps: seq<Step>)
    requires Silenced(s) && IsRun(s, steps) && NoEffectiveStart(s, steps)
    ensures Silenced(After(s, steps)) && !After(s, steps).loop.Callback?
    ensures After(s, steps).begun == s.begun
    decreases |steps|
  {
    if steps != [] {
      NoCallbackAfterCancel(Apply(s, steps[0]), steps[1..]);
    }
  }

  lemma CancelSilences(s: State)
    requires Inv(s) && Enabled(s, StopCancels)
    ensures Silenced(Apply(s, StopCancels))
  {
  }

  /** A one-shot Start yields at most one callback, whatever happens until the next effective Start. */
  lemma {:induction false} OneShotFiresAtMostOnce(s: State, ms: nat, steps: seq<Step>)
    requires Inv(s) && Enabled(s, Start(ms, false, true)) && Effective(s, Start(ms, false, true))
    requires var t := Apply(s, Start(ms, false, true)); IsRun(t, steps) && NoEffectiveStart(t, steps)
    ensures After(Apply(s, Start(ms, false, true)), steps).begun <= 1
  {
    OneShotStays(Apply(s, Start(ms, false, true)), steps);
  }

  lemma {:induction false} OneShotStays(s: State, steps: seq<Step>)
    requires Inv(s) && s.begun <= 1 && (s.HasThread() ==> !s.autoreload)
    requires IsRun(s, steps) && NoEffectiveStart(s, steps)
    ensures After(s, steps).begun <= 1
    decreases |steps|
  {
    if steps != [] {
      OneShotStays(Apply(s, steps[0]), steps[1..]);
    }
  }

  /** How many steps of its own the loop still needs before the join can return. */
  function StepsToExit(s: State): (r: nat) {
    match s.loop
    case Exited => 0
    case Check => 1
    case Created => 2
    case Returned => 2
    case Woken => 3
    case _ => 4
  }

  predicate IsLoopStep(e: Step) {
    e.LoopLocks? || e.LoopChecks? || e.LoopRelocks? || e.LoopDecides?
  }

  /**
   The join in Stop cannot hang: while it waits the loop has not missed its signal, exactly its own
   next step is possible, and each such step brings it nearer to exiting; at most three are needed.
   */
  lemma JoinMakesProgress(s: State)
    requires Inv(s) && s.ctl.Joining?
    ensures StepsToExit(s) <= 3
    ensures s.loop.Exited? <==> Enabled(s, StopReturns)
    ensures !s.loop.Exited? ==> exists e :: IsLoopStep(e) && Enabled(s, e)
    ensures forall e :: Enabled(s, e) && e != StopReturns ==>
              && IsLoopStep(e)
              && Apply(s, e).ctl.Joining?
              && StepsToExit(Apply(s, e)) < StepsToExit(s)
  {
    assert s.loop.Created? ==> Enabled(s, LoopLocks);
    assert s.loop.Check? ==> Enabled(s, LoopChecks);
    assert s.loop.Woken? ==> Enabled(s, LoopRelocks);
    assert s.loop.Returned? ==> Enabled(s, LoopDecides);
  }

  /** So no run, however scheduled, keeps Stop waiting for more than three steps. */
  lemma {:induction false} JoinReturnsWithinThreeSteps(s: State, steps: seq<Step>)
    requires Inv(s) && s.ctl.Joining? && IsRun(s, steps) && StopReturns !in steps
    ensures |steps| + StepsToExit(After(s, steps)) <= StepsToExit(s) <= 3
    ensures After(s, steps).ctl.Joining?
    decreases |steps|
  {
    JoinMakesProgress(s);
    if steps != [] {
      assert steps[0] in steps;
      RunKeepsInv(s, [steps[0]]);
      JoinReturnsWithinThreeSteps(Apply(s, steps[0]), steps[1..]);
    }
  }

  // ---------------------------------------------------------------- Stop, from the call to the return

  /**
   A Stop that meets a thread does not return before the loop has seen `cancel` and exited, and then
   there is no thread. Before that it waits for nothing but the mutex, which the loop gives back.
   */
  lemma {:induction false} StopJoinsTheLoop(s: State, steps: seq<Step>)
    requires Inv(s) && !s.ctl.Idle? && IsRun(s, steps) && StopReturns !in steps
    ensures var f := After(s, steps);
            && Inv(f) && !f.ctl.Idle? && f.HasThread()
            && (f.ctl.Locking? ==> Enabled(f, StopCancels) || exists e :: IsLoopOwn(e) && Enabled(f, e))
            && (Enabled(f, StopReturns) ==>
                  f.cancel && f.loop.Exited? && Apply(f, StopReturns) == f.(loop := Absent, ctl := Idle))
    decreases |steps|
  {
    if steps != [] {
      assert steps[0] in steps;
      StopJoinsTheLoop(Apply(s, steps[0]), steps[1..]);
    } else if !s.loop.Exited? {
      LoopGoesOn(s);
    }
  }

  lemma StopWithThreadLocks(s: State)
    requires Inv(s) && Enabled(s, StopCalled)
    ensures var f := Apply(s, StopCalled);
            Inv(f) && (if s.HasThread() then !f.ctl.Idle? && f.ctl.Locking? else f == s)
  {
  }

  // ---------------------------------------------------------------- the timer keeps going

  /** The loop's own steps and the end of its wait. */
  predicate IsLoopOwn(e: Step) {
    IsLoopStep(e) || e.WaitTimesOut? || e.WaitEndsSpuriously? || e.CallbackEnds?
  }

  /** A loop that has not exited can always go on. */
  lemma LoopGoesOn(s: State)
    requires s.HasThread() && !s.loop.Exited?
    ensures exists e :: IsLoopOwn(e) && Enabled(s, e)
  {
    assert s.loop.Created? ==> Enabled(s, LoopLocks);
    assert s.loop.Check? ==> Enabled(s, LoopChecks);
    assert s.loop.Asleep? ==> Enabled(s, WaitTimesOut);
    assert s.loop.Woken? ==> Enabled(s, LoopRelocks);
    assert s.loop.Returned? ==> Enabled(s, LoopDecides);
    assert s.loop.Callback? ==> Enabled(s, CallbackEnds);
  }

  function OwnSteps(steps: seq<Step>): (n: nat) {
    if steps == [] then 0 else (if IsLoopOwn(steps[0]) then 1 else 0) + OwnSteps(steps[1..])
  }

  /** How far the loop is from the beginning of its last callback, or from its start. */
  function Phase(pc: LoopPc): (n: nat) {
    match pc
    case Check => 1
    case Asleep => 2
    case Woken => 3
    case Returned => 4
    case Exited => 1
    case _ => 0
  }

  /** The loop runs, or has run out by itself, and Stop has not set `cancel`. */
  predicate Uncancelled(s: State) {
    && Inv(s) && s.HasThread() && !s.cancel
    && (s.loop.Callback? ==> s.begun > 0) && (s.loop.Exited? ==> !s.autoreload && s.begun == 1)
  }

  /**
   While Stop does not set `cancel` the loop begins a callback with every fifth step of its own,
   whatever the controlling thread does meanwhile.
   */
  lemma {:induction false} EveryFifthStepCallsBack(s: State, steps: seq<Step>)
    requires Uncancelled(s) && IsRun(s, steps) && StopCancels !in steps
    ensures var f := After(s, steps);
            && Uncancelled(f) && f.autoreload == s.autoreload
            && 5 * f.begun + Phase(f.loop) == 5 * s.begun + Phase(s.loop) + OwnSteps(steps)
    decreases |steps|
  {
    if steps != [] {
      assert steps[0] in steps;
      EveryFifthStepCallsBack(Apply(s, steps[0]), steps[1..]);
    }
  }

  /**
   After a Start with autoreload the loop never exits before Stop sets `cancel`: it can always go on,
   and after every wait that ended there is a callback begun or due.
   */
  lemma AutoreloadGoesOn(s: State, ms: nat, steps: seq<Step>)
    requires Inv(s) && Enabled(s, Start(ms, true, true)) && Effective(s, Start(ms, true, true))
    requires IsRun(Apply(s, Start(ms, true, true)), steps) && StopCancels !in steps
    ensures var f := After(Apply(s, Start(ms, true, true)), steps);
            && !f.loop.Exited? && f.autoreload && (exists e :: IsLoopOwn(e) && Enabled(f, e))
            && f.begun == OwnSteps(steps) / 5
            && Due(f) == Timeouts(steps) + SpuriousEnds(steps)
  {
    var t := Apply(s, Start(ms, true, true));
    EveryFifthStepCallsBack(t, steps);
    var f := After(t, steps);
    LoopGoesOn(f);
    assert 5 * f.begun + Phase(f.loop) == OwnSteps(steps) && Phase(f.loop) < 5;
    UncancelledStartsNothing(t, steps);
    CallbacksMatchWaits(t, steps);
  }

  /** After a one-shot Start the loop exits with its sixth step, right after its only callback. */
  lemma OneShotRunsOut(s: State, ms: nat, steps: seq<Step>)
    requires Inv(s) && Enabled(s, Start(ms, false, true)) && Effective(s, Start(ms, false, true))
    requires IsRun(Apply(s, Start(ms, false, true)), steps) && StopCancels !in steps
    ensures var f := After(Apply(s, Start(ms, false, true)), steps);
            && OwnSteps(steps) <= 6
            && (f.loop.Exited? <==> OwnSteps(steps) == 6)
            && (f.begun == 1 <==> OwnSteps(steps) >= 5)
            && (!f.loop.Exited? ==> exists e :: IsLoopOwn(e) && Enabled(f, e))
  {
    var t := Apply(s, Start(ms, false, true));
    EveryFifthStepCallsBack(t, steps);
    var f := After(t, steps);
    if !f.loop.Exited? {
      LoopGoesOn(f);
    }
  }

  lemma {:induction false} UncancelledStartsNothing(s: State, steps: seq<Step>)
    requires Uncancelled(s) && IsRun(s, steps) && StopCancels !in steps
    ensures NoEffectiveStart(s, steps)
    decreases |steps|
  {
    if steps != [] {
      assert steps[0] in steps;
      UncancelledStartsNothing(Apply(s, steps[0]), steps[1..]);
    }
  }

  // ---------------------------------------------------------------- callbacks and timeouts

  /** How the loop's last wait ended. */
  datatype WaitEnd = Never | ByTimeout | Spuriously | BySignal

  function WaitEndAfter(s: State, e: Step, w: WaitEnd): (r: WaitEnd) {
    match e
    case WaitTimesOut => ByTimeout
    case WaitEndsSpuriously => Spuriously
    case StopCancels => if s.loop.Asleep? then BySignal else w
    case _ => w
  }

  /** The end of the last wait after a run, when `w` was the last one before it. */
  function LastWaitEnd(s: State, steps: seq<Step>, w: WaitEnd): (r: WaitEnd)
    decreases |steps|
  {
    if steps == [] then w else LastWaitEnd(Apply(s, steps[0]), steps[1..], WaitEndAfter(s, steps[0], w))
  }

  /** A loop that is back from a wait has waited, and only Stop signals it. */
  predicate WaitKnown(s: State, w: WaitEnd) {
    s.loop.Woken? || s.loop.Returned? || s.loop.Callback? ==> w != Never && (w == BySignal ==> s.cancel)
  }

  lemma {:induction false} RunKnowsWait(s: State, steps: seq<Step>, w: WaitEnd)
    requires Inv(s) && WaitKnown(s, w) && IsRun(s, steps)
    ensures Inv(After(s, steps)) && WaitKnown(After(s, steps), LastWaitEnd(s, steps, w))
    decreases |steps|
  {
    if steps != [] {
      RunKnowsWait(Apply(s, steps[0]), steps[1..], WaitEndAfter(s, steps[0], w));
    }
  }

  /** The step begins a callback. */
  predicate BeginsCallback(s: State, e: Step) {
    Enabled(s, e) && !s.loop.Callback? && Apply(s, e).loop.Callback?
  }

  /**
   The loop does not look at the result of its timed wait. So in every run a callback begins before
   its timeout exactly when the loop decides after a wait that ended spuriously, with `cancel` unset;
   every other callback begins after a wait that timed out.
   */
  lemma CallbackIsEarlyIff(s: State, steps: seq<Step>, w: WaitEnd, e: Step)
    requires Inv(s) && WaitKnown(s, w) && IsRun(s, steps) && Enabled(After(s, steps), e)
    ensures var f, last := After(s, steps), LastWaitEnd(s, steps, w);
            && (BeginsCallback(f, e) && last != ByTimeout <==> e.LoopDecides? && last == Spuriously && !f.cancel)
            && (BeginsCallback(f, e) && last == ByTimeout <==> e.LoopDecides? && last == ByTimeout && !f.cancel)
  {
    RunKnowsWait(s, steps, w);
  }

  function Timeouts(steps: seq<Step>): (n: nat) {
    if steps == [] then 0 else (if steps[0].WaitTimesOut? then 1 else 0) + Timeouts(steps[1..])
  }

  function SpuriousEnds(steps: seq<Step>): (n: nat) {
    if steps == [] then 0 else (if steps[0].WaitEndsSpuriously? then 1 else 0) + SpuriousEnds(steps[1..])
  }

  /** The callbacks begun, and the one that a loop on its way back from an uncancelled wait will begin. */
  function Due(s: State): (n: nat) {
    s.begun + if (s.loop.Woken? || s.loop.Returned?) && !s.cancel then 1 else 0
  }

  /**
   Until the next effective Start there are no more callbacks than waits that ended by themselves,
   and exactly as many, counting the one still due, while Stop does not set `cancel`.
   */
  lemma {:induction false} CallbacksMatchWaits(s: State, steps: seq<Step>)
    requires Inv(s) && IsRun(s, steps) && NoEffectiveStart(s, steps)
    ensures Due(After(s, steps)) <= Due(s) + Timeouts(steps) + SpuriousEnds(steps)
    ensures StopCancels !in steps ==> Due(After(s, steps)) == Due(s) + Timeouts(steps) + SpuriousEnds(steps)
    decreases |steps|
  {
    if steps != [] {
      assert StopCancels !in steps ==> steps[0] != StopCancels && StopCancels !in steps[1..];
      CallbacksMatchWaits(Apply(s, steps[0]), steps[1..]);
    }
  }

  lemma {:induction false} NoneEndSpuriously(steps: seq<Step>)
    requires WaitEndsSpuriously !in steps
    ensures SpuriousEnds(steps) == 0
  {
    if steps != [] {
      assert steps[0] in steps;
      NoneEndSpuriously(steps[1..]);
    }
  }

  /** Without spurious wakeups no callback begins that a timeout does not account for. */
  lemma TimeoutsAccountForCallbacks(s: State, steps: seq<Step>)
    requires Inv(s) && IsRun(s, steps) && NoEffectiveStart(s, steps) && WaitEndsSpuriously !in steps
    ensures After(s, steps).begun <= Due(s) + Timeouts(steps)
  {
    CallbacksMatchWaits(s, steps);
    NoneEndSpuriously(steps);
  }

  /** Such a run from the beginning: a callback with no timeout before it. */
  lemma SpuriousWakeupFiresEarly(ms: nat, auto: bool)
    requires ms > 0
    ensures var steps := [Start(ms, auto, true), LoopLocks, LoopChecks, WaitEndsSpuriously, LoopRelocks, LoopDecides];
            IsRun(INITIAL, steps) && After(INITIAL, steps).loop.Callback? && WaitTimesOut !in steps
  {
    var s1 := Apply(INITIAL, Start(ms, auto, true));
    var rest := [LoopLocks, LoopChecks, WaitEndsSpuriously, LoopRelocks, LoopDecides];
    var tail := [WaitEndsSpuriously, LoopRelocks, LoopDecides];
    var asleep := s1.(loop := Asleep);
    assert tail[1..][1..] == [LoopDecides];
    assert IsRun(asleep, tail) && After(asleep, tail) == asleep.(loop := Callback, begun := 1);
    assert rest[1..][1..] == tail;
    assert IsRun(s1, rest) && After(s1, rest) == After(asleep, tail);
    assert ([Start(ms, auto, true)] + rest)[1..] == rest;
    assert [Start(ms, auto, true)] + rest
           == [Start(ms, auto, true), LoopLocks, LoopChecks, WaitEndsSpuriously, LoopRelocks, LoopDecides];
  }
}
