/**
 Whether a stop of the world can be completed: no wake-up is lost, but a thread
 that is still between the last barrier and the test of `is_world_started` when
 the next stop clears that flag goes to wait for ever, and the stop with it.
 */
module StopProgress {
  import opened Handshake

  // ----- No wake-up is lost -----

  /** The flag is down for this stop. */
  predicate FlagDown(svc: ServicePc) { Signalling(svc) || Collecting(svc) || svc.SSetFlag? }

  /** The stop has signalled thread `t`. */
  predicate Told(svc: ServicePc, t: nat) { svc.SWorldBarrier? || (svc.SSignal? && t !in svc.todo) }

  /** Nobody waits but for a broadcast to come, and who was signalled has not forgotten it. */
  ghost predicate WakeOk(g: Globals, t: nat, m: Mutator) {
    && (!g.isWorldStarted && !FlagDown(g.svc) ==> m.handler.Out?)
    && (m.handler.Waiting? ==> FlagDown(g.svc) || g.svc.SBroadcast?)
    && (Told(g.svc, t) ==> m.pending || m.handler.Entered? || m.handler.AtBarrier?)
  }

  ghost predicate WakesOk(s: State) { forall t :: t in s.threads ==> WakeOk(s.g, t, s.threads[t]) }

  lemma ThreadStepKeepsWakes(s: State, step: Step)
    requires Inv(s) && WakesOk(s) && Enabled(s, step) && ByThread(step)
    ensures WakesOk(Apply(s, step))
  {
    var s' := Apply(s, step);
    forall u | u in s'.threads ensures WakeOk(s'.g, u, s'.threads[u]) {
      assert StopOk(s.g, u, s.threads[u]) && WakeOk(s.g, u, s.threads[u]);
    }
  }

  /** The service thread's steps and the comings and goings of threads. */
  lemma OtherStepKeepsWakes(s: State, step: Step)
    requires Inv(s) && WakesOk(s) && Enabled(s, step) && !ByThread(step)
    ensures WakesOk(Apply(s, step))
  {
    forall u | u in Apply(s, step).threads ensures WakeOk(Apply(s, step).g, u, Apply(s, step).threads[u]) {
      if u in s.threads { OtherStepKeepsWake(s, step, u); }
    }
  }

  lemma OtherStepKeepsWake(s: State, step: Step, u: nat)
    requires Inv(s) && WakesOk(s) && Enabled(s, step) && !ByThread(step) && u in s.threads && u in Apply(s, step).threads
    ensures WakeOk(Apply(s, step).g, u, Apply(s, step).threads[u])
  {
    assert StopOk(s.g, u, s.threads[u]) && WakeOk(s.g, u, s.threads[u]);
  }

  lemma {:induction false} RunKeepsWakes(s: State, steps: seq<Step>)
    requires Inv(s) && WakesOk(s) && IsRun(s, steps)
    ensures Inv(Final(s, steps)) && WakesOk(Final(s, steps))
    decreases |steps|
  {
    if steps != [] {
      StepKeepsInv(s, steps[0]);
      if ByThread(steps[0]) { ThreadStepKeepsWakes(s, steps[0]); } else { OtherStepKeepsWakes(s, steps[0]); }
      RunKeepsWakes(Apply(s, steps[0]), steps[1..]);
    }
  }

  /** In every run, a thread waits only while the flag is down or the broadcast is the service thread's next step. */
  lemma NoWakeUpIsLost(s0: State, steps: seq<Step>, t: nat)
    requires Init(s0) && IsRun(s0, steps)
    requires t in Final(s0, steps).threads && Final(s0, steps).threads[t].handler.Waiting?
    ensures var g := Final(s0, steps).g; (!g.isWorldStarted && FlagDown(g.svc)) || g.svc.SBroadcast?
  {
    RunKeepsWakes(s0, steps);
    var s := Final(s0, steps);
    assert WakeOk(s.g, t, s.threads[t]);
  }

  // ----- A stop that cannot be completed -----

  /** Thread `t` has not left the handler of an earlier stop, and will find the flag down. */
  ghost predicate Doomed(s: State, t: nat) { t in s.threads && Signalling(s.g.svc) && Held(s.threads[t].handler) }

  lemma DoomedStays(s: State, t: nat, step: Step)
    requires Inv(s) && Doomed(s, t) && Enabled(s, step)
    ensures Doomed(Apply(s, step), t) && Apply(s, step).g.completed == s.g.completed
  {
    if step.WorldStopped? {
      assert t !in Arrived(s) && Arrived(s) <= s.threads.Keys - {t};
      Smaller(Arrived(s), s.threads.Keys - {t});
      assert false;
    }
  }

  lemma Smaller(a: set<nat>, b: set<nat>)
    requires a <= b
    ensures |a| <= |b| && (a != b ==> |a| < |b|)
  {
    assert b == a + (b - a);
  }

  /** The stop is never completed: no collection and no allocation attempt ever again, in any run. */
  lemma {:induction false} DoomedForever(s: State, t: nat, steps: seq<Step>)
    requires Inv(s) && Doomed(s, t) && IsRun(s, steps)
    ensures var s' := Final(s, steps);
      Doomed(s', t) && s'.g.completed == s.g.completed && forall u :: u in s'.threads ==> !s'.threads[u].pc.Allocating?
    decreases |steps|
  {
    if steps == [] {
      forall u | u in s.threads ensures !s.threads[u].pc.Allocating? { assert CallOk(s.g, u, s.threads[u]); }
    } else {
      StepKeepsInv(s, steps[0]);
      DoomedStays(s, t, steps[0]);
      DoomedForever(Apply(s, steps[0]), t, steps[1..]);
    }
  }

  // ----- A stop that can -----

  ghost predicate NoneHeld(s: State) { forall t :: t in s.threads ==> !Held(s.threads[t].handler) }

  ghost predicate CanStop(s: State) { exists steps :: IsRun(s, steps) && Final(s, steps).g.svc.SMark? }

  lemma CanStopAfter(s: State, step: Step)
    requires Enabled(s, step) && CanStop(Apply(s, step))
    ensures CanStop(s)
  {
    var rest :| IsRun(Apply(s, step), rest) && Final(Apply(s, step), rest).g.svc.SMark?;
    assert ([step] + rest)[1..] == rest;
    assert IsRun(s, [step] + rest) && Final(s, [step] + rest) == Final(Apply(s, step), rest);
  }

  lemma StopNow(s: State)
    requires Enabled(s, WorldStopped)
    ensures CanStop(s)
  {
    var s' := Apply(s, WorldStopped);
    assert IsRun(s', []) && Final(s', []) == s';
    CanStopAfter(s, WorldStopped);
  }

  /** The remaining signals are sent, */
  lemma {:induction false} SignalsCanBeSent(s: State)
    requires Inv(s) && WakesOk(s) && NoneHeld(s) && s.g.svc.SSignal?
    ensures CanStop(s)
    decreases |s.g.svc.todo|
  {
    var step := AllSignalled;
    if s.g.svc.todo != {} {
      var t :| t in s.g.svc.todo;
      step := Signal(t);
    }
    StepKeepsInv(s, step);
    OtherStepKeepsWakes(s, step);
    if step.AllSignalled? { ThreadsCanArrive(Apply(s, step)); } else { SignalsCanBeSent(Apply(s, step)); }
    CanStopAfter(s, step);
  }

  ghost function In(s: State, h: HandlerPc): set<nat> { set t | t in s.threads && s.threads[t].handler == h }

  /** What thread `t` does next on its way to the barrier. */
  function Onward(t: nat, h: HandlerPc): Step {
    if h.Woken? then Leave(t) else if h.Out? then Deliver(t) else Arrive(t)
  }

  lemma CanMoveOn(s: State, t: nat)
    requires Inv(s) && WakesOk(s) && NoneHeld(s) && s.g.svc.SWorldBarrier?
    requires t in s.threads && !s.threads[t].handler.AtBarrier?
    ensures Enabled(s, Onward(t, s.threads[t].handler))
    ensures var s' := Apply(s, Onward(t, s.threads[t].handler));
      s'.g.svc.SWorldBarrier? && NoneHeld(s') && Moves(s, s', t, s.threads[t].handler)
  {
    assert WakeOk(s.g, t, s.threads[t]);
  }

  /** and the threads leave the handler, enter it and arrive one by one. */
  lemma {:induction false} ThreadsCanArrive(s: State)
    requires Inv(s) && WakesOk(s) && NoneHeld(s) && s.g.svc.SWorldBarrier?
    ensures CanStop(s)
    decreases |In(s, Woken)|, |In(s, Out)|, |In(s, Entered)|
  {
    if Arrived(s) == s.threads.Keys {
      StopNow(s);
    } else {
      var t :| t in s.threads && !s.threads[t].handler.AtBarrier?;
      var step := Onward(t, s.threads[t].handler);
      CanMoveOn(s, t);
      StepKeepsInv(s, step);
      ThreadStepKeepsWakes(s, step);
      Moved(s, Apply(s, step), t, s.threads[t].handler);
      ThreadsCanArrive(Apply(s, step));
      CanStopAfter(s, step);
    }
  }

  /** Thread `t` alone moves, from `h` one place on. */
  ghost predicate Moves(s: State, s': State, t: nat, h: HandlerPc) {
    && t in s.threads && s.threads[t].handler == h && s'.threads.Keys == s.threads.Keys
    && (forall u :: u in s.threads && u != t ==> s'.threads[u] == s.threads[u])
    && s'.threads[t].handler == if h.Woken? then Out else if h.Out? then Entered else AtBarrier
  }

  lemma Moved(s: State, s': State, t: nat, h: HandlerPc)
    requires Moves(s, s', t, h) && (h.Woken? || h.Out? || h.Entered?)
    ensures |In(s', h)| < |In(s, h)|
    ensures h.Out? || h.Entered? ==> In(s', Woken) == In(s, Woken)
    ensures h.Entered? ==> In(s', Out) == In(s, Out)
  {
    assert In(s', h) == In(s, h) - {t};
    if h.Out? || h.Entered? { assert In(s', Woken) == In(s, Woken); }
    if h.Entered? { assert In(s', Out) == In(s, Out); }
  }

  /** A stop under way can be completed exactly when no thread is left in the handler of an earlier stop. */
  lemma StopCompletesIff(s: State)
    requires Inv(s) && WakesOk(s) && Signalling(s.g.svc)
    ensures CanStop(s) <==> NoneHeld(s)
  {
    if NoneHeld(s) {
      if s.g.svc.SSignal? { SignalsCanBeSent(s); } else { ThreadsCanArrive(s); }
    } else {
      var t :| t in s.threads && Held(s.threads[t].handler);
      forall steps | IsRun(s, steps) ensures !Final(s, steps).g.svc.SMark? { DoomedForever(s, t, steps); }
    }
  }

  /**
   In any run, when the next stop is about to clear the flag: it can be completed exactly
   when no thread is still past the barrier of the last one without having tested the flag.
   */
  lemma NextStopCompletesIff(s0: State, steps: seq<Step>)
    requires Init(s0) && IsRun(s0, steps) && Enabled(Final(s0, steps), ClearFlag)
    ensures var s := Final(s0, steps);
      CanStop(Apply(s, ClearFlag)) <==> forall t :: t in s.threads ==> !s.threads[t].handler.PastBarrier?
  {
    RunKeepsWakes(s0, steps);
    var s := Final(s0, steps);
    var s' := Apply(s, ClearFlag);
    StepKeepsInv(s, ClearFlag);
    OtherStepKeepsWakes(s, ClearFlag);
    StopCompletesIff(s');
    assert s'.threads == s.threads;
    forall t | t in s.threads ensures Held(s.threads[t].handler) <==> s.threads[t].handler.PastBarrier? { LateAtClear(s, t); }
  }

  lemma LateAtClear(s: State, t: nat)
    requires Inv(s) && WakesOk(s) && Enabled(s, ClearFlag) && t in s.threads
    ensures Held(s.threads[t].handler) <==> s.threads[t].handler.PastBarrier?
  {
    assert StopOk(s.g, t, s.threads[t]) && WakeOk(s.g, t, s.threads[t]);
  }
}
