/**
 How often one call of `gc_malloc` tries (gc.c): at most twice, and it returns NULL
 after the second failure only, in any interleaving.
 */
module Attempts {
  import opened Handshake

  /** Attempts still to come in the call a thread is in. */
  function Left(pc: MutatorPc): nat {
    match pc
    case User => 0
    case WantRead(retry) => if retry then 1 else 2
    case Allocating(retry) => if retry then 0 else 1
    case _ => 1
  }

  predicate InCall(s: State, t: nat) { t in s.threads && !s.threads[t].pc.User? }

  function LeftOf(s: State, t: nat): nat { if t in s.threads then Left(s.threads[t].pc) else 0 }

  function Tries(step: Step, t: nat): nat { if step == ReadLock(t) then 1 else 0 }

  /** An attempt begins with the read lock. */
  function Attempted(steps: seq<Step>, t: nat): nat {
    if steps == [] then 0 else Tries(steps[0], t) + Attempted(steps[1..], t)
  }

  /** Thread `t` starts no new call. */
  ghost predicate SameCall(steps: seq<Step>, t: nat) { forall i :: 0 <= i < |steps| ==> steps[i] != Call(t) }

  /** Only a new call adds attempts, and each attempt uses one up; while the call lasts nothing else does. */
  lemma ThreadStepUses(s: State, step: Step, t: nat)
    requires Enabled(s, step) && ByThread(step) && step != Call(t)
    ensures LeftOf(Apply(s, step), t) + Tries(step, t) <= LeftOf(s, t)
    ensures InCall(Apply(s, step), t) ==> InCall(s, t) && LeftOf(Apply(s, step), t) + Tries(step, t) == LeftOf(s, t)
  {
  }

  lemma OtherStepUses(s: State, step: Step, t: nat)
    requires Enabled(s, step) && !ByThread(step)
    ensures LeftOf(Apply(s, step), t) == LeftOf(s, t) && (InCall(Apply(s, step), t) <==> InCall(s, t))
  {
  }

  /** Over a run: never more attempts than were left, and exactly those used up while the call lasts. */
  lemma {:induction false} RunUses(s: State, steps: seq<Step>, t: nat)
    requires IsRun(s, steps) && SameCall(steps, t)
    ensures Attempted(steps, t) + LeftOf(Final(s, steps), t) <= LeftOf(s, t)
    ensures InCall(Final(s, steps), t) ==> InCall(s, t) && Attempted(steps, t) + LeftOf(Final(s, steps), t) == LeftOf(s, t)
    decreases |steps|
  {
    if steps != [] {
      if ByThread(steps[0]) { ThreadStepUses(s, steps[0], t); } else { OtherStepUses(s, steps[0], t); }
      forall i | 0 <= i < |steps[1..]| ensures steps[1..][i] != Call(t) { assert steps[i + 1] != Call(t); }
      RunUses(Apply(s, steps[0]), steps[1..], t);
    }
  }

  /** From one call of thread `t` to its next, it tries at most twice. */
  lemma TwoAttemptsAtMost(s: State, t: nat, steps: seq<Step>)
    requires Enabled(s, Call(t)) && IsRun(Apply(s, Call(t)), steps) && SameCall(steps, t)
    ensures Attempted(steps, t) <= 2
  {
    RunUses(Apply(s, Call(t)), steps, t);
  }

  /**
   Wherever an attempt of the call fails, it is the first or the second; the call
   returns (with NULL) exactly when it is the second, and otherwise goes on to ask
   for a collection.
   */
  lemma NullAfterTwoAttempts(s: State, t: nat, steps: seq<Step>)
    requires Enabled(s, Call(t)) && IsRun(Apply(s, Call(t)), steps) && SameCall(steps, t)
    requires Enabled(Final(Apply(s, Call(t)), steps), Fail(t))
    ensures var pc := Apply(Final(Apply(s, Call(t)), steps), Fail(t)).threads[t].pc;
      && (Attempted(steps, t) == 1 || Attempted(steps, t) == 2)
      && (pc.User? <==> Attempted(steps, t) == 2) && (pc.WantCall? <==> Attempted(steps, t) == 1)
  {
    RunUses(Apply(s, Call(t)), steps, t);
  }

  /** A successful attempt ends the call. */
  lemma SuccessReturns(s: State, t: nat, steps: seq<Step>)
    requires Enabled(s, Succeed(t)) && IsRun(Apply(s, Succeed(t)), steps) && SameCall(steps, t)
    ensures !InCall(Final(Apply(s, Succeed(t)), steps), t) && Attempted(steps, t) == 0
  {
    RunUses(Apply(s, Succeed(t)), steps, t);
  }

  /** So does a second failure: nothing of the call is left to run. */
  lemma SecondFailureReturns(s: State, t: nat, steps: seq<Step>)
    requires Enabled(s, Fail(t)) && s.threads[t].pc.retry
    requires IsRun(Apply(s, Fail(t)), steps) && SameCall(steps, t)
    ensures !InCall(Final(Apply(s, Fail(t)), steps), t) && Attempted(steps, t) == 0
  {
    RunUses(Apply(s, Fail(t)), steps, t);
  }
}
