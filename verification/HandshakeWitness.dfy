/**
 A run of two threads through one whole collection cycle and into the next, so that
 a stopped world, a retry and a stop that cannot be completed are states that are
 reached.  Thread 1 allocates once and is then held up in the handler of the first
 stop, past its barrier; thread 0 asks for both collections.
 */
module HandshakeWitness {
  import opened Handshake
  import opened StopProgress

  /** The steps lead from `s` to `s'`. */
  ghost predicate Goes(s: State, steps: seq<Step>, s': State) { IsRun(s, steps) && Final(s, steps) == s' }

  lemma Stays(s: State)
    ensures Goes(s, [], s)
  {
  }

  lemma Then(s: State, step: Step, steps: seq<Step>, s': State)
    requires Enabled(s, step) && Goes(Apply(s, step), steps, s')
    ensures Goes(s, [step] + steps, s')
  {
    assert ([step] + steps)[1..] == steps;
  }

  lemma {:induction false} GoesOn(s: State, a: seq<Step>, s1: State, b: seq<Step>, s2: State)
    requires Goes(s, a, s1) && Goes(s1, b, s2)
    ensures Goes(s, a + b, s2)
    decreases |a|
  {
    if a == [] {
      assert a + b == b;
    } else {
      GoesOn(Apply(s, a[0]), a[1..], s1, b, s2);
      assert (a + b)[0] == a[0] && (a + b)[1..] == a[1..] + b;
    }
  }

  lemma Once(s: State, a: Step, s': State)
    requires Enabled(s, a) && Apply(s, a) == s'
    ensures Goes(s, [a], s')
  {
    Stays(s');
    Then(s, a, [], s');
    assert [a] + [] == [a];
  }

  lemma Twice(s: State, a: Step, s1: State, b: Step, s2: State)
    requires Enabled(s, a) && Apply(s, a) == s1 && Enabled(s1, b) && Apply(s1, b) == s2
    ensures Goes(s, [a, b], s2)
  {
    Once(s1, b, s2);
    Then(s, a, [b], s2);
    assert [a] + [b] == [a, b];
  }

  lemma Thrice(s: State, a: Step, s1: State, b: Step, s2: State, c: Step, s3: State)
    requires Enabled(s, a) && Apply(s, a) == s1 && Enabled(s1, b) && Apply(s1, b) == s2
    requires Enabled(s2, c) && Apply(s2, c) == s3
    ensures Goes(s, [a, b, c], s3)
  {
    Twice(s1, b, s2, c, s3);
    Then(s, a, [b, c], s3);
    assert [a] + [b, c] == [a, b, c];
  }

  /** Threads 0 and 1. */
  function Two(g: Globals, m: Mutator, n: Mutator): State { State(g, map[0 := m, 1 := n]) }

  // ----- Stretches of the run -----

  const ALLOCATE := [Call(1), ReadLock(1), Succeed(1)]

  lemma Allocates(g: Globals, m: Mutator, n: Mutator)
    requires n.pc.User? && n.handler.Out? && !g.allocWriter
    ensures Goes(Two(g, m, n), ALLOCATE, Two(g, m, n.(cached := true)))
  {
    Thrice(Two(g, m, n), Call(1), Two(g, m, n.(pc := WantRead(false))), ReadLock(1),
           Two(g, m, n.(pc := Allocating(false))), Succeed(1), Two(g, m, n.(cached := true)));
  }

  const TRY := [Call(0), ReadLock(0)]

  lemma Tries(g: Globals, m: Mutator, n: Mutator)
    requires m.pc.User? && m.handler.Out? && !g.allocWriter
    ensures Goes(Two(g, m, n), TRY, Two(g, m.(pc := Allocating(false)), n))
  {
    Twice(Two(g, m, n), Call(0), Two(g, m.(pc := WantRead(false)), n), ReadLock(0), Two(g, m.(pc := Allocating(false)), n));
  }

  const FAIL := [Fail(0)]

  lemma Fails(g: Globals, m: Mutator, n: Mutator)
    requires m.pc == Allocating(false) && m.handler.Out?
    ensures Goes(Two(g, m, n), FAIL, Two(g, m.(pc := WantCall, failedAt := g.completed), n))
  {
    Once(Two(g, m, n), Fail(0), Two(g, m.(pc := WantCall, failedAt := g.completed), n));
  }

  const ASK := [LockCall(0), TestCalled(0)]

  lemma Asks(g: Globals, m: Mutator, n: Mutator)
    requires m.pc.WantCall? && m.handler.Out? && g.callLock.Free? && !g.isGcCalled
    ensures Goes(Two(g, m, n), ASK, Two(g.(callLock := Thread(0), isGcCalled := true), m.(pc := AtSignalBarrier), n))
  {
    Twice(Two(g, m, n), LockCall(0), Two(g.(callLock := Thread(0)), m.(pc := CallLocked), n),
          TestCalled(0), Two(g.(callLock := Thread(0), isGcCalled := true), m.(pc := AtSignalBarrier), n));
  }

  const MEET := [ServiceSpin, Rendezvous(0)]

  lemma Meets(g: Globals, m: Mutator, n: Mutator)
    requires g.svc.SWantSpin? && g.spin.Free? && m.pc.AtSignalBarrier?
    ensures Goes(Two(g, m, n), MEET, Two(g.(svc := SWantWrite, spin := Service), m.(pc := WantSpin), n))
  {
    Twice(Two(g, m, n), ServiceSpin, Two(g.(svc := SAtBarrier, spin := Service), m, n),
          Rendezvous(0), Two(g.(svc := SWantWrite, spin := Service), m.(pc := WantSpin), n));
  }

  const LOCK := [WriteLock, ServiceUnlockSpin]

  lemma Locks(g: Globals, m: Mutator, n: Mutator)
    requires g.svc.SWantWrite? && !m.pc.Allocating? && !n.pc.Allocating?
    ensures Goes(Two(g, m, n), LOCK, Two(g.(svc := SWantCreation, allocWriter := true, spin := Free), m, n))
  {
    Twice(Two(g, m, n), WriteLock, Two(g.(svc := SUnlockSpin, allocWriter := true), m, n),
          ServiceUnlockSpin, Two(g.(svc := SWantCreation, allocWriter := true, spin := Free), m, n));
  }

  const COUNT := [LockCreation, CountThreads]

  lemma Counts(g: Globals, m: Mutator, n: Mutator)
    requires g.svc.SWantCreation?
    ensures Goes(Two(g, m, n), COUNT, Two(g.(svc := SClearFlag, creationWriter := true, threadsStopped := 2), m, n))
  {
    assert Two(g, m, n).threads.Keys == {0, 1};
    Twice(Two(g, m, n), LockCreation, Two(g.(svc := SCount, creationWriter := true), m, n),
          CountThreads, Two(g.(svc := SClearFlag, creationWriter := true, threadsStopped := 2), m, n));
  }

  const CLEAR := [ClearFlag]

  lemma Clears(g: Globals, m: Mutator, n: Mutator)
    requires g.svc.SClearFlag? && g.worldLock.Free?
    ensures Goes(Two(g, m, n), CLEAR, Two(g.(svc := SSignal({0, 1}), isWorldStarted := false), m, n))
  {
    assert Two(g, m, n).threads.Keys == {0, 1};
    Once(Two(g, m, n), ClearFlag, Two(g.(svc := SSignal({0, 1}), isWorldStarted := false), m, n));
  }

  const SEND := [Signal(0), Signal(1), AllSignalled]

  lemma Sends(g: Globals, m: Mutator, n: Mutator)
    requires g.svc == SSignal({0, 1})
    ensures Goes(Two(g, m, n), SEND, Two(g.(svc := SWorldBarrier), m.(pending := true), n.(pending := true)))
  {
    assert {0, 1} - {0} == {1} && {1} - {1} == {};
    Thrice(Two(g, m, n), Signal(0), Two(g.(svc := SSignal({1})), m.(pending := true), n),
           Signal(1), Two(g.(svc := SSignal({})), m.(pending := true), n.(pending := true)),
           AllSignalled, Two(g.(svc := SWorldBarrier), m.(pending := true), n.(pending := true)));
  }

  const ENTER := [Deliver(0), Deliver(1)]

  lemma Enters(g: Globals, m: Mutator, n: Mutator)
    requires m.handler.Out? && n.handler.Out? && m.pending && n.pending
    ensures Goes(Two(g, m, n), ENTER, Two(g, m.(handler := Entered, pending := false), n.(handler := Entered, pending := false)))
  {
    Twice(Two(g, m, n), Deliver(0), Two(g, m.(handler := Entered, pending := false), n),
          Deliver(1), Two(g, m.(handler := Entered, pending := false), n.(handler := Entered, pending := false)));
  }

  const STOP := [Arrive(0), Arrive(1), WorldStopped]

  lemma Stops(g: Globals, m: Mutator, n: Mutator)
    requires m.handler.Entered? && n.handler.Entered? && g.svc.SWorldBarrier? && g.threadsStopped == 2
    ensures Goes(Two(g, m, n), STOP,
                 Two(g.(svc := SMark, begun := g.begun + 1),
                     m.(handler := PastBarrier, cached := false, passed := g.begun + 1),
                     n.(handler := PastBarrier, cached := false, passed := g.begun + 1)))
  {
    var s := Two(g, m.(handler := AtBarrier, cached := false), n.(handler := AtBarrier, cached := false));
    assert Arrived(s) == {0, 1};
    Thrice(Two(g, m, n), Arrive(0), Two(g, m.(handler := AtBarrier, cached := false), n), Arrive(1), s,
           WorldStopped, Two(g.(svc := SMark, begun := g.begun + 1),
                             m.(handler := PastBarrier, cached := false, passed := g.begun + 1),
                             n.(handler := PastBarrier, cached := false, passed := g.begun + 1)));
  }

  const SLEEP := [LockWorld(0), TestWorld(0)]

  lemma Sleeps(g: Globals, m: Mutator, n: Mutator)
    requires m.handler.PastBarrier? && g.worldLock.Free? && !g.isWorldStarted
    ensures Goes(Two(g, m, n), SLEEP, Two(g, m.(handler := Waiting), n))
  {
    Twice(Two(g, m, n), LockWorld(0), Two(g.(worldLock := Thread(0)), m.(handler := HasWorldLock), n),
          TestWorld(0), Two(g, m.(handler := Waiting), n));
  }

  const SWEEP := [MarkDone, SweepDone, SetFlag]

  lemma Sweeps(g: Globals, m: Mutator, n: Mutator)
    requires g.svc.SMark? && g.worldLock.Free?
    ensures Goes(Two(g, m, n), SWEEP, Two(g.(svc := SBroadcast, completed := g.completed + 1, isWorldStarted := true), m, n))
  {
    Thrice(Two(g, m, n), MarkDone, Two(g.(svc := SSweep), m, n),
           SweepDone, Two(g.(svc := SSetFlag, completed := g.completed + 1), m, n),
           SetFlag, Two(g.(svc := SBroadcast, completed := g.completed + 1, isWorldStarted := true), m, n));
  }

  const WAKE := [Broadcast, UnlockCreation]

  lemma Wakes(g: Globals, m: Mutator, n: Mutator)
    requires g.svc.SBroadcast? && m.handler.Waiting? && n.handler.PastBarrier?
    ensures Goes(Two(g, m, n), WAKE, Two(g.(svc := SWantCall, creationWriter := false), m.(handler := Woken), n))
  {
    Twice(Two(g, m, n), Broadcast, Two(g.(svc := SUnlockCreation), m.(handler := Woken), n),
          UnlockCreation, Two(g.(svc := SWantCall, creationWriter := false), m.(handler := Woken), n));
  }

  const LEAVE := [Leave(0)]

  lemma Leaves(g: Globals, m: Mutator, n: Mutator)
    requires m.handler.Woken? && g.worldLock.Free?
    ensures Goes(Two(g, m, n), LEAVE, Two(g, m.(handler := Out), n))
  {
    Once(Two(g, m, n), Leave(0), Two(g, m.(handler := Out), n));
  }

  const SPIN := [SpinLock(0), SpinUnlock(0)]

  lemma Spins(g: Globals, m: Mutator, n: Mutator)
    requires m.pc.WantSpin? && m.handler.Out? && g.spin.Free?
    ensures Goes(Two(g, m, n), SPIN, Two(g, m.(pc := Unlocking), n))
  {
    Twice(Two(g, m, n), SpinLock(0), Two(g.(spin := Thread(0)), m.(pc := HasSpin), n),
          SpinUnlock(0), Two(g, m.(pc := Unlocking), n));
  }

  const RELEASE := [UnlockCall(0)]

  lemma Releases(g: Globals, m: Mutator, n: Mutator)
    requires m.pc.Unlocking? && m.handler.Out?
    ensures Goes(Two(g, m, n), RELEASE, Two(g.(callLock := Free), m.(pc := WantRead(true)), n))
  {
    Once(Two(g, m, n), UnlockCall(0), Two(g.(callLock := Free), m.(pc := WantRead(true)), n));
  }

  const RESET := [ServiceLockCall, ResetCalled]

  lemma Resets(g: Globals, m: Mutator, n: Mutator)
    requires g.svc.SWantCall? && g.callLock.Free?
    ensures Goes(Two(g, m, n), RESET, Two(g.(svc := SUnlockCall, callLock := Service, isGcCalled := false), m, n))
  {
    Twice(Two(g, m, n), ServiceLockCall, Two(g.(svc := SHasCall, callLock := Service), m, n),
          ResetCalled, Two(g.(svc := SUnlockCall, callLock := Service, isGcCalled := false), m, n));
  }

  const OPEN := [ServiceUnlockCall, UnlockAllocation]

  lemma Opens(g: Globals, m: Mutator, n: Mutator)
    requires g.svc.SUnlockCall?
    ensures Goes(Two(g, m, n), OPEN, Two(g.(svc := SWantSpin, callLock := Free, allocWriter := false), m, n))
  {
    Twice(Two(g, m, n), ServiceUnlockCall, Two(g.(svc := SUnlockAlloc, callLock := Free), m, n),
          UnlockAllocation, Two(g.(svc := SWantSpin, callLock := Free, allocWriter := false), m, n));
  }

  const AGAIN := [ReadLock(0)]

  lemma TriesAgain(g: Globals, m: Mutator, n: Mutator)
    requires m.pc == WantRead(true) && m.handler.Out? && !g.allocWriter
    ensures Goes(Two(g, m, n), AGAIN, Two(g, m.(pc := Allocating(true)), n))
  {
    Once(Two(g, m, n), ReadLock(0), Two(g, m.(pc := Allocating(true)), n));
  }

  const GIVE_UP := [Fail(0)]

  lemma GivesUp(g: Globals, m: Mutator, n: Mutator)
    requires m.pc == Allocating(true) && m.handler.Out?
    ensures Goes(Two(g, m, n), GIVE_UP, Two(g, m.(pc := User), n))
  {
    Once(Two(g, m, n), Fail(0), Two(g, m.(pc := User), n));
  }

  // ----- The run -----

  const QUIET := Globals(SWantSpin, false, Free, Free, false, false, Free, false, 0, 0, 0)
  const NEW := Mutator(User, Out, false, false, 0, 0)
  const START := Two(QUIET, NEW, NEW)

  const REQUEST := TRY + FAIL + ASK + MEET + LOCK + COUNT + CLEAR

  /** From a failed first attempt to the signals of a stop. */
  lemma Requests(g: Globals, m: Mutator, n: Mutator)
    requires g.svc.SWantSpin? && !g.isGcCalled && g.callLock.Free? && g.spin.Free? && !g.allocWriter && g.worldLock.Free?
    requires m.pc.User? && m.handler.Out? && n.pc.User?
    ensures Goes(Two(g, m, n), REQUEST, Two(Requested(g), m.(pc := WantSpin, failedAt := g.completed), n))
  {
    var s := Two(g, m, n);
    var m1 := m.(pc := WantCall, failedAt := g.completed);
    var g2 := g.(callLock := Thread(0), isGcCalled := true);
    var (g3, m3) := (g2.(svc := SWantWrite, spin := Service), m1.(pc := WantSpin));
    var g4 := g3.(svc := SWantCreation, allocWriter := true, spin := Free);
    var g5 := g4.(svc := SClearFlag, creationWriter := true, threadsStopped := 2);
    Tries(g, m, n);
    Fails(g, m.(pc := Allocating(false)), n);
    Asks(g, m1, n);
    Meets(g2, m1.(pc := AtSignalBarrier), n);
    Locks(g3, m3, n);
    Counts(g4, m3, n);
    Clears(g5, m3, n);
    GoesOn(s, TRY, Two(g, m.(pc := Allocating(false)), n), FAIL, Two(g, m1, n));
    GoesOn(s, TRY + FAIL, Two(g, m1, n), ASK, Two(g2, m1.(pc := AtSignalBarrier), n));
    GoesOn(s, TRY + FAIL + ASK, Two(g2, m1.(pc := AtSignalBarrier), n), MEET, Two(g3, m3, n));
    GoesOn(s, TRY + FAIL + ASK + MEET, Two(g3, m3, n), LOCK, Two(g4, m3, n));
    GoesOn(s, TRY + FAIL + ASK + MEET + LOCK, Two(g4, m3, n), COUNT, Two(g5, m3, n));
    GoesOn(s, TRY + FAIL + ASK + MEET + LOCK + COUNT, Two(g5, m3, n), CLEAR, Two(Requested(g), m3, n));
  }

  /** The locks and counters when the signals go out. */
  function Requested(g: Globals): Globals {
    g.(svc := SSignal({0, 1}), isGcCalled := true, callLock := Thread(0), allocWriter := true, isWorldStarted := false,
       creationWriter := true, threadsStopped := 2)
  }

  const SIGNALLED := Requested(QUIET)
  const WAITS := NEW.(pc := WantSpin)
  /** Thread 1 from the first barrier on. */
  const LATE := NEW.(handler := PastBarrier, passed := 1)
  const MARKING := Two(SIGNALLED.(svc := SMark, begun := 1), WAITS.(handler := PastBarrier, passed := 1), LATE)

  const FILLED := NEW.(cached := true)
  const TO_SIGNAL := ALLOCATE + REQUEST
  const ARRIVE := SEND + ENTER + STOP
  const TO_MARK := TO_SIGNAL + ARRIVE

  lemma SignalIsReached()
    ensures Goes(START, TO_SIGNAL, Two(SIGNALLED, WAITS, FILLED))
  {
    Allocates(QUIET, NEW, NEW);
    Requests(QUIET, NEW, FILLED);
    GoesOn(START, ALLOCATE, Two(QUIET, NEW, FILLED), REQUEST, Two(SIGNALLED, WAITS, FILLED));
  }

  /** Both threads enter the handler and arrive; the cache of thread 1 is cleared. */
  lemma BothArrive()
    ensures Goes(Two(SIGNALLED, WAITS, FILLED), ARRIVE, MARKING)
  {
    var s := Two(SIGNALLED, WAITS, FILLED);
    var g := SIGNALLED.(svc := SWorldBarrier);
    Sends(SIGNALLED, WAITS, FILLED);
    Enters(g, WAITS.(pending := true), FILLED.(pending := true));
    Stops(g, WAITS.(handler := Entered), FILLED.(handler := Entered));
    GoesOn(s, SEND, Two(g, WAITS.(pending := true), FILLED.(pending := true)), ENTER,
           Two(g, WAITS.(handler := Entered), FILLED.(handler := Entered)));
    GoesOn(s, SEND + ENTER, Two(g, WAITS.(handler := Entered), FILLED.(handler := Entered)), STOP, MARKING);
  }

  /** A run from the start to the mark phase: what is proved of a stopped world is proved of something. */
  lemma StopIsReached()
    ensures Init(START) && Goes(START, TO_MARK, MARKING)
  {
    SignalIsReached();
    BothArrive();
    GoesOn(START, TO_SIGNAL, Two(SIGNALLED, WAITS, FILLED), ARRIVE, MARKING);
  }

  /** The world runs again and the request is reset. */
  const STARTED := SIGNALLED.(begun := 1, completed := 1, isWorldStarted := true)
  const DONE := STARTED.(svc := SWantSpin, isGcCalled := false, callLock := Free, allocWriter := false, creationWriter := false)
  const BACK := NEW.(pc := WantRead(true), passed := 1)
  const RETRYING := Two(DONE, BACK.(pc := Allocating(true)), LATE)

  const TO_WAKE := SLEEP + SWEEP + WAKE + LEAVE
  const TO_OPEN := SPIN + RELEASE + RESET + OPEN + AGAIN

  const RUNNING := STARTED.(svc := SWantCall, creationWriter := false)
  const OUT := WAITS.(passed := 1)

  /** From the mark phase on until thread 0 leaves the handler. */
  lemma Recovers()
    ensures Goes(MARKING, TO_WAKE, Two(RUNNING, OUT, LATE))
  {
    var g := MARKING.g;
    var g1 := STARTED.(svc := SBroadcast);
    Sleeps(g, OUT.(handler := PastBarrier), LATE);
    Sweeps(g, OUT.(handler := Waiting), LATE);
    Wakes(g1, OUT.(handler := Waiting), LATE);
    Leaves(RUNNING, OUT.(handler := Woken), LATE);
    GoesOn(MARKING, SLEEP, Two(g, OUT.(handler := Waiting), LATE), SWEEP, Two(g1, OUT.(handler := Waiting), LATE));
    GoesOn(MARKING, SLEEP + SWEEP, Two(g1, OUT.(handler := Waiting), LATE), WAKE, Two(RUNNING, OUT.(handler := Woken), LATE));
    GoesOn(MARKING, SLEEP + SWEEP + WAKE, Two(RUNNING, OUT.(handler := Woken), LATE), LEAVE, Two(RUNNING, OUT, LATE));
  }

  /** And on to the retry of the failed attempt. */
  lemma Reopens()
    ensures Goes(Two(RUNNING, OUT, LATE), TO_OPEN, RETRYING)
  {
    var s := Two(RUNNING, OUT, LATE);
    var g1 := RUNNING.(callLock := Free);
    var g2 := RUNNING.(svc := SUnlockCall, callLock := Service, isGcCalled := false);
    Spins(RUNNING, OUT, LATE);
    Releases(RUNNING, OUT.(pc := Unlocking), LATE);
    Resets(g1, BACK, LATE);
    Opens(g2, BACK, LATE);
    TriesAgain(DONE, BACK, LATE);
    GoesOn(s, SPIN, Two(RUNNING, OUT.(pc := Unlocking), LATE), RELEASE, Two(g1, BACK, LATE));
    GoesOn(s, SPIN + RELEASE, Two(g1, BACK, LATE), RESET, Two(g2, BACK, LATE));
    GoesOn(s, SPIN + RELEASE + RESET, Two(g2, BACK, LATE), OPEN, Two(DONE, BACK, LATE));
    GoesOn(s, SPIN + RELEASE + RESET + OPEN, Two(DONE, BACK, LATE), AGAIN, RETRYING);
  }

  const TO_RETRY := TO_MARK + TO_WAKE + TO_OPEN

  /** The run goes on to the retry of the failed attempt. */
  lemma RetryIsReached()
    ensures Init(START) && Goes(START, TO_RETRY, RETRYING)
  {
    StopIsReached();
    Recovers();
    Reopens();
    GoesOn(START, TO_MARK, MARKING, TO_WAKE, Two(RUNNING, OUT, LATE));
    GoesOn(START, TO_MARK + TO_WAKE, Two(RUNNING, OUT, LATE), TO_OPEN, RETRYING);
  }

  const STUCK := Two(Requested(DONE), OUT.(failedAt := 1), LATE)

  /** The retry fails and the next call of thread 0 starts a second stop. */
  lemma RequestsAgain()
    ensures Goes(RETRYING, GIVE_UP + REQUEST, STUCK)
  {
    GivesUp(DONE, BACK.(pc := Allocating(true)), LATE);
    Requests(DONE, BACK.(pc := User), LATE);
    GoesOn(RETRYING, GIVE_UP, Two(DONE, BACK.(pc := User), LATE), REQUEST, STUCK);
  }

  /**
   Meanwhile thread 1 is still where the first stop left it, so the second stop is
   never completed, whatever the threads do from then on.
   */
  lemma EndlessStopIsReached()
    ensures Init(START) && Goes(START, TO_RETRY + (GIVE_UP + REQUEST), STUCK)
    ensures Doomed(STUCK, 1) && !CanStop(STUCK)
  {
    RetryIsReached();
    RequestsAgain();
    GoesOn(START, TO_RETRY, RETRYING, GIVE_UP + REQUEST, STUCK);
    RunKeepsWakes(START, TO_RETRY + (GIVE_UP + REQUEST));
    StopCompletesIff(STUCK);
  }
}
