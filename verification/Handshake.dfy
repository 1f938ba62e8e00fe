/**
 The collection handshake and the stop-the-world protocol (gc_malloc in gc.c,
 mt-safety.c, stop-the-world.c, the allocation lock of allocator.c) as
 interleaved atomic steps of any number of mutator threads and the service
 thread.  A step is one lock or barrier operation or one test.

 Two things the code relies on are built into the steps: a wait on the condition
 variable ends only by the broadcast, and no thread exits during a stop.
 */
module Handshake {

  // ----- States -----

  /** Where a thread is in `gc_malloc` and `call_service_thread`. */
  datatype MutatorPc =
    | User
    | WantRead(retry: bool)     // before the read lock of an allocation attempt
    | Allocating(retry: bool)   // in `allocate_new_object`, read lock held
    | WantCall                  // the first attempt failed; before the call lock
    | CallLocked                // call lock held, before the test of `is_gc_called`
    | AtSignalBarrier           // `is_gc_called` set, waiting for the service thread
    | WantSpin                  // past the barrier, before the spinlock
    | HasSpin
    | Unlocking                 // about to release the call lock

  /** Where a thread is in the signal handler. */
  datatype HandlerPc =
    | Out
    | Entered        // before `clear_cache`
    | AtBarrier      // cache cleared, waiting at the stop barrier
    | PastBarrier    // before `is_world_started_lock`
    | HasWorldLock   // before the test of `is_world_started`
    | Waiting        // in `pthread_cond_wait`
    | Woken          // released by the broadcast, before taking the lock again

  /**
   A registered thread.  `cached` says its cache may hold blocks.  `failedAt` and
   `passed` record history: how many collections were complete when its last
   first attempt failed, and which collection's barrier it passed last.
   */
  datatype Mutator = Mutator(pc: MutatorPc, handler: HandlerPc, pending: bool, cached: bool, failedAt: nat, passed: nat)

  datatype ServicePc =
    | SWantSpin | SAtBarrier | SWantWrite | SUnlockSpin                       // the handshake
    | SWantCreation | SCount | SClearFlag | SSignal(todo: set<nat>) | SWorldBarrier   // stop_the_world
    | SMark | SSweep
    | SSetFlag | SBroadcast | SUnlockCreation                                 // start_the_world
    | SWantCall | SHasCall | SUnlockCall | SUnlockAlloc

  datatype Owner = Free | Service | Thread(t: nat)

  /** Locks, flags and counters.  `begun` and `completed` count mark phases begun and sweeps completed. */
  datatype Globals = Globals(
    svc: ServicePc, isGcCalled: bool, callLock: Owner, spin: Owner, allocWriter: bool,
    isWorldStarted: bool, worldLock: Owner, creationWriter: bool, threadsStopped: nat, begun: nat, completed: nat)

  datatype State = State(g: Globals, threads: map<nat, Mutator>)

  // ----- Phases of the service thread -----

  /** The service thread holds the allocation lock for writing. */
  predicate Writing(s: ServicePc) { !(s.SWantSpin? || s.SAtBarrier? || s.SWantWrite?) }

  predicate Collecting(s: ServicePc) { s.SMark? || s.SSweep? }

  /** The allocation lock is held and this cycle's sweep is not complete. */
  predicate BeforeDone(s: ServicePc) {
    s.SUnlockSpin? || s.SWantCreation? || s.SCount? || s.SClearFlag? || s.SSignal? || s.SWorldBarrier? || Collecting(s)
  }

  /** The sweep of this cycle is complete and the allocation lock is still held. */
  predicate AfterDone(s: ServicePc) { Writing(s) && !BeforeDone(s) }

  /** From the release of the spinlock to the last point before the call lock is taken. */
  predicate Released(s: ServicePc) {
    Writing(s) && !s.SUnlockSpin? && !s.SHasCall? && !s.SUnlockCall? && !s.SUnlockAlloc?
  }

  /** The creation lock is held for writing. */
  predicate Stopping(s: ServicePc) {
    s.SCount? || s.SClearFlag? || s.SSignal? || s.SWorldBarrier? || Collecting(s) || s.SSetFlag? || s.SBroadcast? || s.SUnlockCreation?
  }

  predicate Signalling(s: ServicePc) { s.SSignal? || s.SWorldBarrier? }

  // ----- Phases of a thread -----

  predicate HoldsCall(pc: MutatorPc) {
    pc.CallLocked? || pc.AtSignalBarrier? || pc.WantSpin? || pc.HasSpin? || pc.Unlocking?
  }

  /** Between the failed first attempt and the retry. */
  predicate Failed(pc: MutatorPc) { pc.WantCall? || HoldsCall(pc) || pc == WantRead(true) }

  /** In the handler, past a barrier and not released. */
  predicate Held(h: HandlerPc) { h.PastBarrier? || h.HasWorldLock? || h.Waiting? }

  // ----- The invariant -----

  ghost predicate GlobalsOk(g: Globals) {
    && (g.allocWriter <==> Writing(g.svc))
    && (g.creationWriter <==> Stopping(g.svc))
    && (g.spin == Service <==> g.svc.SAtBarrier? || g.svc.SWantWrite? || g.svc.SUnlockSpin?)
    && (g.callLock == Service <==> g.svc.SHasCall? || g.svc.SUnlockCall?)
    && g.worldLock != Service
    && g.begun == g.completed + (if Collecting(g.svc) then 1 else 0)
    && (Signalling(g.svc) || Collecting(g.svc) || g.svc.SSetFlag? ==> !g.isWorldStarted)
    && (g.svc.SWantWrite? || g.svc.SUnlockSpin? || Released(g.svc) || g.svc.SHasCall? ==> g.isGcCalled)
    && (g.svc.SUnlockCall? ==> !g.isGcCalled)
  }

  /** A lock owned by a thread is owned by a registered thread that is where it holds that lock. */
  ghost predicate OwnersOk(s: State) {
    && (s.g.callLock.Thread? ==> s.g.callLock.t in s.threads && HoldsCall(s.threads[s.g.callLock.t].pc))
    && (s.g.spin.Thread? ==> s.g.spin.t in s.threads && s.threads[s.g.spin.t].pc.HasSpin?)
    && (s.g.worldLock.Thread? ==> s.g.worldLock.t in s.threads && s.threads[s.g.worldLock.t].handler.HasWorldLock?)
    // while the service thread has the spinlock after the barrier, the initiator waits for it
    && (s.g.svc.SWantWrite? || s.g.svc.SUnlockSpin? ==>
          s.g.callLock.Thread? && s.threads[s.g.callLock.t].pc.WantSpin?)
    // a request nobody is serving yet is held by its initiator
    && (s.g.isGcCalled && (s.g.svc.SWantSpin? || s.g.svc.SAtBarrier? || s.g.svc.SUnlockAlloc?) ==>
          s.g.callLock.Thread? && s.threads[s.g.callLock.t].pc.AtSignalBarrier?)
  }

  /** The handshake, as one thread sees it. */
  ghost predicate CallOk(g: Globals, t: nat, m: Mutator) {
    && (HoldsCall(m.pc) ==> g.callLock == Thread(t))
    && (m.pc.HasSpin? ==> g.spin == Thread(t))
    && (m.pc.Allocating? ==> !g.allocWriter)
    && (m.pc.AtSignalBarrier? ==> g.isGcCalled && (g.svc.SWantSpin? || g.svc.SAtBarrier? || g.svc.SUnlockAlloc?))
    && (m.pc.WantSpin? ==> g.svc.SWantWrite? || g.svc.SUnlockSpin? || Released(g.svc))
    && (m.pc.HasSpin? ==> Released(g.svc))
    && (Failed(m.pc) ==> m.failedAt <= g.completed)
    && (Failed(m.pc) && AfterDone(g.svc) ==> m.failedAt < g.completed)
    && (m.pc.Unlocking? || m.pc == WantRead(true) ==> m.failedAt < g.completed || BeforeDone(g.svc))
    && (m.pc == Allocating(true) ==> m.failedAt < g.completed)
  }

  /** The stop of the world, as one thread sees it. */
  ghost predicate StopOk(g: Globals, t: nat, m: Mutator) {
    && (m.handler.HasWorldLock? ==> g.worldLock == Thread(t))
    && (m.pending || m.handler.Entered? || m.handler.AtBarrier? ==>
          Signalling(g.svc) && (g.svc.SSignal? ==> t !in g.svc.todo))
    && (m.handler.Entered? || m.handler.AtBarrier? ==> !m.pending)
    && (!m.handler.Out? && !m.handler.Entered? ==> !m.cached)
    && (Collecting(g.svc) || g.svc.SSetFlag? ==> Held(m.handler) && !m.pending && m.passed == g.begun)
  }

  ghost predicate Inv(s: State) {
    && GlobalsOk(s.g)
    && OwnersOk(s)
    && (forall t :: t in s.threads ==> CallOk(s.g, t, s.threads[t]))
    && (forall t :: t in s.threads ==> StopOk(s.g, t, s.threads[t]))
    && (s.g.svc.SSignal? ==> s.g.svc.todo <= s.threads.Keys)
    && (Signalling(s.g.svc) || s.g.svc.SClearFlag? ==> s.g.threadsStopped == |s.threads.Keys|)
  }

  // ----- Steps -----

  datatype Step =
    // gc_malloc and call_service_thread, by thread `t` outside the handler
    | Call(t: nat) | ReadLock(t: nat) | Succeed(t: nat) | Fail(t: nat)
    | LockCall(t: nat) | TestCalled(t: nat) | Rendezvous(t: nat) | SpinLock(t: nat) | SpinUnlock(t: nat) | UnlockCall(t: nat)
    // the signal handler
    | Deliver(t: nat) | Arrive(t: nat) | LockWorld(t: nat) | TestWorld(t: nat) | Leave(t: nat)
    // the service thread
    | ServiceSpin | WriteLock | ServiceUnlockSpin | LockCreation | CountThreads | ClearFlag | Signal(t: nat) | AllSignalled
    | WorldStopped | MarkDone | SweepDone | SetFlag | Broadcast | UnlockCreation
    | ServiceLockCall | ResetCalled | ServiceUnlockCall | UnlockAllocation
    // threads come and go
    | Spawn(t: nat) | Exit(t: nat)

  /** Thread `t` runs its own code. */
  predicate Runs(s: State, t: nat) { t in s.threads && s.threads[t].handler.Out? }

  /** The threads waiting at the stop barrier. */
  function Arrived(s: State): set<nat> { set t | t in s.threads && s.threads[t].handler.AtBarrier? }

  predicate Enabled(s: State, step: Step) {
    var g := s.g;
    match step
    case Call(t) => Runs(s, t) && s.threads[t].pc.User?
    case ReadLock(t) => Runs(s, t) && s.threads[t].pc.WantRead? && !g.allocWriter
    case Succeed(t) => Runs(s, t) && s.threads[t].pc.Allocating?
    case Fail(t) => Runs(s, t) && s.threads[t].pc.Allocating?
    case LockCall(t) => Runs(s, t) && s.threads[t].pc.WantCall? && g.callLock.Free?
    case TestCalled(t) => Runs(s, t) && s.threads[t].pc.CallLocked?
    case Rendezvous(t) => t in s.threads && s.threads[t].pc.AtSignalBarrier? && g.svc.SAtBarrier?
    case SpinLock(t) => Runs(s, t) && s.threads[t].pc.WantSpin? && g.spin.Free?
    case SpinUnlock(t) => Runs(s, t) && s.threads[t].pc.HasSpin?
    case UnlockCall(t) => Runs(s, t) && s.threads[t].pc.Unlocking?
    case Deliver(t) => Runs(s, t) && s.threads[t].pending
    case Arrive(t) => t in s.threads && s.threads[t].handler.Entered?
    case LockWorld(t) => t in s.threads && s.threads[t].handler.PastBarrier? && g.worldLock.Free?
    case TestWorld(t) => t in s.threads && s.threads[t].handler.HasWorldLock?
    case Leave(t) => t in s.threads && s.threads[t].handler.Woken? && g.worldLock.Free?
    case ServiceSpin => g.svc.SWantSpin? && g.spin.Free?
    case WriteLock => g.svc.SWantWrite? && forall t :: t in s.threads ==> !s.threads[t].pc.Allocating?
    case ServiceUnlockSpin => g.svc.SUnlockSpin?
    case LockCreation => g.svc.SWantCreation?
    case CountThreads => g.svc.SCount?
    case ClearFlag => g.svc.SClearFlag? && g.worldLock.Free?
    case Signal(t) => g.svc.SSignal? && t in g.svc.todo && t in s.threads
    case AllSignalled => g.svc.SSignal? && g.svc.todo == {}
    case WorldStopped => g.svc.SWorldBarrier? && |Arrived(s)| + 1 == g.threadsStopped + 1
    case MarkDone => g.svc.SMark?
    case SweepDone => g.svc.SSweep?
    case SetFlag => g.svc.SSetFlag? && g.worldLock.Free?
    case Broadcast => g.svc.SBroadcast?
    case UnlockCreation => g.svc.SUnlockCreation?
    case ServiceLockCall => g.svc.SWantCall? && g.callLock.Free?
    case ResetCalled => g.svc.SHasCall?
    case ServiceUnlockCall => g.svc.SUnlockCall?
    case UnlockAllocation => g.svc.SUnlockAlloc?
    case Spawn(t) => t !in s.threads && !g.creationWriter
    case Exit(t) => Runs(s, t) && s.threads[t].pc.User? && !g.creationWriter && !s.threads[t].pending
  }

  function SetPc(s: State, t: nat, pc: MutatorPc): State
    requires t in s.threads
  {
    s.(threads := s.threads[t := s.threads[t].(pc := pc)])
  }

  function SetHandler(s: State, t: nat, h: HandlerPc): State
    requires t in s.threads
  {
    s.(threads := s.threads[t := s.threads[t].(handler := h)])
  }

  function SetSvc(s: State, svc: ServicePc): State { s.(g := s.g.(svc := svc)) }

  function Apply(s: State, step: Step): State
    requires Enabled(s, step)
  {
    var g := s.g;
    match step
    case Call(t) => SetPc(s, t, WantRead(false))
    case ReadLock(t) => SetPc(s, t, Allocating(s.threads[t].pc.retry))
    case Succeed(t) => s.(threads := s.threads[t := s.threads[t].(pc := User, cached := true)])
    case Fail(t) =>
      if s.threads[t].pc.retry then SetPc(s, t, User)
      else s.(threads := s.threads[t := s.threads[t].(pc := WantCall, failedAt := g.completed)])
    case LockCall(t) => SetPc(s.(g := g.(callLock := Thread(t))), t, CallLocked)
    case TestCalled(t) =>
      if g.isGcCalled then SetPc(s, t, Unlocking)
      else SetPc(s.(g := g.(isGcCalled := true)), t, AtSignalBarrier)
    case Rendezvous(t) => SetPc(SetSvc(s, SWantWrite), t, WantSpin)
    case SpinLock(t) => SetPc(s.(g := g.(spin := Thread(t))), t, HasSpin)
    case SpinUnlock(t) => SetPc(s.(g := g.(spin := Free)), t, Unlocking)
    case UnlockCall(t) => SetPc(s.(g := g.(callLock := Free)), t, WantRead(true))
    case Deliver(t) => s.(threads := s.threads[t := s.threads[t].(handler := Entered, pending := false)])
    case Arrive(t) => s.(threads := s.threads[t := s.threads[t].(handler := AtBarrier, cached := false)])
    case LockWorld(t) => SetHandler(s.(g := g.(worldLock := Thread(t))), t, HasWorldLock)
    case TestWorld(t) => SetHandler(s.(g := g.(worldLock := Free)), t, if g.isWorldStarted then Out else Waiting)
    case Leave(t) => SetHandler(s, t, Out)
    case ServiceSpin => s.(g := g.(svc := SAtBarrier, spin := Service))
    case WriteLock => s.(g := g.(svc := SUnlockSpin, allocWriter := true))
    case ServiceUnlockSpin => s.(g := g.(svc := SWantCreation, spin := Free))
    case LockCreation => s.(g := g.(svc := SCount, creationWriter := true))
    case CountThreads => s.(g := g.(svc := SClearFlag, threadsStopped := |s.threads.Keys|))
    case ClearFlag => s.(g := g.(svc := SSignal(s.threads.Keys), isWorldStarted := false))
    case Signal(t) =>
      State(g.(svc := SSignal(g.svc.todo - {t})), s.threads[t := s.threads[t].(pending := true)])
    case AllSignalled => SetSvc(s, SWorldBarrier)
    case WorldStopped =>
      State(g.(svc := SMark, begun := g.begun + 1),
            map t | t in s.threads :: if s.threads[t].handler.AtBarrier?
              then s.threads[t].(handler := PastBarrier, passed := g.begun + 1) else s.threads[t])
    case MarkDone => SetSvc(s, SSweep)
    case SweepDone => s.(g := g.(svc := SSetFlag, completed := g.completed + 1))
    case SetFlag => s.(g := g.(svc := SBroadcast, isWorldStarted := true))
    case Broadcast =>
      State(g.(svc := SUnlockCreation),
            map t | t in s.threads :: if s.threads[t].handler.Waiting? then s.threads[t].(handler := Woken) else s.threads[t])
    case UnlockCreation => s.(g := g.(svc := SWantCall, creationWriter := false))
    case ServiceLockCall => s.(g := g.(svc := SHasCall, callLock := Service))
    case ResetCalled => s.(g := g.(svc := SUnlockCall, isGcCalled := false))
    case ServiceUnlockCall => s.(g := g.(svc := SUnlockAlloc, callLock := Free))
    case UnlockAllocation => s.(g := g.(svc := SWantSpin, allocWriter := false))
    case Spawn(t) => s.(threads := s.threads[t := Mutator(User, Out, false, false, 0, 0)])
    case Exit(t) => s.(threads := s.threads - {t})
  }

  // ----- Every step keeps the invariant -----

  // An allocation attempt, by thread `t`.

  lemma CallKeeps(s: State, t: nat)
    requires Inv(s) && Enabled(s, Call(t))
    ensures Inv(Apply(s, Call(t)))
  {
  }

  lemma ReadLockKeeps(s: State, t: nat)
    requires Inv(s) && Enabled(s, ReadLock(t))
    ensures Inv(Apply(s, ReadLock(t)))
  {
  }

  lemma SucceedKeeps(s: State, t: nat)
    requires Inv(s) && Enabled(s, Succeed(t))
    ensures Inv(Apply(s, Succeed(t)))
  {
  }

  lemma FailKeeps(s: State, t: nat)
    requires Inv(s) && Enabled(s, Fail(t))
    ensures Inv(Apply(s, Fail(t)))
  {
  }

  // The request for a collection.

  lemma LockCallKeeps(s: State, t: nat)
    requires Inv(s) && Enabled(s, LockCall(t))
    ensures Inv(Apply(s, LockCall(t)))
  {
  }

  lemma TestCalledKeeps(s: State, t: nat)
    requires Inv(s) && Enabled(s, TestCalled(t))
    ensures Inv(Apply(s, TestCalled(t)))
  {
  }

  lemma UnlockCallKeeps(s: State, t: nat)
    requires Inv(s) && Enabled(s, UnlockCall(t))
    ensures Inv(Apply(s, UnlockCall(t)))
  {
  }

  // The barrier of the initiator and the service thread, and the spinlock between them.

  lemma RendezvousKeeps(s: State, t: nat)
    requires Inv(s) && Enabled(s, Rendezvous(t))
    ensures Inv(Apply(s, Rendezvous(t)))
  {
  }

  lemma SpinLockKeeps(s: State, t: nat)
    requires Inv(s) && Enabled(s, SpinLock(t))
    ensures Inv(Apply(s, SpinLock(t)))
  {
  }

  lemma SpinUnlockKeeps(s: State, t: nat)
    requires Inv(s) && Enabled(s, SpinUnlock(t))
    ensures Inv(Apply(s, SpinUnlock(t)))
  {
  }

  // The signal handler.

  lemma DeliverKeeps(s: State, t: nat)
    requires Inv(s) && Enabled(s, Deliver(t))
    ensures Inv(Apply(s, Deliver(t)))
  {
  }

  lemma ArriveKeeps(s: State, t: nat)
    requires Inv(s) && Enabled(s, Arrive(t))
    ensures Inv(Apply(s, Arrive(t)))
  {
  }

  lemma LockWorldKeeps(s: State, t: nat)
    requires Inv(s) && Enabled(s, LockWorld(t))
    ensures Inv(Apply(s, LockWorld(t)))
  {
    var s' := Apply(s, LockWorld(t));
    forall u | u in s'.threads ensures CallOk(s'.g, u, s'.threads[u]) { assert CallOk(s.g, u, s.threads[u]); }
    forall u | u in s'.threads ensures StopOk(s'.g, u, s'.threads[u]) { assert StopOk(s.g, u, s.threads[u]) && StopOk(s.g, t, s.threads[t]); }
  }

  lemma TestWorldKeeps(s: State, t: nat)
    requires Inv(s) && Enabled(s, TestWorld(t))
    ensures Inv(Apply(s, TestWorld(t)))
  {
    var s' := Apply(s, TestWorld(t));
    forall u | u in s'.threads ensures CallOk(s'.g, u, s'.threads[u]) { assert CallOk(s.g, u, s.threads[u]); }
    forall u | u in s'.threads ensures StopOk(s'.g, u, s'.threads[u]) { assert StopOk(s.g, u, s.threads[u]) && StopOk(s.g, t, s.threads[t]); }
  }

  lemma LeaveKeeps(s: State, t: nat)
    requires Inv(s) && Enabled(s, Leave(t))
    ensures Inv(Apply(s, Leave(t)))
  {
  }

  // The service thread.

  lemma ServiceSpinKeeps(s: State)
    requires Inv(s) && Enabled(s, ServiceSpin)
    ensures Inv(Apply(s, ServiceSpin))
  {
  }

  lemma WriteLockKeeps(s: State)
    requires Inv(s) && Enabled(s, WriteLock)
    ensures Inv(Apply(s, WriteLock))
  {
  }

  lemma ServiceUnlockSpinKeeps(s: State)
    requires Inv(s) && Enabled(s, ServiceUnlockSpin)
    ensures Inv(Apply(s, ServiceUnlockSpin))
  {
  }

  lemma LockCreationKeeps(s: State)
    requires Inv(s) && Enabled(s, LockCreation)
    ensures Inv(Apply(s, LockCreation))
  {
  }

  lemma CountThreadsKeeps(s: State)
    requires Inv(s) && Enabled(s, CountThreads)
    ensures Inv(Apply(s, CountThreads))
  {
  }

  lemma ClearFlagKeeps(s: State)
    requires Inv(s) && Enabled(s, ClearFlag)
    ensures Inv(Apply(s, ClearFlag))
  {
  }

  lemma SignalKeeps(s: State, t: nat)
    requires Inv(s) && Enabled(s, Signal(t))
    ensures Inv(Apply(s, Signal(t)))
  {
  }

  lemma AllSignalledKeeps(s: State)
    requires Inv(s) && Enabled(s, AllSignalled)
    ensures Inv(Apply(s, AllSignalled))
  {
  }

  lemma MarkDoneKeeps(s: State)
    requires Inv(s) && Enabled(s, MarkDone)
    ensures Inv(Apply(s, MarkDone))
  {
  }

  lemma SweepDoneKeeps(s: State)
    requires Inv(s) && Enabled(s, SweepDone)
    ensures Inv(Apply(s, SweepDone))
  {
  }

  lemma SetFlagKeeps(s: State)
    requires Inv(s) && Enabled(s, SetFlag)
    ensures Inv(Apply(s, SetFlag))
  {
  }

  lemma BroadcastKeeps(s: State)
    requires Inv(s) && Enabled(s, Broadcast)
    ensures Inv(Apply(s, Broadcast))
  {
    var s' := Apply(s, Broadcast);
    forall u | u in s'.threads ensures CallOk(s'.g, u, s'.threads[u]) { assert CallOk(s.g, u, s.threads[u]); }
    forall u | u in s'.threads ensures StopOk(s'.g, u, s'.threads[u]) { assert StopOk(s.g, u, s.threads[u]); }
  }

  lemma UnlockCreationKeeps(s: State)
    requires Inv(s) && Enabled(s, UnlockCreation)
    ensures Inv(Apply(s, UnlockCreation))
  {
  }

  lemma ServiceLockCallKeeps(s: State)
    requires Inv(s) && Enabled(s, ServiceLockCall)
    ensures Inv(Apply(s, ServiceLockCall))
  {
  }

  lemma ResetCalledKeeps(s: State)
    requires Inv(s) && Enabled(s, ResetCalled)
    ensures Inv(Apply(s, ResetCalled))
  {
  }

  lemma ServiceUnlockCallKeeps(s: State)
    requires Inv(s) && Enabled(s, ServiceUnlockCall)
    ensures Inv(Apply(s, ServiceUnlockCall))
  {
  }

  lemma UnlockAllocationKeeps(s: State)
    requires Inv(s) && Enabled(s, UnlockAllocation)
    ensures Inv(Apply(s, UnlockAllocation))
  {
  }

  // Threads come and go.

  lemma SpawnKeeps(s: State, t: nat)
    requires Inv(s) && Enabled(s, Spawn(t))
    ensures Inv(Apply(s, Spawn(t)))
  {
  }

  lemma ExitKeeps(s: State, t: nat)
    requires Inv(s) && Enabled(s, Exit(t))
    ensures Inv(Apply(s, Exit(t)))
  {
  }

  /** The barrier opens only when every registered thread has arrived. */
  lemma WorldStoppedKeeps(s: State)
    requires Inv(s) && Enabled(s, WorldStopped)
    ensures Inv(Apply(s, WorldStopped))
  {
    SameSize(Arrived(s), s.threads.Keys);
    var s' := Apply(s, WorldStopped);
    forall u | u in s'.threads ensures CallOk(s'.g, u, s'.threads[u]) { assert CallOk(s.g, u, s.threads[u]); }
    forall u | u in s'.threads ensures StopOk(s'.g, u, s'.threads[u]) {
      assert u in Arrived(s) && StopOk(s.g, u, s.threads[u]);
    }
  }

  lemma SameSize(a: set<nat>, b: set<nat>)
    requires a <= b && |a| == |b|
    ensures a == b
  {
    assert b == a + (b - a);
  }

  predicate ByThread(step: Step) {
    step.Call? || step.ReadLock? || step.Succeed? || step.Fail? || step.LockCall? || step.TestCalled? || step.UnlockCall? || step.Rendezvous?
    || step.SpinLock? || step.SpinUnlock? || step.Deliver? || step.Arrive? || step.LockWorld? || step.TestWorld? || step.Leave?
  }

  predicate InHandler(step: Step) { step.Deliver? || step.Arrive? || step.LockWorld? || step.TestWorld? || step.Leave? }

  predicate UpToStop(step: Step) {
    step.ServiceSpin? || step.WriteLock? || step.ServiceUnlockSpin? || step.LockCreation? || step.CountThreads? || step.ClearFlag? || step.Signal? || step.AllSignalled? || step.WorldStopped?
  }

  /** A thread in its own code. */
  lemma CallStepKeepsInv(s: State, step: Step)
    requires Inv(s) && Enabled(s, step) && (ByThread(step) && !InHandler(step))
    ensures Inv(Apply(s, step))
  {
    match step
    case Call(t) => CallKeeps(s, t);
    case ReadLock(t) => ReadLockKeeps(s, t);
    case Succeed(t) => SucceedKeeps(s, t);
    case Fail(t) => FailKeeps(s, t);
    case LockCall(t) => LockCallKeeps(s, t);
    case TestCalled(t) => TestCalledKeeps(s, t);
    case UnlockCall(t) => UnlockCallKeeps(s, t);
    case Rendezvous(t) => RendezvousKeeps(s, t);
    case SpinLock(t) => SpinLockKeeps(s, t);
    case SpinUnlock(t) => SpinUnlockKeeps(s, t);
    case _ =>
  }

  /** A thread in the handler. */
  lemma HandlerStepKeepsInv(s: State, step: Step)
    requires Inv(s) && Enabled(s, step) && (InHandler(step))
    ensures Inv(Apply(s, step))
  {
    match step
    case Deliver(t) => DeliverKeeps(s, t);
    case Arrive(t) => ArriveKeeps(s, t);
    case LockWorld(t) => LockWorldKeeps(s, t);
    case TestWorld(t) => TestWorldKeeps(s, t);
    case Leave(t) => LeaveKeeps(s, t);
    case _ =>
  }

  /** The service thread up to the stop. */
  lemma StopStepKeepsInv(s: State, step: Step)
    requires Inv(s) && Enabled(s, step) && (UpToStop(step))
    ensures Inv(Apply(s, step))
  {
    match step
    case ServiceSpin => ServiceSpinKeeps(s);
    case WriteLock => WriteLockKeeps(s);
    case ServiceUnlockSpin => ServiceUnlockSpinKeeps(s);
    case LockCreation => LockCreationKeeps(s);
    case CountThreads => CountThreadsKeeps(s);
    case ClearFlag => ClearFlagKeeps(s);
    case Signal(t) => SignalKeeps(s, t);
    case AllSignalled => AllSignalledKeeps(s);
    case WorldStopped => WorldStoppedKeeps(s);
    case _ =>
  }

  /** The service thread from there on, and threads that come and go. */
  lemma StartStepKeepsInv(s: State, step: Step)
    requires Inv(s) && Enabled(s, step) && (!ByThread(step) && !UpToStop(step))
    ensures Inv(Apply(s, step))
  {
    match step
    case MarkDone => MarkDoneKeeps(s);
    case SweepDone => SweepDoneKeeps(s);
    case SetFlag => SetFlagKeeps(s);
    case Broadcast => BroadcastKeeps(s);
    case UnlockCreation => UnlockCreationKeeps(s);
    case ServiceLockCall => ServiceLockCallKeeps(s);
    case ResetCalled => ResetCalledKeeps(s);
    case ServiceUnlockCall => ServiceUnlockCallKeeps(s);
    case UnlockAllocation => UnlockAllocationKeeps(s);
    case Spawn(t) => SpawnKeeps(s, t);
    case Exit(t) => ExitKeeps(s, t);
    case _ =>
  }

  lemma StepKeepsInv(s: State, step: Step)
    requires Inv(s) && Enabled(s, step)
    ensures Inv(Apply(s, step))
  {
    if InHandler(step) { HandlerStepKeepsInv(s, step); }
    else if ByThread(step) { CallStepKeepsInv(s, step); }
    else if UpToStop(step) { StopStepKeepsInv(s, step); }
    else { StartStepKeepsInv(s, step); }
  }

  // ----- Runs -----

  predicate IsRun(s: State, steps: seq<Step>)
    decreases |steps|
  {
    steps == [] || (Enabled(s, steps[0]) && IsRun(Apply(s, steps[0]), steps[1..]))
  }

  function Final(s: State, steps: seq<Step>): State
    requires IsRun(s, steps)
    decreases |steps|
  {
    if steps == [] then s else Final(Apply(s, steps[0]), steps[1..])
  }

  /** Before the service thread's first step: any registered threads, all running their own code. */
  ghost predicate Init(s: State) {
    && s.g == Globals(SWantSpin, false, Free, Free, false, false, Free, false, 0, 0, 0)
    && (forall t :: t in s.threads ==> s.threads[t] == Mutator(User, Out, false, false, 0, 0))
  }

  lemma {:induction false} RunKeepsInv(s: State, steps: seq<Step>)
    requires Inv(s) && IsRun(s, steps)
    ensures Inv(Final(s, steps))
    decreases |steps|
  {
    if steps != [] {
      StepKeepsInv(s, steps[0]);
      RunKeepsInv(Apply(s, steps[0]), steps[1..]);
    }
  }

  // ----- The world is stopped -----

  /**
   Whenever the service thread marks or sweeps, in any run of any number of
   threads, every registered thread is inside the handler, past the barrier of
   this very collection and not released, its cache is empty, and no thread is in
   the allocator.
   */
  lemma WorldIsStopped(s0: State, steps: seq<Step>, t: nat)
    requires Init(s0) && IsRun(s0, steps)
    requires var s := Final(s0, steps); Collecting(s.g.svc) && t in s.threads
    ensures var s := Final(s0, steps); var m := s.threads[t];
      && Held(m.handler) && m.passed == s.g.begun && !m.pending && !m.cached
      && !m.pc.Allocating? && !Runs(s, t)
  {
    RunKeepsInv(s0, steps);
    var s := Final(s0, steps);
    assert CallOk(s.g, t, s.threads[t]) && StopOk(s.g, t, s.threads[t]);
  }

  lemma HeldAtStop(s: State, t: nat)
    requires Inv(s) && Collecting(s.g.svc) && t in s.threads
    ensures Held(s.threads[t].handler) && !s.threads[t].pending
  {
    assert StopOk(s.g, t, s.threads[t]);
  }

  lemma ThreadsOfAStop(s: State, step: Step)
    requires Inv(s) && Collecting(s.g.svc) && Enabled(s, step) && ByThread(step)
    ensures step.LockWorld? || step.TestWorld?
  {
    HeldAtStop(s, step.t);
  }

  /** A step taken while the service thread marks or sweeps is its own, or a handler going to wait. */
  lemma StepsOfAStop(s: State, step: Step)
    requires Inv(s) && Collecting(s.g.svc) && Enabled(s, step)
    ensures step.MarkDone? || step.SweepDone? || step.LockWorld? || step.TestWorld?
  {
    if ByThread(step) { ThreadsOfAStop(s, step); }
  }

  /** No thread comes or goes meanwhile. */
  lemma ThreadsFixed(s: State, step: Step)
    requires Inv(s) && Collecting(s.g.svc) && Enabled(s, step)
    ensures Apply(s, step).threads.Keys == s.threads.Keys
  {
    StepsOfAStop(s, step);
  }

  // ----- Every retry follows a collection -----

  /** The failed attempt itself overlaps no collection. */
  lemma FailOutsideCollection(s: State, t: nat)
    requires Inv(s) && Enabled(s, Fail(t))
    ensures !Collecting(s.g.svc) && s.g.begun == s.g.completed
  {
    assert CallOk(s.g, t, s.threads[t]);
  }

  /** Collections are counted one by one, and thread `t` remembers when it failed: steps of threads. */
  lemma ThreadStepCounts(s: State, step: Step, t: nat)
    requires Enabled(s, step) && ByThread(step) && t in s.threads && step != Fail(t)
    ensures t in Apply(s, step).threads && Apply(s, step).threads[t].failedAt == s.threads[t].failedAt
    ensures Apply(s, step).g.completed == s.g.completed
    ensures Collecting(Apply(s, step).g.svc) ==> Collecting(s.g.svc)
  {
  }

  /** Collections are counted one by one, and thread `t` remembers when it failed: the other steps. */
  lemma OtherStepCounts(s: State, step: Step, t: nat)
    requires Enabled(s, step) && !ByThread(step) && t in s.threads && step != Exit(t)
    ensures t in Apply(s, step).threads && Apply(s, step).threads[t].failedAt == s.threads[t].failedAt
    ensures Apply(s, step).g.completed == s.g.completed + (if step.SweepDone? then 1 else 0)
    ensures Collecting(Apply(s, step).g.svc) ==> Collecting(s.g.svc) || step.WorldStopped?
  {
  }

  /** Thread `t` neither fails again nor exits during the steps. */
  ghost predicate Undisturbed(steps: seq<Step>, t: nat) {
    forall i :: 0 <= i < |steps| ==> steps[i] != Fail(t) && steps[i] != Exit(t)
  }

  ghost predicate MarkThenSweep(steps: seq<Step>) {
    exists i, j :: 0 <= i < j < |steps| && steps[i].WorldStopped? && steps[j].SweepDone?
  }

  lemma {:induction false} CountRises(s: State, steps: seq<Step>, t: nat)
    requires Inv(s) && IsRun(s, steps) && t in s.threads && Undisturbed(steps, t)
    ensures t in Final(s, steps).threads && Final(s, steps).threads[t].failedAt == s.threads[t].failedAt
    ensures Final(s, steps).g.completed > s.g.completed ==> exists j :: 0 <= j < |steps| && steps[j].SweepDone?
    ensures Final(s, steps).g.completed > s.g.completed && !Collecting(s.g.svc) ==> MarkThenSweep(steps)
    decreases |steps|
  {
    if steps != [] {
      var (step, rest, s') := (steps[0], steps[1..], Apply(s, steps[0]));
      StepKeepsInv(s, step);
      if ByThread(step) { ThreadStepCounts(s, step, t); } else { OtherStepCounts(s, step, t); }
      forall i | 0 <= i < |rest| ensures rest[i] != Fail(t) && rest[i] != Exit(t) { assert rest[i] == steps[i + 1]; }
      CountRises(s', rest, t);
      Shift(step, rest, Final(s, steps).g.completed > s'.g.completed, Collecting(s'.g.svc));
    }
  }

  lemma Shift(step: Step, rest: seq<Step>, rises: bool, collecting: bool)
    requires rises ==> exists j :: 0 <= j < |rest| && rest[j].SweepDone?
    requires rises && !collecting ==> MarkThenSweep(rest)
    ensures rises ==> exists j :: 0 <= j < |[step] + rest| && ([step] + rest)[j].SweepDone?
    ensures rises && (!collecting || step.WorldStopped?) ==> MarkThenSweep([step] + rest)
  {
    var steps := [step] + rest;
    if rises {
      var j :| 0 <= j < |rest| && rest[j].SweepDone?;
      assert steps[j + 1].SweepDone?;
      if step.WorldStopped? {
        assert steps[0].WorldStopped? && 0 < j + 1;
      } else if !collecting {
        var a, b :| 0 <= a < b < |rest| && rest[a].WorldStopped? && rest[b].SweepDone?;
        assert steps[a + 1].WorldStopped? && steps[b + 1].SweepDone?;
      }
    }
  }

  /**
   From a failed first attempt to the retry of the same call, in any interleaving:
   a mark phase begins and then a sweep is completed, whether the thread started
   the collection or found one running.
   */
  lemma RetryFollowsCollection(s: State, t: nat, steps: seq<Step>)
    requires Inv(s) && Enabled(s, Fail(t)) && !s.threads[t].pc.retry
    requires IsRun(Apply(s, Fail(t)), steps) && Undisturbed(steps, t)
    requires var s' := Final(Apply(s, Fail(t)), steps); t in s'.threads && s'.threads[t].pc == Allocating(true)
    ensures MarkThenSweep(steps)
  {
    var s1 := Apply(s, Fail(t));
    FailOutsideCollection(s, t);
    StepKeepsInv(s, Fail(t));
    CountRises(s1, steps, t);
    RunKeepsInv(s1, steps);
    var s2 := Final(s1, steps);
    assert CallOk(s2.g, t, s2.threads[t]);
  }

  /** A request whose initiator no longer waits for the service thread is one being served: allocation is locked. */
  lemma CalledMeansLocked(s: State)
    requires Inv(s) && s.g.isGcCalled
    requires s.g.callLock.Thread? ==>
      !s.threads[s.g.callLock.t].pc.AtSignalBarrier? && !s.threads[s.g.callLock.t].pc.WantSpin?
    ensures s.g.allocWriter
    ensures forall t :: t in s.threads ==> !s.threads[t].pc.Allocating?
  {
    forall t | t in s.threads ensures s.g.allocWriter ==> !s.threads[t].pc.Allocating? {
      assert CallOk(s.g, t, s.threads[t]);
    }
  }

  /** The 2-party barrier never pairs two mutators: at most one waits at it. */
  lemma OneInitiator(s: State, t: nat, u: nat)
    requires Inv(s) && t in s.threads && u in s.threads
    requires HoldsCall(s.threads[t].pc) && HoldsCall(s.threads[u].pc)
    ensures t == u
  {
    assert CallOk(s.g, t, s.threads[t]) && CallOk(s.g, u, s.threads[u]);
  }
}
