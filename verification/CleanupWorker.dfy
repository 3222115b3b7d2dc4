/**
 The storage cleanup worker and its requesters as an interleaving of atomic actions.

 Requesters store a flag and notify in two separate steps.  The single worker checks
 the flags, waits for a permit, runs a pass batch by batch, and retries or leaves.  A
 notification with no waiter is kept as one permit, as the runtime's `Notify` does.
 */
module CleanupWorker {
  import opened Common

  /** Where the worker stands; each name is the next atomic action it will perform. */
  datatype Pc =
    | NoWorker
    | CheckShutdown        // before a pass: load shutdown
    | SwapDirty            // before a pass: swap dirty
    | WaitCheckShutdown    // idle: load shutdown
    | WaitCheckDirty       // idle: load dirty
    | WaitNotified         // idle: wait for a permit
    | SerializeCheck       // pass: load shutdown before queueing for the mutex
    | SerializeSelect      // pass: mutex or permit
    | SerializeNotified    // pass: a permit arrived while queueing
    | AuthoritySelect      // pass: storage authority or permit
    | AuthorityNotified    // pass: a permit arrived while waiting for authority
    | OpenCursor           // pass: read protected names and open the scan
    | BatchCheck           // pass: load shutdown before a batch
    | BatchLaunch          // pass: start the batch
    | BatchRunning         // pass: wait for the batch
    | BatchDone(complete: bool) // pass: load shutdown after a batch
    | RetryStore           // failed pass: store dirty
    | RetryCheckShutdown   // failed pass: load shutdown
    | RetrySelect          // failed pass: deadline or permit
    | Leaving              // drop the active-worker guard

  datatype System = System(
    dirty: bool,
    shutdown: bool,
    workerActive: bool,
    permit: bool,
    pc: Pc,
    requestsToNotify: nat,
    shutdownsToNotify: nat,
    startersPastCheck: nat,
    passesBegun: nat,
    cleanThrough: nat, // the last pass that finished with nothing left behind
    requestedDuring: seq<nat>,
    batchesAfterShutdown: nat,
    shutdownCaughtLaunch: bool)

  datatype Step =
    | RequestStore | RequestNotify
    | ShutdownStore | ShutdownNotify
    | StarterCheck | StarterSwap
    | Work
    | TakePermit
    | GotMutex | GotAuthority(ok: bool) | OpenedCursor(ok: bool)
    | BatchEnded(ok: bool, complete: bool)
    | PassResult(clean: bool)
    | RetryDeadline

  const Initial := System(true, false, false, false, NoWorker, 0, 0, 0, 0, 0, [], 0, false)

  /** The worker's unconditional actions: loads, stores and the launch of a batch. */
  function WorkPc(s: System): Option<Pc> {
    match s.pc
    case CheckShutdown => Some(if s.shutdown then Leaving else SwapDirty)
    case SwapDirty => Some(if s.dirty then SerializeCheck else WaitCheckShutdown)
    case WaitCheckShutdown => Some(if s.shutdown then CheckShutdown else WaitCheckDirty)
    case WaitCheckDirty => Some(if s.dirty then CheckShutdown else WaitNotified)
    case SerializeCheck => Some(if s.shutdown then Leaving else SerializeSelect)
    case SerializeNotified => Some(if s.shutdown then Leaving else SerializeCheck)
    case AuthorityNotified => Some(if s.shutdown then Leaving else AuthoritySelect)
    case BatchCheck => Some(if s.shutdown then Leaving else BatchLaunch)
    case BatchLaunch => Some(BatchRunning)
    case BatchDone(false) => Some(if s.shutdown then Leaving else BatchCheck)
    case RetryStore => Some(RetryCheckShutdown)
    case RetryCheckShutdown => Some(if s.shutdown then Leaving else RetrySelect)
    case Leaving => Some(NoWorker)
    case _ => None
  }

  function Worked(s: System, pc: Pc): System {
    s.(pc := pc,
       dirty := if s.pc == SwapDirty then false else if s.pc == RetryStore then true else s.dirty,
       workerActive := if s.pc == Leaving then false else s.workerActive,
       passesBegun := if s.pc == SwapDirty && s.dirty then s.passesBegun + 1 else s.passesBegun,
       batchesAfterShutdown :=
         if s.pc == BatchLaunch && s.shutdown then s.batchesAfterShutdown + 1 else s.batchesAfterShutdown)
  }

  /** The waits at which the worker consumes a permit. */
  function AfterPermit(pc: Pc): Option<Pc> {
    match pc
    case WaitNotified => Some(WaitCheckShutdown)
    case SerializeSelect => Some(SerializeNotified)
    case AuthoritySelect => Some(AuthorityNotified)
    case RetrySelect => Some(RetryCheckShutdown)
    case _ => None
  }

  function Apply(s: System, step: Step): Option<System> {
    match step
    case RequestStore =>
      Some(s.(dirty := true, requestsToNotify := s.requestsToNotify + 1,
              requestedDuring := s.requestedDuring + [s.passesBegun]))
    case RequestNotify =>
      if s.requestsToNotify == 0 then None
      else Some(s.(permit := true, requestsToNotify := s.requestsToNotify - 1))
    case ShutdownStore =>
      Some(s.(shutdown := true, shutdownsToNotify := s.shutdownsToNotify + 1,
              shutdownCaughtLaunch := s.shutdownCaughtLaunch || (!s.shutdown && s.pc == BatchLaunch)))
    case ShutdownNotify =>
      if s.shutdownsToNotify == 0 then None
      else Some(s.(permit := true, shutdownsToNotify := s.shutdownsToNotify - 1))
    case StarterCheck =>
      if s.shutdown then Some(s) else Some(s.(startersPastCheck := s.startersPastCheck + 1))
    case StarterSwap =>
      if s.startersPastCheck == 0 then None
      else if s.workerActive then Some(s.(startersPastCheck := s.startersPastCheck - 1))
      else Some(s.(startersPastCheck := s.startersPastCheck - 1, workerActive := true, pc := CheckShutdown))
    case Work =>
      var pc := WorkPc(s);
      if pc.None? then None else Some(Worked(s, pc.value))
    case TakePermit =>
      var pc := AfterPermit(s.pc);
      if !s.permit || pc.None? then None else Some(s.(permit := false, pc := pc.value))
    case GotMutex =>
      if s.pc != SerializeSelect then None else Some(s.(pc := AuthoritySelect))
    case GotAuthority(ok) =>
      if s.pc != AuthoritySelect then None else Some(s.(pc := if ok then OpenCursor else RetryStore))
    case OpenedCursor(ok) =>
      if s.pc != OpenCursor then None else Some(s.(pc := if ok then BatchCheck else RetryStore))
    case BatchEnded(ok, complete) =>
      if s.pc != BatchRunning then None
      else Some(s.(pc := if !ok then RetryStore else BatchDone(complete)))
    case PassResult(clean) =>
      // The last batch is complete: leave on shutdown, otherwise retry if entries were left behind.
      if s.pc != BatchDone(true) then None
      else if s.shutdown then Some(s.(pc := Leaving))
      else if clean then Some(s.(pc := CheckShutdown, cleanThrough := s.passesBegun))
      else Some(s.(pc := RetryStore))
    case RetryDeadline =>
      if s.pc != RetrySelect then None else Some(s.(pc := CheckShutdown))
  }

  // ----- Invariant -----

  /** Once a request is stored, a later pass has begun or the dirty flag still stands. */
  predicate NoRequestLost(s: System) {
    forall i :: 0 <= i < |s.requestedDuring| ==>
      s.requestedDuring[i] < s.passesBegun || (s.requestedDuring[i] == s.passesBegun && s.dirty)
  }

  /** A pass is running, or has failed and is about to store the dirty flag again. */
  predicate InPass(pc: Pc) {
    match pc
    case NoWorker | CheckShutdown | SwapDirty => false
    case WaitCheckShutdown | WaitCheckDirty | WaitNotified => false
    case RetryCheckShutdown | RetrySelect | Leaving => false
    case _ => true
  }

  /** Unless work is flagged, shutdown has begun or a pass is under way, the last pass left nothing behind. */
  predicate LastPassSettled(s: System) {
    s.dirty || s.shutdown || InPass(s.pc) || s.cleanThrough == s.passesBegun
  }

  /** Waits from which a shutdown must be able to wake the worker. */
  predicate PastShutdownCheck(pc: Pc) {
    pc == WaitCheckDirty || pc == WaitNotified || pc == SerializeSelect || pc == AuthoritySelect || pc == RetrySelect
  }

  /** A flag raised behind the worker's back is backed by a permit, stored or on its way. */
  predicate NoWakeupLost(s: System) {
    && (PastShutdownCheck(s.pc) && s.shutdown ==> s.permit || s.shutdownsToNotify > 0)
    && (s.pc == WaitNotified && s.dirty ==> s.permit || s.requestsToNotify > 0)
  }

  predicate FewBatches(s: System) {
    && s.batchesAfterShutdown <= 1
    && (s.batchesAfterShutdown == 1 <==> s.shutdownCaughtLaunch && s.pc != BatchLaunch)
    && (s.shutdownCaughtLaunch ==> s.shutdown)
    && (s.pc == BatchLaunch && s.shutdown ==> s.shutdownCaughtLaunch)
  }

  /** A failed pass leaves the dirty flag set while it waits to retry. */
  predicate RetryIsOwed(s: System) {
    s.pc == RetryCheckShutdown || s.pc == RetrySelect ==> s.dirty
  }

  predicate WorkerTracked(s: System) {
    (s.workerActive <==> s.pc != NoWorker) && (s.pc == Leaving ==> s.shutdown)
  }

  predicate Invariant(s: System) {
    WorkerTracked(s) && RetryIsOwed(s) && NoRequestLost(s) && LastPassSettled(s) && NoWakeupLost(s) && FewBatches(s)
  }

  lemma StepKeepsRequests(s: System, step: Step)
    requires NoRequestLost(s) && Apply(s, step).Some?
    ensures NoRequestLost(Apply(s, step).value)
  {
  }

  lemma StepKeepsSettled(s: System, step: Step)
    requires WorkerTracked(s) && RetryIsOwed(s) && LastPassSettled(s) && Apply(s, step).Some?
    ensures LastPassSettled(Apply(s, step).value)
  {
  }

  lemma StepKeepsFlags(s: System, step: Step)
    requires WorkerTracked(s) && RetryIsOwed(s) && Apply(s, step).Some?
    ensures WorkerTracked(Apply(s, step).value) && RetryIsOwed(Apply(s, step).value)
  {
  }

  lemma StepKeepsWakeups(s: System, step: Step)
    requires WorkerTracked(s) && NoWakeupLost(s) && Apply(s, step).Some?
    ensures NoWakeupLost(Apply(s, step).value)
  {
  }

  lemma StepKeepsBatches(s: System, step: Step)
    requires WorkerTracked(s) && FewBatches(s) && Apply(s, step).Some?
    ensures FewBatches(Apply(s, step).value)
  {
  }

  lemma StepInvariant(s: System, step: Step)
    requires Invariant(s) && Apply(s, step).Some?
    ensures Invariant(Apply(s, step).value)
  {
    StepKeepsRequests(s, step);
    StepKeepsSettled(s, step);
    StepKeepsFlags(s, step);
    StepKeepsWakeups(s, step);
    StepKeepsBatches(s, step);
  }

  // ----- Runs -----

  /** Performs the steps in order, if each is enabled when its turn comes. */
  function Perform(s: System, steps: seq<Step>): Option<System>
    decreases |steps|
  {
    if steps == [] then Some(s)
    else
      var t := Apply(s, steps[0]);
      if t.None? then None else Perform(t.value, steps[1..])
  }

  lemma {:induction false} RunInvariant(s: System, steps: seq<Step>)
    requires Invariant(s) && Perform(s, steps).Some?
    ensures Invariant(Perform(s, steps).value)
    decreases |steps|
  {
    if steps != [] {
      StepInvariant(s, steps[0]);
      RunInvariant(Apply(s, steps[0]).value, steps[1..]);
    }
  }

  lemma ReachableInvariant(steps: seq<Step>)
    requires Perform(Initial, steps).Some?
    ensures Invariant(Perform(Initial, steps).value)
  {
    RunInvariant(Initial, steps);
  }

  /**
   Under every interleaving, a stored request still has the dirty flag standing for it, or
   a pass begun after it is under way or about to store the flag again, or a pass begun
   after it finished with nothing left behind, or shutdown has begun.
   */
  lemma RequestsAreNotLost(steps: seq<Step>, i: nat)
    requires Perform(Initial, steps).Some?
    ensures
      var s := Perform(Initial, steps).value;
      i < |s.requestedDuring| ==>
        || s.dirty
        || (s.requestedDuring[i] < s.passesBegun && InPass(s.pc))
        || s.requestedDuring[i] < s.cleanThrough
        || s.shutdown
  {
    ReachableInvariant(steps);
  }

  /**
   The idle worker never sleeps through work, and no wait of the worker sleeps through
   shutdown: a permit is there or on its way.
   */
  lemma WaitsAreWoken(steps: seq<Step>)
    requires Perform(Initial, steps).Some?
    ensures
      var s := Perform(Initial, steps).value;
      && (s.pc == WaitNotified && s.dirty ==> s.permit || s.requestsToNotify > 0)
      && (AfterPermit(s.pc).Some? && s.shutdown ==> s.permit || s.shutdownsToNotify > 0)
  {
    ReachableInvariant(steps);
  }

  /** From a wake-up with work pending, the worker's own next five actions begin a pass. */
  lemma WakeupBeginsPass(s: System)
    requires s.pc == WaitNotified && s.permit && s.dirty && !s.shutdown
    ensures
      var t := Perform(s, [TakePermit, Work, Work, Work, Work]);
      t.Some? && t.value.pc == SerializeCheck && t.value.passesBegun == s.passesBegun + 1
  {
    var s1 := s.(permit := false, pc := WaitCheckShutdown);
    var s2 := s1.(pc := WaitCheckDirty);
    var s3 := s2.(pc := CheckShutdown);
    var s4 := s3.(pc := SwapDirty);
    assert Apply(s, TakePermit) == Some(s1);
    assert Apply(s1, Work) == Some(s2);
    assert Apply(s2, Work) == Some(s3);
    assert Apply(s3, Work) == Some(s4);
    PerformCons(s4, Work, []);
    PerformCons(s3, Work, [Work]);
    PerformCons(s2, Work, [Work, Work]);
    PerformCons(s1, Work, [Work, Work, Work]);
    PerformCons(s, TakePermit, [Work, Work, Work, Work]);
  }

  lemma PerformCons(s: System, step: Step, rest: seq<Step>)
    ensures Perform(s, [step] + rest) == if Apply(s, step).None? then None else Perform(Apply(s, step).value, rest)
  {
    assert ([step] + rest)[1..] == rest;
  }

  /**
   At most one batch is ever launched after the shutdown flag is stored, and one is
   launched exactly when the store fell between a batch's own shutdown check and its
   launch and that launch has happened.
   */
  lemma AtMostOneBatchAfterShutdown(steps: seq<Step>)
    requires Perform(Initial, steps).Some?
    ensures
      var s := Perform(Initial, steps).value;
      && s.batchesAfterShutdown <= 1
      && (s.batchesAfterShutdown == 1 <==> s.shutdownCaughtLaunch && s.pc != BatchLaunch)
  {
    ReachableInvariant(steps);
  }

  /** One action, then the rest. */
  lemma Then(s: System, step: Step, t: System, rest: seq<Step>, end: System)
    requires Apply(s, step) == Some(t) && Perform(t, rest) == Some(end)
    ensures Perform(s, [step] + rest) == Some(end)
  {
    PerformCons(s, step, rest);
  }

  /** Wherever the worker looks at the shutdown flag, it leaves at once if the flag stands, and without starting anything. */
  lemma LeavesOnShutdown(s: System)
    requires s.shutdown
    ensures s.pc in {CheckShutdown, SerializeCheck, SerializeNotified, AuthorityNotified, BatchCheck, BatchDone(false), RetryCheckShutdown} ==>
      Apply(s, Work) == Some(s.(pc := Leaving))
    ensures s.pc == WaitCheckShutdown ==> Apply(s, Work) == Some(s.(pc := CheckShutdown))
    ensures forall clean :: s.pc == BatchDone(true) ==> Apply(s, PassResult(clean)) == Some(s.(pc := Leaving))
    ensures s.pc == Leaving ==> Apply(s, Work) == Some(s.(pc := NoWorker, workerActive := false))
  {
  }

  /** An undisturbed pass reaches its first launch. */
  lemma PassReachesLaunch(s: System) returns (steps: seq<Step>)
    requires s.pc == SerializeCheck && !s.shutdown
    ensures Perform(s, steps) == Some(s.(pc := BatchLaunch))
  {
    var opening, end := s.(pc := AuthoritySelect), s.(pc := BatchLaunch);
    steps := AuthorityReachesLaunch(opening);
    Then(s.(pc := SerializeSelect), GotMutex, opening, steps, end);
    steps := [GotMutex] + steps;
    Then(s, Work, s.(pc := SerializeSelect), steps, end);
    steps := [Work] + steps;
  }

  lemma AuthorityReachesLaunch(s: System) returns (steps: seq<Step>)
    requires s.pc == AuthoritySelect && !s.shutdown
    ensures Perform(s, steps) == Some(s.(pc := BatchLaunch))
  {
    var cursor, check, end := s.(pc := OpenCursor), s.(pc := BatchCheck), s.(pc := BatchLaunch);
    Then(check, Work, end, [], end);
    steps := [Work] + [];
    Then(cursor, OpenedCursor(true), check, steps, end);
    steps := [OpenedCursor(true)] + steps;
    Then(s, GotAuthority(true), cursor, steps, end);
    steps := [GotAuthority(true)] + steps;
  }

  /** A started worker with work pending begins a pass. */
  lemma StartBeginsPass(s: System) returns (steps: seq<Step>)
    requires s.pc == NoWorker && !s.workerActive && s.dirty && !s.shutdown
    ensures Perform(s, steps)
         == Some(s.(workerActive := true, dirty := false, passesBegun := s.passesBegun + 1, pc := SerializeCheck))
  {
    var started := s.(workerActive := true, pc := CheckShutdown);
    steps := [];
    PerformCons(started.(pc := SwapDirty), Work, steps);
    steps := [Work] + steps;
    PerformCons(started, Work, steps);
    steps := [Work] + steps;
    PerformCons(s.(startersPastCheck := s.startersPastCheck + 1), StarterSwap, steps);
    steps := [StarterSwap] + steps;
    PerformCons(s, StarterCheck, steps);
    steps := [StarterCheck] + steps;
  }

  lemma {:induction false} PerformConcat(s: System, a: seq<Step>, b: seq<Step>)
    ensures Perform(s, a + b) == if Perform(s, a).None? then None else Perform(Perform(s, a).value, b)
    decreases |a|
  {
    if a == [] {
      assert a + b == b;
    } else if Apply(s, a[0]).Some? {
      assert (a + b)[1..] == a[1..] + b;
      PerformConcat(Apply(s, a[0]).value, a[1..], b);
    }
  }

  /** The race is real: a batch can start after the shutdown store. */
  lemma BatchCanFollowShutdown() returns (steps: seq<Step>)
    ensures
      var s := Perform(Initial, steps);
      s.Some? && s.value.shutdown && s.value.pc == BatchRunning && s.value.batchesAfterShutdown == 1
  {
    var toPass := StartBeginsPass(Initial);
    var begun := Perform(Initial, toPass).value;
    var toLaunch := PassReachesLaunch(begun);
    var late := LateLaunch(begun.(pc := BatchLaunch));
    PerformConcat(begun, toLaunch, late);
    PerformConcat(Initial, toPass, toLaunch + late);
    steps := toPass + (toLaunch + late);
  }

  lemma LateLaunch(s: System) returns (steps: seq<Step>)
    requires s.pc == BatchLaunch && !s.shutdown && s.batchesAfterShutdown == 0
    ensures
      var t := Perform(s, steps);
      t.Some? && t.value.shutdown && t.value.pc == BatchRunning && t.value.batchesAfterShutdown == 1
  {
    var stored := Apply(s, ShutdownStore).value;
    var end := stored.(pc := BatchRunning, batchesAfterShutdown := 1);
    Then(stored, Work, end, [], end);
    Then(s, ShutdownStore, stored, [Work] + [], end);
    steps := [ShutdownStore] + ([Work] + []);
  }

  // ----- Failed passes are tried again -----

  function PassBegun(s: System): System {
    s.(dirty := false, passesBegun := s.passesBegun + 1, pc := SerializeCheck)
  }

  /** Before a pass, the worker's own next two actions begin it. */
  lemma BeginsPass(s: System)
    requires s.pc == CheckShutdown && s.dirty && !s.shutdown
    ensures Perform(s, [Work] + ([Work] + [])) == Some(PassBegun(s))
  {
    var ready := s.(pc := SwapDirty);
    assert Apply(ready, Work) == Some(PassBegun(s));
    Then(ready, Work, PassBegun(s), [], PassBegun(s));
    Then(s, Work, ready, [Work] + [], PassBegun(s));
  }

  lemma RetryFrom(s: System)
    requires s.pc == RetrySelect && s.dirty && !s.shutdown
    ensures Perform(s, [RetryDeadline] + ([Work] + ([Work] + []))) == Some(PassBegun(s))
  {
    var next := s.(pc := CheckShutdown);
    BeginsPass(next);
    Then(s, RetryDeadline, next, [Work] + ([Work] + []), PassBegun(s));
  }

  /** From a wait to retry that the worker entered in any run, the deadline and its own next two actions begin a pass. */
  lemma RetryDeadlineBeginsPass(steps: seq<Step>)
    requires Perform(Initial, steps).Some?
    requires Perform(Initial, steps).value.pc == RetrySelect && !Perform(Initial, steps).value.shutdown
    ensures
      var s := Perform(Initial, steps).value;
      Perform(s, [RetryDeadline] + ([Work] + ([Work] + []))) == Some(PassBegun(s))
  {
    ReachableInvariant(steps);
    RetryFrom(Perform(Initial, steps).value);
  }

  /** The worker waits to retry, or shutdown keeps it from ever beginning a pass. */
  predicate Held(s: System) {
    && (s.workerActive <==> s.pc != NoWorker)
    && (|| s.pc == RetrySelect || s.pc == RetryCheckShutdown
        || (s.shutdown && (s.pc == Leaving || s.pc == NoWorker || s.pc == CheckShutdown)))
  }

  lemma StepHolds(s: System, step: Step)
    requires Held(s) && step != RetryDeadline && Apply(s, step).Some?
    ensures Held(Apply(s, step).value) && Apply(s, step).value.passesBegun == s.passesBegun
  {
  }

  lemma {:induction false} HeldThroughout(s: System, steps: seq<Step>)
    requires Held(s) && RetryDeadline !in steps && Perform(s, steps).Some?
    ensures Held(Perform(s, steps).value) && Perform(s, steps).value.passesBegun == s.passesBegun
    decreases |steps|
  {
    if steps != [] {
      StepHolds(s, steps[0]);
      HeldThroughout(Apply(s, steps[0]).value, steps[1..]);
    }
  }

  /** Whatever permits and requests arrive, no pass begins before the deadline of a retry. */
  lemma NoPassBeforeDeadline(steps: seq<Step>, more: seq<Step>)
    requires Perform(Initial, steps).Some? && Perform(Initial, steps).value.pc == RetrySelect
    requires RetryDeadline !in more && Perform(Perform(Initial, steps).value, more).Some?
    ensures
      var s, t := Perform(Initial, steps).value, Perform(Perform(Initial, steps).value, more).value;
      t.passesBegun == s.passesBegun && (t.pc == RetrySelect || t.pc == RetryCheckShutdown || t.shutdown)
  {
    ReachableInvariant(steps);
    HeldThroughout(Perform(Initial, steps).value, more);
  }

  /** The ways in which a pass fails. */
  predicate Failure(step: Step) {
    || step == GotAuthority(false)
    || step == OpenedCursor(false)
    || (step.BatchEnded? && !step.ok)
    || step == PassResult(false)
  }

  lemma FailureStores(s: System, failure: Step)
    requires Failure(failure) && Apply(s, failure).Some? && !s.shutdown
    ensures Apply(s, failure) == Some(s.(pc := RetryStore))
  {
  }

  lemma RetryFromFailure(s: System) returns (steps: seq<Step>)
    requires s.pc == RetryStore && !s.shutdown
    ensures Perform(s, steps) == Some(PassBegun(s)) && ShutdownStore !in steps
  {
    var stored := s.(pc := RetryCheckShutdown, dirty := true);
    var waiting := stored.(pc := RetrySelect);
    RetryFrom(waiting);
    steps := [RetryDeadline] + ([Work] + ([Work] + []));
    assert Apply(stored, Work) == Some(waiting);
    Then(stored, Work, waiting, steps, PassBegun(waiting));
    steps := [Work] + steps;
    Then(s, Work, stored, steps, PassBegun(waiting));
    steps := [Work] + steps;
  }

  /** After every failure of a pass, absent shutdown, some continuation begins a later pass. */
  lemma FailureIsRetried(steps: seq<Step>, failure: Step) returns (more: seq<Step>)
    requires Perform(Initial, steps).Some? && Failure(failure)
    requires Apply(Perform(Initial, steps).value, failure).Some? && !Perform(Initial, steps).value.shutdown
    ensures Perform(Apply(Perform(Initial, steps).value, failure).value, more) == Some(PassBegun(Perform(Initial, steps).value))
  {
    var s := Perform(Initial, steps).value;
    FailureStores(s, failure);
    more := RetryFromFailure(s.(pc := RetryStore));
  }

  // ----- A clean pass scanned everything -----

  /** The outcome of the last batch that ended. */
  function LastBatch(steps: seq<Step>): Option<Step>
    decreases |steps|
  {
    if steps == [] then None
    else if steps[|steps| - 1].BatchEnded? then Some(steps[|steps| - 1])
    else LastBatch(steps[..|steps| - 1])
  }

  lemma PerformOne(s: System, step: Step)
    ensures Perform(s, [step]) == Apply(s, step)
  {
    PerformCons(s, step, []);
    assert [step] + [] == [step];
  }

  lemma PerformSnoc(s: System, front: seq<Step>, last: Step)
    ensures Perform(s, front + [last]) == if Perform(s, front).None? then None else Apply(Perform(s, front).value, last)
  {
    PerformConcat(s, front, [last]);
    if Perform(s, front).Some? {
      PerformOne(Perform(s, front).value, last);
    }
  }

  lemma PerformLast(s: System, steps: seq<Step>)
    requires steps != [] && Perform(s, steps).Some?
    ensures
      var before := Perform(s, steps[..|steps| - 1]);
      before.Some? && Apply(before.value, steps[|steps| - 1]) == Perform(s, steps)
  {
    PerformSnoc(s, steps[..|steps| - 1], steps[|steps| - 1]);
    assert steps == steps[..|steps| - 1] + [steps[|steps| - 1]];
  }

  lemma StepToBatchDone(s: System, step: Step)
    requires Apply(s, step).Some? && Apply(s, step).value.pc.BatchDone?
    ensures step == BatchEnded(true, Apply(s, step).value.pc.complete) || (!step.BatchEnded? && s.pc == Apply(s, step).value.pc)
  {
  }

  /** After a batch, the worker knows what that batch reported. */
  lemma {:induction false} BatchIsRemembered(steps: seq<Step>)
    requires Perform(Initial, steps).Some? && Perform(Initial, steps).value.pc.BatchDone?
    ensures LastBatch(steps) == Some(BatchEnded(true, Perform(Initial, steps).value.pc.complete))
    decreases |steps|
  {
    PerformLast(Initial, steps);
    StepToBatchDone(Perform(Initial, steps[..|steps| - 1]).value, steps[|steps| - 1]);
    if !steps[|steps| - 1].BatchEnded? {
      BatchIsRemembered(steps[..|steps| - 1]);
    }
  }

  /** Step `i` ends pass `n` with nothing left behind, after a batch that reported the scan complete. */
  predicate FinishedClean(steps: seq<Step>, i: nat, n: nat) {
    && i < |steps| && steps[i] == PassResult(true)
    && LastBatch(steps[..i]) == Some(BatchEnded(true, true))
    && Perform(Initial, steps[..i]).Some? && Perform(Initial, steps[..i]).value.passesBegun == n
  }

  lemma StepToClean(s: System, step: Step)
    requires Apply(s, step).Some? && Apply(s, step).value.cleanThrough != s.cleanThrough
    ensures step == PassResult(true) && s.pc == BatchDone(true) && Apply(s, step).value.cleanThrough == s.passesBegun
  {
  }

  /** What counts as finished with nothing left behind was scanned to its end. */
  lemma {:induction false} CleanWasScanned(steps: seq<Step>)
    requires Perform(Initial, steps).Some? && Perform(Initial, steps).value.cleanThrough > 0
    ensures exists i :: 0 <= i < |steps| && FinishedClean(steps, i, Perform(Initial, steps).value.cleanThrough)
    decreases |steps|
  {
    PerformLast(Initial, steps);
    var n, front := Perform(Initial, steps).value.cleanThrough, steps[..|steps| - 1];
    var before := Perform(Initial, front).value;
    if before.cleanThrough == n {
      CleanWasScanned(front);
      var i :| 0 <= i < |front| && FinishedClean(front, i, n);
      StillFinished(steps, front, i, n);
    } else {
      StepToClean(before, steps[|steps| - 1]);
      BatchIsRemembered(front);
      assert FinishedClean(steps, |front|, n);
    }
  }

  lemma StillFinished(steps: seq<Step>, front: seq<Step>, i: nat, n: nat)
    requires front <= steps && FinishedClean(front, i, n)
    ensures FinishedClean(steps, i, n)
  {
    assert front[..i] == steps[..i];
  }

  lemma BatchGoesOn(s: System, rest: seq<Step>, end: System) returns (steps: seq<Step>)
    requires s.pc == BatchLaunch && !s.shutdown && Perform(s, rest) == Some(end)
    ensures Perform(s.(pc := BatchRunning), steps) == Some(end) && |steps| == |rest| + 3
  {
    var running, done, check := s.(pc := BatchRunning), s.(pc := BatchDone(false)), s.(pc := BatchCheck);
    assert Apply(check, Work) == Some(s);
    Then(check, Work, s, rest, end);
    steps := [Work] + rest;
    assert Apply(done, Work) == Some(check);
    Then(done, Work, check, steps, end);
    steps := [Work] + steps;
    assert Apply(running, BatchEnded(true, false)) == Some(done);
    Then(running, BatchEnded(true, false), done, steps, end);
    steps := [BatchEnded(true, false)] + steps;
  }

  lemma BatchEndsPass(s: System) returns (steps: seq<Step>)
    requires s.pc == BatchRunning && !s.shutdown
    ensures Perform(s, steps) == Some(s.(pc := CheckShutdown, cleanThrough := s.passesBegun)) && |steps| == 2
  {
    var done, end := s.(pc := BatchDone(true)), s.(pc := CheckShutdown, cleanThrough := s.passesBegun);
    Then(done, PassResult(true), end, [], end);
    steps := [PassResult(true)] + [];
    Then(s, BatchEnded(true, true), done, steps, end);
    steps := [BatchEnded(true, true)] + steps;
  }

  /** A pass goes on batch by batch, however many there are, until one reports the scan complete. */
  lemma {:induction false} PassRunsToItsEnd(s: System, incomplete: nat) returns (steps: seq<Step>)
    requires s.pc == BatchLaunch && !s.shutdown
    ensures Perform(s, steps) == Some(s.(pc := CheckShutdown, cleanThrough := s.passesBegun))
    ensures |steps| == 4 * incomplete + 3
    decreases incomplete
  {
    var running, end := s.(pc := BatchRunning), s.(pc := CheckShutdown, cleanThrough := s.passesBegun);
    if incomplete == 0 {
      steps := BatchEndsPass(running);
    } else {
      steps := PassRunsToItsEnd(s, incomplete - 1);
      steps := BatchGoesOn(s, steps, end);
    }
    Then(s, Work, running, steps, end);
    steps := [Work] + steps;
  }
}
