/**
 The single-flight disk statistics cache for one path, as interleaved atomic actions.

 Callers look up under the entry lock; a caller that finds neither a fresh value nor a
 flight starts one.  The detached probe publishes to the entry, then stores the flight's
 result, then bumps the watch version, in three separate steps.  Waiters subscribe,
 check the result, and sleep until the version differs from the one they saw.
 */
module SingleFlight {
  import opened Common

  type FlightId = nat
  type CallerId = nat

  const SUCCESS_TTL: nat := 250
  const ERROR_TTL: nat := 100

  datatype Value = Stats(free: nat, total: nat) | Failure(kind: nat)

  function Ttl(v: Value): nat { if v.Stats? then SUCCESS_TTL else ERROR_TTL }

  datatype Cached = Cached(at: Instant, value: Value)

  predicate Fresh(c: Cached, now: Instant) {
    (if now < c.at then 0 else now - c.at) < Ttl(c.value)
  }

  /** The shared cell of one flight: its result and the watch version. */
  datatype Flight = Flight(result: Option<Value>, version: nat)

  /** How far the detached probe of a flight has got. */
  datatype Probe = Probing | Publishing(value: Value) | Notifying(value: Value)

  datatype Waiter =
    | Joined(flight: FlightId)
    | Checking(flight: FlightId, seen: nat)
    | Sleeping(flight: FlightId, seen: nat)
    | Served(flight: FlightId, value: Value)

  /** One probe as seen from outside: when it started and, once over, how it ended. */
  datatype Attempt = Attempt(flight: FlightId, start: Instant, finish: Option<Cached>)

  /** An answer given from the entry: to whom, when, what, and how many probes there had been. */
  datatype Answer = Answer(caller: CallerId, at: Instant, value: Value, probes: nat)

  datatype System = System(
    clock: Instant,
    cached: Option<Cached>,
    flight: Option<FlightId>,
    flights: map<FlightId, Flight>,
    probes: map<FlightId, Probe>,
    waiters: map<CallerId, Waiter>,
    log: seq<Attempt>,
    answers: seq<Answer>)

  const Initial := System(0, None, None, map[], map[], map[], [], [])

  datatype Step =
    | Tick(elapsed: nat)
    | Lookup(caller: CallerId)
    | ProbeFinished(flight: FlightId, value: Value)
    | StoreResult(flight: FlightId)
    | BumpVersion(flight: FlightId)
    | Subscribe(caller: CallerId)
    | CheckResult(caller: CallerId)
    | Wake(caller: CallerId)

  /** The entry holds a value that is still fresh. */
  predicate HasFreshValue(s: System) { s.cached.Some? && Fresh(s.cached.value, s.clock) }

  function Start(s: System, caller: CallerId): System {
    var f := |s.log|;
    s.(flight := Some(f),
       flights := s.flights[f := Flight(None, 0)],
       probes := s.probes[f := Probing],
       waiters := s.waiters[caller := Joined(f)],
       log := s.log + [Attempt(f, s.clock, None)])
  }

  function Finish(s: System, f: FlightId, value: Value): System
    requires f < |s.log|
  {
    var t := s.(probes := s.probes[f := Publishing(value)]);
    if s.flight == Some(f) then
      t.(cached := Some(Cached(s.clock, value)),
         flight := None,
         log := s.log[f := s.log[f].(finish := Some(Cached(s.clock, value)))])
    else t
  }

  function Store(s: System, f: FlightId): System
    requires f in s.flights && f in s.probes && s.probes[f].Publishing?
  {
    var v := s.probes[f].value;
    s.(flights := s.flights[f := s.flights[f].(result := Some(v))], probes := s.probes[f := Notifying(v)])
  }

  function Bump(s: System, f: FlightId): System
    requires f in s.flights
  {
    s.(flights := s.flights[f := s.flights[f].(version := s.flights[f].version + 1)], probes := s.probes - {f})
  }

  function Apply(s: System, step: Step): Option<System> {
    match step
    case Tick(elapsed) => Some(s.(clock := s.clock + elapsed))
    case Lookup(caller) =>
      if caller in s.waiters then None
      else if HasFreshValue(s) then
        Some(s.(answers := s.answers + [Answer(caller, s.clock, s.cached.value.value, |s.log|)]))
      else if s.flight.Some? then Some(s.(waiters := s.waiters[caller := Joined(s.flight.value)]))
      else Some(Start(s, caller))
    case ProbeFinished(f, value) =>
      if f !in s.probes || s.probes[f] != Probing || f >= |s.log| then None else Some(Finish(s, f, value))
    case StoreResult(f) =>
      if f !in s.probes || !s.probes[f].Publishing? || f !in s.flights then None
      else Some(Store(s, f))
    case BumpVersion(f) =>
      if f !in s.probes || !s.probes[f].Notifying? || f !in s.flights then None
      else Some(Bump(s, f))
    case Subscribe(caller) =>
      if caller !in s.waiters || !s.waiters[caller].Joined? || s.waiters[caller].flight !in s.flights then None
      else
        var f := s.waiters[caller].flight;
        Some(s.(waiters := s.waiters[caller := Checking(f, s.flights[f].version)]))
    case CheckResult(caller) =>
      if caller !in s.waiters || !s.waiters[caller].Checking? || s.waiters[caller].flight !in s.flights then None
      else
        var w := s.waiters[caller];
        var result := s.flights[w.flight].result;
        Some(s.(waiters := s.waiters[caller :=
          if result.Some? then Served(w.flight, result.value) else Sleeping(w.flight, w.seen)]))
    case Wake(caller) =>
      if caller !in s.waiters || !s.waiters[caller].Sleeping? || s.waiters[caller].flight !in s.flights then None
      else
        var w := s.waiters[caller];
        var version := s.flights[w.flight].version;
        if version == w.seen then None else Some(s.(waiters := s.waiters[caller := Checking(w.flight, version)]))
  }

  // ----- Invariant -----

  /** Exactly the registered flight has a probe that has not finished. */
  ghost predicate OneProbe(s: System) {
    && (s.flight.Some? ==> s.flight.value in s.probes && s.probes[s.flight.value] == Probing)
    && (forall f :: f in s.probes && s.probes[f] == Probing ==> s.flight == Some(f))
  }

  /** What a flight's cell and its probe say about each other. */
  predicate CellAgrees(s: System, f: FlightId)
    requires f in s.flights
  {
    var cell := s.flights[f];
    if f in s.probes then
      && cell.version == 0
      && (s.probes[f].Notifying? ==> cell.result == Some(s.probes[f].value))
      && (!s.probes[f].Notifying? ==> cell.result == None)
    else
      cell.version == 1 && cell.result.Some?
  }

  /** The outcome of each flight, in its cell, its probe and the log, is one value. */
  predicate OutcomeAgrees(s: System, f: FlightId)
    requires f in s.flights && f < |s.log|
  {
    && s.log[f].flight == f
    && (s.log[f].finish.None? <==> f in s.probes && s.probes[f] == Probing)
    && (s.flights[f].result.Some? ==> s.log[f].finish.Some? && s.log[f].finish.value.value == s.flights[f].result.value)
    && (f in s.probes && s.probes[f] != Probing ==> s.log[f].finish.Some? && s.log[f].finish.value.value == s.probes[f].value)
  }

  ghost predicate CellsAgree(s: System) {
    && (forall f :: f in s.probes ==> f in s.flights)
    && (forall f: FlightId :: f in s.flights <==> f < |s.log|)
    && (forall f :: f in s.flights ==> CellAgrees(s, f) && OutcomeAgrees(s, f))
  }

  /** Waiters hold a flight that exists; sleepers saw it before its version moved. */
  predicate WaiterAgrees(s: System, w: Waiter) {
    && w.flight < |s.log|
    && (w.Checking? && w.flight in s.flights ==> w.seen <= s.flights[w.flight].version)
    && (w.Sleeping? ==> w.seen == 0)
    && (w.Served? ==> s.log[w.flight].finish.Some? && s.log[w.flight].finish.value.value == w.value)
  }

  ghost predicate WaitersAgree(s: System) {
    forall c :: c in s.waiters ==> WaiterAgrees(s, s.waiters[c])
  }

  /** Each probe but the last is over before the next starts, by at least its result's time to live. */
  predicate Spaced(a: Attempt, b: Attempt) {
    a.finish.Some? && a.start <= a.finish.value.at && a.finish.value.at + Ttl(a.finish.value.value) <= b.start
  }

  ghost predicate LogAgrees(s: System) {
    && (forall i :: 0 <= i < |s.log| - 1 ==> Spaced(s.log[i], s.log[i + 1]))
    && (s.log == [] ==> s.cached == None && s.flight == None)
    && (s.log != [] ==>
          var last := s.log[|s.log| - 1];
          && last.start <= s.clock
          && (last.finish.Some? ==> s.cached == last.finish && s.flight == None && last.start <= last.finish.value.at <= s.clock)
          && (last.finish.None? ==>
                && s.flight == Some(|s.log| - 1)
                && s.cached == if |s.log| == 1 then None else s.log[|s.log| - 2].finish))
  }

  /** The answer was the result of the last probe, and younger than a result of its kind may be. */
  predicate AnswerAgrees(log: seq<Attempt>, a: Answer) {
    && 0 < a.probes <= |log| && log[a.probes - 1].finish.Some?
    && var result := log[a.probes - 1].finish.value;
       a.value == result.value && result.at <= a.at < result.at + if result.value.Stats? then 250 else 100
  }

  predicate AnswersAgree(s: System) {
    forall i :: 0 <= i < |s.answers| ==> AnswerAgrees(s.log, s.answers[i])
  }

  ghost predicate Invariant(s: System) {
    OneProbe(s) && CellsAgree(s) && WaitersAgree(s) && LogAgrees(s) && AnswersAgree(s)
  }

  /** Neither entry, flights, probes nor log change; time may pass. */
  predicate EntryUnchanged(s: System, t: System) {
    && t.cached == s.cached && t.flight == s.flight && t.flights == s.flights
    && t.probes == s.probes && t.log == s.log && t.clock >= s.clock
  }

  lemma OtherStepsKeepEntry(s: System, step: Step)
    requires Apply(s, step).Some?
    ensures
      var t := Apply(s, step).value;
      match step
      case Lookup(caller) => EntryUnchanged(s, t) || (!HasFreshValue(s) && s.flight == None && t == Start(s, caller))
      case ProbeFinished(f, v) => f < |s.log| && f in s.probes && s.probes[f] == Probing && t == Finish(s, f, v)
      case StoreResult(f) => f in s.flights && f in s.probes && s.probes[f].Publishing? && t == Store(s, f)
      case BumpVersion(f) => f in s.flights && f in s.probes && s.probes[f].Notifying? && t == Bump(s, f)
      case _ => EntryUnchanged(s, t)
  {
  }

  lemma StartKeepsLog(s: System, caller: CallerId)
    requires LogAgrees(s) && !HasFreshValue(s) && s.flight == None
    ensures LogAgrees(Start(s, caller))
  {
  }

  lemma FinishKeepsLog(s: System, f: FlightId, value: Value)
    requires LogAgrees(s) && OneProbe(s) && f in s.probes && s.probes[f] == Probing && f < |s.log|
    ensures LogAgrees(Finish(s, f, value))
  {
    assert s.flight == Some(f) && f == |s.log| - 1;
  }

  lemma StepKeepsLog(s: System, step: Step)
    requires Invariant(s) && Apply(s, step).Some?
    ensures LogAgrees(Apply(s, step).value)
  {
    OtherStepsKeepEntry(s, step);
    match step
    case Lookup(caller) =>
      if !EntryUnchanged(s, Apply(s, step).value) {
        StartKeepsLog(s, caller);
      }
    case ProbeFinished(f, value) => FinishKeepsLog(s, f, value);
    case _ =>
  }

  ghost predicate CellAndOutcome(s: System, f: FlightId) {
    f in s.flights && f < |s.log| && CellAgrees(s, f) && OutcomeAgrees(s, f)
  }

  lemma StartKeepsCells(s: System, caller: CallerId)
    requires CellsAgree(s)
    ensures CellsAgree(Start(s, caller))
  {
    var t := Start(s, caller);
    forall f | f in t.flights
      ensures CellAndOutcome(t, f)
    {
      assert f == |s.log| || CellAndOutcome(s, f);
    }
  }

  lemma FinishKeepsCells(s: System, g: FlightId, value: Value)
    requires CellsAgree(s) && s.flight == Some(g) && g in s.probes && s.probes[g] == Probing && g < |s.log|
    ensures CellsAgree(Finish(s, g, value))
  {
    var t := Finish(s, g, value);
    forall f | f in t.flights
      ensures CellAndOutcome(t, f)
    {
      assert CellAndOutcome(s, f);
    }
  }

  lemma StoreKeepsCells(s: System, g: FlightId)
    requires CellsAgree(s) && g in s.flights && g in s.probes && s.probes[g].Publishing?
    ensures CellsAgree(Store(s, g))
  {
    var t := Store(s, g);
    forall f | f in t.flights
      ensures CellAndOutcome(t, f)
    {
      assert CellAndOutcome(s, f);
    }
  }

  lemma BumpKeepsCells(s: System, g: FlightId)
    requires CellsAgree(s) && g in s.flights && g in s.probes && s.probes[g].Notifying?
    ensures CellsAgree(Bump(s, g))
  {
    var t := Bump(s, g);
    forall f | f in t.flights
      ensures CellAndOutcome(t, f)
    {
      assert CellAndOutcome(s, f);
    }
  }

  lemma UnchangedKeepsCells(s: System, t: System)
    requires CellsAgree(s) && EntryUnchanged(s, t)
    ensures CellsAgree(t)
  {
    forall f | f in t.flights
      ensures CellAndOutcome(t, f)
    {
      assert CellAndOutcome(s, f);
    }
  }

  lemma StepKeepsCells(s: System, step: Step)
    requires Invariant(s) && Apply(s, step).Some?
    ensures CellsAgree(Apply(s, step).value)
  {
    var t := Apply(s, step).value;
    OtherStepsKeepEntry(s, step);
    if EntryUnchanged(s, t) {
      UnchangedKeepsCells(s, t);
    } else {
      match step
      case Lookup(caller) => StartKeepsCells(s, caller);
      case ProbeFinished(f, value) => FinishKeepsCells(s, f, value);
      case StoreResult(f) => StoreKeepsCells(s, f);
      case BumpVersion(f) => BumpKeepsCells(s, f);
    }
  }

  lemma StepKeepsProbe(s: System, step: Step)
    requires Invariant(s) && Apply(s, step).Some?
    ensures OneProbe(Apply(s, step).value)
  {
    OtherStepsKeepEntry(s, step);
  }

  /** What a flight has shown so far is never taken back. */
  predicate HistoryKept(s: System, t: System) {
    && |s.log| <= |t.log|
    && (forall i :: 0 <= i < |s.log| && s.log[i].finish.Some? ==> t.log[i].finish == s.log[i].finish)
    && (forall f :: f in s.flights ==> f in t.flights && s.flights[f].version <= t.flights[f].version)
  }

  lemma StepKeepsHistory(s: System, step: Step)
    requires Invariant(s) && Apply(s, step).Some?
    ensures HistoryKept(s, Apply(s, step).value)
  {
    OtherStepsKeepEntry(s, step);
    if step.ProbeFinished? {
      assert CellAndOutcome(s, step.flight);
    }
  }

  lemma WaiterStays(s: System, t: System, w: Waiter)
    requires CellsAgree(s) && WaiterAgrees(s, w) && HistoryKept(s, t)
    ensures WaiterAgrees(t, w)
  {
  }

  /** How a waiter that was there may have moved. */
  predicate MovesBy(s: System, before: Waiter, after: Waiter) {
    && before.flight in s.flights && after.flight == before.flight
    && match after
       case Joined(_) => false
       case Checking(f, seen) => seen == s.flights[f].version
       case Sleeping(f, seen) => s.flights[f].result.None? && before.Checking? && before.seen == seen
       case Served(f, v) => s.flights[f].result == Some(v)
  }

  lemma CallerMovesItself(s: System, step: Step)
    requires Apply(s, step).Some? && (step.Subscribe? || step.CheckResult? || step.Wake?)
    ensures
      var t := Apply(s, step).value;
      && step.caller in s.waiters && t.waiters.Keys == s.waiters.Keys && EntryUnchanged(s, t)
      && MovesBy(s, s.waiters[step.caller], t.waiters[step.caller])
      && forall c :: c in s.waiters && c != step.caller ==> t.waiters[c] == s.waiters[c]
  {
  }

  lemma OthersMoveNobody(s: System, step: Step, c: CallerId)
    requires Invariant(s) && Apply(s, step).Some? && !(step.Subscribe? || step.CheckResult? || step.Wake?)
    ensures
      var t := Apply(s, step).value;
      && (c in s.waiters ==> c in t.waiters && t.waiters[c] == s.waiters[c])
      && (c in t.waiters && c !in s.waiters ==> t.waiters[c].Joined? && t.waiters[c].flight < |t.log|)
  {
  }

  /** A step moves at most one waiter, and only as the protocol says. */
  lemma StepMovesOneWaiter(s: System, step: Step, c: CallerId)
    requires Invariant(s) && Apply(s, step).Some? && c in Apply(s, step).value.waiters
    ensures
      var t := Apply(s, step).value;
      && (c !in s.waiters ==> t.waiters[c].Joined? && t.waiters[c].flight < |t.log|)
      && (c in s.waiters && t.waiters[c] != s.waiters[c] ==> EntryUnchanged(s, t) && MovesBy(s, s.waiters[c], t.waiters[c]))
  {
    if step.Subscribe? || step.CheckResult? || step.Wake? {
      CallerMovesItself(s, step);
    } else {
      OthersMoveNobody(s, step, c);
    }
  }

  lemma StepKeepsWaiters(s: System, step: Step)
    requires Invariant(s) && Apply(s, step).Some?
    ensures WaitersAgree(Apply(s, step).value)
  {
    var t := Apply(s, step).value;
    StepKeepsHistory(s, step);
    forall c | c in t.waiters
      ensures WaiterAgrees(t, t.waiters[c])
    {
      StepMovesOneWaiter(s, step, c);
      if c in s.waiters {
        assert WaiterAgrees(s, s.waiters[c]);
        if t.waiters[c] == s.waiters[c] {
          WaiterStays(s, t, s.waiters[c]);
        } else {
          assert CellAndOutcome(s, s.waiters[c].flight);
        }
      }
    }
  }

  /** A fresh value in the entry is the result of the last probe, which is over. */
  lemma FreshIsLast(s: System)
    requires LogAgrees(s) && HasFreshValue(s)
    ensures s.log != [] && s.log[|s.log| - 1].finish == s.cached && s.cached.value.at <= s.clock
  {
    if |s.log| > 1 {
      assert Spaced(s.log[|s.log| - 2], s.log[|s.log| - 1]);
    }
  }

  lemma AnswerStays(s: System, t: System, a: Answer)
    requires AnswerAgrees(s.log, a) && HistoryKept(s, t)
    ensures AnswerAgrees(t.log, a)
  {
  }

  /** A step answers at most one caller, from a fresh value. */
  lemma StepAnswers(s: System, step: Step)
    requires Apply(s, step).Some?
    ensures
      var t := Apply(s, step).value;
      || t.answers == s.answers
      || (&& step.Lookup? && HasFreshValue(s) && t.log == s.log
          && t.answers == s.answers + [Answer(step.caller, s.clock, s.cached.value.value, |s.log|)])
  {
  }

  lemma StepKeepsAnswers(s: System, step: Step)
    requires Invariant(s) && Apply(s, step).Some?
    ensures AnswersAgree(Apply(s, step).value)
  {
    StepKeepsHistory(s, step);
    StepAnswers(s, step);
    AnswersKept(s, Apply(s, step).value);
  }

  lemma AnswersKept(s: System, t: System)
    requires LogAgrees(s) && AnswersAgree(s) && HistoryKept(s, t)
    requires
      || t.answers == s.answers
      || (HasFreshValue(s) && t.log == s.log
          && exists c :: t.answers == s.answers + [Answer(c, s.clock, s.cached.value.value, |s.log|)])
    ensures AnswersAgree(t)
  {
    forall i | 0 <= i < |t.answers| ensures AnswerAgrees(t.log, t.answers[i]) {
      if i < |s.answers| {
        assert t.answers[i] == s.answers[i];
        AnswerStays(s, t, s.answers[i]);
      } else {
        FreshIsLast(s);
      }
    }
  }

  lemma StepInvariant(s: System, step: Step)
    requires Invariant(s) && Apply(s, step).Some?
    ensures Invariant(Apply(s, step).value)
  {
    StepKeepsProbe(s, step);
    StepKeepsLog(s, step);
    StepKeepsCells(s, step);
    StepKeepsWaiters(s, step);
    StepKeepsAnswers(s, step);
  }

  // ----- Runs -----

  function Perform(s: System, steps: seq<Step>): Option<System>
    decreases |steps|
  {
    if steps == [] then Some(s)
    else
      var t := Apply(s, steps[0]);
      if t.None? then None else Perform(t.value, steps[1..])
  }

  lemma {:induction false} RunInvariant(s: System, steps: seq<Step>)
    requires Invariant(s) && Perform(s, steps).Some?
    ensures Invariant(Perform(s, steps).value)
    decreases |steps|
  {
    if steps != [] {
      StepInvariant(s, steps[0]);
      RunInvariant(Apply(s, steps[0]).value, steps[1..]);
    }
  }

  /** At most one probe is outstanding, and one is outstanding exactly while a flight is registered. */
  lemma OneProbeAtATime(steps: seq<Step>)
    requires Perform(Initial, steps).Some?
    ensures
      var s := Perform(Initial, steps).value;
      forall f :: (f in s.probes && s.probes[f] == Probing) <==> s.flight == Some(f)
  {
    RunInvariant(Initial, steps);
  }

  /** A served waiter got the outcome of the very flight it joined. */
  lemma WaitersGetTheirFlight(steps: seq<Step>, c: CallerId)
    requires Perform(Initial, steps).Some?
    ensures
      var s := Perform(Initial, steps).value;
      c in s.waiters && s.waiters[c].Served? ==>
        var f := s.waiters[c].flight;
        f < |s.log| && s.log[f].finish.Some? && s.log[f].finish.value.value == s.waiters[c].value
  {
    RunInvariant(Initial, steps);
  }

  /** No sleeper misses its flight's end: once the result is there, it can wake or the wake-up is on its way. */
  lemma NoLostWakeup(steps: seq<Step>, c: CallerId)
    requires Perform(Initial, steps).Some?
    ensures
      var s := Perform(Initial, steps).value;
      c in s.waiters && s.waiters[c].Sleeping? ==>
        var f := s.waiters[c].flight;
        f in s.flights &&
        (s.flights[f].result.Some? ==> Apply(s, Wake(c)).Some? || (f in s.probes && s.probes[f].Notifying?))
  {
    RunInvariant(Initial, steps);
    var s := Perform(Initial, steps).value;
    if c in s.waiters && s.waiters[c].Sleeping? {
      assert WaiterAgrees(s, s.waiters[c]);
      assert CellAgrees(s, s.waiters[c].flight);
    }
  }

  lemma {:induction false} LaterStartsLater(log: seq<Attempt>, i: nat, j: nat)
    requires i < j < |log| && forall k :: 0 <= k < |log| - 1 ==> Spaced(log[k], log[k + 1])
    ensures log[i].finish.Some? && log[i].finish.value.at + Ttl(log[i].finish.value.value) <= log[j].start
    decreases j
  {
    assert Spaced(log[j - 1], log[j]);
    if i < j - 1 {
      LaterStartsLater(log, i, j - 1);
    }
  }

  /** A probe starts only once the result of every earlier one has outlived its time to live. */
  lemma ProbesAreSpaced(steps: seq<Step>, i: nat, j: nat)
    requires Perform(Initial, steps).Some?
    requires i < j < |Perform(Initial, steps).value.log|
    ensures
      var log := Perform(Initial, steps).value.log;
      log[i].finish.Some? && log[i].finish.value.at + Ttl(log[i].finish.value.value) <= log[j].start
  {
    RunInvariant(Initial, steps);
    LaterStartsLater(Perform(Initial, steps).value.log, i, j);
  }

  /**
   Every answer from the entry was the result of the last probe there had been, less than
   250 milliseconds old, or 100 for a failure.
   */
  lemma AnswersAreFresh(steps: seq<Step>, i: nat)
    requires Perform(Initial, steps).Some? && i < |Perform(Initial, steps).value.answers|
    ensures
      var s := Perform(Initial, steps).value;
      var a := s.answers[i];
      && 0 < a.probes <= |s.log| && s.log[a.probes - 1].finish.Some?
      && var result := s.log[a.probes - 1].finish.value;
         a.value == result.value && result.at <= a.at < result.at + if result.value.Stats? then 250 else 100
  {
    RunInvariant(Initial, steps);
    assert AnswerAgrees(Perform(Initial, steps).value.log, Perform(Initial, steps).value.answers[i]);
  }

  /** The last probe is over and its result is younger than a result of its kind may be. */
  predicate RecentResult(s: System) {
    && s.log != [] && s.log[|s.log| - 1].finish.Some?
    && var result := s.log[|s.log| - 1].finish.value;
       s.clock < result.at + if result.value.Stats? then 250 else 100
  }

  /**
   What a lookup does, said of probes and clock alone: it joins the probe that is under way,
   or answers with a recent result of the last one, or starts exactly one probe.
   */
  lemma LookupExactly(steps: seq<Step>, c: CallerId)
    requires Perform(Initial, steps).Some? && c !in Perform(Initial, steps).value.waiters
    ensures
      var s := Perform(Initial, steps).value;
      var n, t := |s.log|, Apply(s, Lookup(c));
      && t.Some?
      && if s.log != [] && s.log[n - 1].finish.None? then
           t.value == s.(waiters := s.waiters[c := Joined(n - 1)])
         else if RecentResult(s) then
           t.value == s.(answers := s.answers + [Answer(c, s.clock, s.log[n - 1].finish.value.value, n)])
         else
           && t.value.log == s.log + [Attempt(n, s.clock, None)]
           && t.value.waiters == s.waiters[c := Joined(n)] && t.value.answers == s.answers
  {
    RunInvariant(Initial, steps);
    var s := Perform(Initial, steps).value;
    if HasFreshValue(s) {
      FreshIsLast(s);
    }
  }
}
