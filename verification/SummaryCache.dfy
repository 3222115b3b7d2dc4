/**
 The share summary cache: one shared database load at a time, whose result is cached
 from the instant the load began and only when it succeeded.

 Waiters hold a watch channel.  They look at its value, and sleep until its version
 differs from the one they saw or the sender is gone; each is a step of its own.
 */
module SummaryCache {
  import opened Common

  type CallerId = nat
  type LoadId = nat

  const TTL: nat := 1000

  datatype Summary = Summary(available: nat, protected: nat)

  datatype Result = Loaded(summary: Summary) | LoadFailed(code: nat)

  datatype Entry = Entry(started: Instant, summary: Summary)

  /** One load and its channel: when it began, what was sent, the channel's version, and whether the sender is gone. */
  datatype Load = Load(started: Instant, result: Option<Result>, version: nat, closed: bool)

  datatype Caller =
    | Looking(load: LoadId)
    | Sleeping(load: LoadId, seen: nat)
    | Answered(load: LoadId, result: Result)
    | CutOff(load: LoadId)
    | FromCache(at: Instant, entry: Entry)

  datatype System = System(
    clock: Instant,
    cached: Option<Entry>,
    flight: Option<LoadId>,
    loads: seq<Load>,
    callers: map<CallerId, Caller>)

  const Initial := System(0, None, None, [], map[])

  datatype Step =
    | Tick(elapsed: nat)
    | Get(caller: CallerId)
    | Finish(result: Result)
    | DropSender(load: LoadId)
    | Look(caller: CallerId)
    | Wake(caller: CallerId)

  function Apply(s: System, step: Step): Option<System> {
    match step
    case Tick(elapsed) => Some(s.(clock := s.clock + elapsed))
    case Get(caller) =>
      if caller in s.callers then None
      else if s.cached.Some? && s.clock - s.cached.value.started < TTL then
        Some(s.(callers := s.callers[caller := FromCache(s.clock, s.cached.value)]))
      else if s.flight.Some? then
        Some(s.(cached := None, callers := s.callers[caller := Looking(s.flight.value)]))
      else
        Some(s.(cached := None,
                flight := Some(|s.loads|),
                loads := s.loads + [Load(s.clock, None, 0, false)],
                callers := s.callers[caller := Looking(|s.loads|)]))
    case Finish(result) =>
      // The detached refresh stores, sends and deregisters while holding the lock.
      if s.flight.None? || s.flight.value >= |s.loads| || s.loads[s.flight.value].closed then None
      else
        var f := s.flight.value;
        Some(s.(cached := if result.Loaded? then Some(Entry(s.loads[f].started, result.summary)) else s.cached,
                flight := None,
                loads := s.loads[f := s.loads[f].(result := Some(result), version := s.loads[f].version + 1)]))
    case DropSender(f) =>
      // The refresh task ends, after sending or by a panic before it.
      if f >= |s.loads| then None else Some(s.(loads := s.loads[f := s.loads[f].(closed := true)]))
    case Look(caller) =>
      if caller !in s.callers || !s.callers[caller].Looking? || s.callers[caller].load >= |s.loads| then None
      else
        var f := s.callers[caller].load;
        var load := s.loads[f];
        var next := if load.result.Some? then Answered(f, load.result.value) else Sleeping(f, load.version);
        Some(s.(callers := s.callers[caller := next]))
    case Wake(caller) =>
      if caller !in s.callers || !s.callers[caller].Sleeping? || s.callers[caller].load >= |s.loads| then None
      else
        var f := s.callers[caller].load;
        if s.loads[f].version != s.callers[caller].seen then Some(s.(callers := s.callers[caller := Looking(f)]))
        else if s.loads[f].closed then Some(s.(callers := s.callers[caller := CutOff(f)]))
        else None
  }

  predicate Delivered(load: Load, entry: Entry) {
    load.started == entry.started && load.result == Some(Loaded(entry.summary))
  }

  /** `entry` is what some successful load delivered, dated from when that load began. */
  ghost predicate FromLoad(s: System, entry: Entry) {
    exists f :: 0 <= f < |s.loads| && Delivered(s.loads[f], entry)
  }

  predicate CallerAgrees(s: System, c: Caller) {
    match c
    case Looking(f) => f < |s.loads|
    case Sleeping(f, seen) => f < |s.loads| && seen == 0
    case Answered(f, result) => f < |s.loads| && s.loads[f].result == Some(result)
    case CutOff(f) => f < |s.loads| && s.loads[f].closed && s.loads[f].result.None?
    case FromCache(at, entry) => entry.started <= at < entry.started + TTL
  }

  predicate LoadAgrees(s: System, f: LoadId)
    requires f < |s.loads|
  {
    && s.loads[f].started <= s.clock
    && (s.loads[f].result.None? <==> s.flight == Some(f))
    && s.loads[f].version == if s.loads[f].result.Some? then 1 else 0
  }

  /** The load succeeded and began less than one time to live ago. */
  predicate Recent(s: System, f: LoadId)
    requires f < |s.loads|
  {
    s.loads[f].result.Some? && s.loads[f].result.value.Loaded? && s.clock < s.loads[f].started + 1000
  }

  /** A recent load is the cached one, and nothing is cached while a load is under way. */
  predicate CacheComplete(s: System) {
    && (forall f :: 0 <= f < |s.loads| && Recent(s, f) ==>
          s.cached == Some(Entry(s.loads[f].started, s.loads[f].result.value.summary)))
    && (s.flight.Some? ==> s.cached.None?)
  }

  ghost predicate Invariant(s: System) {
    && CacheComplete(s)
    && (s.cached.Some? ==> FromLoad(s, s.cached.value) && s.cached.value.started <= s.clock)
    && (forall f: LoadId :: f < |s.loads| ==> LoadAgrees(s, f))
    && (s.flight.Some? ==> s.flight.value == |s.loads| - 1)
    && (forall c :: c in s.callers ==>
          CallerAgrees(s, s.callers[c]) && (s.callers[c].FromCache? ==> FromLoad(s, s.callers[c].entry)))
  }

  /** What was sent stays sent, and a channel closed without a result stays so. */
  predicate Extends(s: System, t: System) {
    |s.loads| <= |t.loads| && forall f :: 0 <= f < |s.loads| ==> Continues(s.loads[f], t.loads[f])
  }

  predicate Continues(load: Load, later: Load) {
    && later.started == load.started
    && (load.result.Some? ==> later.result == load.result)
    && (load.closed ==> later.closed && later.result == load.result)
  }

  lemma FromLoadStays(s: System, t: System, entry: Entry)
    requires FromLoad(s, entry) && Extends(s, t)
    ensures FromLoad(t, entry)
  {
    var f :| 0 <= f < |s.loads| && Delivered(s.loads[f], entry);
    assert Delivered(t.loads[f], entry);
  }

  lemma StepKeepsLoads(s: System, step: Step)
    requires Invariant(s) && Apply(s, step).Some?
    ensures
      var t := Apply(s, step).value;
      && Extends(s, t) && s.clock <= t.clock
      && (t.flight.Some? ==> t.flight.value == |t.loads| - 1)
      && forall f: LoadId :: f < |t.loads| ==> LoadAgrees(t, f)
  {
    var t := Apply(s, step).value;
    forall f: LoadId | f < |t.loads| ensures LoadAgrees(t, f) {
      assert f < |s.loads| ==> LoadAgrees(s, f);
    }
    forall f | 0 <= f < |s.loads| ensures Continues(s.loads[f], t.loads[f]) {
      assert LoadAgrees(s, f);
    }
  }

  lemma StepKeepsCache(s: System, step: Step)
    requires Invariant(s) && Apply(s, step).Some? && Extends(s, Apply(s, step).value)
    ensures
      var t := Apply(s, step).value;
      t.cached.Some? ==> FromLoad(t, t.cached.value) && t.cached.value.started <= t.clock
  {
    var t := Apply(s, step).value;
    if t.cached.Some? {
      if t.cached == s.cached {
        FromLoadStays(s, t, s.cached.value);
      } else {
        assert LoadAgrees(s, s.flight.value);
        assert Delivered(t.loads[s.flight.value], t.cached.value);
      }
    }
  }

  lemma StepKeepsCaller(s: System, step: Step, c: CallerId)
    requires Invariant(s) && Apply(s, step).Some? && Extends(s, Apply(s, step).value) && c in Apply(s, step).value.callers
    ensures
      var t := Apply(s, step).value;
      CallerAgrees(t, t.callers[c]) && (t.callers[c].FromCache? ==> FromLoad(t, t.callers[c].entry))
  {
    var t := Apply(s, step).value;
    if c in s.callers {
      assert CallerAgrees(s, s.callers[c]);
      if s.callers[c].FromCache? {
        FromLoadStays(s, t, s.callers[c].entry);
      } else {
        var f := s.callers[c].load;
        assert LoadAgrees(s, f) && Continues(s.loads[f], t.loads[f]);
      }
    }
  }

  lemma StepKeepsComplete(s: System, step: Step)
    requires Invariant(s) && Apply(s, step).Some?
    ensures CacheComplete(Apply(s, step).value)
  {
    var t := Apply(s, step).value;
    forall f | 0 <= f < |t.loads| && Recent(t, f)
      ensures t.cached == Some(Entry(t.loads[f].started, t.loads[f].result.value.summary))
    {
      assert f < |s.loads| && LoadAgrees(s, f);
      if s.loads[f].result == t.loads[f].result {
        assert Recent(s, f);
      }
    }
  }

  lemma StepInvariant(s: System, step: Step)
    requires Invariant(s) && Apply(s, step).Some?
    ensures Invariant(Apply(s, step).value)
  {
    var t := Apply(s, step).value;
    StepKeepsLoads(s, step);
    StepKeepsCache(s, step);
    StepKeepsComplete(s, step);
    forall c | c in t.callers
      ensures CallerAgrees(t, t.callers[c]) && (t.callers[c].FromCache? ==> FromLoad(t, t.callers[c].entry))
    {
      StepKeepsCaller(s, step, c);
    }
  }

  function Perform(s: System, steps: seq<Step>): Option<System>
    decreases |steps|
  {
    if steps == [] then Some(s)
    else
      var t := Apply(s, steps[0]);
      if t.None? then None else Perform(t.value, steps[1..])
  }

  lemma {:induction false} RunInvariant(s: System, steps: seq<Step>)
    requires Invariant(s) && Perform(s, steps).Some?
    ensures Invariant(Perform(s, steps).value)
    decreases |steps|
  {
    if steps != [] {
      StepInvariant(s, steps[0]);
      RunInvariant(Apply(s, steps[0]).value, steps[1..]);
    }
  }

  /**
   In every run: a cached answer is the outcome of a successful load that had begun less
   than one time to live before it was served; a waiting caller is answered with the
   outcome of the load it joined, or cut off only where that load ended without one; and
   at most one load is without a result, exactly while its flight is registered.
   */
  lemma AnswersAreHonest(steps: seq<Step>, c: CallerId)
    requires Perform(Initial, steps).Some?
    ensures
      var s := Perform(Initial, steps).value;
      && (forall f: LoadId :: f < |s.loads| ==> (s.loads[f].result.None? <==> s.flight == Some(f)))
      && (c in s.callers ==>
            match s.callers[c]
            case FromCache(at, entry) => FromLoad(s, entry) && entry.started <= at < entry.started + TTL
            case Answered(f, result) => f < |s.loads| && s.loads[f].result == Some(result)
            case CutOff(f) => f < |s.loads| && s.loads[f].closed && s.loads[f].result.None?
            case Looking(f) => f < |s.loads|
            case Sleeping(f, _) => f < |s.loads|)
  {
    RunInvariant(Initial, steps);
    var s := Perform(Initial, steps).value;
    if c in s.callers {
      assert CallerAgrees(s, s.callers[c]);
    }
    forall f: LoadId | f < |s.loads| ensures s.loads[f].result.None? <==> s.flight == Some(f) {
      assert LoadAgrees(s, f);
    }
  }

  /** No sleeper misses the end of its load: once a result was sent or the sender is gone, it can wake. */
  lemma NoLostWakeup(steps: seq<Step>, c: CallerId)
    requires Perform(Initial, steps).Some?
    ensures
      var s := Perform(Initial, steps).value;
      c in s.callers && s.callers[c].Sleeping? ==>
        var f := s.callers[c].load;
        f < |s.loads| && (s.loads[f].result.Some? || s.loads[f].closed ==> Apply(s, Wake(c)).Some?)
  {
    RunInvariant(Initial, steps);
    var s := Perform(Initial, steps).value;
    if c in s.callers && s.callers[c].Sleeping? {
      assert CallerAgrees(s, s.callers[c]) && LoadAgrees(s, s.callers[c].load);
    }
  }

  /** A sleeper whose load has sent a result is answered with it by its own next two steps. */
  lemma WokenIsAnswered(s: System, c: CallerId)
    requires Invariant(s) && c in s.callers && s.callers[c].Sleeping?
    requires s.callers[c].load < |s.loads| && s.loads[s.callers[c].load].result.Some?
    ensures
      var f := s.callers[c].load;
      var woken := Apply(s, Wake(c));
      && woken.Some?
      && Apply(woken.value, Look(c)) == Some(s.(callers := s.callers[c := Answered(f, s.loads[f].result.value)]))
  {
    var f := s.callers[c].load;
    assert CallerAgrees(s, s.callers[c]) && LoadAgrees(s, f);
    assert s.callers[c := Looking(f)][c := Answered(f, s.loads[f].result.value)]
        == s.callers[c := Answered(f, s.loads[f].result.value)];
  }

  /**
   What a request does, said of loads and clock alone: it is answered with a load that
   succeeded and began less than 1000 milliseconds ago if there is one, else it joins the
   load under way, else it starts exactly one load.
   */
  lemma GetExactly(steps: seq<Step>, c: CallerId)
    requires Perform(Initial, steps).Some? && c !in Perform(Initial, steps).value.callers
    ensures
      var s := Perform(Initial, steps).value;
      var n, t := |s.loads|, Apply(s, Get(c));
      && t.Some?
      && if exists f :: 0 <= f < n && Recent(s, f) then
           exists f :: 0 <= f < n && Recent(s, f) &&
             t.value == s.(callers := s.callers[c := FromCache(s.clock, Entry(s.loads[f].started, s.loads[f].result.value.summary))])
         else if n > 0 && s.loads[n - 1].result.None? then
           t.value.loads == s.loads && t.value.callers == s.callers[c := Looking(n - 1)]
         else
           t.value.loads == s.loads + [Load(s.clock, None, 0, false)] && t.value.callers == s.callers[c := Looking(n)]
  {
    RunInvariant(Initial, steps);
    var s := Perform(Initial, steps).value;
    if s.cached.Some? && s.clock - s.cached.value.started < TTL {
      var f :| 0 <= f < |s.loads| && Delivered(s.loads[f], s.cached.value);
      assert Recent(s, f);
    }
    if |s.loads| > 0 {
      assert LoadAgrees(s, |s.loads| - 1);
    }
  }

  /** At any time at most one load is recent, so the answer is determined. */
  lemma OneRecentLoad(steps: seq<Step>, f: LoadId, g: LoadId)
    requires Perform(Initial, steps).Some?
    requires f < |Perform(Initial, steps).value.loads| && g < |Perform(Initial, steps).value.loads|
    requires Recent(Perform(Initial, steps).value, f) && Recent(Perform(Initial, steps).value, g)
    ensures
      var loads := Perform(Initial, steps).value.loads;
      loads[f].started == loads[g].started && loads[f].result == loads[g].result
  {
    RunInvariant(Initial, steps);
  }
}
