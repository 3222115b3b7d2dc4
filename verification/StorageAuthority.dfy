/**
 Storage authority and cached listings as one step system.

 Readers, writers and the cache interleave freely; every atomic action of the original
 (taking the lock, each load or store of the two atomics, one directory scan, one cache
 update) is a step of its own.  Ghost fields remember, for each publication, which
 namespace it published and how many mutations had happened by then.
 */
module StorageAuthority {
  import opened Common
  import DirectoryCache

  type Key = DirectoryCache.Key
  type Snapshot = DirectoryCache.Snapshot
  type Namespace = map<string, seq<string>>
  type ReaderId = nat

  /** A read guard: the generation once it is loaded, and `clean` once `recovery_required` was seen unset. */
  datatype ReadGuard = ReadGuard(generation: Option<nat>, clean: bool)

  datatype Writer =
    | Idle
    | Acquired(mutation: bool)
    | Active(requiredOnEntry: bool)
    | Publishing
    | Published

  /** A finished directory scan waiting to be inserted under its key. */
  datatype Loaded = Loaded(key: Key, snapshot: Option<Snapshot>)

  datatype System = System(
    namespace: Namespace,
    readers: map<ReaderId, ReadGuard>,
    writer: Writer,
    generation: nat,
    recoveryRequired: bool,
    cache: map<Key, Snapshot>,
    loads: set<Loaded>,
    published: nat,
    mutations: nat,
    publishedNamespace: map<nat, Namespace>,
    publishedMutations: map<nat, nat>)

  /** Scanning one directory of a namespace; the request ignores the generation in the key. */
  type Scan = (Namespace, Key) -> Option<Snapshot>

  function Request(key: Key): Key { key.(generation := 0) }

  datatype Step =
    | LockRead(reader: ReaderId)
    | LoadGeneration(reader: ReaderId)
    | CheckClean(reader: ReaderId)
    | DropRead(reader: ReaderId)
    | LockWrite(mutation: bool)
    | MarkMutation
    | LoadRecovery
    | Mutate(result: Namespace)
    | ClearRequired
    | Publish
    | Unlock
    | DropWrite
    | ScanDirectory(reader: ReaderId, key: Key)
    | InsertLoaded(loaded: Loaded)
    | ChangeCache

  ghost predicate Initial(s: System) {
    && s.readers == map[] && s.writer == Idle
    && s.generation == 0 && s.recoveryRequired
    && s.cache == map[] && s.loads == {}
    && s.published == 0 && s.mutations == 0
    && s.publishedNamespace == map[] && s.publishedMutations == map[]
  }

  /** `after` holds nothing that `before` does not, apart from the inserted snapshot. */
  predicate CacheShrinksTo(before: map<Key, Snapshot>, after: map<Key, Snapshot>) {
    after.Keys <= before.Keys && forall k :: k in after ==> after[k] == before[k]
  }

  ghost predicate Next(scan: Scan, s: System, step: Step, t: System) {
    match step
    case LockRead(r) =>
      && s.writer == Idle && r !in s.readers
      && t == s.(readers := s.readers[r := ReadGuard(None, false)])
    case LoadGeneration(r) =>
      && r in s.readers
      && t == s.(readers := s.readers[r := s.readers[r].(generation := Some(s.generation))])
    case CheckClean(r) =>
      && r in s.readers && !s.recoveryRequired
      && t == s.(readers := s.readers[r := s.readers[r].(clean := true)])
    case DropRead(r) =>
      r in s.readers && t == s.(readers := s.readers - {r})
    case LockWrite(mutation) =>
      s.writer == Idle && s.readers == map[] && t == s.(writer := Acquired(mutation))
    case MarkMutation =>
      && s.writer == Acquired(true)
      && t == s.(writer := Active(s.recoveryRequired), recoveryRequired := true)
    case LoadRecovery =>
      s.writer == Acquired(false) && t == s.(writer := Active(s.recoveryRequired))
    case Mutate(result) =>
      // A recovery guard that found nothing to recover is dropped without touching storage.
      && s.writer.Active? && s.recoveryRequired
      && t == s.(namespace := result, mutations := s.mutations + 1)
    case ClearRequired =>
      s.writer.Active? && t == s.(writer := Publishing, recoveryRequired := false)
    case Publish =>
      && s.writer == Publishing
      && t == s.(writer := Published,
                 generation := (s.generation + 1) % U64_MODULUS,
                 published := s.published + 1,
                 publishedNamespace := s.publishedNamespace[s.published + 1 := s.namespace],
                 publishedMutations := s.publishedMutations[s.published + 1 := s.mutations])
    case Unlock =>
      s.writer == Published && t == s.(writer := Idle)
    case DropWrite =>
      s.writer.Active? && t == s.(writer := Idle)
    case ScanDirectory(r, key) =>
      && r in s.readers && s.readers[r].clean && s.readers[r].generation == Some(key.generation)
      && t == s.(loads := s.loads + {Loaded(key, scan(s.namespace, Request(key)))})
    case InsertLoaded(loaded) =>
      && loaded in s.loads
      && t == s.(cache := t.cache)
      && (forall k :: k in t.cache ==>
            || (k in s.cache && t.cache[k] == s.cache[k])
            || (k == loaded.key && loaded.snapshot == Some(t.cache[k])))
    case ChangeCache =>
      t == s.(cache := t.cache) && CacheShrinksTo(s.cache, t.cache)
  }

  // ----- Invariant -----

  /** Outside a write, an unset flag means the namespace is the last published one. */
  ghost predicate CleanIsPublished(s: System) {
    !s.recoveryRequired && s.writer != Publishing ==>
      && s.published in s.publishedNamespace && s.publishedNamespace[s.published] == s.namespace
      && s.published in s.publishedMutations && s.publishedMutations[s.published] == s.mutations
  }

  ghost predicate LocksExclude(s: System) {
    && (s.writer != Idle ==> s.readers == map[])
    && (s.writer == Publishing || s.writer == Published ==> !s.recoveryRequired)
    && (forall r :: r in s.readers ==>
          && (s.readers[r].generation.Some? ==> s.readers[r].generation.value == s.generation)
          && (s.readers[r].clean ==> !s.recoveryRequired))
  }

  /** A snapshot filed under a generation is the scan of the namespace that generation published. */
  ghost predicate Agrees(scan: Scan, s: System, key: Key, snapshot: Option<Snapshot>) {
    && key.generation in s.publishedNamespace
    && snapshot == scan(s.publishedNamespace[key.generation], Request(key))
  }

  ghost predicate SnapshotsAgree(scan: Scan, s: System) {
    && (forall k :: k in s.cache ==> Agrees(scan, s, k, Some(s.cache[k])))
    && (forall l :: l in s.loads ==> Agrees(scan, s, l.key, l.snapshot))
  }

  /** The generation is the number of publications, as far as 64 bits can tell. */
  ghost predicate CountersAgree(s: System) {
    && s.generation == s.published % U64_MODULUS
    && (forall p :: p in s.publishedNamespace ==> p <= s.published)
    && (forall p :: p in s.publishedMutations ==> p <= s.published)
  }

  /** Holds in every reachable state; snapshots are told apart as long as the generation has not wrapped. */
  ghost predicate Invariant(scan: Scan, s: System) {
    && CountersAgree(s) && LocksExclude(s) && CleanIsPublished(s)
    && (s.published < U64_MODULUS ==> SnapshotsAgree(scan, s))
  }

  lemma InitialInvariant(scan: Scan, s: System)
    requires Initial(s)
    ensures Invariant(scan, s)
  {
  }

  lemma AgreesLater(scan: Scan, s: System, t: System, key: Key, snapshot: Option<Snapshot>)
    requires Agrees(scan, s, key, snapshot)
    requires forall p :: p in s.publishedNamespace ==> p in t.publishedNamespace && t.publishedNamespace[p] == s.publishedNamespace[p]
    ensures Agrees(scan, t, key, snapshot)
  {
  }

  /** What a step does to the record of publications. */
  predicate Records(s: System, step: Step, t: System) {
    if step == Publish then
      && t.generation == (s.generation + 1) % U64_MODULUS && t.published == s.published + 1
      && t.publishedNamespace == s.publishedNamespace[s.published + 1 := s.namespace]
      && t.publishedMutations == s.publishedMutations[s.published + 1 := s.mutations]
    else
      && t.generation == s.generation && t.published == s.published
      && t.publishedNamespace == s.publishedNamespace && t.publishedMutations == s.publishedMutations
  }

  predicate ReaderStep(step: Step) { step.LockRead? || step.LoadGeneration? || step.CheckClean? || step.DropRead? }

  predicate CacheStep(step: Step) { step.ScanDirectory? || step.InsertLoaded? || step.ChangeCache? }

  lemma ReaderStepFrame(scan: Scan, s: System, step: Step, t: System)
    requires Next(scan, s, step, t) && ReaderStep(step)
    ensures t == s.(readers := t.readers)
  {
  }

  lemma CacheStepFrame(scan: Scan, s: System, step: Step, t: System)
    requires Next(scan, s, step, t) && CacheStep(step)
    ensures t == s.(cache := t.cache, loads := t.loads)
  {
  }

  lemma WriterStepFrame(scan: Scan, s: System, step: Step, t: System)
    requires Next(scan, s, step, t) && !ReaderStep(step) && !CacheStep(step) && step != Publish
    ensures t == s.(writer := t.writer, recoveryRequired := t.recoveryRequired, namespace := t.namespace, mutations := t.mutations)
  {
  }

  lemma StepRecords(scan: Scan, s: System, step: Step, t: System)
    requires Next(scan, s, step, t)
    ensures Records(s, step, t)
  {
    if ReaderStep(step) {
      ReaderStepFrame(scan, s, step, t);
    } else if CacheStep(step) {
      CacheStepFrame(scan, s, step, t);
    } else if step != Publish {
      WriterStepFrame(scan, s, step, t);
    }
  }

  lemma RecordedCounters(s: System, step: Step, t: System)
    requires Records(s, step, t) && CountersAgree(s)
    ensures CountersAgree(t)
  {
  }

  lemma StepKeepsCounters(scan: Scan, s: System, step: Step, t: System)
    requires Next(scan, s, step, t)
    requires CountersAgree(s)
    ensures CountersAgree(t)
  {
    StepRecords(scan, s, step, t);
    RecordedCounters(s, step, t);
  }

  lemma ReadersKeepLocks(scan: Scan, s: System, step: Step, t: System)
    requires Next(scan, s, step, t) && ReaderStep(step) && LocksExclude(s)
    ensures LocksExclude(t)
  {
  }

  lemma StepKeepsLocks(scan: Scan, s: System, step: Step, t: System)
    requires Next(scan, s, step, t)
    requires LocksExclude(s)
    ensures LocksExclude(t)
  {
    if ReaderStep(step) {
      ReadersKeepLocks(scan, s, step, t);
    } else if CacheStep(step) {
      CacheStepFrame(scan, s, step, t);
    } else {
      assert t.readers == s.readers;
    }
  }

  lemma StepKeepsClean(scan: Scan, s: System, step: Step, t: System)
    requires Next(scan, s, step, t)
    requires LocksExclude(s) && CleanIsPublished(s)
    ensures CleanIsPublished(t)
  {
  }

  /** Where a cached snapshot or a finished scan can come from. */
  ghost predicate Supplies(scan: Scan, s: System, step: Step, t: System) {
    && (forall k :: k in t.cache ==>
          || (k in s.cache && t.cache[k] == s.cache[k])
          || exists l :: l in s.loads && l.key == k && l.snapshot == Some(t.cache[k]))
    && (forall l :: l in t.loads ==>
          || l in s.loads
          || (&& s.published == t.published && s.publishedNamespace == t.publishedNamespace
              && !s.recoveryRequired && s.writer == Idle
              && l.key.generation == s.generation && l.snapshot == scan(s.namespace, Request(l.key))))
  }

  lemma StepSupplies(scan: Scan, s: System, step: Step, t: System)
    requires Next(scan, s, step, t) && LocksExclude(s)
    ensures Supplies(scan, s, step, t)
  {
    if ReaderStep(step) {
      ReaderStepFrame(scan, s, step, t);
    } else if !CacheStep(step) {
      assert t.cache == s.cache && t.loads == s.loads;
    }
  }

  lemma SuppliedSnapshots(scan: Scan, s: System, step: Step, t: System)
    requires Records(s, step, t) && Supplies(scan, s, step, t) && t.published < U64_MODULUS
    requires CountersAgree(s) && CleanIsPublished(s) && SnapshotsAgree(scan, s)
    ensures SnapshotsAgree(scan, t)
  {
    forall k | k in t.cache ensures Agrees(scan, t, k, Some(t.cache[k])) {
      if k in s.cache && t.cache[k] == s.cache[k] {
        AgreesLater(scan, s, t, k, Some(s.cache[k]));
      } else {
        var l :| l in s.loads && l.key == k && l.snapshot == Some(t.cache[k]);
        AgreesLater(scan, s, t, l.key, l.snapshot);
      }
    }
    forall l | l in t.loads ensures Agrees(scan, t, l.key, l.snapshot) {
      if l in s.loads {
        AgreesLater(scan, s, t, l.key, l.snapshot);
      }
    }
  }

  lemma StepKeepsSnapshots(scan: Scan, s: System, step: Step, t: System)
    requires Next(scan, s, step, t) && t.published < U64_MODULUS
    requires CountersAgree(s) && LocksExclude(s) && CleanIsPublished(s) && SnapshotsAgree(scan, s)
    ensures SnapshotsAgree(scan, t)
  {
    StepRecords(scan, s, step, t);
    StepSupplies(scan, s, step, t);
    SuppliedSnapshots(scan, s, step, t);
  }

  lemma StepInvariant(scan: Scan, s: System, step: Step, t: System)
    requires Invariant(scan, s) && Next(scan, s, step, t)
    ensures Invariant(scan, t)
  {
    StepKeepsCounters(scan, s, step, t);
    StepKeepsLocks(scan, s, step, t);
    StepKeepsClean(scan, s, step, t);
    if t.published < U64_MODULUS {
      StepRecords(scan, s, step, t);
      StepKeepsSnapshots(scan, s, step, t);
    }
  }

  // ----- Runs -----

  ghost predicate IsRun(scan: Scan, states: seq<System>, steps: seq<Step>) {
    && |states| == |steps| + 1
    && Initial(states[0])
    && forall i :: 0 <= i < |steps| ==> TakesStep(scan, states, steps, i)
  }

  ghost predicate TakesStep(scan: Scan, states: seq<System>, steps: seq<Step>, i: nat)
    requires |states| == |steps| + 1 && i < |steps|
  {
    Next(scan, states[i], steps[i], states[i + 1])
  }

  lemma {:induction false} RunInvariant(scan: Scan, states: seq<System>, steps: seq<Step>, i: nat)
    requires IsRun(scan, states, steps) && i < |states|
    ensures Invariant(scan, states[i])
    decreases i
  {
    if i == 0 {
      InitialInvariant(scan, states[0]);
    } else {
      RunInvariant(scan, states, steps, i - 1);
      assert TakesStep(scan, states, steps, i - 1);
      StepInvariant(scan, states[i - 1], steps[i - 1], states[i]);
    }
  }

  /** What only ever grows along a run. */
  predicate Grows(s: System, t: System) {
    && s.published <= t.published
    && s.mutations <= t.mutations
    && (forall p :: p in s.publishedMutations && p <= s.published ==>
          p in t.publishedMutations && t.publishedMutations[p] == s.publishedMutations[p])
  }

  /** What one step may do to the namespace and the flag. */
  predicate Changes(s: System, step: Step, t: System) {
    && (if step.Mutate? then t.mutations == s.mutations + 1
        else t.namespace == s.namespace && t.mutations == s.mutations)
    && (step != ClearRequired && s.recoveryRequired ==> t.recoveryRequired)
    && (step == MarkMutation ==> t.recoveryRequired)
  }

  predicate Evolves(s: System, step: Step, t: System) {
    Grows(s, t) && Changes(s, step, t)
  }

  lemma StepChanges(scan: Scan, s: System, step: Step, t: System)
    requires Next(scan, s, step, t)
    ensures Changes(s, step, t)
  {
    if ReaderStep(step) {
      ReaderStepFrame(scan, s, step, t);
    } else if CacheStep(step) {
      CacheStepFrame(scan, s, step, t);
    }
  }

  lemma RecordsGrow(s: System, step: Step, t: System)
    requires Records(s, step, t) && Changes(s, step, t)
    ensures Grows(s, t)
  {
  }

  lemma StepEvolves(scan: Scan, s: System, step: Step, t: System)
    requires Next(scan, s, step, t)
    ensures Evolves(s, step, t)
  {
    StepRecords(scan, s, step, t);
    StepChanges(scan, s, step, t);
    RecordsGrow(s, step, t);
  }

  lemma StepAt(scan: Scan, states: seq<System>, steps: seq<Step>, i: nat)
    requires IsRun(scan, states, steps) && i < |steps|
    ensures Evolves(states[i], steps[i], states[i + 1])
  {
    assert TakesStep(scan, states, steps, i);
    StepEvolves(scan, states[i], steps[i], states[i + 1]);
  }

  lemma {:induction false} RunGrows(scan: Scan, states: seq<System>, steps: seq<Step>, i: nat, j: nat)
    requires IsRun(scan, states, steps) && i <= j < |states|
    ensures Grows(states[i], states[j])
    decreases j - i
  {
    if i < j {
      RunGrows(scan, states, steps, i, j - 1);
      StepAt(scan, states, steps, j - 1);
    }
  }

  ghost predicate HoldsCleanRead(s: System, r: ReaderId, generation: nat) {
    r in s.readers && s.readers[r].clean && s.readers[r].generation == Some(generation)
  }

  /**
   Two clean reads of one generation bracket no mutation: the namespace is the same at
   both ends and was never changed in between.  The generations must not be a whole
   cycle of the counter apart.
   */
  lemma SameGenerationNoMutation(scan: Scan, states: seq<System>, steps: seq<Step>, i: nat, j: nat, q: ReaderId, r: ReaderId, g: nat)
    requires IsRun(scan, states, steps) && i <= j < |states|
    requires states[j].published < states[i].published + U64_MODULUS
    requires HoldsCleanRead(states[i], q, g) && HoldsCleanRead(states[j], r, g)
    ensures states[i].namespace == states[j].namespace
    ensures forall k :: i <= k <= j ==> states[k].mutations == states[i].mutations
    ensures forall k :: i <= k < j ==> !steps[k].Mutate?
  {
    RunInvariant(scan, states, steps, i);
    RunInvariant(scan, states, steps, j);
    RunGrows(scan, states, steps, i, j);
    SameGeneration(states[i].published, states[j].published);
    assert states[i].publishedMutations[states[i].published] == states[i].mutations;
    assert states[j].publishedMutations[states[j].published] == states[j].mutations;
    forall k | i <= k <= j
      ensures states[k].mutations == states[i].mutations
    {
      RunGrows(scan, states, steps, i, k);
      RunGrows(scan, states, steps, k, j);
    }
    forall k | i <= k < j
      ensures !steps[k].Mutate?
    {
      StepAt(scan, states, steps, k);
    }
    UnmutatedNamespace(scan, states, steps, i, j);
  }

  lemma SameGeneration(p: nat, q: nat)
    requires p <= q < p + U64_MODULUS && p % U64_MODULUS == q % U64_MODULUS
    ensures p == q
  {
  }

  lemma {:induction false} UnmutatedNamespace(scan: Scan, states: seq<System>, steps: seq<Step>, i: nat, j: nat)
    requires IsRun(scan, states, steps) && i <= j < |states|
    requires forall k :: i <= k < j ==> !steps[k].Mutate?
    ensures states[i].namespace == states[j].namespace
    decreases j - i
  {
    if i < j {
      UnmutatedNamespace(scan, states, steps, i, j - 1);
      StepAt(scan, states, steps, j - 1);
    }
  }

  /**
   In every reachable state, whatever the cache would hand to the holder of a clean
   read guard is exactly what scanning the directory now would give.
   */
  lemma CachedListingIsCurrent(scan: Scan, states: seq<System>, steps: seq<Step>, i: nat, r: ReaderId, key: Key)
    requires IsRun(scan, states, steps) && i < |states|
    requires states[i].published < U64_MODULUS
    requires HoldsCleanRead(states[i], r, key.generation) && key in states[i].cache
    ensures Some(states[i].cache[key]) == scan(states[i].namespace, Request(key))
  {
    RunInvariant(scan, states, steps, i);
    assert Agrees(scan, states[i], key, Some(states[i].cache[key]));
  }

  /** A writer that goes away without publishing leaves recovery required until someone publishes. */
  lemma {:induction false} DroppedWriterIsSticky(scan: Scan, states: seq<System>, steps: seq<Step>, i: nat, j: nat)
    requires IsRun(scan, states, steps) && i < j < |states|
    requires steps[i] == MarkMutation
    requires forall k :: i < k < j ==> steps[k] != ClearRequired
    ensures states[j].recoveryRequired
    decreases j
  {
    StepAt(scan, states, steps, j - 1);
    if i + 1 < j {
      DroppedWriterIsSticky(scan, states, steps, i, j - 1);
    }
  }

  /** The flag was never cleared before step `i`, or a mutation was marked since. */
  predicate WorkOwed(steps: seq<Step>, i: nat)
    requires i <= |steps|
  {
    forall k :: 0 <= k < i && steps[k] == ClearRequired ==> exists m :: k < m < i && steps[m] == MarkMutation
  }

  lemma StepFlag(scan: Scan, s: System, step: Step, t: System)
    requires Next(scan, s, step, t)
    ensures t.recoveryRequired == if step == ClearRequired then false else if step == MarkMutation then true else s.recoveryRequired
  {
    if ReaderStep(step) {
      ReaderStepFrame(scan, s, step, t);
    } else if CacheStep(step) {
      CacheStepFrame(scan, s, step, t);
    }
  }

  lemma OwedNext(steps: seq<Step>, i: nat)
    requires i < |steps|
    ensures WorkOwed(steps, i + 1) <==> if steps[i] == ClearRequired then false else steps[i] == MarkMutation || WorkOwed(steps, i)
  {
    if steps[i] != ClearRequired && steps[i] != MarkMutation {
      forall k | 0 <= k < i && steps[k] == ClearRequired
        ensures (exists m :: k < m < i + 1 && steps[m] == MarkMutation) <==> exists m :: k < m < i && steps[m] == MarkMutation
      {
        if exists m :: k < m < i && steps[m] == MarkMutation {
          var m :| k < m < i && steps[m] == MarkMutation;
          assert m < i + 1;
        }
      }
    }
  }

  /** Recovery is required exactly while some mutation was marked that nobody has published, or nothing was ever published. */
  lemma {:induction false} FlagIsHistory(scan: Scan, states: seq<System>, steps: seq<Step>, i: nat)
    requires IsRun(scan, states, steps) && i < |states|
    ensures states[i].recoveryRequired <==> WorkOwed(steps, i)
    decreases i
  {
    if i > 0 {
      FlagIsHistory(scan, states, steps, i - 1);
      assert TakesStep(scan, states, steps, i - 1);
      StepFlag(scan, states[i - 1], steps[i - 1], states[i]);
      OwedNext(steps, i - 1);
    }
  }

  /** A writer is told the truth about whether there is work left over when it enters. */
  lemma WriterIsToldOfOwedWork(scan: Scan, states: seq<System>, steps: seq<Step>, i: nat)
    requires IsRun(scan, states, steps) && i < |steps| && (steps[i] == MarkMutation || steps[i] == LoadRecovery)
    ensures states[i + 1].writer == Active(WorkOwed(steps, i))
  {
    FlagIsHistory(scan, states, steps, i);
    assert TakesStep(scan, states, steps, i);
  }

  // ----- The cache object takes these steps -----

  /** Pruning expired records only takes snapshots away. */
  lemma PruningIsAStep(before: DirectoryCache.Records, ttl: nat, now: Instant)
    ensures CacheShrinksTo(DirectoryCache.Snapshots(before), DirectoryCache.Snapshots(DirectoryCache.Fresh(before, ttl, now)))
  {
  }

  /** So does a lookup, which prunes and then only marks the record it found. */
  lemma LookupIsAStep(before: DirectoryCache.Records, key: Key, ttl: nat, now: Instant, lastUsed: nat)
    requires key in DirectoryCache.Fresh(before, ttl, now)
    ensures
      var fresh' := DirectoryCache.Fresh(before, ttl, now);
      CacheShrinksTo(DirectoryCache.Snapshots(before),
                     DirectoryCache.Snapshots(fresh'[key := fresh'[key].(lastUsed := lastUsed)]))
  {
  }

  /** An insertion adds at most the snapshot that was loaded, under its own key. */
  lemma InsertionIsAStep(scan: Scan, s: System, t: System, before: DirectoryCache.Records, after: DirectoryCache.Records,
                         loaded: Loaded, ttl: nat, now: Instant)
    requires loaded in s.loads && s.cache == DirectoryCache.Snapshots(before)
    requires loaded.key in after && (after[loaded.key].value.Some? ==> Some(after[loaded.key].value.value) == loaded.snapshot)
    requires DirectoryCache.KeepsMostRecent(DirectoryCache.Fresh(before, ttl, now) - {loaded.key}, after - {loaded.key})
    requires t == s.(cache := DirectoryCache.Snapshots(after))
    ensures Next(scan, s, InsertLoaded(loaded), t)
  {
    DirectoryCache.InsertAddsOnlyItsSnapshot(before, after, loaded.key, ttl, now);
  }
}
