/**
 The login limiter as an object: the map, the bucket vector and the operation counter
 are updated in place, step by step, and each call is proved to perform the
 transition of the same name in `LoginLimiting`.

 Every single update is noted in a ghost trace, so the states in which a call can be
 interrupted are those its own loops pass through, and not a guess about them.
 */
module LoginLimiterObject {
  import opened Common
  import opened AttemptHistories
  import opened LoginLimiting
  import opened LoginLimiterSafety
  import opened LoginLimiterAdmission

  ghost predicate Distinct<T>(s: seq<T>) {
    forall i, j :: 0 <= i < j < |s| ==> s[i] != s[j]
  }

  ghost function Members<T>(s: seq<T>): set<T> { set x | x in s }

  lemma MembersPush<T>(s: seq<T>, x: T)
    ensures Members(s + [x]) == Members(s) + {x}
  {
  }

  lemma MembersTake<T>(s: seq<T>, i: nat)
    requires i < |s|
    ensures Members(s[..i + 1]) == Members(s[..i]) + {s[i]}
  {
    assert s[..i + 1] == s[..i] + [s[i]];
    MembersPush(s[..i], s[i]);
  }

  method PruneHistory(window: nat, h: History, now: Instant) returns (r: History)
    ensures r == Prune(window, h, now)
  {
    r := [];
    for i := 0 to |h|
      invariant r == Prune(window, h[..i], now)
    {
      PruneAppend(window, h[..i], h[i], now);
      assert h[..i] + [h[i]] == h[..i + 1];
      if Live(window, now, h[i]) {
        r := r + [h[i]];
      }
    }
    assert h[..|h|] == h;
  }

  method UniqueKeys(keys: seq<Key>) returns (u: seq<Key>)
    ensures u == Unique(keys)
  {
    u := [];
    for i := 0 to |keys|
      invariant u == Unique(keys[..i])
    {
      assert keys[..i + 1][..i] == keys[..i];
      if keys[i] !in keys[..i] {
        u := u + [keys[i]];
      }
    }
    assert keys[..|keys|] == keys;
  }

  /** The two lists name each planned key and bucket once. */
  ghost predicate Charges(p: Plan, primary: seq<Key>, targets: seq<nat>) {
    && Members(primary) == p.existing + p.added && Distinct(primary)
    && Members(targets) == p.targets && Distinct(targets)
  }

  lemma PlanFits(c: Settings, st: State, keys: seq<Key>, now: Instant)
    requires c.Valid() && |st.overflow| == c.buckets
    ensures
      var (ready, p) := Prepared(c, st, keys, now);
      && p.overflow == ready.overflow
      && p.existing <= ready.entries.Keys && p.added !! ready.entries.Keys
      && forall b :: b in p.targets ==> b < |ready.overflow|
  {
    PreparedOnlyPrunes(c, st, keys, now);
  }

  /** Listing the plan's keys and buckets in any order asks the same question. */
  lemma FullIsBlocked(c: Settings, entries: map<Key, History>, p: Plan, primary: seq<Key>, targets: seq<nat>)
    requires Members(primary) == p.existing + p.added && Members(targets) == p.targets
    requires forall j :: 0 <= j < |targets| ==> targets[j] < |p.overflow|
    requires p.added !! entries.Keys
    ensures Blocked(c, entries, p) <==>
      || (exists k :: k in primary && EntryFull(c, entries, k))
      || (exists j :: 0 <= j < |targets| && BucketFull(c, p.overflow[targets[j]]))
  {
    if k :| k in primary && EntryFull(c, entries, k) {
      assert k in Members(primary);
    }
    if k :| k in p.existing && EntryFull(c, entries, k) {
      assert k in Members(primary);
    }
    if j :| 0 <= j < |targets| && BucketFull(c, p.overflow[targets[j]]) {
      assert targets[j] in Members(targets);
    }
    if b :| b in p.targets && b < |p.overflow| && BucketFull(c, p.overflow[b]) {
      assert b in Members(targets);
      var j :| 0 <= j < |targets| && targets[j] == b;
    }
  }

  // ----- Single updates -----

  lemma PruneOneEntry(c: Settings, st: State, key: Key, now: Instant)
    requires key in st.entries
    ensures OnlyPruned(c, st, st.(entries := st.entries[key := Prune(c.window, st.entries[key], now)]), now)
  {
  }

  lemma DropOneEntry(c: Settings, st: State, key: Key, now: Instant)
    requires key in st.entries && st.entries[key] == []
    ensures OnlyPruned(c, st, st.(entries := st.entries - {key}), now)
  {
  }

  lemma PruneOneBucket(c: Settings, st: State, i: nat, b: Bucket, now: Instant)
    requires i < |st.overflow| && PrunedHistory(c, Contents(st.overflow[i]), Contents(b), now)
    ensures OnlyPruned(c, st, st.(overflow := st.overflow[i := b]), now)
  {
  }

  /** The entries with all but those in `todo` pruned and, where nothing is left, removed. */
  ghost function Retained(c: Settings, all: map<Key, History>, todo: set<Key>, now: Instant): map<Key, History> {
    map k | k in all && (k in todo || Prune(c.window, all[k], now) != [])
      :: if k in todo then all[k] else Prune(c.window, all[k], now)
  }

  lemma RetainedNext(c: Settings, all: map<Key, History>, todo: set<Key>, key: Key, now: Instant)
    requires key in todo && todo <= all.Keys
    ensures
      var pruned := Retained(c, all, todo, now)[key := Prune(c.window, all[key], now)];
      Retained(c, all, todo - {key}, now) == if pruned[key] == [] then pruned - {key} else pruned
  {
  }

  lemma RetainedEnds(c: Settings, all: map<Key, History>, now: Instant)
    ensures Retained(c, all, all.Keys, now) == all && Retained(c, all, {}, now) == PruneAll(c, all, now)
  {
  }

  /** The entries with all but those in `todo` truncated. */
  ghost function Truncated(c: Settings, all: map<Key, History>, todo: set<Key>): map<Key, History> {
    map k | k in all :: if k in todo then all[k] else KeepNewest(c, all[k])
  }

  lemma TruncatedNext(c: Settings, all: map<Key, History>, todo: set<Key>, key: Key)
    requires key in todo && todo <= all.Keys
    ensures Truncated(c, all, todo)[key := KeepNewest(c, all[key])] == Truncated(c, all, todo - {key})
    ensures |all[key]| <= c.max ==> Truncated(c, all, todo) == Truncated(c, all, todo - {key})
  {
  }

  lemma TruncatedEnds(c: Settings, all: map<Key, History>)
    ensures Truncated(c, all, all.Keys) == all
    ensures Truncated(c, all, {}) == map k | k in all :: KeepNewest(c, all[k])
  {
  }

  /** The entries with those in `done` pruned. */
  ghost function PrunedIn(c: Settings, all: map<Key, History>, done: set<Key>, now: Instant): map<Key, History> {
    map k | k in all :: if k in done then Prune(c.window, all[k], now) else all[k]
  }

  lemma PrunedInNext(c: Settings, all: map<Key, History>, done: set<Key>, key: Key, now: Instant)
    ensures key in all ==>
      var part := PrunedIn(c, all, done, now);
      part[key := Prune(c.window, part[key], now)] == PrunedIn(c, all, done + {key}, now)
    ensures key !in all ==> PrunedIn(c, all, done + {key}, now) == PrunedIn(c, all, done, now)
    ensures PrunedIn(c, all, {}, now) == all
  {
    if key in all {
      PruneTwice(c.window, all[key], now);
    }
  }

  /** The entries without those in `done` that are empty. */
  ghost function WithoutEmpty(all: map<Key, History>, done: set<Key>): map<Key, History> {
    map k | k in all && !(k in done && all[k] == []) :: all[k]
  }

  lemma WithoutEmptyNext(all: map<Key, History>, done: set<Key>, key: Key)
    ensures
      var part := WithoutEmpty(all, done);
      WithoutEmpty(all, done + {key}) == if key in part && part[key] == [] then part - {key} else part
    ensures WithoutEmpty(all, {}) == all
  {
  }

  lemma PrunedThenRemoved(c: Settings, all: map<Key, History>, keys: set<Key>, now: Instant)
    ensures WithoutEmpty(PrunedIn(c, all, keys, now), keys) == PruneKeys(c, all, keys, now)
  {
  }

  lemma NothingChosen(c: Settings, entries: map<Key, History>, overflow: seq<Bucket>, keys: seq<Key>, now: Instant)
    requires c.Valid() && |overflow| == c.buckets
    ensures
      var p := PlanKeys(c, entries, overflow, keys[..0], now);
      && p.overflow == overflow && p.slots == (if |entries| > c.capacity then 0 else c.capacity - |entries|)
      && Charges(p, [], [])
  {
  }

  lemma TruncatedAt(c: Settings, found: map<Key, History>, all: map<Key, History>, todo: set<Key>, key: Key, now: Instant)
    requires all == PruneAll(c, found, now) && key in todo && todo <= all.Keys
    ensures key in found && key in Truncated(c, all, todo)
    ensures Truncated(c, all, todo)[key] == all[key] == Prune(c.window, found[key], now)
  {
  }

  lemma PushBucketNext(all: seq<Bucket>, charged: set<nat>, b: nat, now: Instant)
    requires b < |all| && b !in charged
    ensures PushBuckets(all, charged, now)[b := Some(Contents(all[b]) + [now])] == PushBuckets(all, charged + {b}, now)
    ensures PushBuckets(all, charged, now)[b] == all[b]
  {
  }

  lemma PushBucketNone(all: seq<Bucket>, now: Instant)
    ensures PushBuckets(all, {}, now) == all
  {
  }

  lemma PushNext(all: map<Key, History>, charged: set<Key>, key: Key, now: Instant)
    requires key !in charged
    ensures PushEntries(all, charged, now)[key := Base(all, key) + [now]] == PushEntries(all, charged + {key}, now)
    ensures Base(PushEntries(all, charged, now), key) == Base(all, key)
  {
    assert key in all ==> all[key] + [] == all[key];
  }

  lemma PushNone(all: map<Key, History>, now: Instant)
    ensures PushEntries(all, {}, now) == all
  {
    assert forall k :: k in all ==> all[k] + [] == all[k];
  }

  /** The history a key starts from when it is charged. */
  function Base(entries: map<Key, History>, key: Key): History { if key in entries then entries[key] else [] }

  lemma PutPartly(ready: State, p: Plan, m: State, key: Key, h: History, now: Instant)
    requires PartlyRecorded(ready, p, m, now) && (key in ready.entries || key in p.added)
    requires PushedOrNot(Base(ready.entries, key), h, now)
    ensures PartlyRecorded(ready, p, m.(entries := m.entries[key := h]), now)
  {
  }

  lemma PutBucketPartly(ready: State, p: Plan, m: State, i: nat, b: Bucket, now: Instant)
    requires PartlyRecorded(ready, p, m, now) && i < |m.overflow|
    requires PushedOrNot(Contents(ready.overflow[i]), Contents(b), now)
    ensures PartlyRecorded(ready, p, m.(overflow := m.overflow[i := b]), now)
  {
  }

  lemma PrunedIsRecovering(c: Settings, found: State, m: State, now: Instant)
    requires OnlyPruned(c, found, m, now)
    ensures Recovering(c, found, m, now)
  {
  }

  lemma PutRecovering(c: Settings, found: State, m: State, key: Key, h: History, now: Instant)
    requires Recovering(c, found, m, now) && key in m.entries && RecoveringHistory(c, found.entries[key], h, now)
    ensures Recovering(c, found, m.(entries := m.entries[key := h]), now)
  {
  }

  lemma PutBucketRecovering(c: Settings, found: State, m: State, i: nat, b: Bucket, now: Instant)
    requires Recovering(c, found, m, now) && i < |m.overflow|
    requires RecoveringHistory(c, Contents(found.overflow[i]), Contents(b), now)
    ensures Recovering(c, found, m.(overflow := m.overflow[i := b]), now)
  {
  }

  class LoginLimiter {
    const c: Settings
    var entries: map<Key, History>
    var overflow: seq<Bucket>
    var operations: nat
    var poisoned: bool
    /** Every state the limiter has been in since it was made, one per update. */
    ghost var trace: seq<State>

    ghost function View(): State
      reads this
    {
      State(entries, overflow, operations)
    }

    /** Both stores are given room for at least one; the hash is reduced to the buckets there are. */
    constructor (max: nat, window: nat, capacity: nat, buckets: nat, bucketOf: Key -> nat)
      requires forall k :: bucketOf(k) < if buckets == 0 then 1 else buckets
      ensures c.Valid() && !poisoned && c.max == max && c.window == window
      ensures (capacity > 0 ==> c.capacity == capacity) && (buckets > 0 ==> c.buckets == buckets)
      ensures View() == State(map[], seq(c.buckets, _ => None), 0)
    {
      var atLeastOne := if buckets == 0 then 1 else buckets;
      c := Settings(max, window, if capacity == 0 then 1 else capacity, atLeastOne, bucketOf);
      entries := map[];
      overflow := seq(atLeastOne, _ => None);
      operations := 0;
      poisoned := false;
      trace := [];
    }

    // ----- The only methods that write the stores -----

    method PutEntry(key: Key, h: History)
      modifies this`entries, this`trace
      ensures entries == old(entries)[key := h] && trace == old(trace) + [View()]
    {
      entries := entries[key := h];
      trace := trace + [View()];
    }

    method DropEntry(key: Key)
      modifies this`entries, this`trace
      ensures entries == old(entries) - {key} && trace == old(trace) + [View()]
    {
      entries := entries - {key};
      trace := trace + [View()];
    }

    method PutBucket(i: nat, b: Bucket)
      requires i < |overflow|
      modifies this`overflow, this`trace
      ensures overflow == old(overflow)[i := b] && trace == old(trace) + [View()]
    {
      overflow := overflow[i := b];
      trace := trace + [View()];
    }

    method Tick()
      modifies this`operations, this`trace
      ensures operations == (old(operations) + 1) % U64_MODULUS && trace == old(trace) + [View()]
    {
      operations := (operations + 1) % U64_MODULUS;
      trace := trace + [View()];
    }

    method ClearEntries()
      modifies this`entries, this`trace
      ensures entries == map[] && trace == old(trace) + [View()]
    {
      entries := map[];
      trace := trace + [View()];
    }

    method ReplaceBuckets(buckets: seq<Bucket>)
      modifies this`overflow, this`trace
      ensures overflow == buckets && trace == old(trace) + [View()]
    {
      overflow := buckets;
      trace := trace + [View()];
    }

    // ----- Pruning -----

    /** Since the first `n` states of the trace, nothing but expired attempts of `start` has gone. */
    ghost predicate Pruning(start: State, n: nat, now: Instant)
      reads this
    {
      && n <= |trace|
      && OnlyPruned(c, start, View(), now)
      && forall i :: n <= i < |trace| ==> OnlyPruned(c, start, trace[i], now)
    }

    /** Prunes one history in place. */
    method PruneEntry(key: Key, now: Instant, ghost start: State, ghost n: nat)
      requires key in entries && Pruning(start, n, now)
      modifies this`entries, this`trace
      ensures entries == old(entries)[key := Prune(c.window, old(entries)[key], now)]
      ensures old(trace) <= trace
      ensures Pruning(start, n, now)
    {
      ghost var before := View();
      var h := PruneHistory(c.window, entries[key], now);
      PutEntry(key, h);
      PruneOneEntry(c, before, key, now);
      OnlyPrunedTrans(c, start, before, View(), now);
    }

    /** Removes an entry that has become empty. */
    method RemoveEmpty(key: Key, now: Instant, ghost start: State, ghost n: nat)
      requires key in entries && entries[key] == [] && Pruning(start, n, now)
      modifies this`entries, this`trace
      ensures entries == old(entries) - {key}
      ensures old(trace) <= trace
      ensures Pruning(start, n, now)
    {
      ghost var before := View();
      DropEntry(key);
      DropOneEntry(c, before, key, now);
      OnlyPrunedTrans(c, start, before, View(), now);
    }

    /** Prunes one bucket in place and clears it when nothing is left. */
    method ExpireBucket(i: nat, now: Instant, ghost start: State, ghost n: nat)
      requires i < |overflow| && Pruning(start, n, now)
      modifies this`overflow, this`trace
      ensures overflow == old(overflow)[i := PruneBucket(c, old(overflow)[i], now)]
      ensures old(trace) <= trace
      ensures Pruning(start, n, now)
    {
      if overflow[i].Some? {
        ghost var before := View();
        var h := PruneHistory(c.window, overflow[i].value, now);
        PutBucket(i, Some(h));
        PruneOneBucket(c, before, i, Some(h), now);
        OnlyPrunedTrans(c, start, before, View(), now);
        if h == [] {
          ghost var pruned := View();
          PutBucket(i, None);
          PruneOneBucket(c, pruned, i, None, now);
          OnlyPrunedTrans(c, start, pruned, View(), now);
        }
      }
    }

    method RetainLive(now: Instant, ghost start: State, ghost n: nat)
      requires Pruning(start, n, now)
      modifies this`entries, this`trace
      ensures entries == PruneAll(c, old(entries), now)
      ensures old(trace) <= trace
      ensures Pruning(start, n, now)
    {
      ghost var all := entries;
      var todo := entries.Keys;
      RetainedEnds(c, all, now);
      while todo != {}
        invariant old(trace) <= trace
        invariant todo <= all.Keys && Pruning(start, n, now)
        invariant entries == Retained(c, all, todo, now)
        decreases |todo|
      {
        var k :| k in todo;
        RetainEntry(k, now, start, n, all, todo);
        todo := todo - {k};
      }
    }

    /** Prunes one entry and removes it when nothing is left. */
    method RetainEntry(key: Key, now: Instant, ghost start: State, ghost n: nat, ghost all: map<Key, History>, ghost todo: set<Key>)
      requires Pruning(start, n, now)
      requires key in todo && todo <= all.Keys && entries == Retained(c, all, todo, now)
      modifies this`entries, this`trace
      ensures entries == Retained(c, all, todo - {key}, now)
      ensures old(trace) <= trace
      ensures Pruning(start, n, now)
    {
      RetainedNext(c, all, todo, key, now);
      PruneEntry(key, now, start, n);
      if entries[key] == [] {
        RemoveEmpty(key, now, start, n);
      }
    }

    method ExpireBuckets(now: Instant, ghost start: State, ghost n: nat)
      requires Pruning(start, n, now)
      modifies this`overflow, this`trace
      ensures |overflow| == |old(overflow)|
      ensures forall i :: 0 <= i < |overflow| ==> overflow[i] == PruneBucket(c, old(overflow)[i], now)
      ensures old(trace) <= trace
      ensures Pruning(start, n, now)
    {
      ghost var all := overflow;
      for i := 0 to |overflow|
        invariant old(trace) <= trace
        invariant |overflow| == |all| && Pruning(start, n, now)
        invariant forall j :: i <= j < |all| ==> overflow[j] == all[j]
        invariant forall j :: 0 <= j < i ==> overflow[j] == PruneBucket(c, all[j], now)
      {
        ExpireBucket(i, now, start, n);
      }
    }

    method CleanupExpired(now: Instant, ghost start: State, ghost n: nat)
      requires Pruning(start, n, now)
      modifies this`entries, this`overflow, this`trace
      ensures View() == Cleanup(c, old(View()), now)
      ensures old(trace) <= trace
      ensures Pruning(start, n, now)
    {
      RetainLive(now, start, n);
      ExpireBuckets(now, start, n);
      assert overflow == Cleanup(c, old(View()), now).overflow;
    }

    method CleanPeriodically(now: Instant, ghost start: State, ghost n: nat)
      requires Pruning(start, n, now)
      modifies this`entries, this`overflow, this`operations, this`trace
      ensures View() == PeriodicCleanup(c, old(View()), now)
      ensures old(trace) <= trace
      ensures Pruning(start, n, now)
    {
      Tick();
      if operations % GLOBAL_CLEANUP_INTERVAL == 0 {
        CleanupExpired(now, start, n);
      }
    }

    /** Prunes the requested entries. */
    method PruneRequested(keys: seq<Key>, now: Instant, ghost start: State, ghost n: nat)
      requires Pruning(start, n, now)
      modifies this`entries, this`trace
      ensures entries == PrunedIn(c, old(entries), Members(keys), now)
      ensures old(trace) <= trace
      ensures Pruning(start, n, now)
    {
      ghost var all := entries;
      for i := 0 to |keys|
        invariant old(trace) <= trace
        invariant Pruning(start, n, now)
        invariant entries == PrunedIn(c, all, Members(keys[..i]), now)
      {
        MembersTake(keys, i);
        PrunedInNext(c, all, Members(keys[..i]), keys[i], now);
        if keys[i] in entries {
          PruneEntry(keys[i], now, start, n);
        }
      }
      assert keys[..|keys|] == keys;
    }

    /** Removes the requested entries that are empty. */
    method RemoveEmptied(keys: seq<Key>, now: Instant, ghost start: State, ghost n: nat)
      requires Pruning(start, n, now)
      modifies this`entries, this`trace
      ensures entries == WithoutEmpty(old(entries), Members(keys))
      ensures old(trace) <= trace
      ensures Pruning(start, n, now)
    {
      ghost var all := entries;
      for i := 0 to |keys|
        invariant old(trace) <= trace
        invariant Pruning(start, n, now)
        invariant entries == WithoutEmpty(all, Members(keys[..i]))
      {
        MembersTake(keys, i);
        WithoutEmptyNext(all, Members(keys[..i]), keys[i]);
        if keys[i] in entries && entries[keys[i]] == [] {
          RemoveEmpty(keys[i], now, start, n);
        }
      }
      assert keys[..|keys|] == keys;
    }

    method PruneAndRemove(keys: seq<Key>, now: Instant, ghost start: State, ghost n: nat)
      requires Pruning(start, n, now)
      modifies this`entries, this`trace
      ensures entries == PruneKeys(c, old(entries), Members(keys), now)
      ensures old(trace) <= trace
      ensures Pruning(start, n, now)
    {
      PruneRequested(keys, now, start, n);
      RemoveEmptied(keys, now, start, n);
      PrunedThenRemoved(c, old(entries), Members(keys), now);
    }

    /** Decides for every key whether its entry, a new entry or its bucket is charged. */
    method ChooseTargets(keys: seq<Key>, now: Instant, ghost start: State, ghost n: nat)
      returns (primary: seq<Key>, targets: seq<nat>)
      requires c.Valid() && |overflow| == c.buckets && Distinct(keys) && Pruning(start, n, now)
      modifies this`overflow, this`trace
      ensures overflow == PlanKeys(c, entries, old(overflow), keys, now).overflow
      ensures Charges(PlanKeys(c, entries, old(overflow), keys, now), primary, targets)
      ensures old(trace) <= trace
      ensures Pruning(start, n, now)
    {
      primary, targets := [], [];
      var slots := if |entries| > c.capacity then 0 else c.capacity - |entries|;
      ghost var before := overflow;
      NothingChosen(c, entries, before, keys, now);
      for i := 0 to |keys|
        invariant old(trace) <= trace
        invariant |overflow| == c.buckets && Pruning(start, n, now)
        invariant
          var p := PlanKeys(c, entries, before, keys[..i], now);
          overflow == p.overflow && slots == p.slots && Charges(p, primary, targets)
        invariant forall k :: k in primary ==> k in keys[..i]
      {
        assert keys[..i + 1][..i] == keys[..i];
        ghost var p := PlanKeys(c, entries, before, keys[..i], now);
        slots, primary, targets := ChooseTarget(keys[i], now, slots, primary, targets, p, start, n);
      }
      assert keys[..|keys|] == keys;
    }

    /** The same for one key. */
    method ChooseTarget(key: Key, now: Instant, slots: nat, primary: seq<Key>, targets: seq<nat>, ghost p: Plan, ghost start: State, ghost n: nat)
      returns (slots': nat, primary': seq<Key>, targets': seq<nat>)
      requires c.Valid() && |overflow| == c.buckets && Pruning(start, n, now)
      requires overflow == p.overflow && slots == p.slots && Charges(p, primary, targets) && key !in primary
      modifies this`overflow, this`trace
      ensures
        var q := PlanKey(c, entries, p, key, now);
        overflow == q.overflow && slots' == q.slots && Charges(q, primary', targets')
      ensures forall k :: k in primary' ==> k in primary || k == key
      ensures old(trace) <= trace
      ensures Pruning(start, n, now)
    {
      slots', primary', targets' := slots, primary, targets;
      if key in entries {
        primary' := AddKey(primary, key);
        return;
      }
      var b := c.bucketOf(key);
      ExpireBucket(b, now, start, n);
      if overflow[b].Some? || slots == 0 {
        targets' := AddTarget(targets, b);
      } else {
        primary' := AddKey(primary, key);
        slots' := slots - 1;
      }
    }

    // ----- Locking -----

    /** Since the first `n` states of the trace, a sound state is being recovered. */
    ghost predicate Restoring(found: State, n: nat, now: Instant)
      reads this
    {
      && n <= |trace|
      && Recovering(c, found, View(), now)
      && forall i :: n <= i < |trace| ==> Recovering(c, found, trace[i], now)
    }

    ghost method PrunedSoFar(found: State, n: nat, now: Instant)
      requires Pruning(found, n, now)
      ensures Restoring(found, n, now)
    {
      PrunedIsRecovering(c, found, View(), now);
      forall i | n <= i < |trace| ensures Recovering(c, found, trace[i], now) {
        PrunedIsRecovering(c, found, trace[i], now);
      }
    }

    /** Locks the state, rebuilding it first when an earlier holder panicked. */
    method LockState(now: Instant)
      modifies this
      ensures !poisoned
      ensures View() == if old(poisoned) then Recover(c, old(View()), now) else old(View())
      ensures old(trace) <= trace
      ensures forall i :: |old(trace)| <= i < |trace| ==> LockMoment(c, old(View()), trace[i], now)
      ensures !old(poisoned) ==> trace == old(trace)
    {
      if poisoned {
        if |overflow| != c.buckets || |entries| > c.capacity {
          ClearEntries();
          ReplaceBuckets(seq(c.buckets, _ => Some(FullHistory(c, now))));
        } else {
          RestoreSound(now);
        }
        poisoned := false;
      }
    }

    method RestoreSound(now: Instant)
      requires !Damaged(c, View())
      modifies this`entries, this`overflow, this`trace
      ensures View() == Recover(c, old(View()), now)
      ensures old(trace) <= trace
      ensures Restoring(old(View()), |old(trace)|, now)
    {
      ghost var found, n := View(), |trace|;
      CleanupExpired(now, found, n);
      PrunedSoFar(found, n, now);
      TruncatedEnds(c, entries);
      TruncateEntries(now, found, n);
      TruncateOverflow(now, found, n);
      assert View() == Recover(c, old(View()), now);
    }

    method TruncateEntries(now: Instant, ghost found: State, ghost n: nat)
      requires Restoring(found, n, now) && entries == PruneAll(c, found.entries, now)
      modifies this`entries, this`trace
      ensures entries == Truncated(c, old(entries), {})
      ensures old(trace) <= trace
      ensures Restoring(found, n, now)
    {
      ghost var all := entries;
      var todo := entries.Keys;
      TruncatedEnds(c, all);
      while todo != {}
        invariant old(trace) <= trace
        invariant todo <= all.Keys && Restoring(found, n, now)
        invariant entries == Truncated(c, all, todo)
        decreases |todo|
      {
        var k :| k in todo;
        TruncateEntry(k, now, found, n, all, todo);
        todo := todo - {k};
      }
    }

    /** Keeps the newest attempts of one pruned entry. */
    method TruncateEntry(key: Key, now: Instant, ghost found: State, ghost n: nat, ghost all: map<Key, History>, ghost todo: set<Key>)
      requires Restoring(found, n, now) && all == PruneAll(c, found.entries, now)
      requires key in todo && todo <= all.Keys && entries == Truncated(c, all, todo)
      modifies this`entries, this`trace
      ensures entries == Truncated(c, all, todo - {key})
      ensures old(trace) <= trace
      ensures Restoring(found, n, now)
    {
      TruncatedNext(c, all, todo, key);
      TruncatedAt(c, found.entries, all, todo, key, now);
      if |entries[key]| > c.max {
        DropExcess(key, now, found, n);
      }
    }

    method DropExcess(key: Key, now: Instant, ghost found: State, ghost n: nat)
      requires Restoring(found, n, now) && key in entries && |entries[key]| > c.max
      requires key in found.entries && entries[key] == Prune(c.window, found.entries[key], now)
      modifies this`entries, this`trace
      ensures entries == old(entries)[key := KeepNewest(c, old(entries)[key])]
      ensures old(trace) <= trace
      ensures Restoring(found, n, now)
    {
      ghost var before := View();
      var excess := |entries[key]| - c.max;
      var newest := entries[key][excess..];
      PutEntry(key, newest);
      PutRecovering(c, found, before, key, newest, now);
    }

    method TruncateOverflow(now: Instant, ghost found: State, ghost n: nat)
      requires Restoring(found, n, now)
      requires forall i :: 0 <= i < |overflow| ==> overflow[i] == PruneBucket(c, found.overflow[i], now)
      modifies this`overflow, this`trace
      ensures |overflow| == |old(overflow)|
      ensures forall i :: 0 <= i < |overflow| ==>
        overflow[i] == if old(overflow)[i].Some? then Some(KeepNewest(c, old(overflow)[i].value)) else None
      ensures old(trace) <= trace
      ensures Restoring(found, n, now)
    {
      ghost var all := overflow;
      for i := 0 to |overflow|
        invariant old(trace) <= trace
        invariant |overflow| == |all| && Restoring(found, n, now)
        invariant forall j :: i <= j < |all| ==> overflow[j] == all[j]
        invariant forall j :: 0 <= j < i ==> overflow[j] == if all[j].Some? then Some(KeepNewest(c, all[j].value)) else None
      {
        if overflow[i].Some? && |overflow[i].value| > c.max {
          ghost var before := View();
          var excess := |overflow[i].value| - c.max;
          var newest := overflow[i].value[excess..];
          PutBucket(i, Some(newest));
          PutBucketRecovering(c, found, before, i, Some(newest), now);
        }
      }
    }

    // ----- Deciding and recording -----

    /** Whether any chosen entry or bucket has already reached the maximum. */
    method AnyFull(primary: seq<Key>, targets: seq<nat>) returns (full: bool)
      requires forall j :: 0 <= j < |targets| ==> targets[j] < |overflow|
      ensures full <==>
        || (exists k :: k in primary && EntryFull(c, entries, k))
        || (exists j :: 0 <= j < |targets| && BucketFull(c, overflow[targets[j]]))
    {
      for i := 0 to |primary|
        invariant forall j :: 0 <= j < i ==> !EntryFull(c, entries, primary[j])
      {
        if primary[i] in entries && |entries[primary[i]]| >= c.max {
          assert EntryFull(c, entries, primary[i]);
          return true;
        }
      }
      for i := 0 to |targets|
        invariant forall j :: 0 <= j < i ==> !BucketFull(c, overflow[targets[j]])
      {
        var b := overflow[targets[i]];
        if b.Some? && |b.value| >= c.max {
          assert BucketFull(c, overflow[targets[i]]);
          return true;
        }
      }
      return false;
    }

    /** Since the first `n` states of the trace, part of the plan is being recorded. */
    ghost predicate Recording(ready: State, p: Plan, n: nat, now: Instant)
      reads this
    {
      && n <= |trace|
      && PartlyRecorded(ready, p, View(), now)
      && forall i :: n <= i < |trace| ==> PartlyRecorded(ready, p, trace[i], now)
    }

    /** Charges one entry, inserting it first if there is none. */
    method ChargeEntry(key: Key, now: Instant, ghost ready: State, ghost p: Plan, ghost n: nat)
      requires Recording(ready, p, n, now) && (key in ready.entries || key in p.added)
      requires Base(entries, key) == Base(ready.entries, key)
      modifies this`entries, this`trace
      ensures entries == old(entries)[key := Base(ready.entries, key) + [now]]
      ensures old(trace) <= trace
      ensures Recording(ready, p, n, now)
    {
      if key !in entries {
        ghost var before := View();
        PutEntry(key, []);
        PutPartly(ready, p, before, key, [], now);
      }
      ghost var before := View();
      PutEntry(key, entries[key] + [now]);
      PutPartly(ready, p, before, key, Base(ready.entries, key) + [now], now);
    }

    method RecordEntries(primary: seq<Key>, now: Instant, ghost ready: State, ghost p: Plan, ghost n: nat)
      requires Distinct(primary) && entries == ready.entries && Recording(ready, p, n, now)
      requires forall j :: 0 <= j < |primary| ==> primary[j] in ready.entries || primary[j] in p.added
      modifies this`entries, this`trace
      ensures entries == PushEntries(old(entries), Members(primary), now)
      ensures old(trace) <= trace
      ensures Recording(ready, p, n, now)
    {
      ghost var all := entries;
      PushNone(all, now);
      for i := 0 to |primary|
        invariant old(trace) <= trace
        invariant entries == PushEntries(all, Members(primary[..i]), now) && Recording(ready, p, n, now)
      {
        MembersTake(primary, i);
        var key := primary[i];
        PushNext(all, Members(primary[..i]), key, now);
        ChargeEntry(key, now, ready, p, n);
      }
      assert primary[..|primary|] == primary;
    }

    /** Charges one bucket, making it first if there is none. */
    method ChargeBucket(b: nat, now: Instant, ghost ready: State, ghost p: Plan, ghost n: nat)
      requires b < |overflow| && Recording(ready, p, n, now)
      requires overflow[b] == ready.overflow[b]
      modifies this`overflow, this`trace
      ensures overflow == old(overflow)[b := Some(Contents(ready.overflow[b]) + [now])]
      ensures old(trace) <= trace
      ensures Recording(ready, p, n, now)
    {
      if overflow[b].None? {
        ghost var before := View();
        PutBucket(b, Some([]));
        PutBucketPartly(ready, p, before, b, Some([]), now);
      }
      ghost var before := View();
      PutBucket(b, Some(overflow[b].value + [now]));
      PutBucketPartly(ready, p, before, b, Some(Contents(ready.overflow[b]) + [now]), now);
    }

    method RecordOverflow(targets: seq<nat>, now: Instant, ghost ready: State, ghost p: Plan, ghost n: nat)
      requires Distinct(targets) && forall j :: 0 <= j < |targets| ==> targets[j] < |overflow|
      requires overflow == ready.overflow && Recording(ready, p, n, now)
      modifies this`overflow, this`trace
      ensures overflow == PushBuckets(old(overflow), Members(targets), now)
      ensures old(trace) <= trace
      ensures Recording(ready, p, n, now)
    {
      ghost var all := overflow;
      PushBucketNone(all, now);
      for i := 0 to |targets|
        invariant old(trace) <= trace
        invariant overflow == PushBuckets(all, Members(targets[..i]), now) && Recording(ready, p, n, now)
      {
        MembersTake(targets, i);
        PushBucketNext(all, Members(targets[..i]), targets[i], now);
        ChargeBucket(targets[i], now, ready, p, n);
      }
      assert targets[..|targets|] == targets;
    }

    /** Brings the state to the point of decision and names what would be charged. */
    method Prepare(keys: seq<Key>, now: Instant) returns (primary: seq<Key>, targets: seq<nat>)
      requires c.Valid() && |overflow| == c.buckets
      modifies this`entries, this`overflow, this`operations, this`trace
      ensures View() == Prepared(c, old(View()), keys, now).0
      ensures Charges(Prepared(c, old(View()), keys, now).1, primary, targets)
      ensures old(trace) <= trace
      ensures Pruning(old(View()), |old(trace)|, now)
    {
      ghost var start, n := View(), |trace|;
      var unique := UniqueKeys(keys);
      assert Members(unique) == KeySet(keys);
      CleanPeriodically(now, start, n);
      PruneAndRemove(unique, now, start, n);
      primary, targets := ChooseTargets(unique, now, start, n);
    }

    /** The decision: either every chosen entry and bucket is charged, or nothing is. */
    method RecordUnlessFull(primary: seq<Key>, targets: seq<nat>, ghost p: Plan, now: Instant) returns (admitted: bool)
      requires Charges(p, primary, targets) && p.overflow == overflow && p.existing <= entries.Keys
      requires p.added !! entries.Keys && forall b :: b in p.targets ==> b < |overflow|
      modifies this`entries, this`overflow, this`trace
      ensures admitted <==> !Blocked(c, old(entries), p)
      ensures View() == if admitted then Push(old(View()), p, now) else old(View())
      ensures old(trace) <= trace
      ensures Recording(old(View()), p, |old(trace)|, now)
    {
      ghost var ready, n := View(), |trace|;
      forall j | 0 <= j < |targets| ensures targets[j] < |overflow| {
        assert targets[j] in Members(targets);
      }
      forall j | 0 <= j < |primary| ensures primary[j] in ready.entries || primary[j] in p.added {
        assert primary[j] in Members(primary);
      }
      var full := AnyFull(primary, targets);
      FullIsBlocked(c, entries, p, primary, targets);
      if full {
        return false;
      }
      RecordEntries(primary, now, ready, p, n);
      RecordOverflow(targets, now, ready, p, n);
      return true;
    }

    /** The decision on a locked, sound state. */
    method DecideLocked(keys: seq<Key>, now: Instant) returns (admitted: bool)
      requires c.Valid() && c.max > 0 && c.window > 0 && keys != [] && |overflow| == c.buckets
      modifies this`entries, this`overflow, this`operations, this`trace
      ensures Decision(View(), admitted) == Attempt(c, old(View()), keys, now)
      ensures old(trace) <= trace
      ensures forall i :: |old(trace)| <= i < |trace| ==> Interrupted(c, old(View()), keys, trace[i], now)
    {
      ghost var found := View();
      var primary, targets := Prepare(keys, now);
      PlanFits(c, found, keys, now);
      admitted := RecordUnlessFull(primary, targets, Prepared(c, found, keys, now).1, now);
    }

    /** Admits and records an attempt against every key, or records nothing. */
    method CheckAndRecordAttempts(keys: seq<Key>, lockedAt: Instant, now: Instant) returns (admitted: bool, ghost locked: nat)
      requires c.Valid() && lockedAt <= now && (!poisoned ==> |overflow| == c.buckets)
      modifies this
      ensures c.max == 0 || c.window == 0 || keys == [] ==>
        View() == old(View()) && trace == old(trace) && (admitted <==> c.max > 0 && c.window > 0)
      ensures c.max > 0 && c.window > 0 && keys != [] ==>
        var found := if old(poisoned) then Recover(c, old(View()), lockedAt) else old(View());
        && !poisoned && |found.overflow| == c.buckets && Decision(View(), admitted) == Attempt(c, found, keys, now)
        && (admitted <==> forall k :: k in keys ==> Counting(c, found, k, now) < c.max)
      // Every state on the way: of locking up to `locked`, of the call itself from there on.
      ensures old(trace) <= trace && |old(trace)| <= locked <= |trace|
      ensures forall i :: |old(trace)| <= i < locked ==> LockMoment(c, old(View()), trace[i], lockedAt)
      ensures
        var found := if old(poisoned) then Recover(c, old(View()), lockedAt) else old(View());
        forall i :: locked <= i < |trace| ==> |found.overflow| == c.buckets && Interrupted(c, found, keys, trace[i], now)
    {
      locked := |trace|;
      if c.max == 0 || c.window == 0 {
        return false, locked;
      }
      if keys == [] {
        return true, locked;
      }
      LockState(lockedAt);
      locked := |trace|;
      AdmittedExactly(c, View(), keys, now);
      admitted := DecideLocked(keys, now);
    }

    /** Clears the exact primary history; shared buckets are left alone. */
    method Success(key: Key, lockedAt: Instant)
      modifies this
      ensures View() == Succeed(if old(poisoned) then Recover(c, old(View()), lockedAt) else old(View()), key)
      ensures
        var found := if old(poisoned) then Recover(c, old(View()), lockedAt) else old(View());
        && key !in entries && entries.Keys == found.entries.Keys - {key}
        && (forall k :: k in entries ==> entries[k] == found.entries[k])
        && overflow == found.overflow
      ensures old(trace) < trace && trace[|trace| - 1] == View()
      ensures forall i :: |old(trace)| <= i < |trace| - 1 ==> LockMoment(c, old(View()), trace[i], lockedAt)
    {
      LockState(lockedAt);
      DropEntry(key);
    }
  }

  method AddKey(keys: seq<Key>, key: Key) returns (r: seq<Key>)
    requires Distinct(keys) && key !in keys
    ensures r == keys + [key] && Distinct(r) && Members(r) == Members(keys) + {key}
  {
    MembersPush(keys, key);
    return keys + [key];
  }

  method AddTarget(targets: seq<nat>, b: nat) returns (r: seq<nat>)
    requires Distinct(targets)
    ensures Distinct(r) && Members(r) == Members(targets) + {b}
  {
    MembersPush(targets, b);
    if b in targets {
      return targets;
    }
    return targets + [b];
  }
}
