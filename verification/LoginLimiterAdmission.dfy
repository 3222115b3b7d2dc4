/**
 When the login limiter admits a call, said of the recorded attempts alone.

 A call is admitted exactly when every key it names has fewer than `max` attempts less
 than one window old in whatever guards the key.  Where an admitted attempt is recorded,
 when expired attempts go away, and what recovery keeps are stated the same way.
 */
module LoginLimiterAdmission {
  import opened Common
  import opened AttemptHistories
  import opened LoginLimiting
  import opened LoginLimiterSafety

  /** How many attempts of a history are less than one window old. */
  function Recent(window: nat, h: History, now: Instant): (n: nat)
    ensures n <= |h|
  {
    if h == [] then 0
    else Recent(window, h[..|h| - 1], now) + if h[|h| - 1] + window > now then 1 else 0
  }

  /** What counts against a key: its own recent attempts if it has any, else those of its bucket. */
  function Counting(c: Settings, st: State, key: Key, now: Instant): nat
    requires c.Valid() && |st.overflow| == c.buckets
  {
    var own := if key in st.entries then Recent(c.window, st.entries[key], now) else 0;
    if own > 0 then own else Recent(c.window, Contents(st.overflow[c.bucketOf(key)]), now)
  }

  lemma {:induction false} PruneCounts(window: nat, h: History, now: Instant)
    requires window > 0
    ensures |Prune(window, h, now)| == Recent(window, h, now)
    decreases |h|
  {
    if h != [] {
      PruneCounts(window, h[..|h| - 1], now);
    }
  }

  lemma PrunedCounts(c: Settings, h: History, r: History, now: Instant)
    requires c.window > 0 && PrunedHistory(c, h, r, now)
    ensures Prune(c.window, r, now) == Prune(c.window, h, now)
    ensures Recent(c.window, r, now) == Recent(c.window, h, now)
  {
    PruneTwice(c.window, h, now);
    PruneCounts(c.window, h, now);
    PruneCounts(c.window, r, now);
  }

  /** Pruning changes nothing about what counts. */
  lemma PrunedSameCounting(c: Settings, st: State, r: State, key: Key, now: Instant)
    requires c.Valid() && c.window > 0 && |st.overflow| == c.buckets && OnlyPruned(c, st, r, now)
    ensures Counting(c, st, key, now) == Counting(c, r, key, now)
  {
    var b := c.bucketOf(key);
    PrunedCounts(c, Contents(st.overflow[b]), Contents(r.overflow[b]), now);
    if key in r.entries {
      PrunedCounts(c, st.entries[key], r.entries[key], now);
    } else if key in st.entries {
      PruneCounts(c.window, st.entries[key], now);
    }
  }

  /** Once its requested keys are pruned, a state has an entry for exactly those with recent attempts of their own. */
  lemma ReadyEntry(c: Settings, st: State, keys: seq<Key>, key: Key, now: Instant)
    requires c.Valid() && c.window > 0 && |st.overflow| == c.buckets && key in keys
    ensures
      var ready := Prepared(c, st, keys, now).0;
      key in ready.entries ==>
        |ready.entries[key]| == Recent(c.window, ready.entries[key], now) > 0
  {
    var ticked := PeriodicCleanup(c, st, now);
    assert key in KeySet(keys);
    if key in ticked.entries {
      PruneTwice(c.window, ticked.entries[key], now);
      PruneCounts(c.window, Prune(c.window, ticked.entries[key], now), now);
    }
  }

  /** A charged bucket holds recent attempts only. */
  lemma ReadyBucket(c: Settings, overflow: seq<Bucket>, p: Plan, b: nat, now: Instant)
    requires c.window > 0 && BucketsPruned(c, overflow, p, now) && b < c.buckets
    ensures Recent(c.window, Contents(p.overflow[b]), now) == |Contents(PruneBucket(c, overflow[b], now))|
    ensures b in p.targets ==> p.overflow[b] == PruneBucket(c, overflow[b], now)
  {
    PrunedCounts(c, Contents(overflow[b]), Contents(p.overflow[b]), now);
    PruneCounts(c.window, Contents(overflow[b]), now);
  }

  /** If some key is full, the call is blocked. */
  lemma FullKeyBlocks(c: Settings, st: State, keys: seq<Key>, k: Key, now: Instant)
    requires c.Valid() && |st.overflow| == c.buckets && c.max > 0 && c.window > 0
    requires k in keys && Counting(c, st, k, now) >= c.max
    ensures Blocked(c, Prepared(c, st, keys, now).0.entries, Prepared(c, st, keys, now).1)
  {
    var prepared := Prepared(c, st, keys, now);
    var ready, p, overflow := prepared.0, prepared.1, PeriodicCleanup(c, st, now).overflow;
    PreparedOnlyPrunes(c, st, keys, now);
    PrunedSameCounting(c, st, ready, k, now);
    ReadyEntry(c, st, keys, k, now);
    assert k in KeySet(keys);
    if k in ready.entries {
      assert k in p.existing && EntryFull(c, ready.entries, k);
    } else {
      ReadyBucket(c, overflow, p, c.bucketOf(k), now);
      assert k !in p.added;
      assert BucketFull(c, p.overflow[c.bucketOf(k)]);
    }
  }

  /** An entry that is full holds as many recent attempts. */
  lemma FullEntryCounts(c: Settings, ready: State, k: Key, now: Instant)
    requires c.Valid() && |ready.overflow| == c.buckets && EntryFull(c, ready.entries, k)
    requires |ready.entries[k]| == Recent(c.window, ready.entries[k], now) > 0
    ensures Counting(c, ready, k, now) >= c.max
  {
  }

  /** So does a bucket, and they count against a key without an entry. */
  lemma FullBucketCounts(c: Settings, ready: State, k: Key, now: Instant)
    requires c.Valid() && |ready.overflow| == c.buckets && k !in ready.entries
    requires
      var bucket := ready.overflow[c.bucketOf(k)];
      BucketFull(c, bucket) && |Contents(bucket)| == Recent(c.window, Contents(bucket), now)
    ensures Counting(c, ready, k, now) >= c.max
  {
  }

  /** If the call is blocked, some key is full. */
  lemma BlockedHasFullKey(c: Settings, st: State, keys: seq<Key>, now: Instant)
    requires c.Valid() && |st.overflow| == c.buckets && c.max > 0 && c.window > 0
    requires Blocked(c, Prepared(c, st, keys, now).0.entries, Prepared(c, st, keys, now).1)
    ensures exists k :: k in keys && Counting(c, st, k, now) >= c.max
  {
    var prepared := Prepared(c, st, keys, now);
    var ready, p, overflow := prepared.0, prepared.1, PeriodicCleanup(c, st, now).overflow;
    PreparedOnlyPrunes(c, st, keys, now);
    var k: Key;
    if exists k :: k in p.existing && EntryFull(c, ready.entries, k) {
      k :| k in p.existing && EntryFull(c, ready.entries, k);
      ReadyEntry(c, st, keys, k, now);
      FullEntryCounts(c, ready, k, now);
    } else {
      var b :| b in p.targets && b < |p.overflow| && BucketFull(c, p.overflow[b]);
      k :| k in KeySet(keys) && k !in ready.entries && k !in p.added && c.bucketOf(k) == b;
      ReadyBucket(c, overflow, p, b, now);
      FullBucketCounts(c, ready, k, now);
    }
    PrunedSameCounting(c, st, ready, k, now);
  }

  /** A call is admitted exactly when every key it names has fewer than `max` recent attempts. */
  lemma AdmittedExactly(c: Settings, st: State, keys: seq<Key>, now: Instant)
    requires c.Valid() && |st.overflow| == c.buckets && c.max > 0 && c.window > 0 && keys != []
    ensures Attempt(c, st, keys, now).admitted <==> forall k :: k in keys ==> Counting(c, st, k, now) < c.max
  {
    var prepared := Prepared(c, st, keys, now);
    if Blocked(c, prepared.0.entries, prepared.1) {
      BlockedHasFullKey(c, st, keys, now);
    }
    forall k | k in keys && Counting(c, st, k, now) >= c.max
      ensures !Attempt(c, st, keys, now).admitted
    {
      FullKeyBlocks(c, st, keys, k, now);
    }
  }

  // ----- Who gets an entry -----

  /** The keys nothing counts against, in order of first appearance. */
  function Unburdened(c: Settings, st: State, keys: seq<Key>, now: Instant): seq<Key>
    requires c.Valid() && |st.overflow| == c.buckets
    decreases |keys|
  {
    if keys == [] then []
    else
      var front, last := keys[..|keys| - 1], keys[|keys| - 1];
      Unburdened(c, st, front, now) + if last !in front && Counting(c, st, last, now) == 0 then [last] else []
  }

  lemma {:induction false} UnburdenedMembers(c: Settings, st: State, keys: seq<Key>, now: Instant)
    requires c.Valid() && |st.overflow| == c.buckets
    ensures forall k :: k in Unburdened(c, st, keys, now) <==> k in keys && Counting(c, st, k, now) == 0
    decreases |keys|
  {
    if keys != [] {
      UnburdenedMembers(c, st, keys[..|keys| - 1], now);
      assert keys == keys[..|keys| - 1] + [keys[|keys| - 1]];
    }
  }

  lemma {:induction false} UnburdenedUnique(c: Settings, st: State, keys: seq<Key>, now: Instant)
    requires c.Valid() && |st.overflow| == c.buckets
    ensures Unburdened(c, st, Unique(keys), now) == Unburdened(c, st, keys, now)
    decreases |keys|
  {
    if keys != [] {
      var front, last := keys[..|keys| - 1], keys[|keys| - 1];
      UnburdenedUnique(c, st, front, now);
      if last !in front {
        assert (Unique(front) + [last])[..|Unique(front)|] == Unique(front);
      }
    }
  }

  lemma {:induction false} UnburdenedDistinct(c: Settings, st: State, keys: seq<Key>, now: Instant)
    requires c.Valid() && |st.overflow| == c.buckets
    ensures AllDistinct(Unburdened(c, st, keys, now))
    decreases |keys|
  {
    if keys != [] {
      var front := keys[..|keys| - 1];
      UnburdenedDistinct(c, st, front, now);
      UnburdenedMembers(c, st, front, now);
      var before, last := Unburdened(c, st, front, now), keys[|keys| - 1];
      if last !in front {
        assert last !in before;
        StillDistinct(before, last);
      }
    }
  }

  predicate AllDistinct(u: seq<Key>) {
    forall i, j :: 0 <= i < j < |u| ==> u[i] != u[j]
  }

  lemma StillDistinct(u: seq<Key>, k: Key)
    requires k !in u && AllDistinct(u)
    ensures AllDistinct(u + [k])
  {
  }

  /** The first `n` keys, or all if there are fewer. */
  function First(keys: seq<Key>, n: nat): seq<Key> { if |keys| <= n then keys else keys[..n] }

  function Free(c: Settings, entries: map<Key, History>): nat {
    if |entries| > c.capacity then 0 else c.capacity - |entries|
  }

  /** `p` gave entries to the first unburdened keys, as many as there was room for. */
  ghost predicate GaveFirst(c: Settings, entries: map<Key, History>, p: Plan, u: seq<Key>) {
    && p.added == KeySet(First(u, Free(c, entries)))
    && p.slots == Free(c, entries) - |First(u, Free(c, entries))|
  }

  lemma PlanKeyGives(c: Settings, st: State, entries: map<Key, History>, overflow: seq<Bucket>, p: Plan, u: seq<Key>, key: Key, now: Instant)
    requires c.Valid() && |st.overflow| == c.buckets && BucketsPruned(c, overflow, p, now) && GaveFirst(c, entries, p, u)
    requires Counting(c, st, key, now) == 0 <==> key !in entries && PruneBucket(c, overflow[c.bucketOf(key)], now) == None
    ensures GaveFirst(c, entries, PlanKey(c, entries, p, key, now), u + if Counting(c, st, key, now) == 0 then [key] else [])
  {
    PruneBucketTwice(c, overflow[c.bucketOf(key)], now);
    var free := Free(c, entries);
    if Counting(c, st, key, now) == 0 {
      if |u| < free {
        assert First(u + [key], free) == u + [key];
        assert KeySet(u + [key]) == KeySet(u) + {key};
      } else {
        assert First(u + [key], free) == First(u, free) by {
          assert (u + [key])[..free] == u[..free];
          assert |u| == free ==> u[..free] == u;
        }
      }
    } else {
      assert u + [] == u;
    }
  }

  lemma {:induction false} PlanKeysGive(c: Settings, st: State, entries: map<Key, History>, overflow: seq<Bucket>, keys: seq<Key>, now: Instant)
    requires c.Valid() && |st.overflow| == c.buckets && |overflow| == c.buckets
    requires forall i, j :: 0 <= i < j < |keys| ==> keys[i] != keys[j]
    requires forall k :: k in keys ==>
      (Counting(c, st, k, now) == 0 <==> k !in entries && PruneBucket(c, overflow[c.bucketOf(k)], now) == None)
    ensures GaveFirst(c, entries, PlanKeys(c, entries, overflow, keys, now), Unburdened(c, st, keys, now))
    decreases |keys|
  {
    if keys == [] {
      assert First([], Free(c, entries)) == [] && KeySet([]) == {};
    } else {
      var front, last := keys[..|keys| - 1], keys[|keys| - 1];
      assert last !in front && forall k :: k in front ==> k in keys;
      PlanKeysGive(c, st, entries, overflow, front, now);
      PlanKeysFacts(c, entries, overflow, front, now);
      PlanKeyGives(c, st, entries, overflow, PlanKeys(c, entries, overflow, front, now), Unburdened(c, st, front, now), last, now);
    }
  }

  /** Nothing counts against a key exactly when it has neither an entry left nor anything left in its bucket. */
  lemma UnburdenedKey(c: Settings, st: State, keys: seq<Key>, key: Key, now: Instant)
    requires c.Valid() && |st.overflow| == c.buckets && c.window > 0 && key in keys
    ensures
      var ready := Prepared(c, st, keys, now).0;
      Counting(c, st, key, now) == 0 <==>
        && key !in ready.entries
        && PruneBucket(c, PeriodicCleanup(c, st, now).overflow[c.bucketOf(key)], now) == None
  {
    var prepared := Prepared(c, st, keys, now);
    PreparedOnlyPrunes(c, st, keys, now);
    PrunedSameCounting(c, st, prepared.0, key, now);
    ReadyEntry(c, st, keys, key, now);
    ReadyBucket(c, PeriodicCleanup(c, st, now).overflow, prepared.1, c.bucketOf(key), now);
  }

  lemma PreparedGives(c: Settings, st: State, keys: seq<Key>, now: Instant)
    requires c.Valid() && |st.overflow| == c.buckets && c.window > 0
    ensures GaveFirst(c, Prepared(c, st, keys, now).0.entries, Prepared(c, st, keys, now).1, Unburdened(c, st, keys, now))
  {
    var ticked := PeriodicCleanup(c, st, now);
    var entries := PruneKeys(c, ticked.entries, KeySet(keys), now);
    PeriodicOnlyPrunes(c, st, now);
    forall k | k in Unique(keys)
      ensures Counting(c, st, k, now) == 0 <==> k !in entries && PruneBucket(c, ticked.overflow[c.bucketOf(k)], now) == None
    {
      UnburdenedKey(c, st, keys, k, now);
    }
    PlanKeysGive(c, st, entries, ticked.overflow, Unique(keys), now);
    UnburdenedUnique(c, st, keys, now);
  }

  lemma FirstTaken(u: seq<Key>, n: nat, i: nat)
    requires i < |u| && AllDistinct(u)
    ensures u[i] in First(u, n) <==> i < n
  {
    var first := First(u, n);
    assert forall j :: 0 <= j < |first| ==> first[j] == u[j];
    if u[i] in first {
      var j :| 0 <= j < |first| && first[j] == u[i];
    }
    if i < n {
      assert first[i] == u[i];
    }
  }

  /** What an admitted call finds and adds. */
  lemma AdmittedEntries(c: Settings, st: State, keys: seq<Key>, now: Instant)
    requires c.Valid() && |st.overflow| == c.buckets && c.max > 0 && c.window > 0 && keys != []
    requires Attempt(c, st, keys, now).admitted
    ensures
      var prepared := Prepared(c, st, keys, now);
      Attempt(c, st, keys, now).state.entries.Keys == prepared.0.entries.Keys + prepared.1.added
  {
    PreparedOnlyPrunes(c, st, keys, now);
  }

  /** Keys nothing counts against have no entry when the call is decided. */
  lemma UnburdenedHaveNone(c: Settings, st: State, keys: seq<Key>, now: Instant)
    requires c.Valid() && |st.overflow| == c.buckets && c.window > 0
    ensures KeySet(Unburdened(c, st, keys, now)) !! Prepared(c, st, keys, now).0.entries.Keys
  {
    UnburdenedMembers(c, st, keys, now);
    forall k | k in Unburdened(c, st, keys, now) ensures k !in Prepared(c, st, keys, now).0.entries {
      UnburdenedKey(c, st, keys, k, now);
    }
  }

  lemma SplitEntries(found: set<Key>, added: set<Key>, u: seq<Key>, n: nat)
    requires KeySet(u) !! found && added == KeySet(First(u, n))
    ensures found + added - KeySet(u) == found
  {
  }

  /**
   An admitted call gives entries of their own to the keys nothing counted against, in order
   of first appearance, as long as the entries it found leave room.
   */
  lemma EntriesGoToTheFirst(c: Settings, st: State, keys: seq<Key>, now: Instant, i: nat)
    requires c.Valid() && |st.overflow| == c.buckets && c.max > 0 && c.window > 0 && keys != []
    requires Attempt(c, st, keys, now).admitted && i < |Unburdened(c, st, keys, now)|
    ensures
      var u, entries := Unburdened(c, st, keys, now), Attempt(c, st, keys, now).state.entries;
      u[i] in entries <==> i + |entries.Keys - KeySet(u)| < c.capacity
  {
    var u := Unburdened(c, st, keys, now);
    var found, added := Prepared(c, st, keys, now).0.entries, Prepared(c, st, keys, now).1.added;
    UnburdenedDistinct(c, st, keys, now);
    UnburdenedHaveNone(c, st, keys, now);
    PreparedGives(c, st, keys, now);
    AdmittedEntries(c, st, keys, now);
    SplitEntries(found.Keys, added, u, Free(c, found));
    FirstTaken(u, Free(c, found), i);
    assert u[i] in KeySet(u);
  }

  // ----- When expired attempts go -----

  predicate OnlyRecent(window: nat, h: History, now: Instant) {
    h != [] && forall i :: 0 <= i < |h| ==> h[i] + window > now
  }

  lemma PrunedOnlyRecent(window: nat, h: History, now: Instant)
    requires window > 0 && Prune(window, h, now) != []
    ensures OnlyRecent(window, Prune(window, h, now), now)
  {
    var r := Prune(window, h, now);
    forall i | 0 <= i < |r| ensures r[i] + window > now {
      PruneMembers(window, h, now, r[i]);
    }
  }

  /** The state holds no expired attempt and nothing empty. */
  predicate Swept(c: Settings, st: State, now: Instant) {
    && (forall k :: k in st.entries ==> OnlyRecent(c.window, st.entries[k], now))
    && forall i :: 0 <= i < |st.overflow| && st.overflow[i].Some? ==> OnlyRecent(c.window, st.overflow[i].value, now)
  }

  lemma CleanupSweeps(c: Settings, st: State, now: Instant)
    requires c.window > 0
    ensures Swept(c, Cleanup(c, st, now), now)
  {
    var r := Cleanup(c, st, now);
    forall k | k in r.entries ensures OnlyRecent(c.window, r.entries[k], now) {
      PrunedOnlyRecent(c.window, st.entries[k], now);
    }
    forall i | 0 <= i < |r.overflow| && r.overflow[i].Some? ensures OnlyRecent(c.window, r.overflow[i].value, now) {
      PrunedOnlyRecent(c.window, Contents(st.overflow[i]), now);
    }
  }

  /** Pruning what holds only recent attempts changes nothing. */
  lemma {:induction false} RecentStays(window: nat, h: History, now: Instant)
    requires window > 0 && forall i :: 0 <= i < |h| ==> h[i] + window > now
    ensures Prune(window, h, now) == h
    decreases |h|
  {
    if h != [] {
      RecentStays(window, h[..|h| - 1], now);
      assert h == h[..|h| - 1] + [h[|h| - 1]];
    }
  }

  lemma SweptPrunedSwept(c: Settings, st: State, r: State, now: Instant)
    requires c.window > 0 && Swept(c, st, now) && OnlyPruned(c, st, r, now)
    requires forall i :: 0 <= i < |r.overflow| ==> r.overflow[i] == st.overflow[i] || r.overflow[i] == PruneBucket(c, st.overflow[i], now)
    ensures Swept(c, r, now)
  {
    forall k | k in r.entries ensures OnlyRecent(c.window, r.entries[k], now) {
      RecentStays(c.window, st.entries[k], now);
    }
    forall i | 0 <= i < |r.overflow| && r.overflow[i].Some? ensures OnlyRecent(c.window, r.overflow[i].value, now) {
      RecentStays(c.window, Contents(st.overflow[i]), now);
    }
  }

  lemma RecordedSwept(c: Settings, ready: State, p: Plan, now: Instant)
    requires c.window > 0 && Swept(c, ready, now)
    requires p.existing <= ready.entries.Keys
    ensures Swept(c, Push(ready, p, now), now)
  {
  }

  /** Where the tick calls for it, the state in which a call is decided is swept. */
  lemma PreparedSwept(c: Settings, st: State, keys: seq<Key>, now: Instant)
    requires c.Valid() && |st.overflow| == c.buckets && c.window > 0 && PeriodicCleanup(c, st, now).operations % 64 == 0
    ensures Swept(c, Prepared(c, st, keys, now).0, now)
  {
    var ticked := PeriodicCleanup(c, st, now);
    var entries := PruneKeys(c, ticked.entries, KeySet(keys), now);
    CleanupSweeps(c, st.(operations := (st.operations + 1) % U64_MODULUS), now);
    PlanKeysFacts(c, entries, ticked.overflow, Unique(keys), now);
    var p := PlanKeys(c, entries, ticked.overflow, Unique(keys), now);
    PruneKeysOnlyPrunes(c, ticked, KeySet(keys), p.overflow, now);
    SweptPrunedSwept(c, ticked, State(entries, p.overflow, ticked.operations), now);
  }

  lemma PreparedTicks(c: Settings, st: State, keys: seq<Key>, now: Instant)
    requires c.Valid() && |st.overflow| == c.buckets
    ensures Prepared(c, st, keys, now).0.operations == (st.operations + 1) % 0x1_0000_0000_0000_0000
  {
  }

  /** A call leaves the state in which it was decided, or that state with the attempts recorded. */
  lemma CallLeaves(c: Settings, st: State, keys: seq<Key>, now: Instant)
    requires c.Valid() && |st.overflow| == c.buckets && c.max > 0 && c.window > 0 && keys != []
    ensures
      var r, prepared := Attempt(c, st, keys, now).state, Prepared(c, st, keys, now);
      r == prepared.0 || r == Push(prepared.0, prepared.1, now)
  {
    var prepared := Prepared(c, st, keys, now);
    if Blocked(c, prepared.0.entries, prepared.1) {
      assert Attempt(c, st, keys, now) == Decision(prepared.0, false);
    } else {
      assert Attempt(c, st, keys, now) == Decision(Push(prepared.0, prepared.1, now), true);
    }
  }

  /** Every 64th call, admitted or not, leaves no expired attempt and nothing empty behind. */
  lemma EverySixtyFourthCallSweeps(c: Settings, st: State, keys: seq<Key>, now: Instant)
    requires c.Valid() && |st.overflow| == c.buckets && c.max > 0 && c.window > 0 && keys != []
    ensures Attempt(c, st, keys, now).state.operations == (st.operations + 1) % 0x1_0000_0000_0000_0000
    ensures (st.operations + 1) % 0x1_0000_0000_0000_0000 % 64 == 0 ==> Swept(c, Attempt(c, st, keys, now).state, now)
  {
    CallLeaves(c, st, keys, now);
    PreparedTicks(c, st, keys, now);
    if (st.operations + 1) % 0x1_0000_0000_0000_0000 % 64 == 0 {
      SweptEitherWay(c, st, keys, now);
    }
  }

  lemma SweptEitherWay(c: Settings, st: State, keys: seq<Key>, now: Instant)
    requires c.Valid() && |st.overflow| == c.buckets && c.window > 0 && (st.operations + 1) % U64_MODULUS % 64 == 0
    ensures Swept(c, Prepared(c, st, keys, now).0, now)
    ensures Swept(c, Push(Prepared(c, st, keys, now).0, Prepared(c, st, keys, now).1, now), now)
  {
    PreparedSwept(c, st, keys, now);
    PreparedOnlyPrunes(c, st, keys, now);
    RecordedSwept(c, Prepared(c, st, keys, now).0, Prepared(c, st, keys, now).1, now);
  }

  // ----- A lone key -----

  /** The key alone asks at these instants, one after the other, and is answered. */
  ghost predicate AsksAlone(c: Settings, key: Key, times: seq<Instant>, states: seq<State>, answers: seq<bool>)
    requires c.Valid()
  {
    && |states| == |times| + 1 && |answers| == |times|
    && forall i :: 0 <= i < |times| ==> AsksAt(c, key, times, states, answers, i)
  }

  ghost predicate AsksAt(c: Settings, key: Key, times: seq<Instant>, states: seq<State>, answers: seq<bool>, i: nat)
    requires c.Valid() && |states| == |times| + 1 && |answers| == |times| && i < |times|
  {
    |states[i].overflow| == c.buckets && Attempt(c, states[i], [key], times[i]) == Decision(states[i + 1], answers[i])
  }

  predicate WithinOneWindow(c: Settings, times: seq<Instant>) {
    forall i, j :: 0 <= i <= j < |times| ==> times[i] <= times[j] < times[i] + c.window
  }

  /** What guards the key is exactly `h`. */
  predicate GuardedBy(c: Settings, st: State, key: Key, h: History)
    requires c.Valid() && |st.overflow| == c.buckets
  {
    Guarding(c, st, key) == h
  }

  lemma {:induction false} AllRecent(window: nat, h: History, now: Instant)
    requires forall i :: 0 <= i < |h| ==> h[i] + window > now
    ensures Recent(window, h, now) == |h|
    decreases |h|
  {
    if h != [] {
      AllRecent(window, h[..|h| - 1], now);
    }
  }

  lemma GuardedCounting(c: Settings, st: State, key: Key, h: History, now: Instant)
    requires c.Valid() && |st.overflow| == c.buckets && c.window > 0
    requires h != [] && GuardedBy(c, st, key, h) && forall i :: 0 <= i < |h| ==> h[i] + c.window > now
    ensures Counting(c, st, key, now) == |h|
  {
    AllRecent(c.window, h, now);
  }

  /** Pruning leaves a guard of recent attempts alone. */
  lemma GuardSurvives(c: Settings, st: State, r: State, key: Key, h: History, now: Instant)
    requires c.Valid() && |st.overflow| == c.buckets && c.window > 0 && OnlyPruned(c, st, r, now)
    requires h != [] && GuardedBy(c, st, key, h) && forall i :: 0 <= i < |h| ==> h[i] + c.window > now
    ensures GuardedBy(c, r, key, h)
  {
    RecentStays(c.window, h, now);
  }

  /** A charge that finds nothing counting is the first attempt of what guards the key from then on. */
  lemma GuardStarts(c: Settings, ready: State, r: State, key: Key, now: Instant)
    requires c.Valid() && |ready.overflow| == c.buckets && Recorded(c, ready, r, {key}, now)
    requires key !in ready.entries && (key in r.entries || Contents(ready.overflow[c.bucketOf(key)]) == [])
    ensures GuardedBy(c, r, key, [now])
  {
    if key !in r.entries {
      assert key in {key} && c.bucketOf(key) < c.buckets;
    }
  }

  /** A charge is added to what guards the key. */
  lemma GuardExtends(c: Settings, ready: State, r: State, key: Key, h: History, now: Instant)
    requires c.Valid() && |ready.overflow| == c.buckets && c.window > 0 && Recorded(c, ready, r, {key}, now)
    requires h != [] && GuardedBy(c, ready, key, h) && forall i :: 0 <= i < |h| ==> h[i] + c.window > now
    ensures GuardedBy(c, r, key, h + [now])
  {
    RecentStays(c.window, h, now);
    if key !in ready.entries {
      // Its bucket holds recent attempts, so the key does not get an entry.
      assert key !in r.entries;
      assert key in {key} && c.bucketOf(key) < c.buckets;
    }
  }

  /** An attempt of one key that is admitted is added to what guards it. */
  lemma GuardGrows(c: Settings, st: State, key: Key, now: Instant, h: History)
    requires c.Valid() && |st.overflow| == c.buckets && c.max > 0 && c.window > 0
    requires Attempt(c, st, [key], now).admitted
    requires
      if h == [] then Counting(c, st, key, now) == 0
      else GuardedBy(c, st, key, h) && forall i :: 0 <= i < |h| ==> h[i] + c.window > now
    ensures GuardedBy(c, Attempt(c, st, [key], now).state, key, h + [now])
  {
    var ready, p := Prepared(c, st, [key], now).0, Prepared(c, st, [key], now).1;
    var r := Attempt(c, st, [key], now).state;
    AdmittedIsRecorded(c, st, [key], now);
    assert KeySet([key]) == {key};
    if h != [] {
      GuardSurvives(c, st, ready, key, h, now);
      GuardExtends(c, ready, r, key, h, now);
    } else {
      UnburdenedKey(c, st, [key], key, now);
      PreparedOnlyPrunes(c, st, [key], now);
      StartsInEmptyBucket(c, st, key, now);
      GuardStarts(c, ready, r, key, now);
      assert h + [now] == [now];
    }
  }

  lemma StartsInEmptyBucket(c: Settings, st: State, key: Key, now: Instant)
    requires c.Valid() && |st.overflow| == c.buckets && c.max > 0 && c.window > 0
    requires Attempt(c, st, [key], now).admitted && Counting(c, st, key, now) == 0
    ensures
      var ready, r := Prepared(c, st, [key], now).0, Attempt(c, st, [key], now).state;
      key in r.entries || Contents(ready.overflow[c.bucketOf(key)]) == []
  {
    var ready, p := Prepared(c, st, [key], now).0, Prepared(c, st, [key], now).1;
    PreparedOnlyPrunes(c, st, [key], now);
    AdmittedEntries(c, st, [key], now);
    UnburdenedKey(c, st, [key], key, now);
    assert key in KeySet([key]);
    if key !in p.added {
      ReadyBucket(c, PeriodicCleanup(c, st, now).overflow, p, c.bucketOf(key), now);
    }
  }

  /** One more request of the key, with the attempts admitted so far guarding it. */
  lemma AsksOnceMore(c: Settings, key: Key, times: seq<Instant>, states: seq<State>, answers: seq<bool>, i: nat, h: History)
    requires c.Valid() && c.max > 0 && c.window > 0 && AsksAlone(c, key, times, states, answers)
    requires i < |times| && |h| <= c.max && |states[i].overflow| == c.buckets
    requires
      if h == [] then Counting(c, states[i], key, times[i]) == 0
      else GuardedBy(c, states[i], key, h) && AllSince(c, h, times[i])
    ensures (answers[i] <==> |h| < c.max) && |states[i + 1].overflow| == c.buckets
    ensures GuardedBy(c, states[i + 1], key, if |h| < c.max then h + [times[i]] else h)
  {
    assert AsksAt(c, key, times, states, answers, i);
    var st, now, next := states[i], times[i], states[i + 1];
    if h != [] {
      GuardedCounting(c, st, key, h, now);
    }
    AdmittedExactly(c, st, [key], now);
    if |h| < c.max {
      GuardGrows(c, st, key, now, h);
    } else {
      RefusedRecordsNothing(c, st, [key], now);
      GuardSurvives(c, st, next, key, h, now);
    }
  }

  predicate AllSince(c: Settings, h: History, now: Instant) {
    forall i :: 0 <= i < |h| ==> h[i] + c.window > now
  }

  lemma AdmittedAllSince(c: Settings, times: seq<Instant>, i: nat)
    requires i < |times| && WithinOneWindow(c, times)
    ensures AllSince(c, Admitted(c, times, i), times[i])
  {
  }

  lemma AdmittedNext(c: Settings, times: seq<Instant>, i: nat)
    requires i < |times|
    ensures Admitted(c, times, i + 1) == if |Admitted(c, times, i)| < c.max then Admitted(c, times, i) + [times[i]] else Admitted(c, times, i)
    ensures |Admitted(c, times, i)| == if i <= c.max then i else c.max
  {
  }

  /** The first `i` instants at which the key was admitted. */
  function Admitted(c: Settings, times: seq<Instant>, i: nat): seq<Instant>
    requires i <= |times|
  {
    if i <= c.max then times[..i] else times[..c.max]
  }

  /**
   A key that nothing counted against and that asks alone is admitted exactly `max` times
   within one window.
   */
  lemma {:induction false} LoneKeyGetsExactlyMax(c: Settings, key: Key, times: seq<Instant>, states: seq<State>, answers: seq<bool>, i: nat)
    requires c.Valid() && c.max > 0 && c.window > 0 && AsksAlone(c, key, times, states, answers)
    requires i < |times| && WithinOneWindow(c, times)
    requires |states[0].overflow| == c.buckets && Counting(c, states[0], key, times[0]) == 0
    ensures answers[i] <==> i < c.max
    ensures |states[i + 1].overflow| == c.buckets && GuardedBy(c, states[i + 1], key, Admitted(c, times, i + 1))
    decreases i
  {
    var h := Admitted(c, times, i);
    if i > 0 {
      LoneKeyGetsExactlyMax(c, key, times, states, answers, i - 1);
    }
    AdmittedNext(c, times, i);
    AdmittedAllSince(c, times, i);
    AsksOnceMore(c, key, times, states, answers, i, h);
  }

  // ----- What recovery keeps -----

  /** `r` holds the newest `max` of the recent attempts of `h`, as they were. */
  predicate NewestRecent(c: Settings, h: History, r: History, now: Instant) {
    && |r| == (if Recent(c.window, h, now) < c.max then Recent(c.window, h, now) else c.max)
    && (forall i :: 0 <= i < |r| ==> r[i] + c.window > now)
    && RecoveringHistory(c, h, r, now)
  }

  lemma KeptNewest(c: Settings, h: History, now: Instant)
    requires c.window > 0
    ensures NewestRecent(c, h, KeepNewest(c, Prune(c.window, h, now)), now)
  {
    var p := Prune(c.window, h, now);
    PruneCounts(c.window, h, now);
    if p != [] {
      PrunedOnlyRecent(c.window, h, now);
    }
  }

  /** Recovery of a state that shows no damage keeps exactly the newest recent attempts of every store. */
  lemma RecoveryKeepsNewest(c: Settings, found: State, now: Instant)
    requires c.Valid() && c.window > 0 && |found.overflow| == c.buckets && |found.entries| <= c.capacity
    ensures
      var r := Recover(c, found, now);
      && (forall k :: k in r.entries <==> k in found.entries && Recent(c.window, found.entries[k], now) > 0)
      && (forall k :: k in r.entries ==> NewestRecent(c, found.entries[k], r.entries[k], now))
      && |r.overflow| == c.buckets
      && forall i :: 0 <= i < c.buckets ==> NewestRecent(c, Contents(found.overflow[i]), Contents(r.overflow[i]), now)
  {
    var r := Recover(c, found, now);
    forall k | k in found.entries
      ensures k in r.entries <==> Recent(c.window, found.entries[k], now) > 0
      ensures k in r.entries ==> NewestRecent(c, found.entries[k], r.entries[k], now)
    {
      PruneCounts(c.window, found.entries[k], now);
      KeptNewest(c, found.entries[k], now);
    }
    forall i | 0 <= i < c.buckets ensures NewestRecent(c, Contents(found.overflow[i]), Contents(r.overflow[i]), now) {
      KeptNewest(c, Contents(found.overflow[i]), now);
    }
  }
}
