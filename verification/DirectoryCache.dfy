/**
 The directory snapshot cache: records with byte accounting, expiry, and eviction of
 the least recently used records until a new one fits under the global bound.
 */
module DirectoryCache {
  import opened Common

  datatype Key = Key(scope: string, directory: string, sort: string, direction: string, scanLimit: nat, generation: nat)

  datatype Snapshot = Snapshot(entries: seq<string>, truncated: bool, accountedBytes: nat)

  datatype Record = Record(capturedAt: Instant, lastUsed: nat, value: Option<Snapshot>, bytes: nat)

  type Records = map<Key, Record>

  datatype Lookup = Hit(snapshot: Snapshot) | Bypass

  function LookupOf(value: Option<Snapshot>): Lookup {
    if value.Some? then Hit(value.value) else Bypass
  }

  // ----- Byte totals -----

  ghost function Total(records: Records): nat {
    if records == map[] then 0
    else
      var k :| k in records;
      records[k].bytes + Total(records - {k})
  }

  lemma {:induction false} TotalWithout(records: Records, k: Key)
    requires k in records
    ensures Total(records) == records[k].bytes + Total(records - {k})
    decreases |records|
  {
    var c :| c in records && Total(records) == records[c].bytes + Total(records - {c});
    if c != k {
      TotalWithout(records - {c}, k);
      TotalWithout(records - {k}, c);
      assert records - {c} - {k} == records - {k} - {c};
    }
  }

  lemma TotalWith(records: Records, k: Key, r: Record)
    requires k !in records
    ensures Total(records[k := r]) == Total(records) + r.bytes
  {
    TotalWithout(records[k := r], k);
    assert records[k := r] - {k} == records;
  }

  lemma {:induction false} TotalMonotone(small: Records, large: Records)
    requires small.Keys <= large.Keys && forall k :: k in small ==> small[k] == large[k]
    ensures Total(small) <= Total(large)
    decreases |small|
  {
    if small != map[] {
      var k :| k in small;
      TotalWithout(small, k);
      TotalWithout(large, k);
      TotalMonotone(small - {k}, large - {k});
    }
  }

  // ----- Recency -----

  predicate SameUse(records: Records, j: Key, k: Key) {
    j in records && k in records && records[j].lastUsed == records[k].lastUsed
  }

  /** No two records were used at the same tick of the use clock. */
  ghost predicate DistinctUse(records: Records) {
    forall j, k :: SameUse(records, j, k) ==> j == k
  }

  lemma DistinctPart(small: Records, large: Records)
    requires Part(small, large) && DistinctUse(large)
    ensures DistinctUse(small)
  {
    forall j, k | SameUse(small, j, k)
      ensures j == k
    {
      assert SameUse(large, j, k);
    }
  }

  /** A record used after all the others does not share its tick with any. */
  lemma DistinctLatest(records: Records, key: Key, r: Record)
    requires DistinctUse(records)
    requires forall k :: k in records && k != key ==> records[k].lastUsed < r.lastUsed
    ensures DistinctUse(records[key := r])
  {
    var updated := records[key := r];
    forall j, k | SameUse(updated, j, k)
      ensures j == k
    {
      if j != key && k != key {
        assert SameUse(records, j, k);
      }
    }
  }

  predicate Part(small: Records, large: Records) {
    small.Keys <= large.Keys && forall k :: k in small ==> small[k] == large[k]
  }

  /** `x` was removed and `y` was kept. */
  predicate Outlived(before: Records, after: Records, x: Key, y: Key) {
    x in before && x !in after && y in after
  }

  /** No removed record has a later use tick than a kept one. */
  ghost predicate KeepsMostRecent(before: Records, after: Records) {
    && Part(after, before)
    && forall x, y :: Outlived(before, after, x, y) ==> before[x].lastUsed <= before[y].lastUsed
  }

  /** No record of `records` was used longer ago than `k`. */
  predicate LeastRecent(records: Records, k: Key) {
    k in records && forall j :: j in records ==> records[k].lastUsed <= records[j].lastUsed
  }

  predicate MostRecentRemoved(before: Records, after: Records, x: Key) {
    && x in before && x !in after
    && forall z :: z in before && z !in after ==> before[z].lastUsed <= before[x].lastUsed
  }

  /** Keeping `x`, the most recently used of the removed records, would have left too little room. */
  ghost predicate NeededToRemove(before: Records, after: Records, need: nat, limit: nat, x: Key) {
    MostRecentRemoved(before, after, x) && Total(after) + before[x].bytes + need > limit
  }

  /** Room for `need` more bytes was made, and keeping one more record would not have left it. */
  ghost predicate MadeRoom(before: Records, after: Records, need: nat, limit: nat) {
    && Total(after) + need <= limit
    && (after == before || exists x :: NeededToRemove(before, after, need, limit, x))
  }

  lemma NoExtraSurvivor(before: Records, a: Records, b: Records, need: nat, limit: nat, z: Key)
    requires DistinctUse(before)
    requires KeepsMostRecent(before, a) && MadeRoom(before, a, need, limit)
    requires KeepsMostRecent(before, b) && Total(b) + need <= limit
    requires z in b
    ensures z in a
  {
    if z !in a {
      var x :| NeededToRemove(before, a, need, limit, x);
      assert x in b by {
        assert before[z].lastUsed <= before[x].lastUsed;
        assert Outlived(before, b, x, z) ==> SameUse(before, x, z);
      }
      forall y | y in a
        ensures y in b
      {
        assert Outlived(before, a, z, y);
        assert Outlived(before, b, y, z) ==> SameUse(before, y, z);
      }
      TotalWith(a, x, before[x]);
      TotalMonotone(a[x := before[x]], b);
    }
  }

  /** The eviction policy leaves no choice: what survives is determined by what was there. */
  lemma EvictionIsDetermined(before: Records, a: Records, b: Records, need: nat, limit: nat)
    requires DistinctUse(before)
    requires KeepsMostRecent(before, a) && MadeRoom(before, a, need, limit)
    requires KeepsMostRecent(before, b) && MadeRoom(before, b, need, limit)
    ensures a == b
  {
    forall z
      ensures z in a <==> z in b
    {
      if z in b {
        NoExtraSurvivor(before, a, b, need, limit, z);
      }
      if z in a {
        NoExtraSurvivor(before, b, a, need, limit, z);
      }
    }
    assert a.Keys == b.Keys;
  }

  /** Removing the least recently used record keeps the rest more recent. */
  lemma EvictOne(before: Records, now: Records, oldest: Key)
    requires KeepsMostRecent(before, now) && LeastRecent(now, oldest)
    ensures KeepsMostRecent(before, now - {oldest})
    ensures MostRecentRemoved(before, now - {oldest}, oldest)
  {
    var after := now - {oldest};
    forall x, y | Outlived(before, after, x, y)
      ensures before[x].lastUsed <= before[y].lastUsed
    {
      assert x != oldest ==> Outlived(before, now, x, y);
    }
    forall z | z in before && z !in after
      ensures before[z].lastUsed <= before[oldest].lastUsed
    {
      assert z == oldest || Outlived(before, now, z, oldest);
    }
  }

  // ----- The cache -----

  predicate Expired(r: Record, ttl: nat, now: Instant) {
    (if now < r.capturedAt then 0 else now - r.capturedAt) >= ttl
  }

  /** A record lives for less than the time to live. */
  lemma LivesUntil(r: Record, ttl: nat, now: Instant)
    ensures !Expired(r, ttl, now) <==> ttl > 0 && now < r.capturedAt + ttl
  {
  }

  function Fresh(records: Records, ttl: nat, now: Instant): Records {
    map k | k in records && !Expired(records[k], ttl, now) :: records[k]
  }

  /** The snapshots a reader could be handed. */
  function Snapshots(records: Records): map<Key, Snapshot> {
    map k | k in records && records[k].value.Some? :: records[k].value.value
  }

  /** Some record with the least use tick. */
  lemma {:induction false} LeastRecentExists(records: Records)
    requires records != map[]
    ensures exists k :: LeastRecent(records, k)
    decreases |records|
  {
    var k :| k in records;
    var rest := records - {k};
    if rest == map[] {
      assert forall j :: j in records ==> j == k by {
        assert forall j :: j in records && j != k ==> j in rest;
      }
      assert LeastRecent(records, k);
    } else {
      LeastRecentExists(rest);
      var m :| LeastRecent(rest, m);
      assert forall j :: j in records && j != k ==> j in rest;
      assert LeastRecent(records, if records[k].lastUsed <= records[m].lastUsed then k else m);
    }
  }

  class DirectorySnapshotCache {
    const ttl: nat
    const maximumSnapshotBytes: nat
    const maximumTotalBytes: nat
    /** Sizes of the key and record structures themselves. */
    const keyBytes: nat
    const recordBytes: nat
    var records: Records
    var totalBytes: nat
    var clock: nat

    ghost predicate Valid()
      reads this
    {
      && maximumTotalBytes < USIZE_MAX
      && totalBytes == Total(records)
      && totalBytes <= maximumTotalBytes
      && clock < U64_MODULUS
    }

    /** The use clock has not wrapped since any of the records was used, so ticks tell recency. */
    ghost predicate InCycle()
      reads this
    {
      DistinctUse(records) && forall k :: k in records ==> records[k].lastUsed <= clock
    }

    constructor (ttl: nat, maximumSnapshotBytes: nat, maximumTotalBytes: nat, keyBytes: nat, recordBytes: nat)
      requires maximumTotalBytes < USIZE_MAX
      ensures Valid() && InCycle() && records == map[]
      ensures this.ttl == ttl && this.maximumSnapshotBytes == maximumSnapshotBytes
      ensures this.maximumTotalBytes == maximumTotalBytes
    {
      this.ttl, this.maximumSnapshotBytes, this.maximumTotalBytes := ttl, maximumSnapshotBytes, maximumTotalBytes;
      this.keyBytes, this.recordBytes := keyBytes, recordBytes;
      records, totalBytes, clock := map[], 0, 0;
    }

    function RecordOverhead(key: Key): nat {
      SaturatingAdd(SaturatingAdd(SaturatingAdd(keyBytes, recordBytes), |key.scope|), |key.directory|)
    }

    /** Bytes charged for a record holding `value`: its structures, its texts and its snapshot, as far as can be counted. */
    function Charge(key: Key, value: Option<Snapshot>): (bytes: nat)
      ensures
        var total := keyBytes + recordBytes + |key.scope| + |key.directory| + if value.Some? then value.value.accountedBytes else 0;
        bytes == if total < USIZE_MAX then total else USIZE_MAX
    {
      SaturatingAdd(RecordOverhead(key), if value.Some? then value.value.accountedBytes else 0)
    }

    method Remove(key: Key)
      requires Valid() && key in records
      modifies this`records, this`totalBytes
      ensures Valid() && records == old(records) - {key}
      ensures totalBytes == old(totalBytes) - old(records)[key].bytes
      ensures old(InCycle()) ==> InCycle()
    {
      TotalWithout(records, key);
      if InCycle() {
        DistinctPart(records - {key}, records);
      }
      totalBytes := SaturatingSub(totalBytes, records[key].bytes);
      records := records - {key};
    }

    method PruneExpired(now: Instant)
      requires Valid()
      modifies this`records, this`totalBytes
      ensures Valid() && records == Fresh(old(records), ttl, now)
      ensures forall k :: k in records <==> k in old(records) && ttl > 0 && now < old(records)[k].capturedAt + ttl
      ensures forall k :: k in records ==> records[k] == old(records)[k]
      ensures old(InCycle()) ==> InCycle()
    {
      ghost var all := records;
      var expired := set k | k in records && Expired(records[k], ttl, now);
      while expired != {}
        invariant Valid() && (old(InCycle()) ==> InCycle())
        invariant expired <= records.Keys <= all.Keys
        invariant forall k :: k in all ==> (k in records <==> !Expired(all[k], ttl, now) || k in expired)
        invariant forall k :: k in expired ==> Expired(all[k], ttl, now)
        invariant forall k :: k in records ==> records[k] == all[k]
        decreases |expired|
      {
        var k :| k in expired;
        expired := expired - {k};
        Remove(k);
      }
    }

    /** Marks a record as the most recently used. */
    method Touch(key: Key)
      requires Valid() && key in records
      modifies this
      ensures Valid() && clock == (old(clock) + 1) % U64_MODULUS
      ensures old(InCycle()) && old(clock) < clock ==> InCycle()
      ensures records == old(records)[key := old(records)[key].(lastUsed := clock)]
    {
      clock := (clock + 1) % U64_MODULUS;
      var used := records[key].(lastUsed := clock);
      TotalWithout(records, key);
      TotalWith(records - {key}, key, used);
      assert (records - {key})[key := used] == records[key := used];
      if old(InCycle()) && old(clock) < clock {
        DistinctLatest(records, key, used);
      }
      records := records[key := used];
    }

    /** A live record for exactly this key, marked as just used. */
    method Cached(key: Key, now: Instant) returns (found: Option<Lookup>)
      requires Valid()
      modifies this
      ensures Valid() && clock == (old(clock) + 1) % U64_MODULUS
      ensures old(InCycle()) && old(clock) < clock ==> InCycle()
      ensures
        var fresh' := Fresh(old(records), ttl, now);
        if key in fresh' then
          && found == Some(LookupOf(fresh'[key].value))
          && records == fresh'[key := fresh'[key].(lastUsed := clock)]
        else
          found == None && records == fresh'
      ensures found.Some? <==> key in old(records) && ttl > 0 && now < old(records)[key].capturedAt + ttl
      ensures found.Some? ==> found.value == LookupOf(old(records)[key].value)
    {
      PruneExpired(now);
      if key !in records {
        clock := (clock + 1) % U64_MODULUS;
        return None;
      }
      Touch(key);
      return Some(LookupOf(records[key].value));
    }

    /** Evicts least recently used records until `need` more bytes fit. */
    method MakeRoom(need: nat)
      requires Valid() && need <= maximumTotalBytes
      modifies this`records, this`totalBytes
      ensures Valid() && totalBytes + need <= maximumTotalBytes
      ensures KeepsMostRecent(old(records), records)
      ensures MadeRoom(old(records), records, need, maximumTotalBytes)
      ensures old(InCycle()) ==> InCycle()
    {
      ghost var before := records;
      while SaturatingAdd(totalBytes, need) > maximumTotalBytes
        invariant Valid() && KeepsMostRecent(before, records) && (old(InCycle()) ==> InCycle())
        invariant records == before || exists x :: NeededToRemove(before, records, need, maximumTotalBytes, x)
        decreases |records|
      {
        // An empty cache has no bytes, so there is always a record left to evict.
        assert records != map[];
        LeastRecentExists(records);
        var oldest :| oldest in records && LeastRecent(records, oldest);
        EvictOne(before, records, oldest);
        ghost var crowded := Total(records);
        Remove(oldest);
        assert Total(records) + before[oldest].bytes == crowded;
        assert NeededToRemove(before, records, need, maximumTotalBytes, oldest);
      }
    }

    /** Adds a record for a key that has none, as the most recently used. */
    method Store(key: Key, value: Option<Snapshot>, bytes: nat, now: Instant)
      requires Valid() && key !in records && totalBytes + bytes <= maximumTotalBytes
      modifies this
      ensures Valid() && clock == (old(clock) + 1) % U64_MODULUS
      ensures old(InCycle()) && old(clock) < clock ==> InCycle()
      ensures records == old(records)[key := Record(now, clock, value, bytes)]
    {
      clock := (clock + 1) % U64_MODULUS;
      var record := Record(now, clock, value, bytes);
      TotalWith(records, key, record);
      if old(InCycle()) && old(clock) < clock {
        DistinctLatest(records, key, record);
      }
      totalBytes := SaturatingAdd(totalBytes, bytes);
      records := records[key := record];
    }

    /** What is kept of a loaded snapshot: nothing but a marker when it is too large. */
    function Kept(snapshot: Option<Snapshot>): Option<Snapshot> {
      if snapshot.Some? && snapshot.value.accountedBytes > maximumSnapshotBytes then None else snapshot
    }

    /** Stores a loaded snapshot, or a marker when it is too large to keep. */
    method Insert(key: Key, snapshot: Option<Snapshot>, now: Instant) returns (lookup: Lookup)
      requires Valid()
      modifies this
      ensures old(InCycle()) && old(clock) <= clock ==> InCycle()
      ensures Valid() && lookup == LookupOf(Kept(snapshot))
      ensures lookup ==
        if snapshot.Some? && snapshot.value.accountedBytes <= maximumSnapshotBytes then Hit(snapshot.value) else Bypass
      ensures Charge(key, Kept(snapshot)) > maximumTotalBytes ==> records == old(records)
      ensures Charge(key, Kept(snapshot)) <= maximumTotalBytes ==>
        && key in records
        && records[key] == Record(now, clock, Kept(snapshot), Charge(key, Kept(snapshot)))
        && clock == (old(clock) + 1) % U64_MODULUS
        && KeepsMostRecent(Fresh(old(records), ttl, now) - {key}, records - {key})
        && MadeRoom(Fresh(old(records), ttl, now) - {key}, records - {key}, Charge(key, Kept(snapshot)), maximumTotalBytes)
    {
      var value := Kept(snapshot);
      var bytes := Charge(key, value);
      lookup := LookupOf(value);
      if bytes > maximumTotalBytes {
        return;
      }
      Vacate(key, now);
      StoreEvicting(key, value, bytes, now);
    }

    /** Adds a record for a key that has none, evicting as far as its bytes need it. */
    method StoreEvicting(key: Key, value: Option<Snapshot>, bytes: nat, now: Instant)
      requires Valid() && key !in records && bytes <= maximumTotalBytes
      modifies this
      ensures Valid() && clock == (old(clock) + 1) % U64_MODULUS
      ensures old(InCycle()) && old(clock) < clock ==> InCycle()
      ensures key in records && records[key] == Record(now, clock, value, bytes)
      ensures KeepsMostRecent(old(records), records - {key})
      ensures MadeRoom(old(records), records - {key}, bytes, maximumTotalBytes)
    {
      MakeRoom(bytes);
      ghost var survivors := records;
      Store(key, value, bytes, now);
      assert records - {key} == survivors;
    }

    /** Removes what has expired and what the key held. */
    method Vacate(key: Key, now: Instant)
      requires Valid()
      modifies this`records, this`totalBytes
      ensures Valid() && records == Fresh(old(records), ttl, now) - {key}
      ensures old(InCycle()) ==> InCycle()
    {
      PruneExpired(now);
      if key in records {
        Remove(key);
      }
    }
  }

  /** Whatever is inserted, a cache afterwards holds that snapshot and otherwise only snapshots it held before. */
  lemma InsertAddsOnlyItsSnapshot(before: Records, after: Records, key: Key, ttl: nat, now: Instant)
    requires key in after && KeepsMostRecent(Fresh(before, ttl, now) - {key}, after - {key})
    ensures forall k :: k in Snapshots(after) && k != key ==>
      k in Snapshots(before) && Snapshots(after)[k] == Snapshots(before)[k]
  {
    forall k | k in Snapshots(after) && k != key
      ensures k in Snapshots(before) && Snapshots(after)[k] == Snapshots(before)[k]
    {
      assert k in after - {key};
    }
  }
}
