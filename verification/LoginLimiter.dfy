/**
 The bounded sliding-window login limiter.

 Attempts of a key live in a primary entry while there is room, otherwise in a shared
 overflow bucket chosen by hash.  This module gives the transitions of the limiter
 state as functions.
 */
module LoginLimiting {
  import opened Common
  import opened AttemptHistories

  type Key = string

  const GLOBAL_CLEANUP_INTERVAL: nat := 64
  /** `bucketOf` is the keyed hash reduced to a bucket index; nothing else is known of it. */
  datatype Settings = Settings(max: nat, window: nat, capacity: nat, buckets: nat, bucketOf: Key -> nat) {
    ghost predicate Valid() {
      capacity > 0 && buckets > 0 && forall k :: bucketOf(k) < buckets
    }
  }

  type Bucket = Option<History>

  datatype State = State(entries: map<Key, History>, overflow: seq<Bucket>, operations: nat)

  function Contents(b: Bucket): History { if b.Some? then b.value else [] }

  // ----- Pruning -----

  function PruneBucket(c: Settings, b: Bucket, now: Instant): Bucket {
    var h := Prune(c.window, Contents(b), now);
    if h == [] then None else Some(h)
  }

  function PruneAll(c: Settings, entries: map<Key, History>, now: Instant): map<Key, History> {
    map k | k in entries && Prune(c.window, entries[k], now) != [] :: Prune(c.window, entries[k], now)
  }

  function Cleanup(c: Settings, st: State, now: Instant): State {
    State(PruneAll(c, st.entries, now),
          seq(|st.overflow|, i requires 0 <= i < |st.overflow| => PruneBucket(c, st.overflow[i], now)),
          st.operations)
  }

  function PeriodicCleanup(c: Settings, st: State, now: Instant): State {
    var ticked := st.(operations := (st.operations + 1) % U64_MODULUS);
    if ticked.operations % GLOBAL_CLEANUP_INTERVAL == 0 then Cleanup(c, ticked, now) else ticked
  }

  function KeySet(keys: seq<Key>): set<Key> { set k | k in keys }

  /** Prunes only the requested keys and removes those left empty. */
  function PruneKeys(c: Settings, entries: map<Key, History>, keys: set<Key>, now: Instant): map<Key, History> {
    map k | k in entries && (k in keys ==> Prune(c.window, entries[k], now) != [])
      :: if k in keys then Prune(c.window, entries[k], now) else entries[k]
  }

  // ----- Choosing where each key is charged -----

  /**
   Keys charged to the entry they have, keys given a new entry, and buckets to charge,
   with the buckets as pruned so far and the entries still free.
   */
  datatype Plan = Plan(existing: set<Key>, added: set<Key>, targets: set<nat>, overflow: seq<Bucket>, slots: nat)

  function PlanKey(c: Settings, entries: map<Key, History>, p: Plan, key: Key, now: Instant): (r: Plan)
    requires c.Valid() && |p.overflow| == c.buckets
    ensures |r.overflow| == c.buckets
  {
    if key in entries then Plan(p.existing + {key}, p.added, p.targets, p.overflow, p.slots)
    else
      var b := c.bucketOf(key);
      var bucket := PruneBucket(c, p.overflow[b], now);
      var overflow := p.overflow[b := bucket];
      if bucket.Some? || p.slots == 0 then Plan(p.existing, p.added, p.targets + {b}, overflow, p.slots)
      else Plan(p.existing, p.added + {key}, p.targets, overflow, p.slots - 1)
  }

  function PlanKeys(c: Settings, entries: map<Key, History>, overflow: seq<Bucket>, keys: seq<Key>, now: Instant): (r: Plan)
    requires c.Valid() && |overflow| == c.buckets
    ensures |r.overflow| == c.buckets
    decreases |keys|
  {
    if keys == [] then
      Plan({}, {}, {}, overflow, if |entries| > c.capacity then 0 else c.capacity - |entries|)
    else
      PlanKey(c, entries, PlanKeys(c, entries, overflow, keys[..|keys| - 1], now), keys[|keys| - 1], now)
  }

  /** Each key once, in order of first appearance. */
  function Unique(keys: seq<Key>): (u: seq<Key>)
    ensures forall k :: k in u <==> k in keys
    ensures forall i, j :: 0 <= i < j < |u| ==> u[i] != u[j]
    decreases |keys|
  {
    if keys == [] then []
    else
      var front, last := keys[..|keys| - 1], keys[|keys| - 1];
      assert keys == front + [last];
      if last in front then Unique(front) else Unique(front) + [last]
  }

  // ----- Admission -----

  predicate EntryFull(c: Settings, entries: map<Key, History>, key: Key) {
    key in entries && |entries[key]| >= c.max
  }

  predicate BucketFull(c: Settings, b: Bucket) { |Contents(b)| >= c.max && b.Some? }

  predicate Blocked(c: Settings, entries: map<Key, History>, p: Plan) {
    || (exists k :: k in p.existing && EntryFull(c, entries, k))
    || (exists b :: b in p.targets && b < |p.overflow| && BucketFull(c, p.overflow[b]))
  }

  function PushEntries(entries: map<Key, History>, keys: set<Key>, now: Instant): map<Key, History> {
    map k | k in entries.Keys + keys
      :: (if k in entries then entries[k] else []) + (if k in keys then [now] else [])
  }

  function PushBuckets(overflow: seq<Bucket>, targets: set<nat>, now: Instant): seq<Bucket> {
    seq(|overflow|, i requires 0 <= i < |overflow| =>
      if i in targets then Some(Contents(overflow[i]) + [now]) else overflow[i])
  }

  function Push(ready: State, p: Plan, now: Instant): State {
    State(PushEntries(ready.entries, p.existing + p.added, now),
          PushBuckets(ready.overflow, p.targets, now),
          ready.operations)
  }

  /** The state in which the admission decision is made: ticked, pruned, buckets chosen. */
  function Prepared(c: Settings, st: State, keys: seq<Key>, now: Instant): (State, Plan)
    requires c.Valid() && |st.overflow| == c.buckets
  {
    var ticked := PeriodicCleanup(c, st, now);
    var entries := PruneKeys(c, ticked.entries, KeySet(keys), now);
    var p := PlanKeys(c, entries, ticked.overflow, Unique(keys), now);
    (State(entries, p.overflow, ticked.operations), p)
  }

  datatype Decision = Decision(state: State, admitted: bool)

  /** One `check_and_record_attempts` call. */
  function Attempt(c: Settings, st: State, keys: seq<Key>, now: Instant): Decision
    requires c.Valid() && |st.overflow| == c.buckets
  {
    if c.max == 0 || c.window == 0 then Decision(st, false)
    else if keys == [] then Decision(st, true)
    else
      var (ready, p) := Prepared(c, st, keys, now);
      if Blocked(c, ready.entries, p) then Decision(ready, false)
      else Decision(Push(ready, p, now), true)
  }

  function Succeed(st: State, key: Key): State {
    st.(entries := st.entries - {key})
  }

  // ----- Poison recovery -----

  predicate Damaged(c: Settings, st: State) {
    |st.overflow| != c.buckets || |st.entries| > c.capacity
  }

  function KeepNewest(c: Settings, h: History): History {
    if |h| > c.max then h[|h| - c.max..] else h
  }

  function FullHistory(c: Settings, now: Instant): History { seq(c.max, _ => now) }

  function Recover(c: Settings, found: State, now: Instant): State {
    if Damaged(c, found) then
      State(map[], seq(c.buckets, _ => Some(FullHistory(c, now))), found.operations)
    else
      var clean := Cleanup(c, found, now);
      State(map k | k in clean.entries :: KeepNewest(c, clean.entries[k]),
            seq(|clean.overflow|, i requires 0 <= i < |clean.overflow| =>
              if clean.overflow[i].Some? then Some(KeepNewest(c, clean.overflow[i].value)) else None),
            clean.operations)
  }
}
