/**
 Attempt histories of the login limiter: instants in the order they were recorded,
 pruning to the current window, and counting what a history holds since an instant.
 */
module AttemptHistories {
  import opened Common

  type History = seq<Instant>

  /** `now.duration_since(attempt) < window`; the duration saturates at zero. */
  predicate Live(window: nat, now: Instant, attempt: Instant) {
    (if now < attempt then 0 else now - attempt) < window
  }

  /** The attempts still inside the window, in order. */
  function Prune(window: nat, h: History, now: Instant): (r: History)
    ensures |r| <= |h|
  {
    if h == [] then []
    else
      var rest := Prune(window, h[..|h| - 1], now);
      var last := h[|h| - 1];
      if Live(window, now, last) then rest + [last] else rest
  }

  lemma {:induction false} PruneMembers(window: nat, h: History, now: Instant, t: Instant)
    ensures t in Prune(window, h, now) <==> t in h && Live(window, now, t)
  {
    if h != [] {
      PruneMembers(window, h[..|h| - 1], now, t);
      assert h == h[..|h| - 1] + [h[|h| - 1]];
    }
  }

  /** How many attempts are at `since` or later. */
  function CountSince(h: History, since: Instant): (n: nat)
    ensures n <= |h|
  {
    if h == [] then 0
    else CountSince(h[..|h| - 1], since) + (if h[|h| - 1] >= since then 1 else 0)
  }

  predicate Ordered(h: History) {
    forall i, j :: 0 <= i < j < |h| ==> h[i] <= h[j]
  }

  /** All attempts happened at or before `now`. */
  predicate Before(h: History, now: Instant) {
    forall i :: 0 <= i < |h| ==> h[i] <= now
  }

  /** Any `max + 1` consecutive attempts span at least one window. */
  predicate Spaced(h: History, max: nat, window: nat) {
    forall i, j :: 0 <= i && i + max <= j < |h| ==> h[i] + window <= h[j]
  }

  /** How many attempts fall into the closed interval from `a` to `b`. */
  function CountBetween(h: History, a: Instant, b: Instant): nat {
    if h == [] then 0
    else CountBetween(h[..|h| - 1], a, b) + (if a <= h[|h| - 1] <= b then 1 else 0)
  }

  lemma CountPush(h: History, t: Instant, since: Instant)
    ensures CountSince(h + [t], since) == CountSince(h, since) + (if t >= since then 1 else 0)
  {
    assert (h + [t])[..|h|] == h;
  }

  /** Pruning loses nothing that a live instant can still see. */
  lemma {:induction false} CountPruned(window: nat, h: History, now: Instant, since: Instant)
    requires Live(window, now, since)
    ensures CountSince(Prune(window, h, now), since) == CountSince(h, since)
  {
    if h != [] {
      var front, last := h[..|h| - 1], h[|h| - 1];
      CountPruned(window, front, now, since);
      if Live(window, now, last) {
        CountPush(Prune(window, front, now), last, since);
      }
    }
  }

  lemma {:induction false} PruneAppend(window: nat, a: History, t: Instant, now: Instant)
    ensures Prune(window, a + [t], now) == Prune(window, a, now) + (if Live(window, now, t) then [t] else [])
  {
    assert (a + [t])[..|a|] == a;
  }

  lemma {:induction false} PruneTwice(window: nat, h: History, now: Instant)
    ensures Prune(window, Prune(window, h, now), now) == Prune(window, h, now)
  {
    if h != [] {
      var front, last := h[..|h| - 1], h[|h| - 1];
      PruneTwice(window, front, now);
      if Live(window, now, last) {
        PruneAppend(window, Prune(window, front, now), last, now);
      }
    }
  }

  lemma {:induction false} PruneOrdered(window: nat, h: History, now: Instant)
    requires Ordered(h)
    ensures Ordered(Prune(window, h, now))
  {
    if h != [] {
      var front, last := h[..|h| - 1], h[|h| - 1];
      PruneOrdered(window, front, now);
      var rest := Prune(window, front, now);
      forall i | 0 <= i < |rest|
        ensures rest[i] <= last
      {
        PruneMembers(window, front, now, rest[i]);
      }
    }
  }

  /** In an ordered history, everything from position `i` on counts since `h[i]`. */
  lemma {:induction false} CountFrom(h: History, i: nat, since: Instant)
    requires Ordered(h) && i <= |h|
    requires i < |h| ==> since <= h[i]
    ensures CountSince(h, since) >= |h| - i
    decreases |h|
  {
    if i < |h| {
      CountFrom(h[..|h| - 1], i, since);
    }
  }

  /** In an ordered history, nothing before position `i` counts since a later instant. */
  lemma {:induction false} CountAtMost(h: History, i: nat, since: Instant)
    requires Ordered(h) && i <= |h|
    requires i > 0 ==> h[i - 1] < since
    ensures CountSince(h, since) <= |h| - i
    decreases |h|
  {
    if h != [] {
      if i == |h| {
        CountAtMost(h[..|h| - 1], i - 1, since);
      } else {
        CountAtMost(h[..|h| - 1], i, since);
      }
    }
  }

  /** Dropping the oldest excess keeps every count up to the number kept. */
  lemma CountKeptNewest(h: History, keep: nat, since: Instant)
    requires Ordered(h) && keep <= |h|
    ensures
      var kept := CountSince(h[|h| - keep..], since);
      kept == CountSince(h, since) || (kept == keep && CountSince(h, since) >= keep)
  {
    var tail := h[|h| - keep..];
    SplitCount(h, |h| - keep, since);
    if keep > 0 && since <= tail[0] {
      CountFrom(tail, 0, since);
    } else if keep > 0 {
      CountAtMost(h[..|h| - keep], |h| - keep, since);
    }
  }

  lemma {:induction false} SplitCount(h: History, i: nat, since: Instant)
    requires i <= |h|
    ensures CountSince(h, since) == CountSince(h[..i], since) + CountSince(h[i..], since)
    decreases |h|
  {
    if i < |h| {
      var front := h[..|h| - 1];
      SplitCount(front, i, since);
      assert front[..i] == h[..i];
      assert h[i..] == front[i..] + [h[|h| - 1]];
      CountPush(front[i..], h[|h| - 1], since);
    } else {
      assert h[..i] == h;
    }
  }

  /** A push is safe when the live part of an ordered log is still below the maximum. */
  lemma SpacedPush(h: History, now: Instant, max: nat, window: nat)
    requires Ordered(h) && Before(h, now) && Spaced(h, max, window)
    requires max > 0 && window > 0
    requires forall since :: Live(window, now, since) ==> CountSince(h, since) < max
    ensures Ordered(h + [now]) && Before(h + [now], now) && Spaced(h + [now], max, window)
  {
    var g := h + [now];
    forall i, j | 0 <= i && i + max <= j < |g|
      ensures g[i] + window <= g[j]
    {
      if j == |h| && Live(window, now, h[i]) {
        CountFrom(h, i, h[i]);
        assert false;
      }
    }
  }

  /** Spacing bounds the number of attempts in every interval shorter than the window. */
  lemma {:induction false} IntervalBound(h: History, a: Instant, b: Instant, max: nat, window: nat)
    requires Ordered(h) && Spaced(h, max, window)
    requires b < a + window
    ensures CountBetween(h, a, b) <= max
    decreases |h|
  {
    if h != [] {
      var front, last := h[..|h| - 1], h[|h| - 1];
      IntervalBound(front, a, b, max, window);
      if |front| < max {
        BetweenAtMostSince(front, a, b);
      } else {
        var i := |front| - max;
        assert h[i] + window <= h[|front|];
        if max > 0 && a <= last <= b {
          CountAtMost(front, i + 1, a);
          BetweenAtMostSince(front, a, b);
        }
      }
    }
  }

  lemma {:induction false} BetweenAtMostSince(h: History, a: Instant, b: Instant)
    ensures CountBetween(h, a, b) <= CountSince(h, a)
  {
    if h != [] {
      BetweenAtMostSince(h[..|h| - 1], a, b);
    }
  }
}
