/**
 Write deadlines of a served connection.

 A timer is armed by the first incomplete write, flush or shutdown and cleared by
 progress.  The module characterises the idle error over the whole history of polls,
 without mentioning the timer: it is raised exactly when the transport is pending and
 some earlier incomplete poll lies at least the idle period back with no progress since.
 */
module WriteDeadlines {
  import opened Common

  /** What the inner transport answered. */
  datatype Inner = InnerPending | Wrote(count: nat) | Done | InnerError

  datatype Call = Write(requested: nat) | Flush | Shutdown

  /** One poll of the connection that got past the lifetime check. */
  datatype Poll = Poll(now: Instant, call: Call, inner: Inner)

  datatype Outcome = LifetimeOver | WriteIdle | Passed(inner: Inner)

  /** The poll left data or a flush unfinished. */
  predicate Incomplete(p: Poll) {
    match p.inner
    case InnerPending => true
    case Wrote(count) => p.call.Write? && count < p.call.requested
    case _ => false
  }

  /** The poll made progress, finished, or failed for a reason of its own. */
  predicate Clears(p: Poll) {
    match p.inner
    case InnerPending => false
    case Wrote(count) => count > 0 || !(p.call.Write? && count < p.call.requested)
    case _ => true
  }

  predicate Monotone(log: seq<Poll>) {
    forall i, j :: 0 <= i < j < |log| ==> log[i].now <= log[j].now
  }

  /** Poll `j` was incomplete and nothing has cleared it since. */
  predicate StalledSince(log: seq<Poll>, j: nat) {
    j < |log| && Incomplete(log[j]) && forall k :: j < k < |log| ==> !Clears(log[k])
  }

  /** Some stall has lasted at least `idle` at `now`. */
  predicate StalledFor(log: seq<Poll>, idle: nat, now: Instant) {
    exists j :: 0 <= j < |log| && StalledSince(log, j) && log[j].now + idle <= now
  }

  /** The instant the running timer was armed, after these polls. */
  function ArmedAt(log: seq<Poll>): Option<Instant> {
    if log == [] then None
    else
      var p := log[|log| - 1];
      var before := ArmedAt(log[..|log| - 1]);
      var kept := if Clears(p) then None else before;
      if !Incomplete(p) then None
      else if kept.None? then Some(p.now) else kept
  }

  lemma StallExtends(log: seq<Poll>, p: Poll, j: nat)
    ensures StalledSince(log + [p], j) <==>
      (j == |log| && Incomplete(p)) || (j < |log| && StalledSince(log, j) && !Clears(p))
  {
    var all := log + [p];
    if j < |log| && StalledSince(log, j) && !Clears(p) {
      assert forall k :: j < k < |all| ==> !Clears(all[k]);
    }
    if j < |log| && StalledSince(all, j) {
      assert all[|log|] == p;
      assert forall k :: j < k < |log| ==> log[k] == all[k];
    }
  }

  predicate NothingStalled(log: seq<Poll>) {
    forall j :: 0 <= j < |log| ==> !StalledSince(log, j)
  }

  /** Something is stalled, and `t` is when the earliest of it was polled. */
  predicate StalledFrom(log: seq<Poll>, t: Instant) {
    && (exists j :: 0 <= j < |log| && StalledSince(log, j) && log[j].now == t)
    && (forall j :: 0 <= j < |log| && StalledSince(log, j) ==> t <= log[j].now)
  }

  lemma StallEnds(log: seq<Poll>, p: Poll)
    requires !Incomplete(p)
    ensures NothingStalled(log + [p])
  {
    forall j | 0 <= j < |log + [p]| ensures !StalledSince(log + [p], j) {
      StallExtends(log, p, j);
    }
  }

  lemma StallBegins(log: seq<Poll>, p: Poll)
    requires Incomplete(p) && (Clears(p) || NothingStalled(log))
    ensures StalledFrom(log + [p], p.now)
  {
    var all := log + [p];
    StallExtends(log, p, |log|);
    assert StalledSince(all, |log|) && all[|log|].now == p.now;
    forall j | 0 <= j < |all| && StalledSince(all, j) ensures p.now <= all[j].now {
      StallExtends(log, p, j);
    }
  }

  lemma StallContinues(log: seq<Poll>, p: Poll, t: Instant)
    requires Incomplete(p) && !Clears(p) && StalledFrom(log, t) && Monotone(log + [p])
    ensures StalledFrom(log + [p], t)
  {
    var all := log + [p];
    var j :| 0 <= j < |log| && StalledSince(log, j) && log[j].now == t;
    StallExtends(log, p, j);
    assert all[j] == log[j] && StalledSince(all, j);
    forall k | 0 <= k < |all| && StalledSince(all, k) ensures t <= all[k].now {
      StallExtends(log, p, k);
      assert k < |log| ==> all[k] == log[k];
    }
  }

  /** The timer runs exactly while something is stalled, and it dates from the earliest stall. */
  lemma {:induction false} ArmedAtEarliestStall(log: seq<Poll>)
    requires Monotone(log)
    ensures ArmedAt(log).None? ==> NothingStalled(log)
    ensures ArmedAt(log).Some? ==> StalledFrom(log, ArmedAt(log).value)
    decreases |log|
  {
    if log != [] {
      var front, p := log[..|log| - 1], log[|log| - 1];
      assert log == front + [p];
      ArmedAtEarliestStall(front);
      if !Incomplete(p) {
        StallEnds(front, p);
      } else if Clears(p) || ArmedAt(front).None? {
        StallBegins(front, p);
      } else {
        StallContinues(front, p, ArmedAt(front).value);
      }
    }
  }

  /** The running timer has expired exactly when some stall has lasted the idle period. */
  lemma TimerMeasuresStall(log: seq<Poll>, idle: nat, now: Instant)
    requires Monotone(log)
    ensures (ArmedAt(log).Some? && ArmedAt(log).value + idle <= now) <==> StalledFor(log, idle, now)
  {
    ArmedAtEarliestStall(log);
  }

  predicate AllPending(log: seq<Poll>) {
    forall i :: 0 <= i < |log| ==> log[i].inner == InnerPending
  }

  /** Where nothing was ever accepted, the idle period counts from the first poll. */
  lemma SilentTransport(log: seq<Poll>, idle: nat, now: Instant)
    requires Monotone(log) && log != [] && AllPending(log)
    ensures StalledFor(log, idle, now) <==> log[0].now + idle <= now
  {
    assert StalledSince(log, 0);
  }

  /** A write that accepted something counts as progress, whatever came before it. */
  lemma ProgressResets(before: seq<Poll>, now: Instant, requested: nat, count: nat, after: seq<Poll>, idle: nat, later: Instant)
    requires 0 < count <= requested && AllPending(after)
    requires Monotone(before + [Poll(now, Write(requested), Wrote(count))] + after)
    ensures
      var log := before + [Poll(now, Write(requested), Wrote(count))] + after;
      StalledFor(log, idle, later) <==>
        if count < requested then now + idle <= later else after != [] && after[0].now + idle <= later
  {
    var p := Poll(now, Write(requested), Wrote(count));
    var log, n := before + [p] + after, |before|;
    assert log[n] == p && forall i :: 0 <= i < |after| ==> log[n + 1 + i] == after[i];
    forall j | 0 <= j < n ensures !StalledSince(log, j) {
      assert Clears(log[n]);
    }
    if count < requested {
      assert StalledSince(log, n);
    } else if after != [] {
      assert StalledSince(log, n + 1);
    }
  }

  lemma ArmedAtPush(log: seq<Poll>, p: Poll)
    ensures ArmedAt(log + [p]) ==
      if !Incomplete(p) then None
      else if Clears(p) || ArmedAt(log).None? then Some(p.now)
      else ArmedAt(log)
  {
    assert (log + [p])[..|log|] == log;
  }

  class ConnectionLimitedIo {
    const idle: nat
    const lifetimeEnds: Instant
    /** The deadline of the write timer, if it is armed. */
    var writeTimeout: Option<Instant>
    /** Every poll that reached the inner transport, in order. */
    ghost var log: seq<Poll>

    ghost predicate Valid()
      reads this
    {
      && Monotone(log)
      && (writeTimeout.None? <==> ArmedAt(log).None?)
      && (writeTimeout.Some? ==> writeTimeout.value == ArmedAt(log).value + idle)
    }

    ghost predicate NotBefore(now: Instant)
      reads this
    {
      forall i :: 0 <= i < |log| ==> log[i].now <= now
    }

    constructor (idle: nat, lifetimeEnds: Instant)
      ensures Valid() && log == [] && this.idle == idle && this.lifetimeEnds == lifetimeEnds
    {
      this.idle, this.lifetimeEnds := idle, lifetimeEnds;
      writeTimeout := None;
      log := [];
    }

    /** Whether the armed timer has run out. */
    method PollWriteDeadline(now: Instant) returns (expired: bool)
      ensures expired <==> writeTimeout.Some? && writeTimeout.value <= now
    {
      return writeTimeout.Some? && writeTimeout.value <= now;
    }

    method TrackIncompleteWrite(now: Instant, incomplete: bool)
      modifies this`writeTimeout
      ensures writeTimeout == if !incomplete then None else if old(writeTimeout).None? then Some(now + idle) else old(writeTimeout)
    {
      if incomplete {
        if writeTimeout.None? {
          writeTimeout := Some(now + idle);
        }
      } else {
        writeTimeout := None;
      }
    }

    method PollWrite(now: Instant, requested: nat, inner: Inner) returns (r: Outcome)
      requires Valid() && NotBefore(now) && (inner == InnerPending || inner == InnerError || inner.Wrote?)
      modifies this
      ensures Valid()
      ensures r == Judged(old(log), Poll(now, Write(requested), inner))
      ensures log == if r == LifetimeOver then old(log) else old(log) + [Poll(now, Write(requested), inner)]
    {
      if lifetimeEnds <= now {
        return LifetimeOver;
      }
      ghost var p := Poll(now, Write(requested), inner);
      TimerMeasuresStall(log, idle, now);
      ArmedAtPush(log, p);
      if inner.Wrote? && inner.count > 0 {
        writeTimeout := None;
      }
      var incomplete := inner == InnerPending || (inner.Wrote? && inner.count < requested);
      log := log + [p];
      if inner == InnerPending {
        var expired := PollWriteDeadline(now);
        if expired {
          return WriteIdle;
        }
      }
      TrackIncompleteWrite(now, incomplete);
      return Passed(inner);
    }

    method PollFlush(now: Instant, inner: Inner) returns (r: Outcome)
      requires Valid() && NotBefore(now) && !inner.Wrote?
      modifies this
      ensures Valid()
      ensures r == Judged(old(log), Poll(now, Flush, inner))
      ensures log == if r == LifetimeOver then old(log) else old(log) + [Poll(now, Flush, inner)]
    {
      if lifetimeEnds <= now {
        return LifetimeOver;
      }
      ghost var p := Poll(now, Flush, inner);
      TimerMeasuresStall(log, idle, now);
      ArmedAtPush(log, p);
      log := log + [p];
      if inner == InnerPending {
        var expired := PollWriteDeadline(now);
        if expired {
          return WriteIdle;
        }
      }
      TrackIncompleteWrite(now, inner == InnerPending);
      return Passed(inner);
    }

    method PollShutdown(now: Instant, inner: Inner) returns (r: Outcome)
      requires Valid() && NotBefore(now) && !inner.Wrote?
      modifies this
      ensures Valid()
      ensures r == Judged(old(log), Poll(now, Shutdown, inner))
      ensures log == if r == LifetimeOver then old(log) else old(log) + [Poll(now, Shutdown, inner)]
    {
      if lifetimeEnds <= now {
        return LifetimeOver;
      }
      ghost var p := Poll(now, Shutdown, inner);
      TimerMeasuresStall(log, idle, now);
      ArmedAtPush(log, p);
      log := log + [p];
      if inner == InnerPending {
        var expired := PollWriteDeadline(now);
        if expired {
          return WriteIdle;
        }
      }
      TrackIncompleteWrite(now, inner == InnerPending);
      return Passed(inner);
    }

    /** What a poll reports, in terms of the history alone. */
    ghost function Judged(history: seq<Poll>, p: Poll): Outcome {
      if lifetimeEnds <= p.now then LifetimeOver
      else if p.inner == InnerPending && StalledFor(history, idle, p.now) then WriteIdle
      else Passed(p.inner)
    }

    /** The body of its own for vectored writes, judged like a write of the buffers joined together. */
    method PollWriteVectored(now: Instant, buffers: seq<seq<int>>, inner: Inner) returns (r: Outcome)
      requires Valid() && NotBefore(now) && (inner == InnerPending || inner == InnerError || inner.Wrote?)
      modifies this
      ensures Valid()
      ensures r == Judged(old(log), Poll(now, Write(|Joined(buffers)|), inner))
      ensures log == if r == LifetimeOver then old(log) else old(log) + [Poll(now, Write(|Joined(buffers)|), inner)]
    {
      if lifetimeEnds <= now {
        return LifetimeOver;
      }
      var requested := TotalLength(buffers);
      ghost var p := Poll(now, Write(requested), inner);
      TimerMeasuresStall(log, idle, now);
      ArmedAtPush(log, p);
      log := log + [p];
      if inner.Wrote? && inner.count > 0 {
        writeTimeout := None;
      }
      var incomplete :=
        match inner
        case InnerPending => true
        case Wrote(count) => count < requested
        case _ => false;
      if inner == InnerPending {
        var expired := PollWriteDeadline(now);
        if expired {
          return WriteIdle;
        }
      }
      TrackIncompleteWrite(now, incomplete);
      return Passed(inner);
    }
  }

  ghost function Joined(buffers: seq<seq<int>>): seq<int> {
    if buffers == [] then [] else Joined(buffers[..|buffers| - 1]) + buffers[|buffers| - 1]
  }

  method TotalLength(buffers: seq<seq<int>>) returns (n: nat)
    ensures n == |Joined(buffers)|
  {
    n := 0;
    for i := 0 to |buffers|
      invariant n == |Joined(buffers[..i])|
    {
      assert buffers[..i + 1][..i] == buffers[..i];
      n := n + |buffers[i]|;
    }
    assert buffers[..|buffers|] == buffers;
  }
}
