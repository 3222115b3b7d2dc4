/**
 Whole histories of the buffered file reader: when its bookkeeping underflows, said of
 the calls and answers alone; where reads and seeks lead; and runs of any requests.
 */
module AdmittedFileHistories {
  import opened Common
  import opened AdmittedFiles

  // ----- When the bookkeeping underflows, said of the history alone -----

  /** A read that delivered something. */
  predicate Delivers(c: Call) { c.Read? && c.output != [] }

  /** A read poll that ended without an answer or with an error: it found or started a read. */
  predicate Hangs(c: Call) { c.Read? && c.room > 0 && c.outcome != Ready }

  /** A completed read or a started seek: the offset is set anew. */
  predicate Resets(c: Call) { (c.Read? && c.room > 0 && c.outcome == Ready) || (c.Seek? && c.started == Started) }

  /** The delivery of call `i` is the last thing that set the offset. */
  predicate UsedSince(history: seq<Call>, n: nat, i: int)
    requires n <= |history|
  {
    0 <= i < n && Delivers(history[i]) && forall k :: i < k < n ==> !Resets(history[k])
  }

  ghost predicate Used(history: seq<Call>, n: nat)
    requires n <= |history|
  {
    exists i :: UsedSince(history, n, i)
  }

  /**
   Before call `n`, the last thing to set the offset was a delivery, and a further read has
   been started since then, whether it is pending, failed or was lost.
   */
  ghost predicate Stale(history: seq<Call>, n: nat)
    requires n <= |history|
  {
    exists i, j :: UsedSince(history, n, i) && i < j < n && Hangs(history[j])
  }

  /** Before call `n`, the last read poll with room was left pending. */
  ghost predicate InFlight(history: seq<Call>, n: nat)
    requires n <= |history|
  {
    exists j :: PendingSince(history, n, j)
  }

  predicate PendingSince(history: seq<Call>, n: nat, j: int)
    requires n <= |history|
  {
    && 0 <= j < n && Hangs(history[j]) && history[j].outcome == Pending
    && forall k :: j < k < n && history[k].Read? && history[k].room > 0 ==> history[k].outcome == Pending
  }

  /** What holds of every view that a history leads to. */
  predicate Sane(v: View) {
    && v.at <= v.cursor
    && (v.at < v.cursor ==> !v.lost && v.goal.None? && !v.flying && !v.stale)
    && (v.goal.Some? ==> !v.lost && !v.flying && !v.used && !v.stale)
    && (v.flying ==> !v.lost)
    && (v.flying || v.lost ==> v.stale == v.used)
    && (v.stale ==> v.used)
  }

  lemma StepSane(data: seq<Byte>, v: View, c: Call)
    requires Sane(v) && Right(data, v, c)
    ensures Sane(Step(|data|, v, c))
  {
  }

  lemma {:induction false} HistorySane(data: seq<Byte>, history: seq<Call>, n: nat)
    requires Explained(data, history) && n <= |history|
    ensures Sane(ViewAfter(|data|, history, n))
    decreases n
  {
    if n > 0 {
      HistorySane(data, history, n - 1);
      assert RightAt(data, history, n - 1);
      StepSane(data, ViewAfter(|data|, history, n - 1), history[n - 1]);
    }
  }

  /** How one call moves the three flags. */
  lemma StepFlags(data: seq<Byte>, v: View, c: Call)
    requires Sane(v) && Right(data, v, c)
    ensures
      var w := Step(|data|, v, c);
      && w.used == (if Resets(c) then Delivers(c) else v.used)
      && w.stale == (!Resets(c) && (v.stale || (Hangs(c) && v.used)))
      && w.flying == (if c.Read? && c.room > 0 then c.outcome == Pending else v.flying)
      && (Delivers(c) ==> Resets(c))
  {
  }

  lemma UsedNext(history: seq<Call>, n: nat)
    requires n < |history| && (Delivers(history[n]) ==> Resets(history[n]))
    ensures Used(history, n + 1) <==> if Resets(history[n]) then Delivers(history[n]) else Used(history, n)
  {
    if Used(history, n + 1) {
      var i :| UsedSince(history, n + 1, i);
      assert i < n ==> UsedSince(history, n, i);
    }
    if !Resets(history[n]) && Used(history, n) {
      var i :| UsedSince(history, n, i);
      assert UsedSince(history, n + 1, i);
    }
    if Delivers(history[n]) {
      assert UsedSince(history, n + 1, n);
    }
  }

  lemma StaleNext(history: seq<Call>, n: nat)
    requires n < |history| && (Delivers(history[n]) ==> Resets(history[n]))
    ensures Stale(history, n + 1) <==>
      !Resets(history[n]) && (Stale(history, n) || (Hangs(history[n]) && Used(history, n)))
  {
    if Stale(history, n + 1) {
      var i, j :| UsedSince(history, n + 1, i) && i < j < n + 1 && Hangs(history[j]);
      assert !Resets(history[n]) && UsedSince(history, n, i);
    }
    if !Resets(history[n]) && Stale(history, n) {
      var i, j :| UsedSince(history, n, i) && i < j < n && Hangs(history[j]);
      assert UsedSince(history, n + 1, i);
    }
    if !Resets(history[n]) && Hangs(history[n]) && Used(history, n) {
      var i :| UsedSince(history, n, i);
      assert UsedSince(history, n + 1, i);
    }
  }

  lemma FlightNext(history: seq<Call>, n: nat)
    requires n < |history|
    ensures InFlight(history, n + 1) <==>
      if history[n].Read? && history[n].room > 0 then history[n].outcome == Pending else InFlight(history, n)
  {
    if InFlight(history, n + 1) {
      var j :| PendingSince(history, n + 1, j);
      assert j < n ==> PendingSince(history, n, j);
    }
    if InFlight(history, n) {
      var j :| PendingSince(history, n, j);
      assert !(history[n].Read? && history[n].room > 0) ==> PendingSince(history, n + 1, j);
    }
    if Hangs(history[n]) && history[n].outcome == Pending {
      assert PendingSince(history, n + 1, n);
    }
  }

  /** The flags of the view are facts about the history. */
  lemma {:induction false} FlagsAreHistory(data: seq<Byte>, history: seq<Call>, n: nat)
    requires Explained(data, history) && n <= |history|
    ensures ViewAfter(|data|, history, n).used <==> Used(history, n)
    ensures ViewAfter(|data|, history, n).stale <==> Stale(history, n)
    ensures ViewAfter(|data|, history, n).flying <==> InFlight(history, n)
    decreases n
  {
    if n > 0 {
      FlagsAreHistory(data, history, n - 1);
      HistorySane(data, history, n - 1);
      assert RightAt(data, history, n - 1);
      StepFlags(data, ViewAfter(|data|, history, n - 1), history[n - 1]);
      UsedNext(history, n - 1);
      StaleNext(history, n - 1);
      FlightNext(history, n - 1);
    }
  }

  /**
   Over every history: a relative seek underflows exactly when the offset is stale and no
   read is in flight, and a position query exactly when the offset is stale.
   */
  lemma UnderflowsExactly(data: seq<Byte>, history: seq<Call>, n: nat)
    requires Explained(data, history) && n < |history|
    ensures history[n].Seek? ==>
      (history[n].started == Underflow <==>
         history[n].target.FromCurrent? && Stale(history, n) && !InFlight(history, n))
    ensures history[n].Query? ==> (history[n].result == PositionUnderflow <==> Stale(history, n))
  {
    FlagsAreHistory(data, history, n);
    HistorySane(data, history, n);
    assert RightAt(data, history, n);
  }

  /** A failed read after a delivery makes the next relative seek underflow. */
  method FailedReadBreaksRelativeSeek() returns (r: SeekStart)
    ensures r == Underflow
  {
    var file := new AdmittedFile([7, 8]);
    var outcome, output := file.PollRead(1, ReadDone(1));
    outcome, output := file.PollRead(1, ReadFailed);
    r := file.StartSeek(FromCurrent(0));
  }

  /** A read merely in flight after a delivery makes a position query underflow. */
  method PendingReadBreaksPosition() returns (r: SeekResult)
    ensures r == PositionUnderflow
  {
    var file := new AdmittedFile([7, 8]);
    var outcome, output := file.PollRead(1, ReadDone(1));
    outcome, output := file.PollRead(1, ReadPending);
    r := file.PollComplete(SeekPending);
  }

  /** So does a read whose worker was lost. */
  method LostReadBreaksPosition() returns (r: SeekResult)
    ensures r == PositionUnderflow
  {
    var file := new AdmittedFile([7, 8]);
    var outcome, output := file.PollRead(1, ReadDone(1));
    outcome, output := file.PollRead(1, ReadLost);
    r := file.PollComplete(SeekPending);
  }

  // ----- Where reads and seeks lead over a history -----

  lemma StretchGrows(data: seq<Byte>, base: int, text: seq<Byte>, output: seq<Byte>)
    requires Stretch(data, base, text) && Stretch(data, base + |text|, output)
    ensures Stretch(data, base, text + output)
  {
    if output == [] {
      assert text + output == text;
    } else if text == [] {
      assert text + output == output;
    } else {
      assert data[base..base + |text|] + data[base + |text|..base + |text| + |output|] == data[base..base + |text + output|];
    }
  }

  /** The bytes delivered by the calls from `i` up to `j`. */
  function Bytes(history: seq<Call>, i: nat, j: nat): seq<Byte>
    requires i <= j <= |history|
    decreases j
  {
    if i == j then []
    else Bytes(history, i, j - 1) + if history[j - 1].Read? then history[j - 1].output else []
  }

  lemma StepDelivers(data: seq<Byte>, v: View, c: Call)
    requires v.goal.None? && Right(data, v, c) && !(c.Seek? && c.started == Started)
    ensures
      var w, output := Step(|data|, v, c), if c.Read? then c.output else [];
      w.goal.None? && w.at == v.at + |output| && Stretch(data, v.at, output)
  {
  }

  /** Between two seeks, through failures and losses alike, all that was delivered is one stretch of the file. */
  lemma {:induction false} DeliveriesAreOneStretch(data: seq<Byte>, history: seq<Call>, i: nat, j: nat)
    requires Explained(data, history) && i <= j <= |history| && ViewAfter(|data|, history, i).goal.None?
    requires forall k :: i <= k < j ==> !(history[k].Seek? && history[k].started == Started)
    ensures Stretch(data, ViewAfter(|data|, history, i).at, Bytes(history, i, j))
    ensures ViewAfter(|data|, history, j).at == ViewAfter(|data|, history, i).at + |Bytes(history, i, j)|
    ensures ViewAfter(|data|, history, j).goal.None?
    decreases j
  {
    if i < j {
      var c := history[j - 1];
      DeliveriesAreOneStretch(data, history, i, j - 1);
      assert RightAt(data, history, j - 1);
      StepDelivers(data, ViewAfter(|data|, history, j - 1), c);
      StretchGrows(data, ViewAfter(|data|, history, i).at, Bytes(history, i, j - 1), if c.Read? then c.output else []);
    }
  }

  /** While a seek is pending its goal stays what it was. */
  lemma {:induction false} GoalStays(data: seq<Byte>, history: seq<Call>, i: nat, j: nat)
    requires Explained(data, history) && i < j <= |history|
    requires history[i].Seek? && history[i].started == Started
    requires forall k :: i < k < j && history[k].Query? ==> history[k].seek == SeekPending
    ensures ViewAfter(|data|, history, j).goal == Some(Target(|data|, ViewAfter(|data|, history, i).at, history[i].target))
    decreases j
  {
    if j > i + 1 {
      GoalStays(data, history, i, j - 1);
      HistorySane(data, history, j - 1);
      assert RightAt(data, history, j - 1);
    }
  }

  /**
   A seek that completes reports the offset asked for, the size plus the delta, or the
   position the consumer had reached when it asked plus the delta, and the consumer is there.
   */
  lemma SeekLeadsToTarget(data: seq<Byte>, history: seq<Call>, i: nat, j: nat)
    requires Explained(data, history) && i < j < |history|
    requires history[i].Seek? && history[i].started == Started
    requires forall k :: i < k < j && history[k].Query? ==> history[k].seek == SeekPending
    requires history[j].Query?
    ensures
      var goal := Target(|data|, ViewAfter(|data|, history, i).at, history[i].target);
      match history[j].seek
      case SeekDone(true) =>
        goal >= 0 && history[j].result == At(goal) && ViewAfter(|data|, history, j + 1).at == goal
      case SeekPending => history[j].result == NotYet
      case _ => history[j].result == SeekFailed
  {
    GoalStays(data, history, i, j);
    assert RightAt(data, history, j);
  }

  /** With no seek pending and nothing stale, a query reports the position reached. */
  lemma QueryReportsPosition(data: seq<Byte>, history: seq<Call>, n: nat)
    requires Explained(data, history) && n < |history| && history[n].Query?
    requires ViewAfter(|data|, history, n).goal.None? && !Stale(history, n)
    ensures history[n].result == At(ViewAfter(|data|, history, n).at)
  {
    FlagsAreHistory(data, history, n);
    assert RightAt(data, history, n);
  }

  // ----- Whole runs -----

  datatype Request = Fetch(room: nat, read: ReadPoll) | Reposition(target: SeekFrom) | Conclude(seek: SeekPoll)

  /** The nearest thing to `poll` that reading this file can yield. */
  function Feasible(data: seq<Byte>, job: ReadJob, poll: ReadPoll): (r: ReadPoll)
    ensures CanYield(data, job, r)
    ensures CanYield(data, job, poll) ==> r == poll
  {
    if !poll.ReadDone? then poll
    else if job.cursor >= |data| || job.capacity == 0 then ReadDone(0)
    else ReadDone(Min(Min(if poll.count == 0 then 1 else poll.count, job.capacity), |data| - job.cursor))
  }

  /** The call performs the request. */
  predicate Performs(request: Request, c: Call) {
    match request
    case Fetch(room, poll) => c.Read? && c.room == room && (c.read == poll || (c.read.ReadDone? && poll.ReadDone?))
    case Reposition(target) => c.Seek? && c.target == target
    case Conclude(poll) => c.Query? && (c.seek == poll || (c.seek == SeekDone(false) && poll == SeekDone(true)))
  }

  method Perform(file: AdmittedFile, request: Request)
    requires file.Valid()
    modifies file
    ensures file.Valid() && |file.history| == |old(file.history)| + 1 && old(file.history) <= file.history
    ensures Performs(request, file.history[|old(file.history)|])
  {
    match request
    case Fetch(room, poll) =>
      var outcome, output := file.PollRead(room, Feasible(file.data, file.NextRead(room), poll));
    case Reposition(target) =>
      var started := file.StartSeek(target);
    case Conclude(poll) =>
      var refused := file.seek.Some? && Target(|file.data|, file.position, file.seek.value.target) < 0;
      var result := file.PollComplete(if refused && poll == SeekDone(true) then SeekDone(false) else poll);
  }

  /** Any requests, through failed and lost reads and seeks, make a history that is answered right throughout. */
  method Run(file: AdmittedFile, requests: seq<Request>)
    requires file.Valid()
    modifies file
    ensures file.Valid() && |file.history| == |old(file.history)| + |requests| && old(file.history) <= file.history
    ensures forall i :: 0 <= i < |requests| ==> Performs(requests[i], file.history[|old(file.history)| + i])
    ensures Explained(file.data, file.history)
  {
    ghost var base := |file.history|;
    for k := 0 to |requests|
      invariant file.Valid() && |file.history| == base + k && old(file.history) <= file.history
      invariant forall i :: 0 <= i < k ==> Performs(requests[i], file.history[base + i])
    {
      Perform(file, requests[k]);
    }
  }
}
