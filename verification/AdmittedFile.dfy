/**
 The buffered file reader whose blocking reads and seeks run on a worker.

 The file's own cursor runs ahead of the consumer by the unread part of the buffer.
 `View` is what a consumer is entitled to know: where it stands, where the file stands,
 and what is under way.  Every call is proved to answer as the view says and to move the
 view as the call says, whatever short reads, failures, losses and seeks occur, and what
 was called and answered is kept in a ghost history.

 The offset into the buffer outlives the buffer: starting a read takes the buffer away
 and leaves the offset.  If bytes of the last buffer had been delivered, a position query
 underflows from then on until a read completes or a seek starts, and so does a relative
 seek once that read is no longer in flight.  When that happens is stated on the history
 alone.
 */
module AdmittedFiles {
  import opened Common

  const STREAM_BUFFER_BYTES: nat := 64 * 1024
  const I64_MIN: int := -0x8000_0000_0000_0000

  datatype SeekFrom = FromStart(position: nat) | FromEnd(delta: int) | FromCurrent(delta: int)

  datatype ReadJob = ReadJob(cursor: nat, capacity: nat)
  datatype SeekJob = SeekJob(cursor: nat, target: SeekFrom)

  /** What polling the read worker yields. */
  datatype ReadPoll = ReadPending | ReadLost | ReadFailed | ReadDone(count: nat)

  /** What polling the seek worker yields. */
  datatype SeekPoll = SeekPending | SeekLost | SeekDone(ok: bool)

  datatype Outcome = Ready | Pending | Failed

  datatype SeekStart = Started | Busy | OffsetOverflow | Underflow

  datatype SeekResult = At(position: nat) | NotYet | SeekFailed | PositionUnderflow

  function Min(a: nat, b: nat): nat { if a < b then a else b }

  /** Where a seek leads from position `from`; negative targets are refused. */
  function Target(size: nat, from: int, target: SeekFrom): int {
    match target
    case FromStart(p) => p
    case FromEnd(d) => size + d
    case FromCurrent(d) => from + d
  }

  /** A read returns at most what was asked for and what is left, and nothing only at the end. */
  predicate CanYield(data: seq<Byte>, job: ReadJob, poll: ReadPoll) {
    poll.ReadDone? ==>
      && poll.count <= job.capacity
      && (poll.count > 0 ==> job.cursor + poll.count <= |data|)
      && (poll.count == 0 && job.capacity > 0 ==> job.cursor >= |data|)
  }

  /** `text` is the stretch of `data` that starts at `base`. */
  ghost predicate Stretch(data: seq<Byte>, base: int, text: seq<Byte>) {
    base >= 0 && (text != [] ==> base + |text| <= |data| && text == data[base..base + |text|])
  }

  lemma SliceOfSlice(s: seq<Byte>, a: nat, b: nat, i: nat, j: nat)
    requires a <= b <= |s| && i <= j <= b - a
    ensures s[a..b][i..j] == s[a + i..a + j]
  {
    var left, right := s[a..b][i..j], s[a + i..a + j];
    assert forall k :: 0 <= k < j - i ==> left[k] == right[k];
  }

  // ----- Calls and the consumer's view -----

  /** One call with its arguments, what the worker yielded, and the answer; `fetched` bytes came off the file. */
  datatype Call =
    | Read(room: nat, read: ReadPoll, outcome: Outcome, output: seq<Byte>, fetched: nat)
    | Seek(target: SeekFrom, started: SeekStart)
    | Query(seek: SeekPoll, result: SeekResult)

  /**
   Where the consumer stands, where the file stands, the goal of a pending seek, whether a
   read is in flight, whether a worker was lost with the file, whether anything was taken
   from the last buffer, and whether that buffer has been given away since.
   */
  datatype View = View(at: nat, cursor: nat, goal: Option<int>, flying: bool, lost: bool, used: bool, stale: bool)

  const Fresh := View(0, 0, None, false, false, false, false)

  /** A read that has room looks past the buffer. */
  predicate Reaches(v: View, room: nat) {
    room > 0 && v.at == v.cursor
  }

  /** A read poll is answered from the file at the consumer's position, and only the worker can make it fail. */
  ghost predicate ReadRight(data: seq<Byte>, v: View, c: Call)
    requires c.Read?
  {
    && |c.output| <= c.room && Stretch(data, v.at, c.output)
    && if c.room == 0 then
         c.outcome == Ready && c.output == [] && c.fetched == 0
       else if v.at != v.cursor then
         c.outcome == Ready && v.at + |c.output| == Min(v.at + c.room, v.cursor) && c.fetched == 0
       else if v.lost || v.goal.Some? then
         c.outcome == Failed && c.output == [] && c.fetched == 0
       else
         match c.read
         case ReadDone(count) =>
           && c.outcome == Ready && c.fetched == count && |c.output| == Min(c.room, count)
           && (count == 0 ==> v.at >= |data|)
         case ReadPending => c.outcome == Pending && c.output == [] && c.fetched == 0
         case _ => c.outcome == Failed && c.output == [] && c.fetched == 0
  }

  predicate SeekRight(v: View, c: Call)
    requires c.Seek?
  {
    c.started ==
      if v.flying || v.goal.Some? then Busy
      else if c.target.FromCurrent? && v.stale then Underflow
      else if c.target.FromCurrent? && c.target.delta - (v.cursor - v.at) < I64_MIN then OffsetOverflow
      else if v.lost then Busy
      else Started
  }

  predicate QueryRight(v: View, c: Call)
    requires c.Query?
  {
    if v.goal.None? then
      c.result == if v.stale then PositionUnderflow else At(v.at)
    else
      match c.seek
      case SeekPending => c.result == NotYet
      case SeekLost => c.result == SeekFailed
      case SeekDone(ok) => if ok then v.goal.value >= 0 && c.result == At(v.goal.value) else c.result == SeekFailed
  }

  ghost predicate Right(data: seq<Byte>, v: View, c: Call) {
    match c
    case Read(_, _, _, _, _) => ReadRight(data, v, c)
    case Seek(_, _) => SeekRight(v, c)
    case Query(_, _) => QueryRight(v, c)
  }

  /** What a call does to the view. */
  function Step(size: nat, v: View, c: Call): View {
    match c
    case Read(room, poll, _, output, fetched) =>
      if room == 0 then v
      else if v.at != v.cursor then v.(at := v.at + |output|, used := true)
      else if v.lost || v.goal.Some? then v
      else
        (match poll
         case ReadDone(_) =>
           v.(at := v.at + |output|, cursor := v.cursor + fetched, flying := false, used := output != [], stale := false)
         case ReadPending => v.(flying := true, stale := v.used)
         case ReadFailed => v.(flying := false, stale := v.used)
         case ReadLost => v.(flying := false, stale := v.used, lost := true))
    case Seek(target, started) =>
      if started == Started then
        v.(goal := Some(Target(size, v.at, target)), at := v.cursor, used := false, stale := false)
      else v
    case Query(poll, result) =>
      if v.goal.None? || poll == SeekPending then v
      else if result.At? then v.(goal := None, at := result.position, cursor := result.position)
      else v.(goal := None, lost := v.lost || poll == SeekLost)
  }

  /** The call is answered as the view says and leads to the next view. */
  ghost predicate Does(data: seq<Byte>, v: View, c: Call, next: View) {
    Right(data, v, c) && next == Step(|data|, v, c)
  }

  /** The view after the first `n` calls. */
  function ViewAfter(size: nat, history: seq<Call>, n: nat): View
    requires n <= |history|
  {
    if n == 0 then Fresh else Step(size, ViewAfter(size, history, n - 1), history[n - 1])
  }

  /** Call `i` was answered as the view before it says. */
  ghost predicate RightAt(data: seq<Byte>, history: seq<Call>, i: nat)
    requires i < |history|
  {
    Right(data, ViewAfter(|data|, history, i), history[i])
  }

  ghost predicate Explained(data: seq<Byte>, history: seq<Call>) {
    forall i :: 0 <= i < |history| ==> RightAt(data, history, i)
  }

  lemma {:induction false} ViewOfPrefix(size: nat, history: seq<Call>, c: Call, n: nat)
    requires n <= |history|
    ensures ViewAfter(size, history + [c], n) == ViewAfter(size, history, n)
    decreases n
  {
    if n > 0 {
      ViewOfPrefix(size, history, c, n - 1);
      assert (history + [c])[n - 1] == history[n - 1];
    }
  }

  lemma ExplainedAppend(data: seq<Byte>, history: seq<Call>, c: Call)
    requires Explained(data, history) && Right(data, ViewAfter(|data|, history, |history|), c)
    ensures Explained(data, history + [c])
    ensures ViewAfter(|data|, history + [c], |history| + 1) == Step(|data|, ViewAfter(|data|, history, |history|), c)
  {
    var all := history + [c];
    forall i | 0 <= i < |all| ensures RightAt(data, all, i) {
      ViewOfPrefix(|data|, history, c, i);
      assert i < |history| ==> all[i] == history[i] && RightAt(data, history, i);
    }
    ViewOfPrefix(|data|, history, c, |history|);
  }

  // ----- The reader -----

  class AdmittedFile {
    /** The contents of the file, which does not change. */
    const data: seq<Byte>
    /** The cursor of the file while no worker owns it. */
    var file: Option<nat>
    var read: Option<ReadJob>
    var seek: Option<SeekJob>
    var buffer: seq<Byte>
    var offset: nat
    var position: nat
    ghost var history: seq<Call>

    /** The file is in one place or lost, with its cursor where `position` says. */
    ghost predicate Owned()
      reads this
    {
      && (file.Some? ==> read.None? && seek.None? && file.value == position)
      && (read.Some? ==> seek.None? && read.value.cursor == position && read.value.capacity > 0 && buffer == [])
      && (seek.Some? ==> seek.value.cursor == position && buffer == [] && offset == 0)
    }

    /** What is unread in the buffer are the bytes just before the cursor, and then the file is at hand. */
    ghost predicate Buffered()
      reads this
    {
      offset < |buffer| ==>
        file.Some? && |buffer| <= position <= |data| && buffer == data[position - |buffer|..position]
    }

    ghost predicate Held()
      reads this
    {
      Owned() && Buffered()
    }

    /** The fields as the consumer may see them. */
    ghost function Seen(): View
      requires Held()
      reads this
    {
      View(if offset < |buffer| then position - (|buffer| - offset) else position,
           position,
           if seek.Some? then Some(Target(|data|, position, seek.value.target)) else None,
           read.Some?,
           file.None? && read.None? && seek.None?,
           offset > 0,
           offset > |buffer|)
    }

    /** The fields are where the history leads, and the history was answered right. */
    ghost predicate Valid()
      reads this
    {
      && Held()
      && Explained(data, history)
      && Seen() == ViewAfter(|data|, history, |history|)
    }

    constructor (contents: seq<Byte>)
      ensures Valid() && data == contents && history == [] && Seen() == Fresh
    {
      data := contents;
      file, read, seek := Some(0), None, None;
      buffer, offset, position := [], 0, 0;
      history := [];
    }

    /** Notes a call that was answered right. */
    ghost method Note(c: Call, before: View)
      requires Held() && Explained(data, history) && before == ViewAfter(|data|, history, |history|)
      requires Does(data, before, c, Seen())
      modifies this`history
      ensures Valid() && history == old(history) + [c]
    {
      ExplainedAppend(data, history, c);
      history := history + [c];
    }

    /** The read a poll will look at: the one in flight, or the one it is about to start. */
    function NextRead(room: nat): ReadJob
      reads this
    {
      if read.Some? then read.value else ReadJob(position, Min(room, STREAM_BUFFER_BYTES))
    }

    /** Hands out as much of the unread buffer as there is room for. */
    method TakeBuffered(room: nat) returns (output: seq<Byte>)
      requires Held() && room > 0 && offset < |buffer|
      modifies this`offset
      ensures Held() && |output| == Min(room, old(|buffer| - offset)) && offset == old(offset) + |output|
      ensures Stretch(data, old(Seen().at), output)
    {
      var count := Min(room, |buffer| - offset);
      output := buffer[offset..offset + count];
      SliceOfSlice(data, position - |buffer|, position, offset, offset + count);
      offset := offset + count;
    }

    /** Gives the file and the emptied buffer to a worker; the offset stays. */
    method StartRead(room: nat)
      requires Held() && room > 0 && file.Some? && offset >= |buffer|
      modifies this`file, this`read, this`buffer
      ensures Held() && buffer == [] && file == None
      ensures read == Some(ReadJob(position, Min(room, STREAM_BUFFER_BYTES)))
    {
      read := Some(ReadJob(file.value, Min(room, STREAM_BUFFER_BYTES)));
      file := None;
      buffer := [];
    }

    /** Takes back the file with the bytes the worker read. */
    method FinishRead(count: nat)
      requires Held() && read.Some? && CanYield(data, read.value, ReadDone(count))
      modifies this`file, this`read, this`buffer, this`offset, this`position
      ensures Held() && file.Some? && read == None && position == old(position) + count
      ensures |buffer| == count && offset == 0
    {
      var cursor := read.value.cursor;
      file, read := Some(cursor + count), None;
      buffer := if count == 0 then [] else data[cursor..cursor + count];
      offset := 0;
      position := position + count;
    }

    /** Looks at the worker; an answer ends the poll, and without one the buffer has been filled. */
    method PollJob(poll: ReadPoll) returns (answer: Option<Outcome>)
      requires Held() && read.Some? && CanYield(data, read.value, poll)
      modifies this`file, this`read, this`buffer, this`offset, this`position
      ensures Held() && read.Some? == poll.ReadPending? && file.Some? == (poll.ReadFailed? || poll.ReadDone?)
      ensures poll.ReadDone? ==> position == old(position) + poll.count && |buffer| == poll.count && offset == 0
      ensures !poll.ReadDone? ==> position == old(position) && buffer == [] && offset == old(offset)
      ensures answer ==
        match poll
        case ReadPending => Some(Pending)
        case ReadDone(count) => if count == 0 then Some(Ready) else None
        case _ => Some(Failed)
    {
      match poll
      case ReadPending =>
        return Some(Pending);
      case ReadLost =>
        read := None;
        return Some(Failed);
      case ReadFailed =>
        file, read := Some(read.value.cursor), None;
        return Some(Failed);
      case ReadDone(count) =>
        FinishRead(count);
        return if count == 0 then Some(Ready) else None;
    }

    /** How far one poll has come: nothing yet, a read was started, or a read came back with bytes. */
    ghost predicate Underway(before: View, room: nat, poll: ReadPoll)
      requires Held()
      reads this
    {
      var free := Reaches(before, room) && !before.lost && before.goal.None?;
      || (Seen() == before && CanYield(data, NextRead(room), poll))
      || (free && Seen() == before.(flying := true, stale := before.used) && CanYield(data, NextRead(room), poll))
      || (free && poll.ReadDone? && offset < |buffer| && poll.count > 0 &&
            Seen() == before.(cursor := before.cursor + poll.count, flying := false, used := false, stale := false))
    }

    /** The poll ends with bytes from the buffer. */
    method AnswerFromBuffer(room: nat, poll: ReadPoll, ghost before: View) returns (output: seq<Byte>)
      requires Held() && room > 0 && Underway(before, room, poll) && offset < |buffer|
      modifies this`offset
      ensures Held() && position >= before.cursor
      ensures Does(data, before, Read(room, poll, Ready, output, position - before.cursor), Seen())
    {
      output := TakeBuffered(room);
    }

    /** The poll looks at the worker, which may end it. */
    method AnswerFromWorker(room: nat, poll: ReadPoll, ghost before: View) returns (answer: Option<Outcome>)
      requires Held() && room > 0 && Underway(before, room, poll) && read.Some?
      modifies this`file, this`read, this`buffer, this`offset, this`position
      ensures Held() && position >= before.cursor
      ensures answer.Some? ==> Does(data, before, Read(room, poll, answer.value, [], position - before.cursor), Seen())
      ensures answer.None? ==> Underway(before, room, poll) && offset < |buffer|
    {
      answer := PollJob(poll);
    }

    /** Neither bytes nor a worker: a read is started, or the file is not there. */
    method StartOrRefuse(room: nat, poll: ReadPoll, ghost before: View) returns (refused: bool)
      requires Held() && room > 0 && Underway(before, room, poll) && read.None? && offset >= |buffer|
      modifies this`file, this`read, this`buffer
      ensures Held() && position == before.cursor
      ensures refused ==> Does(data, before, Read(room, poll, Failed, [], 0), Seen())
      ensures !refused ==> Underway(before, room, poll) && read.Some? && offset >= |buffer|
    {
      if file.None? {
        return true;
      }
      StartRead(room);
      return false;
    }

    method TryRead(room: nat, poll: ReadPoll) returns (outcome: Outcome, output: seq<Byte>)
      requires Held() && CanYield(data, NextRead(room), poll)
      modifies this`file, this`read, this`buffer, this`offset, this`position
      ensures Held() && position >= old(position)
      ensures Does(data, old(Seen()), Read(room, poll, outcome, output, position - old(position)), Seen())
    {
      ghost var before := Seen();
      if room == 0 {
        return Ready, [];
      }
      while true
        invariant Held() && Underway(before, room, poll)
        decreases if offset < |buffer| then 0 else if read.Some? then 1 else 2
      {
        if offset < |buffer| {
          output := AnswerFromBuffer(room, poll, before);
          return Ready, output;
        }
        if read.Some? {
          var answer := AnswerFromWorker(room, poll, before);
          if answer.Some? {
            return answer.value, [];
          }
        } else {
          var refused := StartOrRefuse(room, poll, before);
          if refused {
            return Failed, [];
          }
        }
      }
      assert false;
    }

    method PollRead(room: nat, poll: ReadPoll) returns (outcome: Outcome, output: seq<Byte>)
      requires Valid() && CanYield(data, NextRead(room), poll)
      modifies this
      ensures Valid() && position >= old(position)
      ensures
        var c := Read(room, poll, outcome, output, position - old(position));
        history == old(history) + [c] && Does(data, old(Seen()), c, Seen())
    {
      ghost var before := Seen();
      outcome, output := TryRead(room, poll);
      Note(Read(room, poll, outcome, output, position - old(position)), before);
    }

    method StartSeek(target: SeekFrom) returns (r: SeekStart)
      requires Valid()
      modifies this
      ensures Valid() && history == old(history) + [Seek(target, r)]
      ensures Does(data, old(Seen()), Seek(target, r), Seen())
    {
      ghost var before := Seen();
      r := TrySeek(target);
      Note(Seek(target, r), before);
    }

    method TrySeek(target: SeekFrom) returns (r: SeekStart)
      requires Held()
      modifies this`file, this`seek, this`buffer, this`offset
      ensures Held()
      ensures Does(data, old(Seen()), Seek(target, r), Seen())
    {
      if read.Some? || seek.Some? {
        return Busy;
      }
      var adjusted := target;
      if target.FromCurrent? {
        if offset > |buffer| {
          return Underflow;
        }
        var shifted := target.delta - (|buffer| - offset);
        if shifted < I64_MIN {
          return OffsetOverflow;
        }
        adjusted := FromCurrent(shifted);
      }
      if file.None? {
        return Busy;
      }
      seek := Some(SeekJob(file.value, adjusted));
      file := None;
      buffer, offset := [], 0;
      return Started;
    }

    /** Reports the end of a pending seek, or the position when none is pending. */
    method PollComplete(poll: SeekPoll) returns (r: SeekResult)
      requires Valid()
      requires seek.Some? && poll == SeekDone(true) ==> Target(|data|, position, seek.value.target) >= 0
      modifies this
      ensures Valid() && history == old(history) + [Query(poll, r)]
      ensures Does(data, old(Seen()), Query(poll, r), Seen())
    {
      ghost var before := Seen();
      r := TryComplete(poll);
      Note(Query(poll, r), before);
    }

    method TryComplete(poll: SeekPoll) returns (r: SeekResult)
      requires Held()
      requires seek.Some? && poll == SeekDone(true) ==> Target(|data|, position, seek.value.target) >= 0
      modifies this`file, this`seek, this`position
      ensures Held()
      ensures Does(data, old(Seen()), Query(poll, r), Seen())
    {
      if seek.None? {
        if offset > |buffer| {
          return PositionUnderflow;
        }
        return At(position - (|buffer| - offset));
      }
      match poll
      case SeekPending =>
        return NotYet;
      case SeekLost =>
        seek := None;
        return SeekFailed;
      case SeekDone(ok) =>
        var job := seek.value;
        seek := None;
        if !ok {
          file := Some(job.cursor);
          return SeekFailed;
        }
        position := Target(|data|, job.cursor, job.target);
        file := Some(position);
        return At(position);
    }
  }
}
