/**
 The streaming multipart guard: a scanner object driving four byte matchers, and the
 stream wrapper that forwards request chunks only after they scanned cleanly.
 */
module MultipartGuard {
  import opened Common
  import opened ByteMatching
  import opened MultipartGrammar
  import opened MultipartScan
  import opened MultipartFaults

  const MAX_BOUNDARY_BYTES: nat := 70

  datatype ScannerPhase = Preamble | BoundarySuffix | Headers | Body | Epilogue

  datatype Outcome = Ok | Err(error: BodyError)

  /** Offset of the first `byte`, or nothing when it does not occur. */
  method Memchr(byte: Byte, bytes: seq<Byte>) returns (offset: Option<nat>)
    ensures offset.None? ==> byte !in bytes
    ensures offset.Some? ==> offset.value < |bytes| && bytes[offset.value] == byte && byte !in bytes[..offset.value]
  {
    for i := 0 to |bytes|
      invariant byte !in bytes[..i]
    {
      if bytes[i] == byte {
        return Some(i);
      }
    }
    return None;
  }

  lemma RunThrough(g: Syntax, st: Scan, bytes: seq<Byte>, i: nat, j: nat)
    requires i <= j <= |bytes|
    ensures Run(g, Run(g, st, bytes[..i]), bytes[i..j]) == Run(g, st, bytes[..j])
    ensures bytes[..|bytes|] == bytes
  {
    RunConcat(g, st, bytes[..i], bytes[i..j]);
    assert bytes[..i] + bytes[i..j] == bytes[..j];
  }

  lemma RunStopped(g: Syntax, st: Scan, bytes: seq<Byte>, i: nat, error: BodyError)
    requires i <= |bytes| && Run(g, st, bytes[..i]) == Failed(error)
    ensures Run(g, st, bytes) == Failed(error)
  {
    RunThrough(g, st, bytes, i, |bytes|);
    RunFailed(g, error, bytes[i..|bytes|]);
  }

  class MultipartScanner {
    const g: Syntax
    const initialBoundary: ByteMatcher
    const preambleBoundary: ByteMatcher
    const bodyBoundary: ByteMatcher
    const headerEnd: ByteMatcher
    var phase: ScannerPhase
    var preambleSeen: nat
    var headerSeen: nat
    var boundaryPaddingSeen: nat
    var boundarySuffixPhase: LinePhase

    ghost predicate Wired()
      reads this
    {
      && |g.boundary| <= MAX_BOUNDARY_BYTES
      && initialBoundary.pattern == g.Opening()
      && preambleBoundary.pattern == g.Delimiter()
      && bodyBoundary.pattern == g.Delimiter()
      && headerEnd.pattern == BLANK_LINE
      && initialBoundary != preambleBoundary && initialBoundary != bodyBoundary && initialBoundary != headerEnd
      && preambleBoundary != bodyBoundary && preambleBoundary != headerEnd && bodyBoundary != headerEnd
    }

    ghost predicate Valid()
      reads this, initialBoundary, preambleBoundary, bodyBoundary, headerEnd
    {
      && Wired()
      && initialBoundary.Valid() && preambleBoundary.Valid() && bodyBoundary.Valid() && headerEnd.Valid()
      && (phase == Preamble ==>
            && preambleSeen == Saturated(|preambleBoundary.fed|)
            && initialBoundary.fed == Take(preambleBoundary.fed, |g.Opening()|))
      && (phase == Headers ==> headerSeen == Saturated(|headerEnd.fed|))
    }

    /** The scan position this object stands at. */
    ghost function View(): Scan
      reads this, preambleBoundary, bodyBoundary, headerEnd
    {
      match phase
      case Preamble => InPreamble(preambleBoundary.fed)
      case BoundarySuffix => InLine(boundarySuffixPhase, boundaryPaddingSeen)
      case Headers => InHeaders(headerEnd.fed)
      case Body => InBody(bodyBoundary.fed)
      case Epilogue => InEpilogue
    }

    constructor (syntax: Syntax)
      requires |syntax.boundary| <= MAX_BOUNDARY_BYTES
      ensures Valid() && g == syntax && phase == Preamble && preambleBoundary.fed == []
      ensures fresh(initialBoundary) && fresh(preambleBoundary) && fresh(bodyBoundary) && fresh(headerEnd)
    {
      var opening := new ByteMatcher(syntax.Opening());
      var afterPreamble := new ByteMatcher(syntax.Delimiter());
      var afterBody := new ByteMatcher(syntax.Delimiter());
      var blankLine := new ByteMatcher(BLANK_LINE);
      g, initialBoundary, preambleBoundary, bodyBoundary, headerEnd := syntax, opening, afterPreamble, afterBody, blankLine;
      phase := Preamble;
      preambleSeen, headerSeen, boundaryPaddingSeen := 0, 0, 0;
      boundarySuffixPhase := First;
    }

    method ScanPreamble(byte: Byte) returns (r: Outcome)
      requires Valid() && phase == Preamble
      modifies this, initialBoundary, preambleBoundary
      ensures r.Ok? ==> Valid() && View() == Step(g, old(View()), byte)
      ensures r.Err? ==> Step(g, old(View()), byte) == Failed(r.error)
    {
      ghost var seen := preambleBoundary.fed;
      ghost var h := seen + [byte];
      preambleSeen := SaturatingAdd(preambleSeen, 1);
      assert preambleSeen == Saturated(|h|);
      var openingAtStart := false;
      if preambleSeen <= |initialBoundary.pattern| {
        assert initialBoundary.fed == seen;
        openingAtStart := initialBoundary.Feed(byte);
      }
      assert openingAtStart <==> h == g.Opening();
      assert initialBoundary.fed == Take(h, |g.Opening()|);
      var openingAfterPreamble := preambleBoundary.Feed(byte);
      if openingAtStart || openingAfterPreamble {
        var matchedLen := if openingAtStart then |initialBoundary.pattern| else |preambleBoundary.pattern|;
        var preambleLen := SaturatingSub(preambleSeen, matchedLen);
        if preambleLen > g.maxPreamble {
          return Err(PreambleTooLarge);
        }
        StartBoundarySuffix();
      } else {
        if preambleSeen > SaturatingAdd(g.maxPreamble, |preambleBoundary.pattern|) {
          return Err(PreambleTooLarge);
        }
      }
      return Ok;
    }

    method ScanBoundarySuffix(byte: Byte) returns (r: Outcome)
      requires Valid() && phase == BoundarySuffix
      modifies this, headerEnd
      ensures r.Ok? ==> Valid() && View() == Step(g, old(View()), byte)
      ensures r.Err? ==> Step(g, old(View()), byte) == Failed(r.error)
    {
      match boundarySuffixPhase
      case First =>
        if byte == HYPHEN {
          boundarySuffixPhase := ClosingHyphen;
        } else if byte == SPACE || byte == TAB {
          boundaryPaddingSeen := 1;
          if boundaryPaddingSeen > g.maxHeader {
            return Err(BoundaryPaddingTooLarge);
          }
          boundarySuffixPhase := Padding;
        } else if byte == CR {
          boundarySuffixPhase := LineFeed;
        } else {
          return Err(InvalidBoundaryLine);
        }
        return Ok;
      case ClosingHyphen =>
        if byte != HYPHEN {
          return Err(InvalidBoundaryLine);
        }
        phase := Epilogue;
        return Ok;
      case Padding =>
        if byte == SPACE || byte == TAB {
          boundaryPaddingSeen := SaturatingAdd(boundaryPaddingSeen, 1);
          if boundaryPaddingSeen > g.maxHeader {
            return Err(BoundaryPaddingTooLarge);
          }
        } else if byte == CR {
          boundarySuffixPhase := LineFeed;
        } else {
          return Err(InvalidBoundaryLine);
        }
        return Ok;
      case LineFeed =>
        if byte != LF {
          return Err(InvalidBoundaryLine);
        }
        StartHeaders();
        return Ok;
    }

    method ScanHeader(byte: Byte) returns (r: Outcome)
      requires Valid() && phase == Headers
      modifies this, headerEnd, bodyBoundary
      ensures r.Ok? ==> Valid() && View() == Step(g, old(View()), byte)
      ensures r.Err? ==> Step(g, old(View()), byte) == Failed(r.error)
    {
      headerSeen := SaturatingAdd(headerSeen, 1);
      assert headerSeen == Saturated(|headerEnd.fed + [byte]|);
      var complete := headerEnd.Feed(byte);
      if complete {
        var headerLen := SaturatingSub(headerSeen, |headerEnd.pattern|);
        if headerLen > g.maxHeader {
          return Err(HeaderTooLarge);
        }
        phase := Body;
        bodyBoundary.Reset();
      } else if headerSeen > SaturatingAdd(g.maxHeader, |headerEnd.pattern|) {
        return Err(HeaderTooLarge);
      }
      return Ok;
    }

    method ScanBody(byte: Byte)
      requires Valid() && phase == Body
      modifies this, bodyBoundary
      ensures Valid() && View() == Step(g, old(View()), byte)
    {
      var complete := bodyBoundary.Feed(byte);
      if complete {
        StartBoundarySuffix();
      }
    }

    method StartBoundarySuffix()
      requires Wired()
      requires initialBoundary.Valid() && preambleBoundary.Valid() && bodyBoundary.Valid() && headerEnd.Valid()
      modifies this
      ensures Valid() && View() == LineStart
    {
      phase := BoundarySuffix;
      boundaryPaddingSeen := 0;
      boundarySuffixPhase := First;
    }

    method StartHeaders()
      requires Valid()
      modifies this, headerEnd
      ensures Valid() && View() == InHeaders([])
    {
      phase := Headers;
      headerSeen := 0;
      headerEnd.Reset();
    }

    /** One byte, dispatched on the phase. */
    method ScanByte(byte: Byte) returns (r: Outcome)
      requires Valid()
      modifies this, initialBoundary, preambleBoundary, bodyBoundary, headerEnd
      ensures r.Ok? ==> Valid() && View() == Step(g, old(View()), byte)
      ensures r.Err? ==> Step(g, old(View()), byte) == Failed(r.error)
    {
      match phase
      case Preamble => r := ScanPreamble(byte);
      case BoundarySuffix => r := ScanBoundarySuffix(byte);
      case Headers => r := ScanHeader(byte);
      case Body => ScanBody(byte); r := Ok;
      case Epilogue => r := Ok;
    }

    /** The next position worth reading: bytes before it cannot begin a delimiter. */
    method SkipForeign(bytes: seq<Byte>, index: nat) returns (next: nat)
      requires Valid() && index <= |bytes|
      modifies bodyBoundary
      ensures Valid() && index <= next <= |bytes|
      ensures View() == Run(g, old(View()), bytes[index..next])
    {
      if phase == Body && bodyBoundary.matched == 0 {
        var offset := Memchr(CR, bytes[index..]);
        next := if offset.None? then |bytes| else index + offset.value;
        assert bytes[index..next] == if offset.None? then bytes[index..] else bytes[index..][..offset.value];
        RunOverForeignBody(g, bodyBoundary.fed, bytes[index..next]);
        bodyBoundary.Skip(bytes[index..next]);
      } else {
        next := index;
      }
    }

    /** Skips foreign body bytes from `index` and scans the byte after them, if any. */
    method ScanNext(bytes: seq<Byte>, index: nat) returns (r: Outcome, next: nat)
      requires Valid() && index < |bytes|
      modifies this, initialBoundary, preambleBoundary, bodyBoundary, headerEnd
      ensures index < next <= |bytes|
      ensures r.Ok? ==> Valid() && View() == Run(g, old(View()), bytes[index..next])
      ensures r.Err? ==> Run(g, old(View()), bytes[index..next]) == Failed(r.error)
    {
      ghost var start := View();
      next := SkipForeign(bytes, index);
      if next == |bytes| {
        return Ok, next;
      }
      r := ScanByte(bytes[next]);
      RunOne(g, start, bytes[index..next], bytes[next]);
      next := next + 1;
      assert bytes[index..next - 1] + [bytes[next - 1]] == bytes[index..next];
    }

    /** Scans one chunk, jumping over body bytes that cannot begin a delimiter. */
    method Scan(bytes: seq<Byte>) returns (r: Outcome)
      requires Valid()
      modifies this, initialBoundary, preambleBoundary, bodyBoundary, headerEnd
      ensures r.Ok? ==> Valid() && View() == Run(g, old(View()), bytes)
      ensures r.Err? ==> Run(g, old(View()), bytes) == Failed(r.error)
    {
      ghost var start := View();
      var index := 0;
      r := Ok;
      while index < |bytes|
        invariant index <= |bytes| && r.Ok?
        invariant Valid() && View() == Run(g, start, bytes[..index])
      {
        var next;
        r, next := ScanNext(bytes, index);
        RunThrough(g, start, bytes, index, next);
        if r.Err? {
          RunStopped(g, start, bytes, next, r.error);
          return;
        }
        index := next;
      }
      assert bytes[..index] == bytes;
    }

    /** Whether the body may end here. */
    method Finish() returns (r: Outcome)
      requires Valid()
      ensures r.Ok? <==> MultipartScan.Finish(View()) == Accepted
      ensures r.Err? ==> MultipartScan.Finish(View()) == Rejected(r.error)
    {
      match phase
      case Preamble => return Err(MissingOpeningBoundary);
      case BoundarySuffix => return Err(IncompleteBoundaryLine);
      case Headers => return Err(IncompleteHeaderBlock);
      case Body => return Err(MissingClosingBoundary);
      case Epilogue => return Ok;
    }
  }

  ghost function Take(s: seq<Byte>, n: nat): seq<Byte> {
    if |s| <= n then s else s[..n]
  }

  // ----- The guarded request stream -----

  /** What polling the request body yields. */
  datatype InnerPoll = InnerPending | InnerChunk(bytes: seq<Byte>) | InnerError | InnerEnd

  /** What the guarded stream hands to its consumer. */
  datatype Item =
    | Waiting
    | Forwarded(bytes: seq<Byte>)
    | SourceFailed
    | Violated(error: BodyError)
    | Finished

  datatype StreamState = Open(scan: Scan) | Terminal

  function PollItem(g: Syntax, st: StreamState, inner: InnerPoll): Item {
    match st
    case Terminal => Finished
    case Open(scan) =>
      match inner
      case InnerPending => Waiting
      case InnerChunk(bytes) =>
        var next := Run(g, scan, bytes);
        if next.Failed? then Violated(next.error) else Forwarded(bytes)
      case InnerError => SourceFailed
      case InnerEnd =>
        var verdict := Finish(scan);
        if verdict.Accepted? then Finished else Violated(verdict.error)
  }

  function PollState(g: Syntax, st: StreamState, inner: InnerPoll): StreamState {
    match PollItem(g, st, inner)
    case Waiting => st
    case Forwarded(bytes) => if st.Open? then Open(Run(g, st.scan, bytes)) else st
    case _ => Terminal
  }

  class GuardedMultipartStream {
    const scanner: MultipartScanner
    var terminal: bool

    ghost predicate Valid()
      reads this, scanner, scanner.initialBoundary, scanner.preambleBoundary, scanner.bodyBoundary, scanner.headerEnd
    {
      !terminal ==> scanner.Valid()
    }

    ghost function View(): StreamState
      reads this, scanner, scanner.preambleBoundary, scanner.bodyBoundary, scanner.headerEnd
    {
      if terminal then Terminal else Open(scanner.View())
    }

    constructor (syntax: Syntax)
      requires |syntax.boundary| <= MAX_BOUNDARY_BYTES
      ensures Valid() && scanner.g == syntax && View() == Open(Start)
    {
      scanner := new MultipartScanner(syntax);
      terminal := false;
    }

    method PollNext(inner: InnerPoll) returns (item: Item)
      requires Valid()
      modifies this, scanner, scanner.initialBoundary, scanner.preambleBoundary, scanner.bodyBoundary, scanner.headerEnd
      ensures Valid()
      ensures item == PollItem(scanner.g, old(View()), inner)
      ensures View() == PollState(scanner.g, old(View()), inner)
    {
      if terminal {
        return Finished;
      }
      match inner
      case InnerPending =>
        return Waiting;
      case InnerChunk(bytes) =>
        var scanned := scanner.Scan(bytes);
        if scanned.Err? {
          terminal := true;
          return Violated(scanned.error);
        }
        return Forwarded(bytes);
      case InnerError =>
        terminal := true;
        return SourceFailed;
      case InnerEnd =>
        var finished := scanner.Finish();
        terminal := true;
        return if finished.Err? then Violated(finished.error) else Finished;
    }
  }

  /** The consumer's view of a whole sequence of polls. */
  function Items(g: Syntax, st: StreamState, polls: seq<InnerPoll>): (items: seq<Item>)
    ensures |items| == |polls|
    decreases |polls|
  {
    if polls == [] then [] else [PollItem(g, st, polls[0])] + Items(g, PollState(g, st, polls[0]), polls[1..])
  }

  /** The body bytes contained in a sequence of polls. */
  function BytesOf(polls: seq<InnerPoll>): seq<Byte> {
    if polls == [] then [] else ChunkOf(polls[0]) + BytesOf(polls[1..])
  }

  function ChunkOf(inner: InnerPoll): seq<Byte> {
    if inner.InnerChunk? then inner.bytes else []
  }

  /** A poll that the guard passes on unchanged. */
  predicate PassedOn(inner: InnerPoll, item: Item) {
    || (inner == InnerPending && item == Waiting)
    || (inner.InnerChunk? && item == Forwarded(inner.bytes))
  }

  /** Errors that no further bytes can mend; the other four say that the body ends too early. */
  predicate Final(error: BodyError) {
    error in {PreambleTooLarge, HeaderTooLarge, InvalidBoundaryLine, BoundaryPaddingTooLarge}
  }

  ghost predicate IsDocument(g: Syntax, s: seq<Byte>) {
    exists d :: WellFormed(g, d) && Render(g, d) == s
  }

  /** There is nothing wrong that no further bytes could mend. */
  ghost predicate Passable(g: Syntax, s: seq<Byte>) {
    forall e :: Final(e) ==> !Fault(g, s, e)
  }

  /** The one poll that ends the stream, judged on all the bytes before it. */
  ghost predicate Concludes(g: Syntax, before: seq<Byte>, inner: InnerPoll, item: Item) {
    match inner
    case InnerPending => false
    case InnerChunk(bytes) => item.Violated? && Final(item.error) && Fault(g, before + bytes, item.error)
    case InnerError => item == SourceFailed
    case InnerEnd =>
      if IsDocument(g, before) then item == Finished else item.Violated? && Fault(g, before, item.error)
  }

  /** The scanner only stops with errors that are final. */
  lemma {:induction false} StopsWithFinal(g: Syntax, st: Scan, s: seq<Byte>)
    requires st.Failed? ==> Final(st.error)
    ensures Run(g, st, s).Failed? ==> Final(Run(g, st, s).error)
    decreases |s|
  {
    if s != [] {
      StopsWithFinal(g, Step(g, st, s[0]), s[1..]);
    }
  }

  /** The scanner stops exactly at a fault that no further bytes can mend. */
  lemma StopsExactly(g: Syntax, s: seq<Byte>, error: BodyError)
    requires LimitsFit(g) || |s| <= USIZE_MAX
    ensures Run(g, Start, s) == Failed(error) <==> Final(error) && Fault(g, s, error)
  {
    StopsWithFinal(g, Start, s);
    ScanAgreesWithGrammar(g, s);
    RejectedExactly(g, s, error);
  }

  lemma RunningIsPassable(g: Syntax, s: seq<Byte>)
    requires LimitsFit(g) || |s| <= USIZE_MAX
    ensures !Run(g, Start, s).Failed? <==> Passable(g, s)
  {
    forall e ensures Run(g, Start, s) == Failed(e) <==> Final(e) && Fault(g, s, e) {
      StopsExactly(g, s, e);
    }
  }

  lemma {:induction false} AfterTerminal(g: Syntax, polls: seq<InnerPoll>)
    ensures forall i :: 0 <= i < |polls| ==> Items(g, Terminal, polls)[i] == Finished
    decreases |polls|
  {
    if polls != [] {
      AfterTerminal(g, polls[1..]);
    }
  }

  /** `n` polls are passed on, the next one concludes, and nothing follows. */
  ghost predicate GuardedRun(g: Syntax, before: seq<Byte>, polls: seq<InnerPoll>, items: seq<Item>, n: nat)
    requires |items| == |polls|
  {
    && n <= |polls|
    && (forall i :: 0 <= i < n ==> PassedOn(polls[i], items[i]))
    && Passable(g, before + BytesOf(polls[..n]))
    && (n < |polls| ==> Concludes(g, before + BytesOf(polls[..n]), polls[n], items[n]))
    && (forall i :: n < i < |polls| ==> items[i] == Finished)
  }

  lemma BytesCons(before: seq<Byte>, inner: InnerPoll, polls: seq<InnerPoll>, m: nat)
    requires m <= |polls|
    ensures before + BytesOf(([inner] + polls)[..m + 1]) == before + ChunkOf(inner) + BytesOf(polls[..m])
  {
    assert ([inner] + polls)[..m + 1][1..] == polls[..m];
  }

  /** One more poll passed on in front of a guarded run. */
  lemma GuardedRunCons(g: Syntax, before: seq<Byte>, inner: InnerPoll, item: Item, polls: seq<InnerPoll>, items: seq<Item>, m: nat)
    requires |items| == |polls| && PassedOn(inner, item)
    requires GuardedRun(g, before + ChunkOf(inner), polls, items, m)
    ensures GuardedRun(g, before, [inner] + polls, [item] + items, m + 1)
  {
    BytesCons(before, inner, polls, m);
  }

  /** A poll that closes the stream concludes it. */
  lemma ClosingPollConcludes(g: Syntax, before: seq<Byte>, inner: InnerPoll)
    requires LimitsFit(g) || |before + ChunkOf(inner)| <= USIZE_MAX
    requires !Run(g, Start, before).Failed?
    requires PollState(g, Open(Run(g, Start, before)), inner).Terminal?
    ensures Concludes(g, before, inner, PollItem(g, Open(Run(g, Start, before)), inner))
  {
    if inner.InnerEnd? {
      ScanAgreesWithGrammar(g, before);
      AcceptedExactlyDocuments(g, before);
      if Parse(g, before).Rejected? {
        RejectedExactly(g, before, Parse(g, before).error);
      }
    } else if inner.InnerChunk? {
      RunConcat(g, Start, before, inner.bytes);
      StopsExactly(g, before + inner.bytes, Run(g, Start, before + inner.bytes).error);
    }
  }

  lemma NoBytesYet(before: seq<Byte>, polls: seq<InnerPoll>)
    ensures before + BytesOf(polls[..0]) == before
  {
    assert |polls[..0]| == 0;
  }

  /** A stream that ends at its first poll. */
  lemma ClosedAtOnce(g: Syntax, before: seq<Byte>, polls: seq<InnerPoll>)
    requires LimitsFit(g) || |before + BytesOf(polls)| <= USIZE_MAX
    requires !Run(g, Start, before).Failed?
    requires polls != [] ==> PollState(g, Open(Run(g, Start, before)), polls[0]).Terminal?
    ensures GuardedRun(g, before, polls, Items(g, Open(Run(g, Start, before)), polls), 0)
  {
    NoBytesYet(before, polls);
    RunningIsPassable(g, before);
    if polls != [] {
      AfterTerminal(g, polls[1..]);
      ClosingPollConcludes(g, before, polls[0]);
    }
  }

  /** A poll that does not close the stream is passed on, and the scan goes on behind it. */
  lemma StaysOpen(g: Syntax, before: seq<Byte>, inner: InnerPoll)
    requires !Run(g, Start, before).Failed? && !PollState(g, Open(Run(g, Start, before)), inner).Terminal?
    ensures PassedOn(inner, PollItem(g, Open(Run(g, Start, before)), inner))
    ensures PollState(g, Open(Run(g, Start, before)), inner) == Open(Run(g, Start, before + ChunkOf(inner)))
    ensures !Run(g, Start, before + ChunkOf(inner)).Failed?
  {
    RunConcat(g, Start, before, ChunkOf(inner));
    assert inner == InnerPending ==> before + ChunkOf(inner) == before;
  }

  lemma {:induction false} GuardedFrom(g: Syntax, before: seq<Byte>, polls: seq<InnerPoll>) returns (n: nat)
    requires LimitsFit(g) || |before + BytesOf(polls)| <= USIZE_MAX
    requires !Run(g, Start, before).Failed?
    ensures GuardedRun(g, before, polls, Items(g, Open(Run(g, Start, before)), polls), n)
    decreases |polls|
  {
    var st := Open(Run(g, Start, before));
    if polls == [] || PollState(g, st, polls[0]).Terminal? {
      ClosedAtOnce(g, before, polls);
      return 0;
    }
    var inner, bytes := polls[0], ChunkOf(polls[0]);
    assert polls == [inner] + polls[1..];
    StaysOpen(g, before, inner);
    assert before + bytes + BytesOf(polls[1..]) == before + BytesOf(polls);
    var m := GuardedFrom(g, before + bytes, polls[1..]);
    GuardedRunCons(g, before, inner, PollItem(g, st, inner), polls[1..], Items(g, PollState(g, st, inner), polls[1..]), m);
    return m + 1;
  }

  /**
   Whatever way the body arrives, the consumer sees its chunks unchanged while they
   could still become a document, then at most one error, then the end.  The error is
   what is wrong with the text so far; a body that reached its end without a source
   failure ends cleanly exactly when it is a document.
   */
  lemma GuardedStreamIsFaithful(g: Syntax, polls: seq<InnerPoll>) returns (n: nat)
    requires LimitsFit(g) || |BytesOf(polls)| <= USIZE_MAX
    ensures GuardedRun(g, [], polls, Items(g, Open(Start), polls), n)
  {
    assert [] + BytesOf(polls) == BytesOf(polls);
    n := GuardedFrom(g, [], polls);
  }
}
