/**
 The byte-at-a-time reading of a multipart body, and its agreement with the
 whole-buffer grammar.

 A scan position remembers what was read since the current phase began.  `Step` is
 the transition the streaming scanner performs on one byte, with the saturating
 counters of the original; the verdict on a completed run is proved to be `Parse`.
 */
module MultipartScan {
  import opened Common
  import opened ByteMatching
  import opened MultipartGrammar

  datatype LinePhase = First | ClosingHyphen | Padding | LineFeed

  datatype Scan =
    | InPreamble(seen: seq<Byte>)
    | InLine(phase: LinePhase, padding: nat)
    | InHeaders(seen: seq<Byte>)
    | InBody(seen: seq<Byte>)
    | InEpilogue
    | Failed(error: BodyError)

  const Start: Scan := InPreamble([])
  const LineStart: Scan := InLine(First, 0)

  /** `n` bytes with no mark of length `mark` among them already exceed `limit`. */
  predicate PastLimit(n: nat, limit: nat, mark: nat) {
    Saturated(n) > Saturated(limit + mark)
  }

  /** The text before a mark that ends after `n` bytes is longer than `limit`. */
  predicate TextTooLong(n: nat, limit: nat, mark: nat) {
    SaturatingSub(Saturated(n), mark) > limit
  }

  function StepPreamble(g: Syntax, seen: seq<Byte>, b: Byte): Scan {
    var h := seen + [b];
    if h == g.Opening() then
      if TextTooLong(|h|, g.maxPreamble, |g.Opening()|) then Failed(PreambleTooLarge) else LineStart
    else if EndsWith(h, g.Delimiter()) then
      if TextTooLong(|h|, g.maxPreamble, |g.Delimiter()|) then Failed(PreambleTooLarge) else LineStart
    else if PastLimit(|h|, g.maxPreamble, |g.Delimiter()|) then Failed(PreambleTooLarge)
    else InPreamble(h)
  }

  function StepPad(g: Syntax, padding: nat): Scan {
    if padding > g.maxHeader then Failed(BoundaryPaddingTooLarge) else InLine(Padding, padding)
  }

  function StepLine(g: Syntax, phase: LinePhase, padding: nat, b: Byte): Scan {
    match phase
    case First =>
      if b == HYPHEN then InLine(ClosingHyphen, padding)
      else if IsPadding(b) then StepPad(g, 1)
      else if b == CR then InLine(LineFeed, padding)
      else Failed(InvalidBoundaryLine)
    case ClosingHyphen =>
      if b == HYPHEN then InEpilogue else Failed(InvalidBoundaryLine)
    case Padding =>
      if IsPadding(b) then StepPad(g, Saturated(padding + 1))
      else if b == CR then InLine(LineFeed, padding)
      else Failed(InvalidBoundaryLine)
    case LineFeed =>
      if b == LF then InHeaders([]) else Failed(InvalidBoundaryLine)
  }

  function StepHeaders(g: Syntax, seen: seq<Byte>, b: Byte): Scan {
    var h := seen + [b];
    if EndsWith(h, BLANK_LINE) then
      if TextTooLong(|h|, g.maxHeader, |BLANK_LINE|) then Failed(HeaderTooLarge) else InBody([])
    else if PastLimit(|h|, g.maxHeader, |BLANK_LINE|) then Failed(HeaderTooLarge)
    else InHeaders(h)
  }

  function Step(g: Syntax, st: Scan, b: Byte): Scan {
    match st
    case InPreamble(seen) => StepPreamble(g, seen, b)
    case InLine(phase, padding) => StepLine(g, phase, padding, b)
    case InHeaders(seen) => StepHeaders(g, seen, b)
    case InBody(seen) => if EndsWith(seen + [b], g.Delimiter()) then LineStart else InBody(seen + [b])
    case InEpilogue => st
    case Failed(_) => st
  }

  function Run(g: Syntax, st: Scan, s: seq<Byte>): Scan
    decreases |s|
  {
    if s == [] then st else Run(g, Step(g, st, s[0]), s[1..])
  }

  /** What the end of the body means at each position. */
  function Finish(st: Scan): Verdict {
    match st
    case InPreamble(_) => Rejected(MissingOpeningBoundary)
    case InLine(_, _) => Rejected(IncompleteBoundaryLine)
    case InHeaders(_) => Rejected(IncompleteHeaderBlock)
    case InBody(_) => Rejected(MissingClosingBoundary)
    case InEpilogue => Accepted
    case Failed(error) => Rejected(error)
  }

  /** Scanning does not depend on how the bytes are cut into chunks. */
  lemma {:induction false} RunConcat(g: Syntax, st: Scan, a: seq<Byte>, b: seq<Byte>)
    ensures Run(g, st, a + b) == Run(g, Run(g, st, a), b)
    decreases |a|
  {
    if a == [] {
      assert a + b == b;
    } else {
      assert (a + b)[1..] == a[1..] + b;
      RunConcat(g, Step(g, st, a[0]), a[1..], b);
    }
  }

  lemma RunOne(g: Syntax, st: Scan, s: seq<Byte>, b: Byte)
    ensures Run(g, st, s + [b]) == Step(g, Run(g, st, s), b)
  {
    RunConcat(g, st, s, [b]);
    var mid := Run(g, st, s);
    assert Run(g, mid, [b]) == Run(g, Step(g, mid, b), [b][1..]);
  }

  /** An error is final. */
  lemma {:induction false} RunFailed(g: Syntax, error: BodyError, s: seq<Byte>)
    ensures Run(g, Failed(error), s) == Failed(error)
    decreases |s|
  {
    if s != [] {
      RunFailed(g, error, s[1..]);
    }
  }

  /** Bytes that cannot begin a delimiter only lengthen the body. */
  lemma {:induction false} RunOverForeignBody(g: Syntax, seen: seq<Byte>, skipped: seq<Byte>)
    requires IsLongest(g.Delimiter(), seen, |g.Delimiter()| - 1, 0)
    requires CR !in skipped
    ensures Run(g, InBody(seen), skipped) == InBody(seen + skipped)
    decreases |skipped|
  {
    if skipped == [] {
      assert seen + skipped == seen;
    } else {
      var b := skipped[0];
      IdleOverForeignBytes(g.Delimiter(), seen, [b]);
      assert [b][..1] == [b];
      RunOverForeignBody(g, seen + [b], skipped[1..]);
      assert seen + [b] + skipped[1..] == seen + skipped;
    }
  }

  // ----- Agreement with the grammar -----

  /** No counter can saturate before a limit is noticed. */
  predicate LimitsFit(g: Syntax) {
    g.maxPreamble + |g.Delimiter()| < USIZE_MAX && g.maxHeader + |BLANK_LINE| < USIZE_MAX
  }

  function Counted(st: Scan): nat {
    match st
    case InPreamble(seen) => |seen|
    case InLine(_, padding) => padding
    case InHeaders(seen) => |seen|
    case InBody(_) => 0
    case InEpilogue => 0
    case Failed(_) => 0
  }

  /** Either the limits are small or the remaining input cannot overflow a counter. */
  predicate Countable(g: Syntax, st: Scan, rest: seq<Byte>) {
    LimitsFit(g) || Counted(st) + |rest| <= USIZE_MAX
  }

  /** `p` occurs nowhere in `s`. */
  ghost predicate Absent(s: seq<Byte>, p: seq<Byte>) {
    forall i :: 0 <= i ==> !OccursAt(s, p, i)
  }

  /** What holds at every position a scan can reach. */
  ghost predicate Reachable(g: Syntax, st: Scan) {
    match st
    case InPreamble(seen) =>
      && Absent(seen, g.Delimiter())
      && !OccursAt(seen, g.Opening(), 0)
      && !PastLimit(|seen|, g.maxPreamble, |g.Delimiter()|)
    case InLine(phase, padding) => padding <= g.maxHeader && (phase == First ==> padding == 0)
    case InHeaders(seen) =>
      Absent(seen, BLANK_LINE) && !PastLimit(|seen|, g.maxHeader, |BLANK_LINE|)
    case InBody(seen) => Absent(seen, g.Delimiter())
    case InEpilogue => true
    case Failed(_) => true
  }

  /** The grammar's verdict on what was read in this phase together with the rest. */
  function Expected(g: Syntax, st: Scan, rest: seq<Byte>): Verdict {
    match st
    case InPreamble(seen) => Parse(g, seen + rest)
    case InLine(First, _) => ParseLine(g, rest)
    case InLine(ClosingHyphen, _) => ParseClosing(rest)
    case InLine(Padding, padding) => ParsePadded(g, padding, rest)
    case InLine(LineFeed, _) => ParseLineFeed(g, rest)
    case InHeaders(seen) => ParseHeaders(g, seen + rest)
    case InBody(seen) => ParseBody(g, seen + rest)
    case InEpilogue => Accepted
    case Failed(error) => Rejected(error)
  }

  /** Occurrences inside a prefix are those of the prefix. */
  lemma OccursInPrefix(h: seq<Byte>, rest: seq<Byte>, p: seq<Byte>, i: nat)
    requires i + |p| <= |h|
    ensures OccursAt(h + rest, p, i) <==> OccursAt(h, p, i)
  {
    assert (h + rest)[i..i + |p|] == h[i..i + |p|];
  }

  lemma OccursAtEnd(h: seq<Byte>, p: seq<Byte>)
    requires |p| <= |h|
    ensures OccursAt(h, p, |h| - |p|) <==> EndsWith(h, p)
  {
    assert h[|h| - |p|..|h|] == h[|h| - |p|..];
  }

  /** While the mark is not complete it does not occur at all. */
  lemma StaysAbsent(seen: seq<Byte>, b: Byte, p: seq<Byte>)
    requires p != [] && Absent(seen, p)
    requires !EndsWith(seen + [b], p)
    ensures Absent(seen + [b], p)
  {
    forall i: nat | OccursAt(seen + [b], p, i)
      ensures false
    {
      if i + |p| <= |seen| {
        OccursInPrefix(seen, [b], p, i);
      } else {
        OccursAtEnd(seen + [b], p);
      }
    }
  }

  /** Whatever follows, the mark is not found before the bytes read so far end. */
  lemma FindsNotBefore(h: seq<Byte>, rest: seq<Byte>, p: seq<Byte>)
    requires p != [] && Absent(h, p)
    ensures Find(h + rest, p).Some? ==> |h| < Find(h + rest, p).value + |p|
  {
    var at := Find(h + rest, p);
    if at.Some? && at.value + |p| <= |h| {
      OccursInPrefix(h, rest, p, at.value);
    }
  }

  /** A byte that completes the mark completes its first occurrence. */
  lemma FindCompletes(seen: seq<Byte>, b: Byte, rest: seq<Byte>, p: seq<Byte>)
    requires p != [] && Absent(seen, p)
    requires EndsWith(seen + [b], p)
    ensures Find(seen + [b] + rest, p) == Some(|seen| + 1 - |p|)
  {
    var h := seen + [b];
    OccursAtEnd(h, p);
    OccursInPrefix(h, rest, p, |h| - |p|);
    FindsNotBefore(seen, [b] + rest, p);
    assert seen + ([b] + rest) == h + rest;
  }

  /** Both limit checks of a marked phase decide the grammar's own question. */
  lemma LimitedFind(seen: seq<Byte>, b: Byte, rest: seq<Byte>, p: seq<Byte>, limit: nat)
    requires p != [] && Absent(seen, p)
    requires |seen| < USIZE_MAX && !PastLimit(|seen|, limit, |p|)
    ensures
      var h, s := seen + [b], seen + [b] + rest;
      var at := Find(s, p);
      if EndsWith(h, p) && !TextTooLong(|h|, limit, |p|) then
        at == Some(|h| - |p|) && |h| - |p| <= limit
      else if EndsWith(h, p) || PastLimit(|h|, limit, |p|) then
        !(at.Some? && at.value <= limit) && |s| > limit + |p|
      else
        Absent(h, p)
  {
    var h := seen + [b];
    if EndsWith(h, p) {
      FindCompletes(seen, b, rest, p);
    } else {
      StaysAbsent(seen, b, p);
      FindsNotBefore(h, rest, p);
    }
  }

  lemma OpeningGrows(g: Syntax, seen: seq<Byte>, b: Byte, rest: seq<Byte>)
    requires !OccursAt(seen, g.Opening(), 0)
    ensures seen + [b] == g.Opening() ==> OccursAt(seen + [b] + rest, g.Opening(), 0)
    ensures seen + [b] != g.Opening() ==> !OccursAt(seen + [b], g.Opening(), 0)
    ensures seen + [b] != g.Opening() && |seen| + 1 >= |g.Opening()| ==> !OccursAt(seen + [b] + rest, g.Opening(), 0)
  {
    var p := g.Opening();
    var h := seen + [b];
    if |p| <= |seen| {
      assert (h + rest)[0..|p|] == seen[0..|p|] == h[0..|p|];
    } else if |p| == |h| {
      assert (h + rest)[0..|p|] == h == h[0..|p|];
    }
  }

  lemma PreambleReach(g: Syntax, seen: seq<Byte>, b: Byte, rest: seq<Byte>)
    requires Reachable(g, InPreamble(seen))
    requires Countable(g, InPreamble(seen), [b] + rest)
    ensures Reachable(g, StepPreamble(g, seen, b))
    ensures Countable(g, StepPreamble(g, seen, b), rest)
  {
    LimitedFind(seen, b, rest, g.Delimiter(), g.maxPreamble);
    OpeningGrows(g, seen, b, rest);
  }

  lemma PreambleVerdict(g: Syntax, seen: seq<Byte>, b: Byte, rest: seq<Byte>)
    requires Reachable(g, InPreamble(seen))
    requires Countable(g, InPreamble(seen), [b] + rest)
    ensures Expected(g, StepPreamble(g, seen, b), rest) == Parse(g, seen + ([b] + rest))
  {
    var h := seen + [b];
    assert seen + ([b] + rest) == h + rest;
    LimitedFind(seen, b, rest, g.Delimiter(), g.maxPreamble);
    OpeningGrows(g, seen, b, rest);
    assert (h + rest)[|h|..] == rest;
  }

  lemma PreambleStep(g: Syntax, seen: seq<Byte>, b: Byte, rest: seq<Byte>)
    requires Reachable(g, InPreamble(seen))
    requires Countable(g, InPreamble(seen), [b] + rest)
    ensures Reachable(g, StepPreamble(g, seen, b))
    ensures Countable(g, StepPreamble(g, seen, b), rest)
    ensures Expected(g, StepPreamble(g, seen, b), rest) == Parse(g, seen + ([b] + rest))
  {
    PreambleReach(g, seen, b, rest);
    PreambleVerdict(g, seen, b, rest);
  }

  lemma LineStep(g: Syntax, phase: LinePhase, padding: nat, b: Byte, rest: seq<Byte>)
    requires Reachable(g, InLine(phase, padding))
    requires Countable(g, InLine(phase, padding), [b] + rest)
    ensures Reachable(g, StepLine(g, phase, padding, b))
    ensures Countable(g, StepLine(g, phase, padding, b), rest)
    ensures Expected(g, StepLine(g, phase, padding, b), rest) == Expected(g, InLine(phase, padding), [b] + rest)
  {
    var s := [b] + rest;
    assert s[1..] == rest;
    assert padding + 1 <= USIZE_MAX;
    if phase == First && b != HYPHEN {
      assert ParseLine(g, s) == ParsePadded(g, 0, s);
    }
    assert [] + rest == rest;
  }

  lemma HeadersReach(g: Syntax, seen: seq<Byte>, b: Byte, rest: seq<Byte>)
    requires Reachable(g, InHeaders(seen))
    requires Countable(g, InHeaders(seen), [b] + rest)
    ensures Reachable(g, StepHeaders(g, seen, b))
    ensures Countable(g, StepHeaders(g, seen, b), rest)
  {
    if !EndsWith(seen + [b], BLANK_LINE) {
      StaysAbsent(seen, b, BLANK_LINE);
    }
  }

  lemma HeadersStep(g: Syntax, seen: seq<Byte>, b: Byte, rest: seq<Byte>)
    requires Reachable(g, InHeaders(seen))
    requires Countable(g, InHeaders(seen), [b] + rest)
    ensures Expected(g, StepHeaders(g, seen, b), rest) == ParseHeaders(g, seen + ([b] + rest))
  {
    var h := seen + [b];
    var s := h + rest;
    assert seen + ([b] + rest) == s;
    LimitedFind(seen, b, rest, BLANK_LINE, g.maxHeader);
    if StepHeaders(g, seen, b).InBody? {
      assert s[|h|..] == rest;
      ExpectedBody(g, rest);
    }
  }

  lemma ExpectedBody(g: Syntax, rest: seq<Byte>)
    ensures Expected(g, InBody([]), rest) == ParseBody(g, rest)
  {
    assert [] + rest == rest;
  }

  lemma BodyStep(g: Syntax, seen: seq<Byte>, b: Byte, rest: seq<Byte>)
    requires Reachable(g, InBody(seen))
    ensures Reachable(g, Step(g, InBody(seen), b))
    ensures Expected(g, Step(g, InBody(seen), b), rest) == ParseBody(g, seen + ([b] + rest))
  {
    var h := seen + [b];
    assert seen + ([b] + rest) == h + rest;
    if EndsWith(h, g.Delimiter()) {
      FindCompletes(seen, b, rest, g.Delimiter());
      assert (h + rest)[|h|..] == rest;
    } else {
      StaysAbsent(seen, b, g.Delimiter());
    }
  }

  /** Reading one byte changes neither the verdict nor what makes it computable. */
  lemma StepPreservesVerdict(g: Syntax, st: Scan, b: Byte, rest: seq<Byte>)
    requires Reachable(g, st) && Countable(g, st, [b] + rest)
    ensures Reachable(g, Step(g, st, b)) && Countable(g, Step(g, st, b), rest)
    ensures Expected(g, Step(g, st, b), rest) == Expected(g, st, [b] + rest)
  {
    match st
    case InPreamble(seen) => PreambleStep(g, seen, b, rest);
    case InLine(phase, padding) => LineStep(g, phase, padding, b, rest);
    case InHeaders(seen) =>
      HeadersReach(g, seen, b, rest);
      HeadersStep(g, seen, b, rest);
    case InBody(seen) => BodyStep(g, seen, b, rest);
    case InEpilogue =>
    case Failed(_) =>
  }

  /** At the end of the input the position's own verdict is the grammar's. */
  lemma FinishIsExpected(g: Syntax, st: Scan)
    requires Reachable(g, st) && Countable(g, st, [])
    ensures Finish(st) == Expected(g, st, [])
  {
    match st
    case InPreamble(seen) => assert seen + [] == seen;
    case InHeaders(seen) => assert seen + [] == seen;
    case InBody(seen) => assert seen + [] == seen;
    case _ =>
  }

  lemma {:induction false} RunMeetsExpectation(g: Syntax, st: Scan, s: seq<Byte>)
    requires Reachable(g, st) && Countable(g, st, s)
    ensures Reachable(g, Run(g, st, s))
    ensures Finish(Run(g, st, s)) == Expected(g, st, s)
    decreases |s|
  {
    if s == [] {
      FinishIsExpected(g, st);
    } else {
      assert s == [s[0]] + s[1..];
      StepPreservesVerdict(g, st, s[0], s[1..]);
      RunMeetsExpectation(g, Step(g, st, s[0]), s[1..]);
    }
  }

  /**
   Scanning a whole body byte by byte gives the grammar's verdict, error included.
   The only proviso is that no counter overflows: the limits leave room for one
   delimiter, or the body itself is shorter than the largest machine integer.
   */
  lemma ScanAgreesWithGrammar(g: Syntax, s: seq<Byte>)
    requires LimitsFit(g) || |s| <= USIZE_MAX
    ensures Finish(Run(g, Start, s)) == Parse(g, s)
  {
    assert Reachable(g, Start);
    RunMeetsExpectation(g, Start, s);
    assert [] + s == s;
  }

  /** An early rejection is never premature: no continuation of the body is acceptable. */
  lemma EarlyRejectionIsSound(g: Syntax, s: seq<Byte>, more: seq<Byte>)
    requires LimitsFit(g) || |s + more| <= USIZE_MAX
    requires Run(g, Start, s).Failed?
    ensures Parse(g, s + more) == Rejected(Run(g, Start, s).error)
  {
    RunConcat(g, Start, s, more);
    RunFailed(g, Run(g, Start, s).error, more);
    ScanAgreesWithGrammar(g, s + more);
  }
}
