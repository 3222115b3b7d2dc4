/**
 What is wrong with a refused body, said of its text.

 Each of the eight errors is given by a shape of the text alone: after a well-formed
 start, the one place where the syntax is violated or the text ends too early.  The
 parser, and with it the scanner, is proved to report an error exactly on its shape.
 */
module MultipartFaults {
  import opened Common
  import opened ByteMatching
  import opened MultipartGrammar
  import opened MultipartHeaderless

  // ----- Shapes of a faulty boundary line and what follows it -----

  /** Blanks and tabs, no more than a header block may have bytes. */
  predicate Padded(g: Syntax, s: seq<Byte>) {
    |s| <= g.maxHeader && forall i :: 0 <= i < |s| ==> s[i] == SPACE || s[i] == TAB
  }

  /** The line ends within its padding, after its carriage return, or after one hyphen. */
  predicate EndsInLine(g: Syntax, line: seq<Byte>) {
    || line == [HYPHEN]
    || Padded(g, line)
    || (line != [] && line[|line| - 1] == CR && Padded(g, line[..|line| - 1]))
  }

  /** After `k` bytes of padding comes something else than a line end. */
  predicate StrayAt(g: Syntax, line: seq<Byte>, k: nat) {
    && k < |line| && Padded(g, line[..k])
    && line[k] != SPACE && line[k] != TAB
    && (k == 0 ==> line[0] != HYPHEN)
    && (line[k] == CR ==> k + 1 < |line| && line[k + 1] != LF)
  }

  predicate LineIsInvalid(g: Syntax, line: seq<Byte>) {
    || (|line| > 1 && line[0] == HYPHEN && line[1] != HYPHEN)
    || exists k :: 0 <= k < |line| && StrayAt(g, line, k)
  }

  predicate TooMuchPadding(g: Syntax, line: seq<Byte>) {
    |line| > g.maxHeader && forall i :: 0 <= i <= g.maxHeader ==> line[i] == SPACE || line[i] == TAB
  }

  /** A complete boundary line, and a header block in which no blank line begins within the limit. */
  predicate OpenBlock(g: Syntax, line: seq<Byte>, padding: seq<Byte>, block: seq<Byte>) {
    && line == padding + CRLF + block && Padded(g, padding)
    && forall i :: 0 <= i <= g.maxHeader ==> !OccursAt(block, BLANK_LINE, i)
  }

  ghost predicate BlockTooLarge(g: Syntax, line: seq<Byte>) {
    exists padding, block :: OpenBlock(g, line, padding, block) && |block| > g.maxHeader + 4
  }

  ghost predicate EndsInBlock(g: Syntax, line: seq<Byte>) {
    exists padding, block :: OpenBlock(g, line, padding, block) && |block| <= g.maxHeader + 4
  }

  /** A complete boundary line and header block, and content in which there is no delimiter. */
  ghost predicate OpenContent(g: Syntax, line: seq<Byte>, padding: seq<Byte>, headers: seq<Byte>, content: seq<Byte>) {
    && line == padding + CRLF + (headers + BLANK_LINE + content) && Padded(g, padding)
    && |headers| <= g.maxHeader && EndsAtFirst(headers, BLANK_LINE)
    && forall i :: 0 <= i ==> !OccursAt(content, g.Delimiter(), i)
  }

  ghost predicate EndsInContent(g: Syntax, line: seq<Byte>) {
    exists padding, headers, content :: OpenContent(g, line, padding, headers, content)
  }

  ghost predicate LineFault(g: Syntax, line: seq<Byte>, error: BodyError) {
    match error
    case IncompleteBoundaryLine => EndsInLine(g, line)
    case InvalidBoundaryLine => LineIsInvalid(g, line)
    case BoundaryPaddingTooLarge => TooMuchPadding(g, line)
    case HeaderTooLarge => BlockTooLarge(g, line)
    case IncompleteHeaderBlock => EndsInBlock(g, line)
    case MissingClosingBoundary => EndsInContent(g, line)
    case PreambleTooLarge => false
    case MissingOpeningBoundary => false
  }

  /** After any preamble and complete parts that are as the syntax wants them, a delimiter and then `line`. */
  ghost predicate Reaches(g: Syntax, s: seq<Byte>, preamble: Option<seq<Byte>>, before: seq<Part>, line: seq<Byte>) {
    s == PlacedText(g, preamble, before, line) && GoodUpToThere(g, preamble, before, [], line)
  }

  /** No delimiter opens the body, neither at its start nor after a preamble within the limit. */
  ghost predicate Unopened(g: Syntax, s: seq<Byte>) {
    !OccursAt(s, g.Opening(), 0) && forall i :: 0 <= i <= g.maxPreamble ==> !OccursAt(s, g.Delimiter(), i)
  }

  /** What is wrong with the body `s`. */
  ghost predicate Fault(g: Syntax, s: seq<Byte>, error: BodyError) {
    match error
    case PreambleTooLarge => Unopened(g, s) && |s| > g.maxPreamble + |g.boundary| + 4
    case MissingOpeningBoundary => Unopened(g, s) && |s| <= g.maxPreamble + |g.boundary| + 4
    case _ => exists preamble, before, line :: Reaches(g, s, preamble, before, line) && LineFault(g, line, error)
  }

  // ----- The parser reports exactly these -----

  /** How many bytes of padding a text starts with. */
  function PaddingOf(s: seq<Byte>): (k: nat)
    ensures k <= |s| && (forall i :: 0 <= i < k ==> s[i] == SPACE || s[i] == TAB)
    ensures k < |s| ==> s[k] != SPACE && s[k] != TAB
  {
    if s == [] || !(s[0] == SPACE || s[0] == TAB) then 0 else 1 + PaddingOf(s[1..])
  }

  lemma {:induction false} PaddedVerdict(g: Syntax, seen: nat, s: seq<Byte>)
    requires seen <= g.maxHeader
    ensures ParsePadded(g, seen, s) ==
      var k := PaddingOf(s);
      if seen + k > g.maxHeader then Rejected(BoundaryPaddingTooLarge)
      else if k == |s| then Rejected(IncompleteBoundaryLine)
      else if s[k] == CR then ParseLineFeed(g, s[k + 1..])
      else Rejected(InvalidBoundaryLine)
    decreases |s|
  {
    if s != [] && (s[0] == SPACE || s[0] == TAB) && seen < g.maxHeader {
      PaddedVerdict(g, seen + 1, s[1..]);
      var k := PaddingOf(s[1..]);
      assert k < |s[1..]| ==> s[1..][k + 1..] == s[k + 2..];
    }
  }

  /** The end of the padding is where it is. */
  lemma PaddingEnds(g: Syntax, line: seq<Byte>, k: nat)
    requires k <= |line| && Padded(g, line[..k]) && (k < |line| ==> line[k] != SPACE && line[k] != TAB)
    ensures PaddingOf(line) == k
  {
    assert forall i :: 0 <= i < k ==> line[..k][i] == line[i];
  }

  /** A line that is complete leads on to its header block. */
  lemma CompleteLine(g: Syntax, line: seq<Byte>, padding: seq<Byte>, block: seq<Byte>)
    requires line == padding + CRLF + block && Padded(g, padding)
    ensures ParseLine(g, line) == ParseHeaders(g, block)
  {
    assert line[..|padding|] == padding && line[|padding|] == CR;
    PaddingEnds(g, line, |padding|);
    PaddedVerdict(g, 0, line);
    assert line[|padding| + 1..] == [LF] + block && ([LF] + block)[1..] == block;
  }

  lemma EndsInLineIsReported(g: Syntax, line: seq<Byte>)
    requires EndsInLine(g, line)
    ensures ParseLine(g, line) == Rejected(IncompleteBoundaryLine)
  {
    if line != [HYPHEN] && line != [] {
      PaddedVerdict(g, 0, line);
      if Padded(g, line) {
        assert line[..|line|] == line;
        PaddingEnds(g, line, |line|);
      } else {
        PaddingEnds(g, line, |line| - 1);
        assert |line| == 1 ==> line[0] == CR;
        assert |line| > 1 ==> line[0] == line[..|line| - 1][0];
      }
    }
  }

  lemma InvalidLineIsReported(g: Syntax, line: seq<Byte>)
    requires LineIsInvalid(g, line)
    ensures ParseLine(g, line) == Rejected(InvalidBoundaryLine)
  {
    if line[0] == HYPHEN {
      assert forall k :: 0 < k < |line| ==> line[..k][0] == line[0];
      assert line[1..][0] == line[1];
    } else {
      var k :| 0 <= k < |line| && StrayAt(g, line, k);
      PaddingEnds(g, line, k);
      PaddedVerdict(g, 0, line);
    }
  }

  lemma PaddingIsReported(g: Syntax, line: seq<Byte>)
    requires TooMuchPadding(g, line)
    ensures ParseLine(g, line) == Rejected(BoundaryPaddingTooLarge)
  {
    PaddedVerdict(g, 0, line);
  }

  lemma BlockIsReported(g: Syntax, line: seq<Byte>, padding: seq<Byte>, block: seq<Byte>)
    requires OpenBlock(g, line, padding, block)
    ensures ParseLine(g, line) == Rejected(if |block| > g.maxHeader + 4 then HeaderTooLarge else IncompleteHeaderBlock)
  {
    CompleteLine(g, line, padding, block);
  }

  lemma ContentIsReported(g: Syntax, line: seq<Byte>, padding: seq<Byte>, headers: seq<Byte>, content: seq<Byte>)
    requires OpenContent(g, line, padding, headers, content)
    ensures ParseLine(g, line) == Rejected(MissingClosingBoundary)
  {
    var block := headers + BLANK_LINE + content;
    CompleteLine(g, line, padding, block);
    FindMarked(headers, BLANK_LINE, content);
    assert block[|headers| + |BLANK_LINE|..] == content;
  }

  lemma LineFaultIsReported(g: Syntax, line: seq<Byte>, error: BodyError)
    requires LineFault(g, line, error)
    ensures ParseLine(g, line) == Rejected(error)
  {
    match error
    case IncompleteBoundaryLine => EndsInLineIsReported(g, line);
    case InvalidBoundaryLine => InvalidLineIsReported(g, line);
    case BoundaryPaddingTooLarge => PaddingIsReported(g, line);
    case HeaderTooLarge =>
      var padding, block :| OpenBlock(g, line, padding, block) && |block| > g.maxHeader + 4;
      BlockIsReported(g, line, padding, block);
    case IncompleteHeaderBlock =>
      var padding, block :| OpenBlock(g, line, padding, block) && |block| <= g.maxHeader + 4;
      BlockIsReported(g, line, padding, block);
    case MissingClosingBoundary =>
      var padding, headers, content :| OpenContent(g, line, padding, headers, content);
      ContentIsReported(g, line, padding, headers, content);
  }

  // ----- Every report has its fault -----

  /** A boundary line that is refused before its end. */
  lemma RefusedLine(g: Syntax, line: seq<Byte>, error: BodyError)
    requires ParseLine(g, line) == Rejected(error)
    requires
      var k := PaddingOf(line);
      k > g.maxHeader || k + 1 >= |line| || line[k] != CR || line[k + 1] != LF
    ensures LineFault(g, line, error)
  {
    var k := PaddingOf(line);
    assert forall i :: 0 <= i < k ==> line[..k][i] == line[i];
    if line != [] && line[0] == HYPHEN {
      assert |line| == 1 ==> line == [HYPHEN];
      assert |line| > 1 ==> line[1..][0] == line[1];
    } else {
      PaddedVerdict(g, 0, line);
      if k <= g.maxHeader {
        assert Padded(g, line[..k]);
        assert k == |line| ==> line[..k] == line;
        assert k < |line| && line[k] != CR ==> StrayAt(g, line, k);
        assert k + 1 < |line| && line[k] == CR ==> StrayAt(g, line, k);
      }
    }
  }

  /** Goes through complete parts until the one where something is wrong. */
  lemma {:induction false} FindFault(g: Syntax, s: seq<Byte>, error: BodyError) returns (parts: seq<Part>, line: seq<Byte>)
    requires ParseLine(g, s) == Rejected(error)
    ensures s == RenderParts(g, parts) + line && LineFault(g, line, error)
    ensures forall i :: 0 <= i < |parts| ==> WellFormedPart(g, parts[i])
    decreases |s|, 0
  {
    var k := PaddingOf(s);
    if k > g.maxHeader || k + 1 >= |s| || s[k] != CR || s[k + 1] != LF {
      RefusedLine(g, s, error);
      parts, line := [], s;
      NoPartsYet(g, s);
      return;
    }
    var padding, block := s[..k], s[k + 2..];
    assert s == padding + CRLF + block;
    CompleteLine(g, s, padding, block);
    parts, line := FindFaultInBlock(g, padding, block, error);
    assert padding + CRLF + block == s;
  }

  lemma NoPartsYet(g: Syntax, s: seq<Byte>)
    ensures RenderParts(g, []) + s == s
  {
  }

  lemma FindFaultInBlock(g: Syntax, padding: seq<Byte>, block: seq<Byte>, error: BodyError) returns (parts: seq<Part>, line: seq<Byte>)
    requires Padded(g, padding) && ParseHeaders(g, block) == Rejected(error)
    ensures padding + CRLF + block == RenderParts(g, parts) + line && LineFault(g, line, error)
    ensures forall i :: 0 <= i < |parts| ==> WellFormedPart(g, parts[i])
    decreases |block|, 1
  {
    var h := Find(block, BLANK_LINE);
    if h.None? || h.value > g.maxHeader {
      parts, line := [], padding + CRLF + block;
      assert OpenBlock(g, line, padding, block);
      NoPartsYet(g, line);
    } else {
      FoundText(block, BLANK_LINE, h.value);
      parts, line := FindFaultInContent(g, padding, block[..h.value], block[h.value + |BLANK_LINE|..], error);
    }
  }

  lemma FindFaultInContent(g: Syntax, padding: seq<Byte>, headers: seq<Byte>, content: seq<Byte>, error: BodyError)
    returns (parts: seq<Part>, line: seq<Byte>)
    requires Padded(g, padding) && |headers| <= g.maxHeader && EndsAtFirst(headers, BLANK_LINE)
    requires ParseBody(g, content) == Rejected(error)
    ensures padding + CRLF + (headers + BLANK_LINE + content) == RenderParts(g, parts) + line && LineFault(g, line, error)
    ensures forall i :: 0 <= i < |parts| ==> WellFormedPart(g, parts[i])
    decreases |content|, 2
  {
    var block := headers + BLANK_LINE + content;
    var b := Find(content, g.Delimiter());
    if b.None? {
      parts, line := [], padding + CRLF + block;
      assert OpenContent(g, line, padding, headers, content);
      NoPartsYet(g, line);
    } else {
      FoundText(content, g.Delimiter(), b.value);
      var part, tail := Part(padding, headers, content[..b.value]), content[b.value + |g.Delimiter()|..];
      var others;
      others, line := FindFault(g, tail, error);
      parts := [part] + others;
      FirstPart(g, part, others, line, block, content, tail);
    }
  }

  lemma FirstPart(g: Syntax, part: Part, others: seq<Part>, line: seq<Byte>, block: seq<Byte>, content: seq<Byte>, tail: seq<Byte>)
    requires block == part.headers + BLANK_LINE + content && content == part.body + g.Delimiter() + tail
    requires tail == RenderParts(g, others) + line
    ensures part.padding + CRLF + block == RenderParts(g, [part] + others) + line
  {
    assert ([part] + others)[1..] == others;
    assert RenderParts(g, [part] + others) == RenderPart(g, part) + RenderParts(g, others);
  }

  lemma ReportedHasFault(g: Syntax, s: seq<Byte>, error: BodyError)
    requires Parse(g, s) == Rejected(error)
    ensures Fault(g, s, error)
  {
    if OccursAt(s, g.Opening(), 0) {
      FaultAfterOpening(g, s, s[|g.Opening()|..], error);
    } else {
      var at := Find(s, g.Delimiter());
      if at.Some? && at.value <= g.maxPreamble {
        FoundText(s, g.Delimiter(), at.value);
        FaultAfterPreamble(g, s, s[..at.value], s[at.value + |g.Delimiter()|..], error);
      }
    }
  }

  lemma FaultAfterOpening(g: Syntax, s: seq<Byte>, tail: seq<Byte>, error: BodyError)
    requires s == g.Opening() + tail && ParseLine(g, tail) == Rejected(error)
    ensures exists preamble, before, line :: Reaches(g, s, preamble, before, line) && LineFault(g, line, error)
  {
    var parts, line := FindFault(g, tail, error);
    assert Reaches(g, s, None, parts, line);
  }

  lemma FaultAfterPreamble(g: Syntax, s: seq<Byte>, preamble: seq<Byte>, tail: seq<Byte>, error: BodyError)
    requires s == preamble + g.Delimiter() + tail && ParseLine(g, tail) == Rejected(error)
    requires |preamble| <= g.maxPreamble && EndsAtFirst(preamble, g.Delimiter()) && !OccursAt(s, g.Opening(), 0)
    ensures exists preamble, before, line :: Reaches(g, s, preamble, before, line) && LineFault(g, line, error)
  {
    var parts, line := FindFault(g, tail, error);
    assert s == PlacedText(g, Some(preamble), parts, line);
    assert Reaches(g, s, Some(preamble), parts, line);
  }

  /** A body is refused with an error exactly where its text has that fault. */
  lemma RejectedExactly(g: Syntax, s: seq<Byte>, error: BodyError)
    ensures Parse(g, s) == Rejected(error) <==> Fault(g, s, error)
  {
    if Parse(g, s) == Rejected(error) {
      ReportedHasFault(g, s, error);
    }
    if Fault(g, s, error) && error != PreambleTooLarge && error != MissingOpeningBoundary {
      var preamble, before, line :| Reaches(g, s, preamble, before, line) && LineFault(g, line, error);
      PlacedVerdict(g, preamble, before, [], line);
      LineFaultIsReported(g, line, error);
    }
  }

  /** Every body is a document or has exactly one fault. */
  lemma DocumentOrOneFault(g: Syntax, s: seq<Byte>)
    ensures (exists d :: WellFormed(g, d) && Render(g, d) == s) <==> forall e :: !Fault(g, s, e)
    ensures forall e, f :: Fault(g, s, e) && Fault(g, s, f) ==> e == f
  {
    AcceptedExactlyDocuments(g, s);
    forall e ensures Fault(g, s, e) <==> Parse(g, s) == Rejected(e) {
      RejectedExactly(g, s, e);
    }
  }
}
