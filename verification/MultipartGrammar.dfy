/**
 The multipart syntax the guard enforces, stated on a whole buffer.

 `Parse` reads a complete body by looking for first occurrences (the opening
 delimiter, the blank line after a header block, the next delimiter) and names the
 error when there is none within the limits.  `Document` and `Render` give the
 accepted bodies as a set of texts, with no searching at all.
 */
module MultipartGrammar {
  import opened Common
  import opened ByteMatching

  const CR: Byte := 13
  const LF: Byte := 10
  const HYPHEN: Byte := 45
  const SPACE: Byte := 32
  const TAB: Byte := 9

  const BLANK_LINE: seq<Byte> := [CR, LF, CR, LF]

  datatype BodyError =
    | PreambleTooLarge
    | HeaderTooLarge
    | MissingOpeningBoundary
    | IncompleteHeaderBlock
    | InvalidBoundaryLine
    | IncompleteBoundaryLine
    | BoundaryPaddingTooLarge
    | MissingClosingBoundary

  datatype Verdict = Accepted | Rejected(error: BodyError)

  /** The boundary parameter and the two limits of one guarded request. */
  datatype Syntax = Syntax(boundary: seq<Byte>, maxPreamble: nat, maxHeader: nat) {
    /** The delimiter as it may stand at the very start of the body. */
    function Opening(): (d: seq<Byte>)
      ensures |d| == |boundary| + 2
    {
      [HYPHEN, HYPHEN] + boundary
    }

    /** The delimiter that ends a preamble or a part body. */
    function Delimiter(): (d: seq<Byte>)
      ensures |d| == |boundary| + 4 && d[0] == CR
    {
      [CR, LF, HYPHEN, HYPHEN] + boundary
    }
  }

  predicate IsPadding(b: Byte) { b == SPACE || b == TAB }

  // ----- First occurrence -----

  predicate OccursAt(s: seq<Byte>, p: seq<Byte>, i: nat) {
    i + |p| <= |s| && s[i..i + |p|] == p
  }

  /** The least offset at which `p` occurs in `s`. */
  function Find(s: seq<Byte>, p: seq<Byte>): (r: Option<nat>)
    ensures r.Some? ==> OccursAt(s, p, r.value) && forall i :: 0 <= i < r.value ==> !OccursAt(s, p, i)
    ensures r.None? ==> forall i :: 0 <= i ==> !OccursAt(s, p, i)
  {
    FindFrom(s, p, 0)
  }

  function FindFrom(s: seq<Byte>, p: seq<Byte>, from: nat): (r: Option<nat>)
    requires forall i :: 0 <= i < from ==> !OccursAt(s, p, i)
    ensures r.Some? ==> OccursAt(s, p, r.value) && forall i :: 0 <= i < r.value ==> !OccursAt(s, p, i)
    ensures r.None? ==> forall i :: 0 <= i ==> !OccursAt(s, p, i)
    decreases |s| - from
  {
    if from + |p| > |s| then None
    else if OccursAt(s, p, from) then Some(from)
    else FindFrom(s, p, from + 1)
  }

  // ----- Whole-buffer parser -----

  function Parse(g: Syntax, s: seq<Byte>): (v: Verdict) {
    if OccursAt(s, g.Opening(), 0) then ParseLine(g, s[|g.Opening()|..])
    else
      var at := Find(s, g.Delimiter());
      if at.Some? && at.value <= g.maxPreamble then ParseLine(g, s[at.value + |g.Delimiter()|..])
      else if |s| > g.maxPreamble + |g.Delimiter()| then Rejected(PreambleTooLarge)
      else Rejected(MissingOpeningBoundary)
  }

  /** The rest of a boundary line: a closing `--`, or padding and CRLF. */
  function ParseLine(g: Syntax, s: seq<Byte>): (v: Verdict)
    decreases |s|, 2
  {
    if s == [] then Rejected(IncompleteBoundaryLine)
    else if s[0] == HYPHEN then ParseClosing(s[1..])
    else ParsePadded(g, 0, s)
  }

  function ParseClosing(s: seq<Byte>): (v: Verdict) {
    if s == [] then Rejected(IncompleteBoundaryLine)
    else if s[0] == HYPHEN then Accepted
    else Rejected(InvalidBoundaryLine)
  }

  /** `seen` padding bytes have already been read on this line. */
  function ParsePadded(g: Syntax, seen: nat, s: seq<Byte>): (v: Verdict)
    decreases |s|, 1
  {
    if s == [] then Rejected(IncompleteBoundaryLine)
    else if IsPadding(s[0]) then
      if seen + 1 > g.maxHeader then Rejected(BoundaryPaddingTooLarge) else ParsePadded(g, seen + 1, s[1..])
    else if s[0] == CR then ParseLineFeed(g, s[1..])
    else Rejected(InvalidBoundaryLine)
  }

  function ParseLineFeed(g: Syntax, s: seq<Byte>): (v: Verdict)
    decreases |s|, 1
  {
    if s == [] then Rejected(IncompleteBoundaryLine)
    else if s[0] == LF then ParseHeaders(g, s[1..])
    else Rejected(InvalidBoundaryLine)
  }

  function ParseHeaders(g: Syntax, s: seq<Byte>): (v: Verdict)
    decreases |s|, 1
  {
    var at := Find(s, BLANK_LINE);
    if at.Some? && at.value <= g.maxHeader then ParseBody(g, s[at.value + |BLANK_LINE|..])
    else if |s| > g.maxHeader + |BLANK_LINE| then Rejected(HeaderTooLarge)
    else Rejected(IncompleteHeaderBlock)
  }

  function ParseBody(g: Syntax, s: seq<Byte>): (v: Verdict)
    decreases |s|, 1
  {
    var at := Find(s, g.Delimiter());
    if at.Some? then ParseLine(g, s[at.value + |g.Delimiter()|..]) else Rejected(MissingClosingBoundary)
  }

  // ----- Accepted bodies as texts -----

  datatype Part = Part(padding: seq<Byte>, headers: seq<Byte>, body: seq<Byte>)

  /** `preamble` is absent when the body starts directly with the opening delimiter. */
  datatype Document = Document(preamble: Option<seq<Byte>>, parts: seq<Part>, epilogue: seq<Byte>)

  /** `text` followed by `mark` contains `mark` only at its end. */
  ghost predicate EndsAtFirst(text: seq<Byte>, mark: seq<Byte>) {
    forall i :: 0 <= i < |text| ==> !OccursAt(text + mark, mark, i)
  }

  ghost predicate WellFormedPart(g: Syntax, part: Part) {
    && |part.padding| <= g.maxHeader
    && (forall b :: b in part.padding ==> IsPadding(b))
    && |part.headers| <= g.maxHeader
    && EndsAtFirst(part.headers, BLANK_LINE)
    && EndsAtFirst(part.body, g.Delimiter())
  }

  ghost predicate WellFormed(g: Syntax, d: Document) {
    && (d.preamble.Some? ==>
          && |d.preamble.value| <= g.maxPreamble
          && EndsAtFirst(d.preamble.value, g.Delimiter())
          && !OccursAt(Render(g, d), g.Opening(), 0))
    && forall i :: 0 <= i < |d.parts| ==> WellFormedPart(g, d.parts[i])
  }

  /** What follows a delimiter: each part up to its own delimiter, then the closing hyphens. */
  ghost function RenderTail(g: Syntax, parts: seq<Part>, epilogue: seq<Byte>): seq<Byte> {
    if parts == [] then [HYPHEN, HYPHEN] + epilogue
    else RenderPart(g, parts[0]) + RenderTail(g, parts[1..], epilogue)
  }

  ghost function RenderPart(g: Syntax, part: Part): seq<Byte> {
    part.padding + [CR, LF] + part.headers + BLANK_LINE + part.body + g.Delimiter()
  }

  ghost function Render(g: Syntax, d: Document): seq<Byte> {
    (if d.preamble.Some? then d.preamble.value + g.Delimiter() else g.Opening())
    + RenderTail(g, d.parts, d.epilogue)
  }

  /** A marked text is found at the end of its text, whatever follows. */
  lemma FindMarked(text: seq<Byte>, mark: seq<Byte>, rest: seq<Byte>)
    requires mark != []
    requires EndsAtFirst(text, mark)
    ensures Find(text + mark + rest, mark) == Some(|text|)
  {
    var s := text + mark + rest;
    assert OccursAt(s, mark, |text|);
    forall i | 0 <= i < |text|
      ensures !OccursAt(s, mark, i)
    {
      assert !OccursAt(text + mark, mark, i);
      assert s[i..i + |mark|] == (text + mark)[i..i + |mark|];
    }
  }

  /** What stands before a first occurrence is a marked text. */
  lemma FoundText(s: seq<Byte>, mark: seq<Byte>, at: nat)
    requires mark != [] && Find(s, mark) == Some(at)
    ensures at + |mark| <= |s| && s == s[..at] + mark + s[at + |mark|..]
    ensures EndsAtFirst(s[..at], mark)
  {
    var text := s[..at];
    forall i | 0 <= i < |text|
      ensures !OccursAt(text + mark, mark, i)
    {
      assert text + mark == s[..at + |mark|];
      if OccursAt(text + mark, mark, i) {
        assert s[i..i + |mark|] == (text + mark)[i..i + |mark|];
        assert OccursAt(s, mark, i);
      }
    }
  }

  /** Padding within the limit is skipped. */
  lemma {:induction false} ParsePaddedSkips(g: Syntax, seen: nat, padding: seq<Byte>, rest: seq<Byte>)
    requires forall b :: b in padding ==> IsPadding(b)
    requires seen + |padding| <= g.maxHeader
    ensures ParsePadded(g, seen, padding + [CR] + rest) == ParseLineFeed(g, rest)
    decreases |padding|
  {
    var s := padding + [CR] + rest;
    if padding == [] {
      assert s[1..] == rest;
    } else {
      assert s[1..] == padding[1..] + [CR] + rest;
      ParsePaddedSkips(g, seen + 1, padding[1..], rest);
    }
  }

  /** The text of a part, bracketed the way the parser consumes it. */
  lemma PartText(g: Syntax, part: Part, rest: seq<Byte>)
    ensures RenderPart(g, part) + rest
         == part.padding + [CR] + ([LF] + (part.headers + BLANK_LINE + (part.body + g.Delimiter() + rest)))
  {
  }

  /** A header block and body within the limits lead to the next boundary line. */
  lemma ParseHeadersOfPart(g: Syntax, part: Part, rest: seq<Byte>)
    requires WellFormedPart(g, part)
    ensures ParseHeaders(g, part.headers + BLANK_LINE + (part.body + g.Delimiter() + rest)) == ParseLine(g, rest)
  {
    var body := part.body + g.Delimiter() + rest;
    var headers := part.headers + BLANK_LINE + body;
    FindMarked(part.headers, BLANK_LINE, body);
    assert headers[|part.headers| + |BLANK_LINE|..] == body;
    FindMarked(part.body, g.Delimiter(), rest);
    assert body[|part.body| + |g.Delimiter()|..] == rest;
    assert ParseHeaders(g, headers) == ParseBody(g, body);
  }

  lemma ParseLineOfPart(g: Syntax, part: Part, rest: seq<Byte>)
    requires WellFormedPart(g, part)
    ensures ParseLine(g, RenderPart(g, part) + rest) == ParseLine(g, rest)
  {
    var headers := part.headers + BLANK_LINE + (part.body + g.Delimiter() + rest);
    var line := part.padding + [CR] + ([LF] + headers);
    PartText(g, part, rest);
    assert line[0] != HYPHEN by {
      assert part.padding != [] ==> line[0] == part.padding[0] && IsPadding(part.padding[0]);
    }
    assert ParseLine(g, line) == ParsePadded(g, 0, line);
    ParsePaddedSkips(g, 0, part.padding, [LF] + headers);
    assert ([LF] + headers)[1..] == headers;
    assert ParseLineFeed(g, [LF] + headers) == ParseHeaders(g, headers);
    ParseHeadersOfPart(g, part, rest);
  }

  lemma {:induction false} ParseLineOfTail(g: Syntax, parts: seq<Part>, epilogue: seq<Byte>)
    requires forall i :: 0 <= i < |parts| ==> WellFormedPart(g, parts[i])
    ensures ParseLine(g, RenderTail(g, parts, epilogue)) == Accepted
    decreases |parts|
  {
    if parts != [] {
      ParseLineOfPart(g, parts[0], RenderTail(g, parts[1..], epilogue));
      ParseLineOfTail(g, parts[1..], epilogue);
    }
  }

  /** Every well-formed document is accepted. */
  lemma DocumentsAreAccepted(g: Syntax, d: Document)
    requires WellFormed(g, d)
    ensures Parse(g, Render(g, d)) == Accepted
  {
    var tail := RenderTail(g, d.parts, d.epilogue);
    ParseLineOfTail(g, d.parts, d.epilogue);
    if d.preamble.Some? {
      FindMarked(d.preamble.value, g.Delimiter(), tail);
      assert Render(g, d)[|d.preamble.value| + |g.Delimiter()|..] == tail;
    } else {
      assert Render(g, d)[..|g.Opening()|] == g.Opening();
      assert Render(g, d)[|g.Opening()|..] == tail;
    }
  }

  /** The padding read before the line ends, with what stands after the carriage return. */
  lemma {:induction false} SplitPadded(g: Syntax, seen: nat, s: seq<Byte>) returns (padding: seq<Byte>, rest: seq<Byte>)
    requires ParsePadded(g, seen, s) == Accepted
    ensures s == padding + [CR] + rest
    ensures forall b :: b in padding ==> IsPadding(b)
    ensures padding == [] || seen + |padding| <= g.maxHeader
    ensures ParseLineFeed(g, rest) == Accepted
    decreases |s|
  {
    if IsPadding(s[0]) {
      padding, rest := SplitPadded(g, seen + 1, s[1..]);
      padding := [s[0]] + padding;
    } else {
      padding, rest := [], s[1..];
    }
  }

  /** Reads back one header block and body. */
  lemma SplitHeaders(g: Syntax, block: seq<Byte>) returns (headers: seq<Byte>, body: seq<Byte>, tail: seq<Byte>)
    requires ParseHeaders(g, block) == Accepted
    ensures block == headers + BLANK_LINE + (body + g.Delimiter() + tail)
    ensures |headers| <= g.maxHeader
    ensures EndsAtFirst(headers, BLANK_LINE) && EndsAtFirst(body, g.Delimiter())
    ensures ParseLine(g, tail) == Accepted
  {
    var h := Find(block, BLANK_LINE).value;
    FoundText(block, BLANK_LINE, h);
    var content := block[h + |BLANK_LINE|..];
    assert ParseBody(g, content) == Accepted;
    var b := Find(content, g.Delimiter()).value;
    FoundText(content, g.Delimiter(), b);
    headers, body, tail := block[..h], content[..b], content[b + |g.Delimiter()|..];
  }

  /** Reads back the first part of an accepted tail that does not close the body. */
  lemma SplitPart(g: Syntax, s: seq<Byte>) returns (part: Part, tail: seq<Byte>)
    requires ParseLine(g, s) == Accepted && s[0] != HYPHEN
    ensures WellFormedPart(g, part)
    ensures s == RenderPart(g, part) + tail
    ensures ParseLine(g, tail) == Accepted
  {
    var padding, afterPadding := SplitPadded(g, 0, s);
    assert afterPadding == [LF] + afterPadding[1..];
    var headers, body, rest := SplitHeaders(g, afterPadding[1..]);
    part, tail := Part(padding, headers, body), rest;
    PartText(g, part, tail);
  }

  /** Reads back the parts of an accepted tail. */
  lemma {:induction false} SplitTail(g: Syntax, s: seq<Byte>) returns (parts: seq<Part>, epilogue: seq<Byte>)
    requires ParseLine(g, s) == Accepted
    ensures forall i :: 0 <= i < |parts| ==> WellFormedPart(g, parts[i])
    ensures s == RenderTail(g, parts, epilogue)
    decreases |s|
  {
    if s[0] == HYPHEN {
      parts, epilogue := [], s[2..];
      assert s == [HYPHEN, HYPHEN] + s[2..];
    } else {
      var part, tail := SplitPart(g, s);
      var others, e := SplitTail(g, tail);
      parts, epilogue := [part] + others, e;
      assert parts[1..] == others;
    }
  }

  /** Every accepted body is some well-formed document. */
  lemma AcceptedIsADocument(g: Syntax, s: seq<Byte>) returns (d: Document)
    requires Parse(g, s) == Accepted
    ensures WellFormed(g, d) && Render(g, d) == s
  {
    if OccursAt(s, g.Opening(), 0) {
      var tail := s[|g.Opening()|..];
      var parts, epilogue := SplitTail(g, tail);
      d := Document(None, parts, epilogue);
      assert s == g.Opening() + tail;
    } else {
      var at := Find(s, g.Delimiter()).value;
      FoundText(s, g.Delimiter(), at);
      var tail := s[at + |g.Delimiter()|..];
      var parts, epilogue := SplitTail(g, tail);
      d := Document(Some(s[..at]), parts, epilogue);
      assert Render(g, d) == s;
    }
  }

  /** The parser accepts exactly the texts of well-formed documents. */
  lemma AcceptedExactlyDocuments(g: Syntax, s: seq<Byte>)
    ensures Parse(g, s) == Accepted <==> exists d :: WellFormed(g, d) && Render(g, d) == s
  {
    if Parse(g, s) == Accepted {
      var d := AcceptedIsADocument(g, s);
    }
    forall d | WellFormed(g, d) && Render(g, d) == s
      ensures Parse(g, s) == Accepted
    {
      DocumentsAreAccepted(g, d);
    }
  }
}
