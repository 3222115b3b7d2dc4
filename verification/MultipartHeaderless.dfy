/**
 Parts without header fields, and parts without a body.

 Section 5.1.1 of RFC 2046 lets a blank line follow the boundary line directly: a part
 whose header block is empty.  The guard begins to look for the blank line only after the
 boundary line's own CRLF, so it does not see that one.  It reads on, taking the part's
 body and further delimiters for header bytes, until some later blank line.

 The same section lets a part end with its headers, so that the CRLF of the blank line is
 already that of the next delimiter.  The guard uses that CRLF up as part of the blank
 line and does not see the delimiter.
 */
module MultipartHeaderless {
  import opened Common
  import opened ByteMatching
  import opened MultipartGrammar

  const CRLF: seq<Byte> := [CR, LF]

  /** Complete parts, each up to its own delimiter. */
  ghost function RenderParts(g: Syntax, parts: seq<Part>): seq<Byte> {
    if parts == [] then [] else RenderPart(g, parts[0]) + RenderParts(g, parts[1..])
  }

  lemma {:induction false} PartsAreSkipped(g: Syntax, parts: seq<Part>, rest: seq<Byte>)
    requires forall i :: 0 <= i < |parts| ==> WellFormedPart(g, parts[i])
    ensures ParseLine(g, RenderParts(g, parts) + rest) == ParseLine(g, rest)
    decreases |parts|
  {
    if parts == [] {
      assert RenderParts(g, parts) + rest == rest;
    } else {
      var others := RenderParts(g, parts[1..]) + rest;
      assert RenderParts(g, parts) + rest == RenderPart(g, parts[0]) + others;
      ParseLineOfPart(g, parts[0], others);
      PartsAreSkipped(g, parts[1..], rest);
    }
  }

  /** What follows a delimiter when the part has no header fields. */
  function HeaderlessLine(padding: seq<Byte>, rest: seq<Byte>): seq<Byte> {
    padding + CRLF + (CRLF + rest)
  }

  /** The blank line right after the boundary line is read as the beginning of a header block. */
  lemma HeaderlessLineReadsOn(g: Syntax, padding: seq<Byte>, rest: seq<Byte>)
    requires |padding| <= g.maxHeader && forall b :: b in padding ==> IsPadding(b)
    ensures ParseLine(g, HeaderlessLine(padding, rest)) == ParseHeaders(g, CRLF + rest)
  {
    var block := CRLF + rest;
    var line := padding + [CR] + ([LF] + block);
    assert HeaderlessLine(padding, rest) == line;
    assert line[0] != HYPHEN by {
      assert padding != [] ==> line[0] == padding[0] && IsPadding(padding[0]);
    }
    ParsePaddedSkips(g, 0, padding, [LF] + block);
    assert ([LF] + block)[1..] == block;
  }

  /** A body up to some place: any preamble and any number of complete parts, then `line` after a delimiter. */
  ghost function PlacedText(g: Syntax, preamble: Option<seq<Byte>>, before: seq<Part>, line: seq<Byte>): seq<Byte> {
    (if preamble.Some? then preamble.value + g.Delimiter() else g.Opening())
    + (RenderParts(g, before) + line)
  }

  /** Everything before that place, and the padding there, is as the syntax wants it. */
  ghost predicate GoodUpToThere(g: Syntax, preamble: Option<seq<Byte>>, before: seq<Part>, padding: seq<Byte>, line: seq<Byte>) {
    && (preamble.Some? ==>
          && |preamble.value| <= g.maxPreamble
          && EndsAtFirst(preamble.value, g.Delimiter())
          && !OccursAt(PlacedText(g, preamble, before, line), g.Opening(), 0))
    && (forall i :: 0 <= i < |before| ==> WellFormedPart(g, before[i]))
    && |padding| <= g.maxHeader && (forall b :: b in padding ==> IsPadding(b))
  }

  lemma PlacedVerdict(g: Syntax, preamble: Option<seq<Byte>>, before: seq<Part>, padding: seq<Byte>, line: seq<Byte>)
    requires GoodUpToThere(g, preamble, before, padding, line)
    ensures Parse(g, PlacedText(g, preamble, before, line)) == ParseLine(g, line)
  {
    var tail := RenderParts(g, before) + line;
    var text := PlacedText(g, preamble, before, line);
    PartsAreSkipped(g, before, line);
    if preamble.Some? {
      FindMarked(preamble.value, g.Delimiter(), tail);
      assert text == preamble.value + g.Delimiter() + tail;
      assert text[|preamble.value| + |g.Delimiter()|..] == tail;
    } else {
      assert text[..|g.Opening()|] == g.Opening();
      assert text[|g.Opening()|..] == tail;
    }
  }

  /** The verdict on the whole body is the verdict on CRLF and the rest read as a header block. */
  lemma HeaderlessPartVerdict(g: Syntax, preamble: Option<seq<Byte>>, before: seq<Part>, padding: seq<Byte>, rest: seq<Byte>)
    requires GoodUpToThere(g, preamble, before, padding, HeaderlessLine(padding, rest))
    ensures Parse(g, PlacedText(g, preamble, before, HeaderlessLine(padding, rest))) == ParseHeaders(g, CRLF + rest)
  {
    PlacedVerdict(g, preamble, before, padding, HeaderlessLine(padding, rest));
    HeaderlessLineReadsOn(g, padding, rest);
  }

  /** A body up to a delimiter, then further parts or the end. */
  ghost predicate IsContent(g: Syntax, content: seq<Byte>, body: seq<Byte>, parts: seq<Part>, epilogue: seq<Byte>) {
    && content == body + g.Delimiter() + RenderTail(g, parts, epilogue)
    && EndsAtFirst(body, g.Delimiter())
    && forall i :: 0 <= i < |parts| ==> WellFormedPart(g, parts[i])
  }

  ghost predicate HasContent(g: Syntax, content: seq<Byte>) {
    exists body, parts, epilogue :: IsContent(g, content, body, parts, epilogue)
  }

  lemma ContentIsAccepted(g: Syntax, content: seq<Byte>)
    ensures ParseBody(g, content) == Accepted <==> HasContent(g, content)
  {
    if ParseBody(g, content) == Accepted {
      var at := Find(content, g.Delimiter()).value;
      FoundText(content, g.Delimiter(), at);
      var parts, epilogue := SplitTail(g, content[at + |g.Delimiter()|..]);
      assert IsContent(g, content, content[..at], parts, epilogue);
    }
    forall body, parts, epilogue | IsContent(g, content, body, parts, epilogue) ensures ParseBody(g, content) == Accepted {
      var tail := RenderTail(g, parts, epilogue);
      FindMarked(body, g.Delimiter(), tail);
      assert content[|body| + |g.Delimiter()|..] == tail;
      ParseLineOfTail(g, parts, epilogue);
    }
  }

  /** The first blank line of CRLF and the rest is at `at`, within the limit, and content follows it. */
  ghost predicate LaterBlankLine(g: Syntax, rest: seq<Byte>, at: nat) {
    && at <= g.maxHeader && OccursAt(CRLF + rest, BLANK_LINE, at)
    && (forall i :: 0 <= i < at ==> !OccursAt(CRLF + rest, BLANK_LINE, i))
    && HasContent(g, (CRLF + rest)[at + |BLANK_LINE|..])
  }

  lemma AcceptedHasBlankLine(g: Syntax, rest: seq<Byte>)
    requires ParseHeaders(g, CRLF + rest) == Accepted
    ensures exists at :: LaterBlankLine(g, rest, at)
  {
    var at := Find(CRLF + rest, BLANK_LINE).value;
    ContentIsAccepted(g, (CRLF + rest)[at + |BLANK_LINE|..]);
    assert LaterBlankLine(g, rest, at);
  }

  lemma BlankLineIsAccepted(g: Syntax, rest: seq<Byte>, at: nat)
    requires LaterBlankLine(g, rest, at)
    ensures ParseHeaders(g, CRLF + rest) == Accepted
  {
    assert Find(CRLF + rest, BLANK_LINE) == Some(at);
    ContentIsAccepted(g, (CRLF + rest)[at + |BLANK_LINE|..]);
  }

  /**
   A body with a part without header fields is accepted exactly when a later blank line
   lies within the header limit and what follows that line is content of its own.
   */
  lemma HeaderlessPartAccepted(g: Syntax, preamble: Option<seq<Byte>>, before: seq<Part>, padding: seq<Byte>, rest: seq<Byte>)
    requires GoodUpToThere(g, preamble, before, padding, HeaderlessLine(padding, rest))
    ensures Parse(g, PlacedText(g, preamble, before, HeaderlessLine(padding, rest))) == Accepted <==>
      exists at :: LaterBlankLine(g, rest, at)
  {
    HeaderlessPartVerdict(g, preamble, before, padding, rest);
    if ParseHeaders(g, CRLF + rest) == Accepted {
      AcceptedHasBlankLine(g, rest);
    }
    forall at | LaterBlankLine(g, rest, at) ensures ParseHeaders(g, CRLF + rest) == Accepted {
      BlankLineIsAccepted(g, rest, at);
    }
  }

  /** Then the part's body and the delimiter after it are among the bytes taken for headers. */
  lemma HeaderlessBodyIsSwallowed(g: Syntax, rest: seq<Byte>, body: seq<Byte>, tail: seq<Byte>, at: nat)
    requires rest == body + g.Delimiter() + tail && LaterBlankLine(g, rest, at)
    requires forall i :: 0 <= i ==> !OccursAt(CRLF + (body + g.Delimiter()), BLANK_LINE, i)
    ensures at + |BLANK_LINE| > |CRLF + (body + g.Delimiter())|
  {
    var part := CRLF + (body + g.Delimiter());
    assert CRLF + rest == part + tail;
    if at + |BLANK_LINE| <= |part| {
      assert (part + tail)[at..at + |BLANK_LINE|] == part[at..at + |BLANK_LINE|];
      assert OccursAt(part, BLANK_LINE, at);
    }
  }

  /** For instance, a following part with headers is taken for the end of this part's own header block. */
  lemma NextHeadersEndTheBlock(g: Syntax, rest: seq<Byte>, body: seq<Byte>, padding: seq<Byte>, headers: seq<Byte>, content: seq<Byte>)
    requires rest == body + g.Delimiter() + (padding + CRLF + headers) + BLANK_LINE + content && HasContent(g, content)
    requires
      var block := CRLF + (body + g.Delimiter() + (padding + CRLF + headers));
      EndsAtFirst(block, BLANK_LINE) && |block| <= g.maxHeader
    ensures LaterBlankLine(g, rest, |CRLF + (body + g.Delimiter() + (padding + CRLF + headers))|)
  {
    var block := CRLF + (body + g.Delimiter() + (padding + CRLF + headers));
    assert CRLF + rest == block + BLANK_LINE + content;
    FindMarked(block, BLANK_LINE, content);
    assert (CRLF + rest)[|block| + |BLANK_LINE|..] == content;
  }

  /** Without a later blank line the body is refused. */
  lemma HeaderlessPartRejected(g: Syntax, preamble: Option<seq<Byte>>, before: seq<Part>, padding: seq<Byte>, rest: seq<Byte>)
    requires GoodUpToThere(g, preamble, before, padding, HeaderlessLine(padding, rest))
    requires forall i :: 0 <= i ==> !OccursAt(CRLF + rest, BLANK_LINE, i)
    ensures Parse(g, PlacedText(g, preamble, before, HeaderlessLine(padding, rest))) ==
      Rejected(if |rest| + 2 > g.maxHeader + |BLANK_LINE| then HeaderTooLarge else IncompleteHeaderBlock)
  {
    HeaderlessPartVerdict(g, preamble, before, padding, rest);
  }

  /** A concrete body: one part with the text `x` and no header field, boundary `b`. */
  lemma OnePartRejected(g: Syntax, text: seq<Byte>)
    requires g.boundary == [98] && g.maxHeader >= 16
    requires text == [HYPHEN, HYPHEN, 98, CR, LF, CR, LF, 120, CR, LF, HYPHEN, HYPHEN, 98, HYPHEN, HYPHEN]
    ensures Parse(g, text) == Rejected(IncompleteHeaderBlock)
  {
    var rest: seq<Byte> := [120, CR, LF, HYPHEN, HYPHEN, 98, HYPHEN, HYPHEN];
    var block := CRLF + rest;
    forall i: nat ensures !OccursAt(block, BLANK_LINE, i) {
      if i + 4 <= |block| {
        assert block[i..i + 4][0] == block[i] && block[i..i + 4][2] == block[i + 2];
        assert block[i] == CR ==> block[i + 2] != CR;
      }
    }
    HeaderlessPartRejected(g, None, [], [], rest);
    assert RenderParts(g, []) == [];
    assert PlacedText(g, None, [], HeaderlessLine([], rest)) == text;
  }

  // ----- Parts without a body -----

  /** What follows a delimiter when the part has headers but no body: its last CRLF belongs to the next delimiter. */
  function BodylessLine(g: Syntax, padding: seq<Byte>, headers: seq<Byte>, tail: seq<Byte>): seq<Byte> {
    padding + CRLF + (headers + CRLF + g.Delimiter() + tail)
  }

  /** The delimiter's CRLF is used up as the blank line, so the delimiter is read as the beginning of a body. */
  lemma BodylessLineReadsOn(g: Syntax, padding: seq<Byte>, headers: seq<Byte>, tail: seq<Byte>)
    requires |padding| <= g.maxHeader && forall b :: b in padding ==> IsPadding(b)
    requires |headers| <= g.maxHeader && EndsAtFirst(headers, BLANK_LINE)
    ensures ParseLine(g, BodylessLine(g, padding, headers, tail)) == ParseBody(g, g.Opening() + tail)
  {
    var block := headers + BLANK_LINE + (g.Opening() + tail);
    var line := padding + [CR] + ([LF] + block);
    assert BodylessLine(g, padding, headers, tail) == line;
    assert line[0] != HYPHEN by {
      assert padding != [] ==> line[0] == padding[0] && IsPadding(padding[0]);
    }
    ParsePaddedSkips(g, 0, padding, [LF] + block);
    assert ([LF] + block)[1..] == block;
    FindMarked(headers, BLANK_LINE, g.Opening() + tail);
    assert block[|headers| + |BLANK_LINE|..] == g.Opening() + tail;
  }

  /** A body with such a part at any place is accepted exactly when its delimiter and all that follows are content. */
  lemma BodylessPartAccepted(g: Syntax, preamble: Option<seq<Byte>>, before: seq<Part>, padding: seq<Byte>, headers: seq<Byte>, tail: seq<Byte>)
    requires GoodUpToThere(g, preamble, before, padding, BodylessLine(g, padding, headers, tail))
    requires |headers| <= g.maxHeader && EndsAtFirst(headers, BLANK_LINE)
    ensures Parse(g, PlacedText(g, preamble, before, BodylessLine(g, padding, headers, tail))) == Accepted <==>
      HasContent(g, g.Opening() + tail)
  {
    PlacedVerdict(g, preamble, before, padding, BodylessLine(g, padding, headers, tail));
    BodylessLineReadsOn(g, padding, headers, tail);
    ContentIsAccepted(g, g.Opening() + tail);
  }

  /** A part that follows is then taken, with the delimiter between them, for the body of this one. */
  lemma NextPartIsTheBody(g: Syntax, part: Part, others: seq<Part>, epilogue: seq<Byte>)
    requires EndsAtFirst(g.Opening() + (part.padding + CRLF + part.headers + BLANK_LINE + part.body), g.Delimiter())
    requires forall i :: 0 <= i < |others| ==> WellFormedPart(g, others[i])
    ensures HasContent(g, g.Opening() + RenderTail(g, [part] + others, epilogue))
  {
    var body := g.Opening() + (part.padding + CRLF + part.headers + BLANK_LINE + part.body);
    var content := g.Opening() + RenderTail(g, [part] + others, epilogue);
    assert ([part] + others)[1..] == others;
    assert content == body + g.Delimiter() + RenderTail(g, others, epilogue);
    assert IsContent(g, content, body, others, epilogue);
  }

  /** Without a later delimiter the body is refused. */
  lemma BodylessPartRejected(g: Syntax, preamble: Option<seq<Byte>>, before: seq<Part>, padding: seq<Byte>, headers: seq<Byte>, tail: seq<Byte>)
    requires GoodUpToThere(g, preamble, before, padding, BodylessLine(g, padding, headers, tail))
    requires |headers| <= g.maxHeader && EndsAtFirst(headers, BLANK_LINE)
    requires forall i :: 0 <= i ==> !OccursAt(g.Opening() + tail, g.Delimiter(), i)
    ensures Parse(g, PlacedText(g, preamble, before, BodylessLine(g, padding, headers, tail))) == Rejected(MissingClosingBoundary)
  {
    PlacedVerdict(g, preamble, before, padding, BodylessLine(g, padding, headers, tail));
    BodylessLineReadsOn(g, padding, headers, tail);
  }

  /** A concrete body: one part with the header `A` and no body, boundary `b`. */
  lemma OneBodylessPartRejected(g: Syntax, text: seq<Byte>)
    requires g.boundary == [98] && g.maxHeader >= 1
    requires text == [HYPHEN, HYPHEN, 98, CR, LF, 65, CR, LF, CR, LF, HYPHEN, HYPHEN, 98, HYPHEN, HYPHEN]
    ensures Parse(g, text) == Rejected(MissingClosingBoundary)
  {
    var headers: seq<Byte>, tail := [65], [HYPHEN, HYPHEN];
    assert EndsAtFirst(headers, BLANK_LINE) by {
      assert (headers + BLANK_LINE)[0..4][0] == 65;
    }
    forall i: nat ensures !OccursAt(g.Opening() + tail, g.Delimiter(), i) {
      if i + 5 <= |g.Opening() + tail| {
        assert (g.Opening() + tail)[i..i + 5][0] == HYPHEN;
      }
    }
    BodylessPartRejected(g, None, [], [], headers, tail);
    assert RenderParts(g, []) == [];
    assert PlacedText(g, None, [], BodylessLine(g, [], headers, tail)) == text;
  }
}
