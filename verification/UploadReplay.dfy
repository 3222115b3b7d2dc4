/**
 Replaying a repeated upload: the form fields are validated again, partly from a prefix
 that was read while looking for the upload ID and partly from the rest of the stream,
 and condensed into the metadata whose digest must match the first pass.

 The two readers are separate pieces of code.  They are proved to agree wherever the
 stream was split, and acceptance is characterised without any reading order, which
 also relates it to the form policy of the live upload path.
 */
module UploadReplay {
  import opened Common

  const MAX_ID_BYTES: nat := 64
  const MAX_CSRF_BYTES: nat := 512
  const MAX_PATH_BYTES: nat := 4 * 1024
  const MAX_OPTION_BYTES: nat := 16
  const MAX_FIELDS: nat := 6

  datatype FieldName = UploadId | Path | FolderPath | Overwrite | Csrf | File | Unknown

  /** The content of a text field as the stream delivers it, with its size in bytes. */
  datatype Text = Unreadable | NotUtf8(size: nat) | Utf8(value: string, size: nat)

  /** A replayed file: its checked name, size and content digest. */
  datatype FileInfo = FileInfo(name: string, size: nat, digest: string)

  /** One multipart field; `file` is what hashing its content as a file would give. */
  datatype Field = Field(name: FieldName, text: Text, file: Option<FileInfo>)

  /** A field already read into the prefix. */
  datatype PrefixField = PrefixField(name: FieldName, value: string)

  datatype Kind =
    | Admin(csrf: string)
    | Public(uploadOnly: bool, canUpload: bool, token: Option<string>, headerValid: bool)

  datatype Error =
    | TooManyFields
    | IdsDisagree
    | InvalidPath
    | InvalidFolder
    | OptionTooLate
    | InvalidCsrf
    | InvalidOrDuplicate
    | FieldTooLarge
    | InvalidField
    | InvalidFile
    | FileMissing
    | CsrfMissing
    | PathMissing
    | IdMissing
    | IdInvalid
    | IdAfterFile
    | UnknownField
    | BrokenStream

  datatype Result<+T> = Ok(value: T) | Err(error: Error)

  /** What the digest is computed from. */
  datatype Metadata =
    | AdminMetadata(file: FileInfo, directory: string, overwrite: bool)
    | PublicMetadata(file: FileInfo, base: string, folder: string, overwrite: bool)

  /** Path validation is code of its own; only its outcome matters here. */
  type Normalizer = string -> Option<string>

  datatype State = State(
    base: Option<string>, folder: Option<string>, overwrite: Option<bool>,
    csrfSeen: bool, idSeen: bool, fields: nat, file: Option<FileInfo>)

  const Start := State(None, None, None, false, false, 0, None)

  function LimitedText(text: Text, maximum: nat): Result<string> {
    match text
    case Unreadable => Err(InvalidField)
    case NotUtf8(size) => if size > maximum then Err(FieldTooLarge) else Err(InvalidField)
    case Utf8(value, size) => if size > maximum then Err(FieldTooLarge) else Ok(value)
  }

  function NormalizeBase(n: Normalizer, kind: Kind, raw: string): Option<string> {
    match kind
    case Admin(_) => n(raw)
    case Public(uploadOnly, canUpload, _, _) =>
      if !canUpload then None else if uploadOnly then Some("") else n(raw)
  }

  function ExpectedCsrf(kind: Kind): Option<string> {
    match kind
    case Admin(csrf) => Some(csrf)
    case Public(_, _, token, _) => token
  }

  // ----- The two readers -----

  /** One field of the already-read prefix. */
  function PrefixStep(n: Normalizer, kind: Kind, id: string, s: State, f: PrefixField): Result<State> {
    var st := s.(fields := s.fields + 1);
    if st.fields > MAX_FIELDS then Err(TooManyFields)
    else if f.name == UploadId && !st.idSeen then
      if f.value != id then Err(IdsDisagree) else Ok(st.(idSeen := true))
    else if f.name == Path && st.base.None? then
      var base := NormalizeBase(n, kind, f.value);
      if base.None? then Err(InvalidPath) else Ok(st.(base := base))
    else if f.name == FolderPath && st.folder.None? then
      var folder := n(f.value);
      if folder.None? then Err(InvalidFolder) else Ok(st.(folder := folder))
    else if f.name == Overwrite && st.overwrite.None? then
      Ok(st.(overwrite := Some(f.value == "1")))
    else if f.name == Csrf && !st.csrfSeen then
      var expected := ExpectedCsrf(kind);
      if expected.Some? && expected.value != f.value then Err(InvalidCsrf) else Ok(st.(csrfSeen := true))
    else Err(InvalidOrDuplicate)
  }

  /** One field read from the stream. */
  function StreamStep(n: Normalizer, kind: Kind, id: string, s: State, f: Field): Result<State> {
    var st := s.(fields := s.fields + 1);
    if st.fields > MAX_FIELDS then Err(TooManyFields)
    else if f.name == UploadId && !st.idSeen && st.file.None? then
      var supplied := LimitedText(f.text, MAX_ID_BYTES);
      if supplied.Err? then Err(supplied.error)
      else if supplied.value != id then Err(IdsDisagree)
      else Ok(st.(idSeen := true))
    else if f.name == Path && st.base.None? && st.file.None? then
      var raw := LimitedText(f.text, MAX_PATH_BYTES);
      if raw.Err? then Err(raw.error)
      else
        var base := NormalizeBase(n, kind, raw.value);
        if base.None? then Err(InvalidPath) else Ok(st.(base := base))
    else if f.name == FolderPath && st.folder.None? && st.file.None? then
      var raw := LimitedText(f.text, MAX_PATH_BYTES);
      if raw.Err? then Err(raw.error)
      else
        var folder := n(raw.value);
        if folder.None? then Err(InvalidFolder) else Ok(st.(folder := folder))
    else if f.name == Overwrite && st.overwrite.None? then
      if kind.Admin? && st.file.Some? then Err(OptionTooLate)
      else
        var raw := LimitedText(f.text, MAX_OPTION_BYTES);
        if raw.Err? then Err(raw.error) else Ok(st.(overwrite := Some(raw.value == "1")))
    else if f.name == Csrf && !st.csrfSeen && st.file.None? then
      var supplied := LimitedText(f.text, MAX_CSRF_BYTES);
      if supplied.Err? then Err(supplied.error)
      else
        var expected := ExpectedCsrf(kind);
        if expected.Some? && expected.value != supplied.value then Err(InvalidCsrf) else Ok(st.(csrfSeen := true))
    else if f.name == File && st.file.None? then
      if f.file.None? then Err(InvalidFile) else Ok(st.(file := f.file))
    else Err(InvalidOrDuplicate)
  }

  function Directory(base: string, folder: Option<string>): string {
    if folder.None? then base
    else if base == "" || base == "." then folder.value
    else base + "/" + folder.value
  }

  function Finish(kind: Kind, st: State): Result<Metadata> {
    if st.file.None? then Err(FileMissing)
    else
      var overwrite := st.overwrite.Some? && st.overwrite.value;
      match kind
      case Admin(_) =>
        if !st.csrfSeen then Err(CsrfMissing)
        else if st.base.None? then Err(PathMissing)
        else Ok(AdminMetadata(st.file.value, Directory(st.base.value, st.folder), overwrite))
      case Public(_, _, token, headerValid) =>
        if token.Some? && !st.csrfSeen && !headerValid then Err(CsrfMissing)
        else Ok(PublicMetadata(st.file.value,
                               if st.base.Some? then st.base.value else "",
                               if st.folder.Some? then st.folder.value else "",
                               overwrite))
  }

  function ReadPrefix(n: Normalizer, kind: Kind, id: string, fields: seq<PrefixField>): Result<State>
    decreases |fields|
  {
    if fields == [] then Ok(Start)
    else
      var before := ReadPrefix(n, kind, id, fields[..|fields| - 1]);
      if before.Err? then before else PrefixStep(n, kind, id, before.value, fields[|fields| - 1])
  }

  function ReadStream(n: Normalizer, kind: Kind, id: string, s: State, fields: seq<Field>): Result<State>
    decreases |fields|
  {
    if fields == [] then Ok(s)
    else
      var before := ReadStream(n, kind, id, s, fields[..|fields| - 1]);
      if before.Err? then before else StreamStep(n, kind, id, before.value, fields[|fields| - 1])
  }

  /** Whether a stream ends after its last field or breaks where another field was to come. */
  datatype Ending = Complete | Broken

  function Replay(n: Normalizer, kind: Kind, id: string, prefix: seq<PrefixField>, rest: seq<Field>, ending: Ending := Complete): Result<Metadata> {
    var start := ReadPrefix(n, kind, id, prefix);
    if start.Err? then Err(start.error)
    else
      var end := ReadStream(n, kind, id, start.value, rest);
      if end.Err? then Err(end.error)
      else if ending == Broken then Err(BrokenStream)
      else Finish(kind, end.value)
  }

  function Digested(metadata: Result<Metadata>, digest: Metadata -> string): Result<string> {
    if metadata.Err? then Err(metadata.error) else Ok(digest(metadata.value))
  }

  // ----- The readers as loops -----

  method ParseReplayPrefix(n: Normalizer, kind: Kind, id: string, prefix: seq<PrefixField>) returns (r: Result<State>)
    ensures r == ReadPrefix(n, kind, id, prefix)
  {
    var st := Start;
    for i := 0 to |prefix|
      invariant ReadPrefix(n, kind, id, prefix[..i]) == Ok(st)
    {
      assert prefix[..i + 1][..i] == prefix[..i];
      var next := PrefixStep(n, kind, id, st, prefix[i]);
      if next.Err? {
        PrefixErrorIsFinal(n, kind, id, prefix, i + 1);
        return next;
      }
      st := next.value;
    }
    assert prefix[..|prefix|] == prefix;
    return Ok(st);
  }

  /** `digest` is the serialisation and hash of the metadata. */
  method ReplayFingerprint(n: Normalizer, kind: Kind, id: string, prefix: seq<PrefixField>, rest: seq<Field>, ending: Ending, digest: Metadata -> string)
    returns (r: Result<string>)
    ensures r == Digested(Replay(n, kind, id, prefix, rest, ending), digest)
  {
    var start := ParseReplayPrefix(n, kind, id, prefix);
    if start.Err? {
      return Err(start.error);
    }
    var st := start.value;
    for i := 0 to |rest|
      invariant ReadStream(n, kind, id, start.value, rest[..i]) == Ok(st)
    {
      assert rest[..i + 1][..i] == rest[..i];
      var next := StreamStep(n, kind, id, st, rest[i]);
      if next.Err? {
        StreamErrorIsFinal(n, kind, id, start.value, rest, i + 1);
        return Err(next.error);
      }
      st := next.value;
    }
    assert rest[..|rest|] == rest;
    if ending == Broken {
      return Err(BrokenStream);
    }
    return Digested(Finish(kind, st), digest);
  }

  lemma {:induction false} PrefixErrorIsFinal(n: Normalizer, kind: Kind, id: string, fields: seq<PrefixField>, i: nat)
    requires i <= |fields| && ReadPrefix(n, kind, id, fields[..i]).Err?
    ensures ReadPrefix(n, kind, id, fields) == ReadPrefix(n, kind, id, fields[..i])
    decreases |fields|
  {
    if i == |fields| {
      assert fields[..i] == fields;
    } else {
      var front := fields[..|fields| - 1];
      assert front[..i] == fields[..i];
      PrefixErrorIsFinal(n, kind, id, front, i);
    }
  }

  lemma {:induction false} StreamErrorIsFinal(n: Normalizer, kind: Kind, id: string, s: State, fields: seq<Field>, i: nat)
    requires i <= |fields| && ReadStream(n, kind, id, s, fields[..i]).Err?
    ensures ReadStream(n, kind, id, s, fields) == ReadStream(n, kind, id, s, fields[..i])
    decreases |fields|
  {
    if i == |fields| {
      assert fields[..i] == fields;
    } else {
      var front := fields[..|fields| - 1];
      assert front[..i] == fields[..i];
      StreamErrorIsFinal(n, kind, id, s, front, i);
    }
  }

  // ----- Where the stream is split does not matter -----

  function Maximum(name: FieldName): nat {
    match name
    case UploadId => MAX_ID_BYTES
    case Path => MAX_PATH_BYTES
    case FolderPath => MAX_PATH_BYTES
    case Overwrite => MAX_OPTION_BYTES
    case Csrf => MAX_CSRF_BYTES
    case _ => 0
  }

  /** `p` is the stream field `f`, read within its limit. */
  predicate ReadAs(f: Field, p: PrefixField) {
    && f.name == p.name && f.name != File && f.name != Unknown
    && f.text.Utf8? && f.text.value == p.value && f.text.size <= Maximum(f.name)
  }

  lemma StepsAgree(n: Normalizer, kind: Kind, id: string, s: State, f: Field, p: PrefixField)
    requires ReadAs(f, p) && s.file.None?
    ensures StreamStep(n, kind, id, s, f) == PrefixStep(n, kind, id, s, p)
  {
  }

  lemma {:induction false} PrefixIsStream(n: Normalizer, kind: Kind, id: string, fields: seq<Field>, prefix: seq<PrefixField>)
    requires |fields| == |prefix| && forall i :: 0 <= i < |fields| ==> ReadAs(fields[i], prefix[i])
    ensures ReadStream(n, kind, id, Start, fields) == ReadPrefix(n, kind, id, prefix)
    ensures ReadPrefix(n, kind, id, prefix).Ok? ==> ReadPrefix(n, kind, id, prefix).value.file.None?
    decreases |fields|
  {
    if fields != [] {
      var front, pre := fields[..|fields| - 1], prefix[..|prefix| - 1];
      PrefixIsStream(n, kind, id, front, pre);
      if ReadPrefix(n, kind, id, pre).Ok? {
        StepsAgree(n, kind, id, ReadPrefix(n, kind, id, pre).value, fields[|fields| - 1], prefix[|prefix| - 1]);
      }
    }
  }

  lemma {:induction false} StreamConcat(n: Normalizer, kind: Kind, id: string, s: State, a: seq<Field>, b: seq<Field>)
    ensures ReadStream(n, kind, id, s, a + b) ==
      var first := ReadStream(n, kind, id, s, a);
      if first.Err? then first else ReadStream(n, kind, id, first.value, b)
    decreases |b|
  {
    if b == [] {
      assert a + b == a;
    } else {
      assert (a + b)[..|a + b| - 1] == a + b[..|b| - 1];
      StreamConcat(n, kind, id, s, a, b[..|b| - 1]);
    }
  }

  /** The outcome, error included, does not depend on how much of the form went into the prefix. */
  lemma SplitDoesNotMatter(n: Normalizer, kind: Kind, id: string, fields: seq<Field>, prefix: seq<PrefixField>, rest: seq<Field>, ending: Ending)
    requires |fields| == |prefix| && forall i :: 0 <= i < |fields| ==> ReadAs(fields[i], prefix[i])
    ensures Replay(n, kind, id, prefix, rest, ending) == Replay(n, kind, id, [], fields + rest, ending)
  {
    PrefixIsStream(n, kind, id, fields, prefix);
    StreamConcat(n, kind, id, Start, fields, rest);
  }

  // ----- Finding the upload ID -----

  predicate IdCharacter(c: char) {
    'a' <= c <= 'z' || 'A' <= c <= 'Z' || '0' <= c <= '9' || c == '-' || c == '_'
  }

  predicate ValidUploadId(id: string) {
    |id| == 43 && forall i :: 0 <= i < |id| ==> IdCharacter(id[i])
  }

  /** The idempotency header: absent, not text, or a text. */
  datatype Header = Absent | NotText | Present(value: string)

  /** The chosen ID and the fields read while looking for it. */
  datatype Selection = Selection(id: string, prefix: seq<PrefixField>)

  /** A text field that can be read within its limit. */
  predicate Readable(f: Field) {
    f.name != File && f.name != Unknown && LimitedText(f.text, Maximum(f.name)).Ok?
  }

  /** The first upload ID of the form is field `k`, it is valid, and nothing before it is in the way. */
  predicate IdAt(fields: seq<Field>, k: int) {
    && 0 <= k < |fields| && k < MAX_FIELDS
    && (forall i :: 0 <= i < k ==> Readable(fields[i]) && fields[i].name != UploadId)
    && Readable(fields[k]) && fields[k].name == UploadId && ValidUploadId(fields[k].text.value)
  }

  /** What is wrong with a field met while looking for the ID. */
  function Obstacle(f: Field): Option<Error> {
    if f.name == File then Some(IdAfterFile)
    else if f.name == Unknown then Some(UnknownField)
    else
      var text := LimitedText(f.text, Maximum(f.name));
      if text.Err? then Some(text.error)
      else if f.name == UploadId && !ValidUploadId(text.value) then Some(IdInvalid)
      else None
  }

  /** The search ends at field `k`: there is none, it is one too many, or it is in the way. */
  predicate FailsAt(fields: seq<Field>, ending: Ending, k: int, error: Error) {
    && 0 <= k <= |fields| && k <= MAX_FIELDS
    && (forall i :: 0 <= i < k ==> Readable(fields[i]) && fields[i].name != UploadId)
    && if k == |fields| then error == (if ending == Broken then IdInvalid else IdMissing)
       else if k == MAX_FIELDS then error == TooManyFields
       else Obstacle(fields[k]) == Some(error)
  }

  /** `s` holds exactly the fields up to and including the ID. */
  predicate Selects(fields: seq<Field>, s: Selection) {
    && 0 < |s.prefix| <= |fields|
    && IdAt(fields, |s.prefix| - 1)
    && (forall i :: 0 <= i < |s.prefix| ==> ReadAs(fields[i], s.prefix[i]))
    && s.prefix[|s.prefix| - 1].value == s.id
  }

  /** An ID in the header wins and reads nothing; otherwise the first one in the form is taken. */
  method TakeUploadId(fields: seq<Field>, ending: Ending, header: Header) returns (r: Result<Selection>)
    ensures header.Absent? ==> (r.Ok? <==> exists k :: IdAt(fields, k))
    ensures header.Absent? && r.Ok? ==> Selects(fields, r.value)
    ensures header.Absent? && r.Err? ==> exists k :: FailsAt(fields, ending, k, r.error)
    ensures !header.Absent? ==> (r.Ok? <==> header.Present? && ValidUploadId(header.value))
    ensures !header.Absent? && r.Ok? ==> r.value == Selection(header.value, [])
    ensures !header.Absent? && r.Err? ==> r.error == IdInvalid
  {
    if header.NotText? {
      return Err(IdInvalid);
    }
    if header.Present? {
      return if ValidUploadId(header.value) then Ok(Selection(header.value, [])) else Err(IdInvalid);
    }
    var prefix: seq<PrefixField> := [];
    for i := 0 to |fields|
      invariant |prefix| == i <= MAX_FIELDS
      invariant forall j :: 0 <= j < i ==> ReadAs(fields[j], prefix[j]) && fields[j].name != UploadId
    {
      if |prefix| >= MAX_FIELDS {
        assert FailsAt(fields, ending, i, TooManyFields);
        return Err(TooManyFields);
      }
      var f := fields[i];
      assert Obstacle(f).Some? ==> FailsAt(fields, ending, i, Obstacle(f).value);
      if f.name == File {
        return Err(IdAfterFile);
      }
      if f.name == Unknown {
        return Err(UnknownField);
      }
      var text := LimitedText(f.text, Maximum(f.name));
      if text.Err? {
        return Err(text.error);
      }
      prefix := prefix + [PrefixField(f.name, text.value)];
      if f.name == UploadId {
        if !ValidUploadId(text.value) {
          return Err(IdInvalid);
        }
        assert IdAt(fields, i);
        return Ok(Selection(text.value, prefix));
      }
    }
    r := Err(if ending == Broken then IdInvalid else IdMissing);
    assert FailsAt(fields, ending, |fields|, r.error);
  }

  /** Whatever prefix the search for the ID consumed, replaying prefix and rest is replaying the form. */
  method SelectAndReplay(n: Normalizer, kind: Kind, fields: seq<Field>, ending: Ending, header: Header, digest: Metadata -> string)
    returns (selected: Result<Selection>, r: Result<string>)
    ensures header.Absent? ==> (selected.Ok? <==> exists k :: IdAt(fields, k))
    ensures !header.Absent? ==> (selected.Ok? <==> header.Present? && ValidUploadId(header.value))
    ensures selected.Ok? ==> r == Digested(Replay(n, kind, selected.value.id, [], fields, ending), digest)
    ensures selected.Err? ==> r == Err(selected.error)
  {
    selected := TakeUploadId(fields, ending, header);
    if selected.Err? {
      return selected, Err(selected.error);
    }
    var s := selected.value;
    r := ReplayFingerprint(n, kind, s.id, s.prefix, fields[|s.prefix|..], ending, digest);
    SplitDoesNotMatter(n, kind, s.id, fields[..|s.prefix|], s.prefix, fields[|s.prefix|..], ending);
    assert fields[..|s.prefix|] + fields[|s.prefix|..] == fields;
  }
}
