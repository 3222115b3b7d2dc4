/**
 Why a replayed upload form is refused, said of its fields alone.

 The blame for each error is a condition on one field and the fields before it, or on the
 whole form.  A replay is proved to report an error exactly where it is to blame.
 */
module UploadRefusal {
  import opened Common
  import opened UploadReplay
  import opened UploadAcceptance

  /** How many bytes a text field may have. */
  function Limit(name: FieldName): nat {
    match name
    case UploadId => 64
    case Path => 4096
    case FolderPath => 4096
    case Overwrite => 16
    case Csrf => 512
    case _ => 0
  }

  predicate IsText(name: FieldName) { name != File && name != Unknown }

  /** A known field that is new, not one too many, and not after the file. */
  ghost predicate InPlace(kind: Kind, before: seq<Field>, f: Field) {
    && |before| < 6 && f.name != Unknown && !Has(before, f.name)
    && (Has(before, File) ==> kind.Public? && f.name == Overwrite)
  }

  /** A text field in place that reads as `value`. */
  ghost predicate Says(kind: Kind, before: seq<Field>, f: Field, name: FieldName) {
    && InPlace(kind, before, f) && f.name == name
    && f.text.Utf8? && f.text.size <= Limit(name)
  }

  /** What path an upload of this kind may be sent to. */
  predicate GoodBase(n: Normalizer, kind: Kind, raw: string) {
    match kind
    case Admin(_) => n(raw).Some?
    case Public(uploadOnly, canUpload, _, _) => canUpload && (uploadOnly || n(raw).Some?)
  }

  predicate GoodToken(kind: Kind, value: string) {
    match kind
    case Admin(csrf) => value == csrf
    case Public(_, _, token, _) => token.Some? ==> value == token.value
  }

  /** The field `f`, after the fields `before`, is what the error complains of. */
  ghost predicate Blamed(n: Normalizer, kind: Kind, id: string, before: seq<Field>, f: Field, error: Error) {
    match error
    case TooManyFields => |before| >= 6
    case InvalidOrDuplicate =>
      |before| < 6 && (f.name == Unknown || Has(before, f.name) || (Has(before, File) && f.name != Overwrite))
    case OptionTooLate =>
      |before| < 6 && f.name == Overwrite && !Has(before, Overwrite) && kind.Admin? && Has(before, File)
    case FieldTooLarge =>
      InPlace(kind, before, f) && IsText(f.name) && !f.text.Unreadable? && f.text.size > Limit(f.name)
    case InvalidField =>
      && InPlace(kind, before, f) && IsText(f.name)
      && (f.text.Unreadable? || (f.text.NotUtf8? && f.text.size <= Limit(f.name)))
    case IdsDisagree => Says(kind, before, f, UploadId) && f.text.value != id
    case InvalidPath => Says(kind, before, f, Path) && !GoodBase(n, kind, f.text.value)
    case InvalidFolder => Says(kind, before, f, FolderPath) && n(f.text.value).None?
    case InvalidCsrf => Says(kind, before, f, Csrf) && !GoodToken(kind, f.text.value)
    case InvalidFile => InPlace(kind, before, f) && f.name == File && f.file.None?
    case _ => false
  }

  /** What is missing from a form whose fields are in order. */
  ghost predicate Lacking(kind: Kind, fields: seq<Field>, error: Error) {
    match error
    case FileMissing => !Has(fields, File)
    case CsrfMissing => Has(fields, File) && !Authorized(kind, fields)
    case PathMissing => Has(fields, File) && Authorized(kind, fields) && kind.Admin? && !Has(fields, Path)
    case _ => false
  }

  /** What the reader's variables tell about the fields before. */
  lemma KnowsBefore(n: Normalizer, kind: Kind, st: State, before: seq<Field>)
    requires Describes(n, kind, st, before)
    ensures st.idSeen <==> Has(before, UploadId)
    ensures st.base.Some? <==> Has(before, Path)
    ensures st.folder.Some? <==> Has(before, FolderPath)
    ensures st.overwrite.Some? <==> Has(before, Overwrite)
    ensures st.csrfSeen <==> Has(before, Csrf)
    ensures st.file.Some? <==> Has(before, File)
    ensures !Has(before, Unknown)
  {
    forall g | g in before ensures Holds(n, kind, st, g) {}
  }

  lemma PathBlames(n: Normalizer, kind: Kind, id: string, st: State, before: seq<Field>, f: Field, error: Error)
    requires Describes(n, kind, st, before) && f.name == Path
    ensures StreamStep(n, kind, id, st, f) == Err(error) <==> Blamed(n, kind, id, before, f, error)
  {
    KnowsBefore(n, kind, st, before);
  }

  lemma FolderBlames(n: Normalizer, kind: Kind, id: string, st: State, before: seq<Field>, f: Field, error: Error)
    requires Describes(n, kind, st, before) && f.name == FolderPath
    ensures StreamStep(n, kind, id, st, f) == Err(error) <==> Blamed(n, kind, id, before, f, error)
  {
    KnowsBefore(n, kind, st, before);
  }

  lemma IdBlames(n: Normalizer, kind: Kind, id: string, st: State, before: seq<Field>, f: Field, error: Error)
    requires Describes(n, kind, st, before) && f.name == UploadId
    ensures StreamStep(n, kind, id, st, f) == Err(error) <==> Blamed(n, kind, id, before, f, error)
  {
    KnowsBefore(n, kind, st, before);
  }

  lemma OptionBlames(n: Normalizer, kind: Kind, id: string, st: State, before: seq<Field>, f: Field, error: Error)
    requires Describes(n, kind, st, before) && f.name == Overwrite
    ensures StreamStep(n, kind, id, st, f) == Err(error) <==> Blamed(n, kind, id, before, f, error)
  {
    KnowsBefore(n, kind, st, before);
  }

  lemma TokenBlames(n: Normalizer, kind: Kind, id: string, st: State, before: seq<Field>, f: Field, error: Error)
    requires Describes(n, kind, st, before) && f.name == Csrf
    ensures StreamStep(n, kind, id, st, f) == Err(error) <==> Blamed(n, kind, id, before, f, error)
  {
    KnowsBefore(n, kind, st, before);
  }

  lemma OtherBlames(n: Normalizer, kind: Kind, id: string, st: State, before: seq<Field>, f: Field, error: Error)
    requires Describes(n, kind, st, before) && (f.name == File || f.name == Unknown)
    ensures StreamStep(n, kind, id, st, f) == Err(error) <==> Blamed(n, kind, id, before, f, error)
  {
    KnowsBefore(n, kind, st, before);
  }

  /** One field is refused with the error it is to blame for, and no other. */
  lemma StepBlames(n: Normalizer, kind: Kind, id: string, st: State, before: seq<Field>, f: Field, error: Error)
    requires Describes(n, kind, st, before)
    ensures StreamStep(n, kind, id, st, f) == Err(error) <==> Blamed(n, kind, id, before, f, error)
  {
    match f.name
    case Path => PathBlames(n, kind, id, st, before, f, error);
    case FolderPath => FolderBlames(n, kind, id, st, before, f, error);
    case UploadId => IdBlames(n, kind, id, st, before, f, error);
    case Overwrite => OptionBlames(n, kind, id, st, before, f, error);
    case Csrf => TokenBlames(n, kind, id, st, before, f, error);
    case _ => OtherBlames(n, kind, id, st, before, f, error);
  }

  lemma FinishBlames(n: Normalizer, kind: Kind, st: State, fields: seq<Field>, error: Error)
    requires Describes(n, kind, st, fields)
    ensures Finish(kind, st) == Err(error) <==> Lacking(kind, fields, error)
  {
    KnowsBefore(n, kind, st, fields);
  }

  /** Field `k` is to blame, and those before it are in order. */
  ghost predicate BlamedAt(n: Normalizer, kind: Kind, id: string, fields: seq<Field>, k: nat, error: Error)
    requires k < |fields|
  {
    WellFormed(n, kind, id, fields[..k]) && Blamed(n, kind, id, fields[..k], fields[k], error)
  }

  /** Reading one field more is one step more. */
  lemma ReadOneMore(n: Normalizer, kind: Kind, id: string, before: seq<Field>, f: Field)
    requires ReadStream(n, kind, id, Start, before).Ok?
    ensures ReadStream(n, kind, id, Start, before + [f])
         == StreamStep(n, kind, id, ReadStream(n, kind, id, Start, before).value, f)
  {
    var all := before + [f];
    assert all[..|all| - 1] == before;
  }

  lemma BlameOne(n: Normalizer, kind: Kind, id: string, fields: seq<Field>, k: nat, error: Error)
    requires k < |fields| && BlamedAt(n, kind, id, fields, k, error)
    ensures ReadStream(n, kind, id, Start, fields) == Err(error)
  {
    var before := fields[..k];
    ReaderAcceptsWellFormed(n, kind, id, before);
    StepBlames(n, kind, id, ReadStream(n, kind, id, Start, before).value, before, fields[k], error);
    ReadOneMore(n, kind, id, before, fields[k]);
    assert before + [fields[k]] == fields[..k + 1];
    StreamErrorIsFinal(n, kind, id, Start, fields, k + 1);
  }

  lemma {:induction false} ReaderBlames(n: Normalizer, kind: Kind, id: string, fields: seq<Field>) returns (k: nat)
    requires ReadStream(n, kind, id, Start, fields).Err?
    ensures k < |fields| && BlamedAt(n, kind, id, fields, k, ReadStream(n, kind, id, Start, fields).error)
    decreases |fields|
  {
    var before := fields[..|fields| - 1];
    var r := ReadStream(n, kind, id, Start, before);
    if r.Err? {
      k := ReaderBlames(n, kind, id, before);
      assert before[..k] == fields[..k];
    } else {
      k := |fields| - 1;
      ReaderAcceptsWellFormed(n, kind, id, before);
      StepBlames(n, kind, id, r.value, before, fields[k], ReadStream(n, kind, id, Start, fields).error);
    }
  }

  /**
   A replay reports an error exactly if the first field that is not in order is to blame for
   it, or every field is in order and the stream breaks off, or the form lacks something.
   */
  lemma RefusedExactly(n: Normalizer, kind: Kind, id: string, fields: seq<Field>, ending: Ending, error: Error)
    ensures Replay(n, kind, id, [], fields, ending) == Err(error) <==>
      || (exists k :: 0 <= k < |fields| && BlamedAt(n, kind, id, fields, k, error))
      || (WellFormed(n, kind, id, fields) && if ending == Broken then error == BrokenStream else Lacking(kind, fields, error))
  {
    ReaderAcceptsWellFormed(n, kind, id, fields);
    var r := ReadStream(n, kind, id, Start, fields);
    if r.Err? {
      var k := ReaderBlames(n, kind, id, fields);
    } else {
      FinishBlames(n, kind, r.value, fields, error);
    }
    forall k | 0 <= k < |fields| && BlamedAt(n, kind, id, fields, k, error) ensures r == Err(error) {
      BlameOne(n, kind, id, fields, k, error);
    }
  }
}
