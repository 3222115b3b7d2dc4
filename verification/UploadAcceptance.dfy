/**
 Which upload forms a replay accepts, said without any reading order, and how that
 compares with the form policy applied while the upload is first received.
 */
module UploadAcceptance {
  import opened Common
  import opened UploadReplay

  // ----- Acceptance without an order -----

  /** The field's own content is in order. */
  predicate FieldOk(n: Normalizer, kind: Kind, id: string, f: Field) {
    if f.name == Unknown then false
    else if f.name == File then f.file.Some?
    else
      var text := LimitedText(f.text, Maximum(f.name));
      && text.Ok?
      && match f.name
         case UploadId => text.value == id
         case Path =>
           if kind.Admin? then n(text.value).Some? else kind.canUpload && (kind.uploadOnly || n(text.value).Some?)
         case FolderPath => n(text.value).Some?
         case Csrf => ExpectedCsrf(kind).Some? ==> ExpectedCsrf(kind).value == text.value
         case _ => true
  }

  ghost predicate Has(fields: seq<Field>, name: FieldName) {
    exists f :: f in fields && f.name == name
  }

  predicate DistinctNames(fields: seq<Field>) {
    forall i, j :: 0 <= i < j < |fields| ==> fields[i].name != fields[j].name
  }

  /** After the file there is at most the overwrite option, and only in the public form. */
  predicate FileComesLast(kind: Kind, fields: seq<Field>) {
    forall i, j :: 0 <= i < j < |fields| ==> MayFollow(kind, fields[i], fields[j])
  }

  predicate MayFollow(kind: Kind, first: Field, later: Field) {
    first.name == File ==> kind.Public? && later.name == Overwrite
  }

  ghost predicate WellFormed(n: Normalizer, kind: Kind, id: string, fields: seq<Field>) {
    && |fields| <= MAX_FIELDS
    && DistinctNames(fields)
    && FileComesLast(kind, fields)
    && forall f :: f in fields ==> FieldOk(n, kind, id, f)
  }

  ghost predicate Authorized(kind: Kind, fields: seq<Field>) {
    match kind
    case Admin(_) => Has(fields, Csrf)
    case Public(_, _, token, headerValid) => token.None? || headerValid || Has(fields, Csrf)
  }

  ghost predicate Acceptable(n: Normalizer, kind: Kind, id: string, fields: seq<Field>) {
    && WellFormed(n, kind, id, fields)
    && Has(fields, File)
    && Authorized(kind, fields)
    && (kind.Admin? ==> Has(fields, Path))
  }

  // ----- What the reader's variables mean -----

  /** The state holds what field `f` says. */
  predicate Holds(n: Normalizer, kind: Kind, st: State, f: Field) {
    match f.name
    case UploadId => st.idSeen
    case Path => f.text.Utf8? && st.base.Some? && st.base == NormalizeBase(n, kind, f.text.value)
    case FolderPath => f.text.Utf8? && st.folder.Some? && st.folder == n(f.text.value)
    case Overwrite => f.text.Utf8? && st.overwrite == Some(f.text.value == "1")
    case Csrf => st.csrfSeen
    case File => st.file.Some? && st.file == f.file
    case Unknown => false
  }

  /** The state holds what the fields say and nothing else. */
  ghost predicate Describes(n: Normalizer, kind: Kind, st: State, fields: seq<Field>) {
    && st.fields == |fields|
    && (forall f :: f in fields ==> Holds(n, kind, st, f))
    && Accounted(st, fields)
  }

  /** The field may follow the ones before it. */
  ghost predicate Fits(n: Normalizer, kind: Kind, id: string, before: seq<Field>, f: Field) {
    && |before| < MAX_FIELDS
    && !Has(before, f.name)
    && (Has(before, File) ==> kind.Public? && f.name == Overwrite)
    && FieldOk(n, kind, id, f)
  }

  lemma WellFormedAppend(n: Normalizer, kind: Kind, id: string, before: seq<Field>, f: Field)
    ensures WellFormed(n, kind, id, before + [f]) <==> WellFormed(n, kind, id, before) && Fits(n, kind, id, before, f)
  {
    var all := before + [f];
    if WellFormed(n, kind, id, all) {
      forall g | g in before ensures g in all && g.name != f.name && MayFollow(kind, g, f) {
        var i :| 0 <= i < |before| && before[i] == g;
        assert all[i] == g && all[|before|] == f;
      }
      assert forall i :: 0 <= i < |before| ==> all[i] == before[i];
      assert f in all;
    }
  }

  /** One step of the reader: it succeeds exactly on fitting fields and keeps the description. */
  lemma StepReadsField(n: Normalizer, kind: Kind, id: string, st: State, before: seq<Field>, f: Field)
    requires Describes(n, kind, st, before)
    ensures StreamStep(n, kind, id, st, f).Ok? <==> Fits(n, kind, id, before, f)
  {
    assert Has(before, f.name) ==> exists g :: g in before && g.name == f.name && Holds(n, kind, st, g);
    assert Has(before, File) ==> exists g :: g in before && g.name == File && Holds(n, kind, st, g);
  }

  lemma StepKeepsOthers(n: Normalizer, kind: Kind, id: string, st: State, g: Field, f: Field)
    requires StreamStep(n, kind, id, st, f).Ok? && Holds(n, kind, st, g) && g.name != f.name
    ensures Holds(n, kind, StreamStep(n, kind, id, st, f).value, g)
  {
  }

  lemma StepHoldsField(n: Normalizer, kind: Kind, id: string, st: State, f: Field)
    requires StreamStep(n, kind, id, st, f).Ok?
    ensures Holds(n, kind, StreamStep(n, kind, id, st, f).value, f)
  {
  }

  /** Each part of the state that is set comes from a field of that name. */
  ghost predicate Accounted(st: State, fields: seq<Field>) {
    && (st.idSeen ==> Has(fields, UploadId))
    && (st.base.Some? ==> Has(fields, Path))
    && (st.folder.Some? ==> Has(fields, FolderPath))
    && (st.overwrite.Some? ==> Has(fields, Overwrite))
    && (st.csrfSeen ==> Has(fields, Csrf))
    && (st.file.Some? ==> Has(fields, File))
  }

  lemma StepSetsNamed(n: Normalizer, kind: Kind, id: string, st: State, f: Field)
    requires StreamStep(n, kind, id, st, f).Ok?
    ensures
      var next := StreamStep(n, kind, id, st, f).value;
      && (next.idSeen ==> st.idSeen || f.name == UploadId)
      && (next.base.Some? ==> st.base.Some? || f.name == Path)
      && (next.folder.Some? ==> st.folder.Some? || f.name == FolderPath)
      && (next.overwrite.Some? ==> st.overwrite.Some? || f.name == Overwrite)
      && (next.csrfSeen ==> st.csrfSeen || f.name == Csrf)
      && (next.file.Some? ==> st.file.Some? || f.name == File)
  {
  }

  lemma AccountedAppend(st: State, next: State, before: seq<Field>, f: Field)
    requires Accounted(st, before)
    requires next.idSeen ==> st.idSeen || f.name == UploadId
    requires next.base.Some? ==> st.base.Some? || f.name == Path
    requires next.folder.Some? ==> st.folder.Some? || f.name == FolderPath
    requires next.overwrite.Some? ==> st.overwrite.Some? || f.name == Overwrite
    requires next.csrfSeen ==> st.csrfSeen || f.name == Csrf
    requires next.file.Some? ==> st.file.Some? || f.name == File
    ensures Accounted(next, before + [f])
  {
    HasAppend(before, f);
  }

  lemma StepAccounted(n: Normalizer, kind: Kind, id: string, st: State, before: seq<Field>, f: Field)
    requires Accounted(st, before) && StreamStep(n, kind, id, st, f).Ok?
    ensures Accounted(StreamStep(n, kind, id, st, f).value, before + [f])
  {
    StepSetsNamed(n, kind, id, st, f);
    AccountedAppend(st, StreamStep(n, kind, id, st, f).value, before, f);
  }

  lemma StepDescribes(n: Normalizer, kind: Kind, id: string, st: State, before: seq<Field>, f: Field)
    requires Describes(n, kind, st, before) && Fits(n, kind, id, before, f)
    requires StreamStep(n, kind, id, st, f).Ok?
    ensures Describes(n, kind, StreamStep(n, kind, id, st, f).value, before + [f])
  {
    forall g | g in before + [f] ensures Holds(n, kind, StreamStep(n, kind, id, st, f).value, g) {
      if g in before {
        StepKeepsOthers(n, kind, id, st, g, f);
      } else {
        StepHoldsField(n, kind, id, st, f);
      }
    }
    StepAccounted(n, kind, id, st, before, f);
  }

  lemma HasAppend(before: seq<Field>, f: Field)
    ensures Has(before + [f], f.name)
    ensures forall name :: Has(before, name) ==> Has(before + [f], name)
  {
    var all := before + [f];
    assert f in all && forall g :: g in before ==> g in all;
  }

  /** The reader gets through exactly the well-formed field lists. */
  lemma {:induction false} ReaderAcceptsWellFormed(n: Normalizer, kind: Kind, id: string, fields: seq<Field>)
    ensures ReadStream(n, kind, id, Start, fields).Ok? <==> WellFormed(n, kind, id, fields)
    ensures ReadStream(n, kind, id, Start, fields).Ok? ==>
      Describes(n, kind, ReadStream(n, kind, id, Start, fields).value, fields)
    decreases |fields|
  {
    if fields != [] {
      var before, f := fields[..|fields| - 1], fields[|fields| - 1];
      assert fields == before + [f];
      ReaderAcceptsWellFormed(n, kind, id, before);
      WellFormedAppend(n, kind, id, before, f);
      var r := ReadStream(n, kind, id, Start, before);
      if r.Ok? {
        StepReadsField(n, kind, id, r.value, before, f);
        if StreamStep(n, kind, id, r.value, f).Ok? {
          StepDescribes(n, kind, id, r.value, before, f);
        }
      }
    }
  }

  /** A replay succeeds exactly on the acceptable forms. */
  lemma ReplayAcceptsExactly(n: Normalizer, kind: Kind, id: string, fields: seq<Field>)
    ensures Replay(n, kind, id, [], fields).Ok? <==> Acceptable(n, kind, id, fields)
  {
    ReaderAcceptsWellFormed(n, kind, id, fields);
    var r := ReadStream(n, kind, id, Start, fields);
    if r.Ok? {
      FinishNeeds(n, kind, r.value, fields);
    }
  }

  lemma FinishNeeds(n: Normalizer, kind: Kind, st: State, fields: seq<Field>)
    requires Describes(n, kind, st, fields)
    ensures Finish(kind, st).Ok? <==>
      Has(fields, File) && Authorized(kind, fields) && (kind.Admin? ==> Has(fields, Path))
  {
    assert Has(fields, File) ==> exists g :: g in fields && g.name == File && Holds(n, kind, st, g);
    assert Has(fields, Csrf) ==> exists g :: g in fields && g.name == Csrf && Holds(n, kind, st, g);
    assert Has(fields, Path) ==> exists g :: g in fields && g.name == Path && Holds(n, kind, st, g);
  }

  /** The metadata says of each field what the form says, and the default where it is silent. */
  ghost predicate Reports(n: Normalizer, kind: Kind, fields: seq<Field>, m: Metadata) {
    && (forall f :: f in fields && f.name == File ==> f.file == Some(m.file))
    && (forall f :: f in fields && f.name == Overwrite ==> m.overwrite == (f.text.Utf8? && f.text.value == "1"))
    && (!Has(fields, Overwrite) ==> !m.overwrite)
    && match m
       case AdminMetadata(_, directory, _) =>
         && kind.Admin?
         && (forall f :: f in fields && f.name == Path && !Has(fields, FolderPath) ==>
               f.text.Utf8? && n(f.text.value) == Some(directory))
         && (forall f, g :: f in fields && g in fields && f.name == Path && g.name == FolderPath ==>
               && f.text.Utf8? && g.text.Utf8? && n(f.text.value).Some? && n(g.text.value).Some?
               && var base, folder := n(f.text.value).value, n(g.text.value).value;
                  directory == if base == "" || base == "." then folder else base + "/" + folder)
       case PublicMetadata(_, base, folder, _) =>
         && kind.Public?
         && (forall f :: f in fields && f.name == Path ==>
               f.text.Utf8? && kind.canUpload && if kind.uploadOnly then base == "" else n(f.text.value) == Some(base))
         && (!Has(fields, Path) ==> base == "")
         && (forall f :: f in fields && f.name == FolderPath ==> f.text.Utf8? && n(f.text.value) == Some(folder))
         && (!Has(fields, FolderPath) ==> folder == "")
  }

  lemma ReplayReportsForm(n: Normalizer, kind: Kind, id: string, fields: seq<Field>)
    requires Replay(n, kind, id, [], fields).Ok?
    ensures Reports(n, kind, fields, Replay(n, kind, id, [], fields).value)
  {
    ReaderAcceptsWellFormed(n, kind, id, fields);
    FinishReports(n, kind, ReadStream(n, kind, id, Start, fields).value, fields);
  }

  lemma FinishReports(n: Normalizer, kind: Kind, st: State, fields: seq<Field>)
    requires Describes(n, kind, st, fields) && Finish(kind, st).Ok?
    ensures Reports(n, kind, fields, Finish(kind, st).value)
  {
    forall f | f in fields ensures Holds(n, kind, st, f) {}
  }

  // ----- The order before the file does not matter -----

  ghost predicate DistinctIn(m: multiset<Field>) {
    && (forall f :: m[f] <= 1)
    && forall f, g :: f in m && g in m && f.name == g.name ==> f == g
  }

  lemma {:induction false} DistinctIsUnordered(fields: seq<Field>)
    ensures DistinctNames(fields) <==> DistinctIn(multiset(fields))
    decreases |fields|
  {
    if fields != [] {
      var before, f := fields[..|fields| - 1], fields[|fields| - 1];
      assert fields == before + [f];
      DistinctIsUnordered(before);
      assert multiset(fields) == multiset(before) + multiset{f};
      assert DistinctNames(fields) <==> DistinctNames(before) && !Has(before, f.name) by {
        DistinctAppend(before, f);
      }
      DistinctInAppend(before, f);
    }
  }

  lemma DistinctAppend(before: seq<Field>, f: Field)
    ensures DistinctNames(before + [f]) <==> DistinctNames(before) && !Has(before, f.name)
  {
    var all := before + [f];
    assert forall i :: 0 <= i < |before| ==> all[i] == before[i];
    if Has(before, f.name) {
      var i :| 0 <= i < |before| && before[i].name == f.name;
      assert all[i].name == all[|before|].name;
    }
  }

  lemma DistinctInAppend(before: seq<Field>, f: Field)
    ensures DistinctIn(multiset(before) + multiset{f}) <==> DistinctIn(multiset(before)) && !Has(before, f.name)
  {
    var m, all := multiset(before), multiset(before) + multiset{f};
    assert forall g :: g in before <==> g in m;
    assert forall g :: m[g] <= all[g];
    assert all[f] == m[f] + 1;
  }

  /** States that describe the same fields are the same. */
  lemma DescriptionIsUnique(n: Normalizer, kind: Kind, a: State, b: State, fields: seq<Field>, others: seq<Field>)
    requires Describes(n, kind, a, fields) && Describes(n, kind, b, others)
    requires |fields| == |others| && forall f :: f in fields <==> f in others
    ensures a == b
  {
    forall name
      ensures Has(fields, name) <==> Has(others, name)
      ensures Has(fields, name) ==> exists g :: g in fields && g.name == name && Holds(n, kind, a, g) && Holds(n, kind, b, g)
    {
      if Has(fields, name) {
        var g :| g in fields && g.name == name;
        assert Holds(n, kind, a, g) && Holds(n, kind, b, g);
      }
    }
  }

  lemma SameFields(a: seq<Field>, b: seq<Field>, tail: seq<Field>)
    requires multiset(a) == multiset(b)
    ensures |a| == |b|
    ensures multiset(a + tail) == multiset(b + tail)
    ensures forall f :: f in a + tail <==> f in b + tail
  {
    assert |multiset(a)| == |a| && |multiset(b)| == |b|;
    forall f ensures f in a + tail <==> f in b + tail {
      assert f in a <==> f in multiset(a);
      assert f in b <==> f in multiset(b);
    }
  }

  lemma FileOrderUnmoved(kind: Kind, a: seq<Field>, b: seq<Field>, tail: seq<Field>)
    requires |a| == |b| && !Has(a, File) && !Has(b, File)
    requires FileComesLast(kind, a + tail)
    ensures FileComesLast(kind, b + tail)
  {
    var original, reordered := a + tail, b + tail;
    forall i, j | 0 <= i < j < |reordered| ensures MayFollow(kind, reordered[i], reordered[j]) {
      assert i < |b| ==> reordered[i] in b;
      assert i >= |b| ==> original[i] == reordered[i] && original[j] == reordered[j];
    }
  }

  lemma WellFormedIsUnordered(n: Normalizer, kind: Kind, id: string, a: seq<Field>, b: seq<Field>, tail: seq<Field>)
    requires multiset(a) == multiset(b) && !Has(a, File) && !Has(b, File)
    requires WellFormed(n, kind, id, a + tail)
    ensures WellFormed(n, kind, id, b + tail)
  {
    SameFields(a, b, tail);
    DistinctIsUnordered(a + tail);
    DistinctIsUnordered(b + tail);
    FileOrderUnmoved(kind, a, b, tail);
  }

  /** Reordering the fields before the file changes neither acceptance nor the metadata. */
  lemma OrderDoesNotMatter(n: Normalizer, kind: Kind, id: string, a: seq<Field>, b: seq<Field>, tail: seq<Field>)
    requires multiset(a) == multiset(b) && !Has(a, File)
    ensures Replay(n, kind, id, [], a + tail).Ok? <==> Replay(n, kind, id, [], b + tail).Ok?
    ensures Replay(n, kind, id, [], a + tail).Ok? ==>
      Replay(n, kind, id, [], a + tail) == Replay(n, kind, id, [], b + tail)
  {
    assert !Has(b, File) by {
      assert forall f :: f in b ==> f in multiset(b);
      assert forall f :: f in multiset(a) ==> f in a;
    }
    ReaderAcceptsWellFormed(n, kind, id, a + tail);
    ReaderAcceptsWellFormed(n, kind, id, b + tail);
    if WellFormed(n, kind, id, a + tail) || WellFormed(n, kind, id, b + tail) {
      if WellFormed(n, kind, id, a + tail) {
        WellFormedIsUnordered(n, kind, id, a, b, tail);
      } else {
        WellFormedIsUnordered(n, kind, id, b, a, tail);
      }
      SameFields(a, b, tail);
      DescriptionIsUnique(n, kind, ReadStream(n, kind, id, Start, a + tail).value,
                          ReadStream(n, kind, id, Start, b + tail).value, a + tail, b + tail);
    }
  }

  // ----- The policy of the live upload path -----

  datatype FormError =
    | FieldLimit
    | DuplicateOrLatePath
    | DuplicateOrLateFolderPath
    | DuplicateOverwrite
    | DuplicateOrLateCsrf
    | DuplicateOrLateUploadId
    | MultipleFiles
    | UnknownName

  /** The name is acceptable after the names before it. */
  predicate NameFits(before: seq<FieldName>, name: FieldName) {
    && name != Unknown
    && name !in before
    && (File in before ==> name == Overwrite)
  }

  /** A form whose shape the policy accepts. */
  predicate GoodShape(names: seq<FieldName>) {
    forall i :: 0 <= i < |names| ==> NameFits(names[..i], names[i])
  }

  /** What is said of a field that does not fit. */
  function Complaint(name: FieldName): FormError {
    match name
    case UploadId => DuplicateOrLateUploadId
    case Path => DuplicateOrLatePath
    case FolderPath => DuplicateOrLateFolderPath
    case Overwrite => DuplicateOverwrite
    case Csrf => DuplicateOrLateCsrf
    case File => MultipleFiles
    case Unknown => UnknownName
  }

  /** The count of fields saturates, so the largest limit is none. */
  predicate WithinLimit(count: nat, maximumFields: nat) {
    count <= maximumFields || maximumFields == USIZE_MAX
  }

  class UploadFormState {
    var fieldsSeen: nat
    var sawPath: bool
    var sawFolderPath: bool
    var sawOverwrite: bool
    var sawCsrf: bool
    var sawFile: bool
    var sawUploadId: bool
    ghost var seen: seq<FieldName>

    ghost predicate Valid()
      reads this
    {
      fieldsSeen == (if |seen| < USIZE_MAX then |seen| else USIZE_MAX) && Flags(seen)
    }

    /** The flags say which names are among `names`. */
    ghost predicate Flags(names: seq<FieldName>)
      reads this
    {
      && sawPath == (Path in names)
      && sawFolderPath == (FolderPath in names)
      && sawOverwrite == (Overwrite in names)
      && sawCsrf == (Csrf in names)
      && sawFile == (File in names)
      && sawUploadId == (UploadId in names)
    }

    constructor ()
      ensures Valid() && seen == []
    {
      fieldsSeen, sawPath, sawFolderPath, sawOverwrite := 0, false, false, false;
      sawCsrf, sawFile, sawUploadId, seen := false, false, false, [];
    }

    method Observe(field: FieldName, maximumFields: nat) returns (error: Option<FormError>)
      requires Valid() && maximumFields <= USIZE_MAX
      modifies this
      ensures error.None? <==> WithinLimit(|old(seen)| + 1, maximumFields) && NameFits(old(seen), field)
      ensures error == Some(FieldLimit) <==> !WithinLimit(|old(seen)| + 1, maximumFields)
      ensures WithinLimit(|old(seen)| + 1, maximumFields) && !NameFits(old(seen), field) ==> error == Some(Complaint(field))
      ensures error.None? ==> Valid() && seen == old(seen) + [field]
    {
      seen := seen + [field];
      fieldsSeen := if fieldsSeen < USIZE_MAX then fieldsSeen + 1 else USIZE_MAX;
      if fieldsSeen > maximumFields {
        return Some(FieldLimit);
      }
      error := Mark(field, old(seen));
    }

    /** Sets the flag of a name, and complains if it does not fit what came before. */
    method Mark(field: FieldName, ghost before: seq<FieldName>) returns (error: Option<FormError>)
      requires Flags(before)
      modifies this`sawPath, this`sawFolderPath, this`sawOverwrite, this`sawCsrf, this`sawFile, this`sawUploadId
      ensures error == if NameFits(before, field) then None else Some(Complaint(field))
      ensures error.None? ==> Flags(before + [field])
    {
      match field {
        case UploadId =>
          var repeated := sawUploadId;
          sawUploadId := true;
          error := if repeated || sawFile then Some(DuplicateOrLateUploadId) else None;
        case Path =>
          var repeated := sawPath;
          sawPath := true;
          error := if repeated || sawFile then Some(DuplicateOrLatePath) else None;
        case FolderPath =>
          var repeated := sawFolderPath;
          sawFolderPath := true;
          error := if repeated || sawFile then Some(DuplicateOrLateFolderPath) else None;
        case Overwrite =>
          var repeated := sawOverwrite;
          sawOverwrite := true;
          error := if repeated then Some(DuplicateOverwrite) else None;
        case Csrf =>
          var repeated := sawCsrf;
          sawCsrf := true;
          error := if repeated || sawFile then Some(DuplicateOrLateCsrf) else None;
        case File =>
          var repeated := sawFile;
          sawFile := true;
          error := if repeated then Some(MultipleFiles) else None;
        case Unknown =>
          error := Some(UnknownName);
      }
    }

    method SawFile() returns (saw: bool)
      requires Valid()
      ensures saw <==> File in seen
    {
      return sawFile;
    }
  }

  function Names(fields: seq<Field>): seq<FieldName> {
    seq(|fields|, i requires 0 <= i < |fields| => fields[i].name)
  }

  /** Feeding every name to the policy succeeds exactly on a good shape within the limit. */
  method ObserveAll(names: seq<FieldName>, maximumFields: nat) returns (accepted: bool)
    requires maximumFields <= USIZE_MAX
    ensures accepted <==> WithinLimit(|names|, maximumFields) && GoodShape(names) && File in names
  {
    var form := new UploadFormState();
    for i := 0 to |names|
      invariant form.Valid() && fresh(form) && form.seen == names[..i]
      invariant WithinLimit(i, maximumFields) && forall j :: 0 <= j < i ==> NameFits(names[..j], names[j])
    {
      var error := form.Observe(names[i], maximumFields);
      if error.Some? {
        return false;
      }
    }
    assert names[..|names|] == names;
    accepted := form.SawFile();
  }

  lemma NamesHas(fields: seq<Field>, name: FieldName)
    ensures name in Names(fields) <==> Has(fields, name)
  {
    if Has(fields, name) {
      var i :| 0 <= i < |fields| && fields[i].name == name;
      assert Names(fields)[i] == name;
    }
    if name in Names(fields) {
      var i :| 0 <= i < |fields| && Names(fields)[i] == name;
      assert fields[i] in fields;
    }
  }

  lemma NamesAppend(before: seq<Field>, f: Field)
    ensures Names(before + [f]) == Names(before) + [f.name]
  {
  }

  lemma GoodShapeAppend(before: seq<FieldName>, name: FieldName)
    ensures GoodShape(before + [name]) <==> GoodShape(before) && NameFits(before, name)
  {
    var all := before + [name];
    assert forall i :: 0 <= i < |before| ==> all[..i] == before[..i] && all[i] == before[i];
    assert all[..|before|] == before;
  }

  predicate FileIsLast(fields: seq<Field>) {
    forall i :: 0 <= i < |fields| - 1 ==> fields[i].name != File
  }

  lemma FileIsLastAppend(before: seq<Field>, f: Field)
    ensures FileIsLast(before + [f]) <==> !Has(before, File)
    ensures !Has(before, File) ==> FileIsLast(before)
  {
    var all := before + [f];
    assert forall i :: 0 <= i < |before| ==> all[i] == before[i] && before[i] in before;
    if Has(before, File) {
      var i :| 0 <= i < |before| && before[i].name == File;
      assert all[i].name == File;
    }
  }

  /** Of what a replay checks, the shape is the policy's; the administrator's form also ends with the file. */
  lemma {:induction false} WellFormedIsShape(n: Normalizer, kind: Kind, id: string, fields: seq<Field>)
    ensures WellFormed(n, kind, id, fields) <==>
      && |fields| <= MAX_FIELDS && GoodShape(Names(fields))
      && (kind.Admin? ==> FileIsLast(fields))
      && forall f :: f in fields ==> FieldOk(n, kind, id, f)
    decreases |fields|
  {
    if fields != [] {
      var before, f := fields[..|fields| - 1], fields[|fields| - 1];
      assert fields == before + [f];
      WellFormedIsShape(n, kind, id, before);
      WellFormedAppend(n, kind, id, before, f);
      NamesAppend(before, f);
      GoodShapeAppend(Names(before), f.name);
      NamesHas(before, f.name);
      NamesHas(before, File);
      FileIsLastAppend(before, f);
    }
  }

  /** A replay accepts what the policy accepts, contents and authorization permitting. */
  lemma ReplayFollowsPolicy(n: Normalizer, kind: Kind, id: string, fields: seq<Field>)
    ensures Replay(n, kind, id, [], fields).Ok? <==>
      && |fields| <= MAX_FIELDS && GoodShape(Names(fields)) && File in Names(fields)
      && (forall f :: f in fields ==> FieldOk(n, kind, id, f))
      && Authorized(kind, fields)
      && (kind.Admin? ==> FileIsLast(fields) && Has(fields, Path))
  {
    ReplayAcceptsExactly(n, kind, id, fields);
    WellFormedIsShape(n, kind, id, fields);
    NamesHas(fields, File);
  }
}
