/**
 Resolution of operator-provided TLS paths, one component at a time.

 The resolver keeps a stack of validated directories and a worklist of steps; a
 symbolic link puts its target in front of the worklist.  It is proved equal to the
 recursive definition of path resolution, in which a link is resolved as a path of
 its own before the rest of the outer path continues.
 */
module TlsPaths {
  import opened Common

  type Node = nat

  const MAX_CERTIFICATE_CHAIN_BYTES: int := 1024 * 1024
  const MAX_PRIVATE_KEY_BYTES: int := 128 * 1024
  const MAX_SYMLINKS: nat := 40
  const MAX_PATH_COMPONENTS: nat := 256

  datatype Purpose = CertificateChain | PrivateKey

  datatype Component = RootDir | CurDir | ParentDir | Normal(name: string) | Prefix

  datatype PathStep = Root | Parent | Name(name: string)

  datatype Kind = Directory | Symlink(target: seq<Component>, magic: bool) | RegularFile | Special

  /** What `fstat` reports; `mode` holds the permission bits. */
  datatype Stat = Stat(kind: Kind, owner: nat, mode: bv16, links: nat, size: int, stamp: nat)

  /** An open file: which one it is, and what its metadata says. */
  datatype OpenFile = OpenFile(node: Node, stat: Stat)

  /** A filesystem that does not change while a path is resolved. */
  datatype FileSystem = FileSystem(root: Node, entry: (Node, string) -> Option<Node>, stat: Node -> Stat)

  datatype Error =
    | UnsupportedPrefix
    | UnsafeDirectory
    | UntrustedOwner
    | EntryUnavailable
    | TooManyComponents
    | TooManySymlinks
    | MagicLink
    | NonDirectoryComponent
    | NotRegular
    | NoRegularFile
    | UnacceptableFile
    | ChangedWhileOpening

  datatype Result<+T> = Ok(value: T) | Err(error: Error)

  // ----- Metadata checks -----

  predicate OwnerTrusted(owner: nat, uid: nat) { owner == 0 || owner == uid }

  /** Root-owned sticky directories may be writable by others; no other directory may. */
  predicate DirectoryAcceptable(stat: Stat, uid: nat) {
    && stat.kind == Directory
    && OwnerTrusted(stat.owner, uid)
    && ((stat.mode & 0x12) == 0 || (stat.owner == 0 && (stat.mode & 0x200) != 0))
  }

  predicate ModeAcceptable(mode: bv16, purpose: Purpose) {
    match purpose
    case PrivateKey => mode == 0x100 || mode == 0x120 || mode == 0x180 || mode == 0x1A0
    case CertificateChain => (mode & 0xE12) == 0 && (mode & 0x49) == 0 && (mode & 0x124) != 0
  }

  function MaximumSize(purpose: Purpose): int {
    match purpose
    case CertificateChain => MAX_CERTIFICATE_CHAIN_BYTES
    case PrivateKey => MAX_PRIVATE_KEY_BYTES
  }

  predicate FileAcceptable(stat: Stat, purpose: Purpose, uid: nat) {
    && stat.kind == RegularFile
    && OwnerTrusted(stat.owner, uid)
    && ModeAcceptable(stat.mode, purpose)
    && (purpose == PrivateKey ==> stat.links == 1)
    && 0 < stat.size <= MaximumSize(purpose)
  }

  // ----- Paths as steps -----

  function PathSteps(path: seq<Component>): Result<seq<PathStep>> {
    if path == [] then Ok([])
    else
      match path[0]
      case Prefix => Err(UnsupportedPrefix)
      case CurDir => PathSteps(path[1..])
      case RootDir => Cons(Root, PathSteps(path[1..]))
      case ParentDir => Cons(Parent, PathSteps(path[1..]))
      case Normal(name) => Cons(Name(name), PathSteps(path[1..]))
  }

  function Cons(step: PathStep, rest: Result<seq<PathStep>>): Result<seq<PathStep>> {
    if rest.Err? then rest else Ok([step] + rest.value)
  }

  // ----- Recursive path resolution -----

  /** How many more names may be looked up and how many more links followed. */
  datatype Budget = Budget(names: nat, links: nat)

  /** A name in a directory and what it leads to. */
  datatype Entry = Entry(name: string, node: Node)

  /** A resolved path: the stack of open directories, and the file in the last one if the path names one. */
  datatype Place = Place(stack: seq<Node>, file: Option<Entry>)

  datatype Arrival = Arrival(place: Place, left: Budget)

  function Ascend(stack: seq<Node>): seq<Node> {
    if |stack| > 1 then stack[..|stack| - 1] else stack
  }

  /** What the next name of a path turns out to be, before links are followed. */
  datatype Sight = Link(target: seq<PathStep>) | Folder(node: Node) | File(node: Node)

  function Look(fs: FileSystem, uid: nat, directory: Node, name: string, budget: Budget): Result<Sight> {
    if budget.names == 0 then Err(TooManyComponents)
    else
      var entry := fs.entry(directory, name);
      if entry.None? then Err(EntryUnavailable)
      else
        var stat := fs.stat(entry.value);
        if !OwnerTrusted(stat.owner, uid) then Err(UntrustedOwner)
        else
          match stat.kind
          case Symlink(target, magic) =>
            if budget.links == 0 then Err(TooManySymlinks)
            else if magic then Err(MagicLink)
            else
              var steps := PathSteps(target);
              if steps.Err? then Err(steps.error) else Ok(Link(steps.value))
          case Directory => if DirectoryAcceptable(stat, uid) then Ok(Folder(entry.value)) else Err(UnsafeDirectory)
          case RegularFile => Ok(File(entry.value))
          case Special => Err(NotRegular)
  }

  /** Resolves a path from a directory; a link on the way is resolved as a path of its own. */
  function Walk(fs: FileSystem, uid: nat, stack: seq<Node>, path: seq<PathStep>, budget: Budget): (r: Result<Arrival>)
    requires stack != []
    ensures r.Ok? ==> r.value.place.stack != [] && r.value.left.names <= budget.names
    decreases budget.names, |path|
  {
    if path == [] then Ok(Arrival(Place(stack, None), budget))
    else
      match path[0]
      case Root => Walk(fs, uid, stack[..1], path[1..], budget)
      case Parent => Walk(fs, uid, Ascend(stack), path[1..], budget)
      case Name(name) =>
        var seen := Look(fs, uid, stack[|stack| - 1], name, budget);
        if seen.Err? then Err(seen.error)
        else
          match seen.value
          case Link(target) =>
            var inner := Walk(fs, uid, stack, target, Budget(budget.names - 1, budget.links - 1));
            if inner.Err? then inner
            else if inner.value.place.file.None? then
              Walk(fs, uid, inner.value.place.stack, path[1..], inner.value.left)
            else if path[1..] == [] then inner
            else Err(NonDirectoryComponent)
          case Folder(node) => Walk(fs, uid, stack + [node], path[1..], Budget(budget.names - 1, budget.links))
          case File(node) =>
            if path[1..] == [] then Ok(Arrival(Place(stack, Some(Entry(name, node))), Budget(budget.names - 1, budget.links)))
            else Err(NonDirectoryComponent)
  }

  // ----- The worklist -----

  /** The same resolution with link targets put in front of the pending steps. */
  function Work(fs: FileSystem, uid: nat, stack: seq<Node>, pending: seq<PathStep>, budget: Budget): (r: Result<Arrival>)
    requires stack != []
    decreases budget.names, |pending|
  {
    if pending == [] then Ok(Arrival(Place(stack, None), budget))
    else
      match pending[0]
      case Root => Work(fs, uid, stack[..1], pending[1..], budget)
      case Parent => Work(fs, uid, Ascend(stack), pending[1..], budget)
      case Name(name) =>
        var seen := Look(fs, uid, stack[|stack| - 1], name, budget);
        if seen.Err? then Err(seen.error)
        else
          match seen.value
          case Link(target) => Work(fs, uid, stack, target + pending[1..], Budget(budget.names - 1, budget.links - 1))
          case Folder(node) => Work(fs, uid, stack + [node], pending[1..], Budget(budget.names - 1, budget.links))
          case File(node) =>
            if pending[1..] == [] then Ok(Arrival(Place(stack, Some(Entry(name, node))), Budget(budget.names - 1, budget.links)))
            else Err(NonDirectoryComponent)
  }

  /** Continues a resolved path with more pending steps. */
  function Continue(fs: FileSystem, uid: nat, r: Result<Arrival>, rest: seq<PathStep>): Result<Arrival>
    requires r.Ok? ==> r.value.place.stack != []
  {
    if r.Err? then r
    else if r.value.place.file.None? then Work(fs, uid, r.value.place.stack, rest, r.value.left)
    else if rest == [] then r
    else Err(NonDirectoryComponent)
  }

  /** Working off `path` and then `rest` is resolving `path` first and continuing with `rest`. */
  lemma {:induction false} WorkSplits(fs: FileSystem, uid: nat, stack: seq<Node>, path: seq<PathStep>, rest: seq<PathStep>, budget: Budget)
    requires stack != []
    ensures Work(fs, uid, stack, path + rest, budget) == Continue(fs, uid, Walk(fs, uid, stack, path, budget), rest)
    decreases budget.names, |path|
  {
    if path == [] {
      assert path + rest == rest;
      return;
    }
    var tail := path[1..];
    assert (path + rest)[1..] == tail + rest;
    match path[0]
    case Root => WorkSplits(fs, uid, stack[..1], tail, rest, budget);
    case Parent => WorkSplits(fs, uid, Ascend(stack), tail, rest, budget);
    case Name(name) =>
      var seen := Look(fs, uid, stack[|stack| - 1], name, budget);
      if seen.Err? {
        return;
      }
      match seen.value
      case Link(target) =>
        var less := Budget(budget.names - 1, budget.links - 1);
        WorkSplits(fs, uid, stack, target, tail + rest, less);
        var inner := Walk(fs, uid, stack, target, less);
        if inner.Ok? && inner.value.place.file.None? {
          WorkSplits(fs, uid, inner.value.place.stack, tail, rest, inner.value.left);
        }
      case Folder(node) =>
        WorkSplits(fs, uid, stack + [node], tail, rest, Budget(budget.names - 1, budget.links));
      case File(node) =>
  }

  /** The worklist resolver is recursive path resolution. */
  lemma WorklistIsRecursion(fs: FileSystem, uid: nat, stack: seq<Node>, path: seq<PathStep>, budget: Budget)
    requires stack != []
    ensures Work(fs, uid, stack, path, budget) == Walk(fs, uid, stack, path, budget)
  {
    WorkSplits(fs, uid, stack, path, [], budget);
    assert path + [] == path;
    var r := Walk(fs, uid, stack, path, budget);
    if r.Ok? && r.value.place.file.None? {
      assert Work(fs, uid, r.value.place.stack, [], r.value.left) == Ok(Arrival(Place(r.value.place.stack, None), r.value.left));
    }
  }

  // ----- What resolution guarantees -----

  /** `child` is an entry of `directory`. */
  ghost predicate EntryOf(fs: FileSystem, directory: Node, child: Node) {
    exists name :: fs.entry(directory, name) == Some(child)
  }

  /** A chain of acceptable directories from the root down. */
  ghost predicate ValidatedStack(fs: FileSystem, uid: nat, stack: seq<Node>) {
    && stack != [] && stack[0] == fs.root
    && (forall i :: 0 <= i < |stack| ==> DirectoryAcceptable(fs.stat(stack[i]), uid))
    && (forall i :: 0 < i < |stack| ==> EntryOf(fs, stack[i - 1], stack[i]))
  }

  ghost predicate ValidatedPlace(fs: FileSystem, uid: nat, place: Place) {
    && ValidatedStack(fs, uid, place.stack)
    && (place.file.Some? ==>
          && fs.entry(place.stack[|place.stack| - 1], place.file.value.name) == Some(place.file.value.node)
          && fs.stat(place.file.value.node).kind == RegularFile
          && OwnerTrusted(fs.stat(place.file.value.node).owner, uid))
  }

  lemma LookIsEntry(fs: FileSystem, uid: nat, directory: Node, name: string, budget: Budget)
    requires Look(fs, uid, directory, name, budget).Ok?
    ensures
      var seen := Look(fs, uid, directory, name, budget).value;
      && budget.names > 0 && (seen.Link? ==> budget.links > 0)
      && (seen.Folder? ==> EntryOf(fs, directory, seen.node) && DirectoryAcceptable(fs.stat(seen.node), uid))
      && (seen.File? ==>
            && fs.entry(directory, name) == Some(seen.node)
            && fs.stat(seen.node).kind == RegularFile
            && OwnerTrusted(fs.stat(seen.node).owner, uid))
  {
    var entry := fs.entry(directory, name);
    assert EntryOf(fs, directory, entry.value);
  }

  /** Every directory on the way, through links and `..` alike, was validated. */
  lemma {:induction false} WalkIsValidated(fs: FileSystem, uid: nat, stack: seq<Node>, path: seq<PathStep>, budget: Budget)
    requires ValidatedStack(fs, uid, stack)
    ensures var r := Walk(fs, uid, stack, path, budget); r.Ok? ==> ValidatedPlace(fs, uid, r.value.place)
    decreases budget.names, |path|
  {
    if path == [] {
      return;
    }
    var tail := path[1..];
    match path[0]
    case Root => WalkIsValidated(fs, uid, stack[..1], tail, budget);
    case Parent => WalkIsValidated(fs, uid, Ascend(stack), tail, budget);
    case Name(name) =>
      var seen := Look(fs, uid, stack[|stack| - 1], name, budget);
      if seen.Err? {
        return;
      }
      LookIsEntry(fs, uid, stack[|stack| - 1], name, budget);
      match seen.value
      case Link(target) =>
        var less := Budget(budget.names - 1, budget.links - 1);
        WalkIsValidated(fs, uid, stack, target, less);
        var inner := Walk(fs, uid, stack, target, less);
        if inner.Ok? && inner.value.place.file.None? {
          WalkIsValidated(fs, uid, inner.value.place.stack, tail, inner.value.left);
        }
      case Folder(node) =>
        PushValidated(fs, uid, stack, node);
        WalkIsValidated(fs, uid, stack + [node], tail, Budget(budget.names - 1, budget.links));
      case File(node) =>
  }

  lemma PushValidated(fs: FileSystem, uid: nat, stack: seq<Node>, node: Node)
    requires ValidatedStack(fs, uid, stack)
    requires EntryOf(fs, stack[|stack| - 1], node) && DirectoryAcceptable(fs.stat(node), uid)
    ensures ValidatedStack(fs, uid, stack + [node])
  {
  }

  function Add(a: Budget, b: Budget): Budget { Budget(a.names + b.names, a.links + b.links) }

  /** The limits only cut resolution short: a path that resolves does so alike under any larger budget. */
  lemma {:induction false} LargerBudgetSamePlace(fs: FileSystem, uid: nat, stack: seq<Node>, path: seq<PathStep>, budget: Budget, more: Budget)
    requires stack != [] && Walk(fs, uid, stack, path, budget).Ok?
    ensures
      var r := Walk(fs, uid, stack, path, budget).value;
      Walk(fs, uid, stack, path, Add(budget, more)) == Ok(Arrival(r.place, Add(r.left, more)))
    decreases budget.names, |path|
  {
    if path == [] {
      return;
    }
    var tail := path[1..];
    match path[0]
    case Root => LargerBudgetSamePlace(fs, uid, stack[..1], tail, budget, more);
    case Parent => LargerBudgetSamePlace(fs, uid, Ascend(stack), tail, budget, more);
    case Name(name) =>
      var seen := Look(fs, uid, stack[|stack| - 1], name, budget);
      assert Look(fs, uid, stack[|stack| - 1], name, Add(budget, more)) == seen;
      match seen.value
      case Link(target) =>
        var less := Budget(budget.names - 1, budget.links - 1);
        LargerBudgetSamePlace(fs, uid, stack, target, less, more);
        var inner := Walk(fs, uid, stack, target, less).value;
        if inner.place.file.None? {
          LargerBudgetSamePlace(fs, uid, inner.place.stack, tail, inner.left, more);
        }
      case Folder(node) =>
        LargerBudgetSamePlace(fs, uid, stack + [node], tail, Budget(budget.names - 1, budget.links), more);
      case File(node) =>
  }

  // ----- The resolver loop -----

  /** Opening the file a second time, for reading: it must be the inspected one, unchanged. */
  function Reopened(inspected: OpenFile, again: Option<OpenFile>, purpose: Purpose, uid: nat): Result<OpenFile> {
    if !FileAcceptable(inspected.stat, purpose, uid) then Err(UnacceptableFile)
    else if again.None? then Err(EntryUnavailable)
    else if !FileAcceptable(again.value.stat, purpose, uid) then Err(UnacceptableFile)
    else if again.value != inspected then Err(ChangedWhileOpening)
    else Ok(again.value)
  }

  /**
   What opening a TLS file by an absolute path yields; `again` is what a name in a directory
   leads to by the time the file is opened for reading, which may be anything.
   */
  function Opened(fs: FileSystem, uid: nat, purpose: Purpose, path: seq<Component>, again: (Node, string) -> Option<OpenFile>): Result<OpenFile> {
    if !DirectoryAcceptable(fs.stat(fs.root), uid) then Err(UnsafeDirectory)
    else
      var steps := PathSteps(path);
      if steps.Err? then Err(steps.error)
      else
        var r := Walk(fs, uid, [fs.root], steps.value, Budget(MAX_PATH_COMPONENTS, MAX_SYMLINKS));
        if r.Err? then Err(r.error)
        else if r.value.place.file.None? then Err(NoRegularFile)
        else
          var directory, entry := r.value.place.stack[|r.value.place.stack| - 1], r.value.place.file.value;
          Reopened(OpenFile(entry.node, fs.stat(entry.node)), again(directory, entry.name), purpose, uid)
  }

  method ConvertPath(path: seq<Component>) returns (r: Result<seq<PathStep>>)
    ensures r == PathSteps(path)
  {
    var steps: seq<PathStep> := [];
    assert path[0..] == path && (PathSteps(path).Ok? ==> [] + PathSteps(path).value == PathSteps(path).value);
    for i := 0 to |path|
      invariant PathSteps(path) == After(steps, PathSteps(path[i..]))
    {
      assert path[i..][1..] == path[i + 1..];
      match path[i] {
        case Prefix => return Err(UnsupportedPrefix);
        case CurDir =>
        case RootDir => steps := Appended(steps, Root, PathSteps(path[i + 1..]));
        case ParentDir => steps := Appended(steps, Parent, PathSteps(path[i + 1..]));
        case Normal(name) => steps := Appended(steps, Name(name), PathSteps(path[i + 1..]));
      }
    }
    assert path[|path|..] == [] && steps + [] == steps;
    return Ok(steps);
  }

  ghost function After(steps: seq<PathStep>, rest: Result<seq<PathStep>>): Result<seq<PathStep>> {
    if rest.Err? then rest else Ok(steps + rest.value)
  }

  method Appended(steps: seq<PathStep>, step: PathStep, ghost rest: Result<seq<PathStep>>) returns (r: seq<PathStep>)
    ensures r == steps + [step]
    ensures After(steps, Cons(step, rest)) == After(r, rest)
  {
    r := steps + [step];
    assert rest.Ok? ==> steps + ([step] + rest.value) == r + rest.value;
  }

  /** Opens and inspects the next name, counting it and, for a link, the link. */
  method Inspect(fs: FileSystem, uid: nat, directory: Node, name: string, processed: nat, symlinks: nat) returns (r: Result<Sight>)
    requires processed <= MAX_PATH_COMPONENTS && symlinks <= MAX_SYMLINKS
    ensures r == Look(fs, uid, directory, name, Budget(MAX_PATH_COMPONENTS - processed, MAX_SYMLINKS - symlinks))
  {
    if processed + 1 > MAX_PATH_COMPONENTS {
      return Err(TooManyComponents);
    }
    var entry := fs.entry(directory, name);
    if entry.None? {
      return Err(EntryUnavailable);
    }
    var stat := fs.stat(entry.value);
    if !OwnerTrusted(stat.owner, uid) {
      return Err(UntrustedOwner);
    }
    match stat.kind
    case Symlink(target, magic) =>
      if symlinks + 1 > MAX_SYMLINKS {
        return Err(TooManySymlinks);
      }
      if magic {
        return Err(MagicLink);
      }
      var steps := ConvertPath(target);
      return if steps.Err? then Err(steps.error) else Ok(Link(steps.value));
    case Directory =>
      return if DirectoryAcceptable(stat, uid) then Ok(Folder(entry.value)) else Err(UnsafeDirectory);
    case RegularFile =>
      return Ok(File(entry.value));
    case Special =>
      return Err(NotRegular);
  }

  /** The worklist loop; it ends even on cyclic links. */
  method ResolvePending(fs: FileSystem, uid: nat, steps: seq<PathStep>) returns (r: Result<Place>)
    requires DirectoryAcceptable(fs.stat(fs.root), uid)
    ensures
      var walk := Walk(fs, uid, [fs.root], steps, Budget(MAX_PATH_COMPONENTS, MAX_SYMLINKS));
      r == (if walk.Err? then Err(walk.error) else Ok(walk.value.place)) && (r.Ok? ==> r.value.stack != [])
  {
    var directories, pending := [fs.root], steps;
    var symlinks, processed := 0, 0;
    ghost var whole := Walk(fs, uid, [fs.root], steps, Budget(MAX_PATH_COMPONENTS, MAX_SYMLINKS));
    WorklistIsRecursion(fs, uid, [fs.root], steps, Budget(MAX_PATH_COMPONENTS, MAX_SYMLINKS));
    while pending != []
      invariant processed <= MAX_PATH_COMPONENTS && symlinks <= MAX_SYMLINKS
      invariant ValidatedStack(fs, uid, directories)
      invariant Work(fs, uid, directories, pending, Budget(MAX_PATH_COMPONENTS - processed, MAX_SYMLINKS - symlinks)) == whole
      decreases MAX_PATH_COMPONENTS - processed, |pending|
    {
      var step := pending[0];
      pending := pending[1..];
      match step
      case Root => directories := directories[..1];
      case Parent =>
        if |directories| > 1 {
          directories := directories[..|directories| - 1];
        }
      case Name(name) =>
        var directory := directories[|directories| - 1];
        var seen := Inspect(fs, uid, directory, name, processed, symlinks);
        if seen.Err? {
          return Err(seen.error);
        }
        LookIsEntry(fs, uid, directory, name, Budget(MAX_PATH_COMPONENTS - processed, MAX_SYMLINKS - symlinks));
        processed := processed + 1;
        match seen.value
        case Link(target) =>
          symlinks := symlinks + 1;
          pending := target + pending;
        case Folder(node) =>
          PushValidated(fs, uid, directories, node);
          directories := directories + [node];
        case File(node) =>
          return if pending == [] then Ok(Place(directories, Some(Entry(name, node)))) else Err(NonDirectoryComponent);
    }
    return Ok(Place(directories, None));
  }

  /**
   A file that is opened is the one that was inspected, with its metadata unchanged; it is
   acceptable and lies below validated directories only.
   */
  lemma OpenedIsValidated(fs: FileSystem, uid: nat, purpose: Purpose, path: seq<Component>, again: (Node, string) -> Option<OpenFile>)
    returns (stack: seq<Node>, name: string)
    requires Opened(fs, uid, purpose, path, again).Ok?
    ensures
      var file := Opened(fs, uid, purpose, path, again).value;
      && file.stat == fs.stat(file.node) && FileAcceptable(file.stat, purpose, uid)
      && ValidatedStack(fs, uid, stack)
      && fs.entry(stack[|stack| - 1], name) == Some(file.node) && again(stack[|stack| - 1], name) == Some(file)
  {
    var steps := PathSteps(path).value;
    var budget := Budget(MAX_PATH_COMPONENTS, MAX_SYMLINKS);
    WalkIsValidated(fs, uid, [fs.root], steps, budget);
    var place := Walk(fs, uid, [fs.root], steps, budget).value.place;
    stack, name := place.stack, place.file.value.name;
  }
}
