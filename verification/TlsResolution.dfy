/**
 Path resolution as a trace of scenes, with no recursion.

 A scene is where resolution stands: the open directories, the components still to be
 taken, and how many names and links have been used.  One component leads from a scene
 to the next: `/` to the root, `..` to the directory before, a name to the entry of that
 very name in the last directory, a link to its target in front of what was still to be
 taken.  The resolver is proved to yield exactly what the end of the trace says.
 */
module TlsResolution {
  import opened Common
  import opened TlsPaths

  // ----- Permissions, digit by digit -----

  /** The permission digit at octal position `k`: others, group, owner, special. */
  function Digit(mode: bv16, k: nat): bv16
    requires k < 4
  {
    match k
    case 0 => mode & 7
    case 1 => (mode >> 3) & 7
    case 2 => (mode >> 6) & 7
    case _ => (mode >> 9) & 7
  }

  predicate ReadOrNothing(digit: bv16) { digit == 0 || digit == 4 }

  /** The digit does not let anyone write. */
  predicate NoWrite(digit: bv16) { digit == 0 || digit == 1 || digit == 4 || digit == 5 }

  /** The digit does not let anyone execute. */
  predicate NoExecute(digit: bv16) { digit == 0 || digit == 2 || digit == 4 || digit == 6 }

  /** A directory of a trusted owner in which nobody else can write, or one of root's that is sticky. */
  predicate SafeDirectory(stat: Stat, uid: nat) {
    && stat.kind == Directory && (stat.owner == 0 || stat.owner == uid)
    && (|| (NoWrite(Digit(stat.mode, 1)) && NoWrite(Digit(stat.mode, 0)))
        || (stat.owner == 0 && Digit(stat.mode, 3) & 1 == 1))
  }

  lemma DirectoryChecksMean(stat: Stat, uid: nat)
    ensures DirectoryAcceptable(stat, uid) <==> SafeDirectory(stat, uid)
  {
  }

  /** A private key may be read by its owner and perhaps its group, written by its owner, and nothing else. */
  predicate PrivateMode(mode: bv16) {
    && mode < 0x1000 && Digit(mode, 3) == 0 && (Digit(mode, 2) == 4 || Digit(mode, 2) == 6)
    && ReadOrNothing(Digit(mode, 1)) && Digit(mode, 0) == 0
  }

  /** A certificate may be read by anyone, must be by someone, and written by its owner at most. */
  predicate PublicMode(mode: bv16) {
    && Digit(mode, 3) == 0 && NoExecute(Digit(mode, 2))
    && ReadOrNothing(Digit(mode, 1)) && ReadOrNothing(Digit(mode, 0))
    && (Digit(mode, 2) >= 4 || Digit(mode, 1) == 4 || Digit(mode, 0) == 4)
  }

  /** A regular file of a trusted owner with fitting permissions; a key is linked once. */
  predicate SafeFile(stat: Stat, purpose: Purpose, uid: nat) {
    && stat.kind == RegularFile && (stat.owner == 0 || stat.owner == uid)
    && match purpose
       case PrivateKey => PrivateMode(stat.mode) && stat.links == 1 && 0 < stat.size <= 131072
       case CertificateChain => PublicMode(stat.mode) && 0 < stat.size <= 1048576
  }

  lemma FileChecksMean(stat: Stat, purpose: Purpose, uid: nat)
    ensures FileAcceptable(stat, purpose, uid) <==> SafeFile(stat, purpose, uid)
  {
  }

  // ----- Traces -----

  datatype Scene = Scene(stack: seq<Node>, pending: seq<Component>, names: nat, links: nat)

  predicate Standing(fs: FileSystem, s: Scene) {
    && s.stack != [] && s.stack[0] == fs.root
    && s.names <= 256 && s.links <= 40 && Prefix !in s.pending
  }

  function Last(stack: seq<Node>): Node
    requires stack != []
  {
    stack[|stack| - 1]
  }

  /** A name that leads on, to a directory or through a link. */
  ghost predicate NameLeadsOn(fs: FileSystem, uid: nat, a: Scene, name: string, b: Scene)
    requires a.stack != [] && a.pending != []
  {
    var child, rest := fs.entry(Last(a.stack), name), a.pending[1..];
    && a.names < 256 && child.Some?
    && (fs.stat(child.value).owner == 0 || fs.stat(child.value).owner == uid)
    && match fs.stat(child.value).kind
       case Directory =>
         SafeDirectory(fs.stat(child.value), uid) && b == Scene(a.stack + [child.value], rest, a.names + 1, a.links)
       case Symlink(target, magic) =>
         && a.links < 40 && !magic && Prefix !in target
         && b == Scene(a.stack, target + rest, a.names + 1, a.links + 1)
       case _ => false
  }

  /** One component is taken. */
  ghost predicate Moves(fs: FileSystem, uid: nat, a: Scene, b: Scene)
    requires a.stack != []
  {
    && a.pending != []
    && match a.pending[0]
       case RootDir => b == Scene([fs.root], a.pending[1..], a.names, a.links)
       case CurDir => b == a.(pending := a.pending[1..])
       case ParentDir =>
         && b == a.(stack := b.stack, pending := a.pending[1..])
         && if |a.stack| == 1 then b.stack == a.stack else a.stack == b.stack + [Last(a.stack)]
       case Normal(name) => NameLeadsOn(fs, uid, a, name, b)
       case Prefix => false
  }

  predicate OnlyDots(pending: seq<Component>) {
    forall i :: 0 <= i < |pending| ==> pending[i] == CurDir
  }

  /** What resolution yields where a name leads no further. */
  predicate NameEnds(fs: FileSystem, uid: nat, z: Scene, name: string, r: Result<Place>)
    requires z.stack != [] && z.pending != []
  {
    var child, rest := fs.entry(Last(z.stack), name), z.pending[1..];
    if z.names >= 256 then r == Err(TooManyComponents)
    else if child.None? then r == Err(EntryUnavailable)
    else
      var stat := fs.stat(child.value);
      if stat.owner != 0 && stat.owner != uid then r == Err(UntrustedOwner)
      else
        match stat.kind
        case Directory => !SafeDirectory(stat, uid) && r == Err(UnsafeDirectory)
        case Symlink(target, magic) =>
          if z.links >= 40 then r == Err(TooManySymlinks)
          else if magic then r == Err(MagicLink)
          else Prefix in target && r == Err(UnsupportedPrefix)
        case RegularFile =>
          r == if OnlyDots(rest) then Ok(Place(z.stack, Some(Entry(name, child.value)))) else Err(NonDirectoryComponent)
        case Special => r == Err(NotRegular)
  }

  /** What resolution yields at the end of its trace. */
  predicate Ends(fs: FileSystem, uid: nat, z: Scene, r: Result<Place>)
    requires z.stack != []
  {
    if z.pending == [] then r == Ok(Place(z.stack, None))
    else z.pending[0].Normal? && NameEnds(fs, uid, z, z.pending[0].name, r)
  }

  ghost predicate IsTrace(fs: FileSystem, uid: nat, trace: seq<Scene>) {
    && trace != []
    && (forall i :: 0 <= i < |trace| ==> trace[i].stack != [])
    && forall i :: 0 <= i < |trace| - 1 ==> MovesAt(fs, uid, trace, i)
  }

  ghost predicate MovesAt(fs: FileSystem, uid: nat, trace: seq<Scene>, i: nat)
    requires i + 1 < |trace| && trace[i].stack != []
  {
    Moves(fs, uid, trace[i], trace[i + 1])
  }

  /** A trace from `start` ends with `r`. */
  ghost predicate TraceYields(fs: FileSystem, uid: nat, start: Scene, trace: seq<Scene>, r: Result<Place>) {
    IsTrace(fs, uid, trace) && trace[0] == start && Ends(fs, uid, trace[|trace| - 1], r)
  }

  /** Taking the components of `path` one by one from the root ends with `r`. */
  ghost predicate Resolves(fs: FileSystem, uid: nat, path: seq<Component>, r: Result<Place>) {
    exists trace :: TraceYields(fs, uid, Scene([fs.root], path, 0, 0), trace, r)
  }

  // ----- Components and steps -----

  lemma {:induction false} StepsOf(path: seq<Component>)
    ensures PathSteps(path).Ok? <==> Prefix !in path
    ensures PathSteps(path).Err? ==> PathSteps(path).error == UnsupportedPrefix
    ensures PathSteps(path) == Ok([]) <==> OnlyDots(path)
    decreases |path|
  {
    if path != [] {
      StepsOf(path[1..]);
      assert path == [path[0]] + path[1..];
    }
  }

  lemma {:induction false} StepsConcat(a: seq<Component>, b: seq<Component>)
    requires Prefix !in a && Prefix !in b
    ensures PathSteps(a).Ok? && PathSteps(b).Ok? && PathSteps(a + b) == Ok(PathSteps(a).value + PathSteps(b).value)
    decreases |a|
  {
    StepsOf(a);
    StepsOf(b);
    if a == [] {
      assert a + b == b;
      assert [] + PathSteps(b).value == PathSteps(b).value;
    } else {
      assert (a + b)[1..] == a[1..] + b && (a + b)[0] == a[0];
      StepsConcat(a[1..], b);
      var x, y := PathSteps(a[1..]).value, PathSteps(b).value;
      if a[0] != CurDir {
        var step := PathSteps(a).value[0];
        assert PathSteps(a).value == [step] + x;
        assert [step] + (x + y) == [step] + x + y;
      }
    }
  }

  // ----- The resolver follows the trace -----

  /** What the resolver makes of a scene. */
  function Outcome(fs: FileSystem, uid: nat, s: Scene): Result<Place>
    requires Standing(fs, s)
  {
    StepsOf(s.pending);
    var r := Work(fs, uid, s.stack, PathSteps(s.pending).value, Budget(256 - s.names, 40 - s.links));
    if r.Err? then Err(r.error) else Ok(r.value.place)
  }

  lemma MoveStands(fs: FileSystem, uid: nat, a: Scene, b: Scene)
    requires Standing(fs, a) && Moves(fs, uid, a, b)
    ensures Standing(fs, b)
  {
  }

  lemma NameMoveKeeps(fs: FileSystem, uid: nat, a: Scene, name: string, b: Scene)
    requires Standing(fs, a) && Standing(fs, b) && a.pending != [] && a.pending[0] == Normal(name)
    requires NameLeadsOn(fs, uid, a, name, b)
    ensures Outcome(fs, uid, a) == Outcome(fs, uid, b)
  {
    var child, rest := fs.entry(Last(a.stack), name).value, a.pending[1..];
    StepsOf(a.pending);
    StepsOf(rest);
    var steps := PathSteps(a.pending).value;
    assert steps == [Name(name)] + PathSteps(rest).value && steps[1..] == PathSteps(rest).value;
    DirectoryChecksMean(fs.stat(child), uid);
    if fs.stat(child).kind.Symlink? {
      StepsOf(fs.stat(child).kind.target);
      StepsConcat(fs.stat(child).kind.target, rest);
    }
  }

  lemma RootMoveKeeps(fs: FileSystem, uid: nat, a: Scene, b: Scene)
    requires Standing(fs, a) && Standing(fs, b) && Moves(fs, uid, a, b) && a.pending[0] == RootDir
    ensures Outcome(fs, uid, a) == Outcome(fs, uid, b)
  {
    StepsOf(a.pending);
    StepsOf(b.pending);
    var steps := PathSteps(a.pending).value;
    assert steps[0] == Root && steps[1..] == PathSteps(b.pending).value;
    assert a.stack[..1] == b.stack;
  }

  lemma ParentMoveKeeps(fs: FileSystem, uid: nat, a: Scene, b: Scene)
    requires Standing(fs, a) && Standing(fs, b) && Moves(fs, uid, a, b) && a.pending[0] == ParentDir
    ensures Outcome(fs, uid, a) == Outcome(fs, uid, b)
  {
    StepsOf(a.pending);
    StepsOf(b.pending);
    var steps := PathSteps(a.pending).value;
    assert steps[0] == Parent && steps[1..] == PathSteps(b.pending).value;
    assert b.stack == Ascend(a.stack);
  }

  /** Taking one component does not change what the resolver makes of it. */
  lemma MoveKeeps(fs: FileSystem, uid: nat, a: Scene, b: Scene)
    requires Standing(fs, a) && Standing(fs, b) && Moves(fs, uid, a, b)
    ensures Outcome(fs, uid, a) == Outcome(fs, uid, b)
  {
    match a.pending[0]
    case RootDir => RootMoveKeeps(fs, uid, a, b);
    case ParentDir => ParentMoveKeeps(fs, uid, a, b);
    case Normal(name) => NameMoveKeeps(fs, uid, a, name, b);
    case CurDir => assert PathSteps(a.pending) == PathSteps(b.pending);
  }

  lemma EndIsOutcome(fs: FileSystem, uid: nat, z: Scene, r: Result<Place>)
    requires Standing(fs, z) && Ends(fs, uid, z, r)
    ensures Outcome(fs, uid, z) == r
  {
    if z.pending != [] {
      var name, rest := z.pending[0].name, z.pending[1..];
      StepsOf(z.pending);
      StepsOf(rest);
      assert PathSteps(z.pending).value[1..] == PathSteps(rest).value;
      var child := fs.entry(Last(z.stack), name);
      if child.Some? {
        DirectoryChecksMean(fs.stat(child.value), uid);
        if fs.stat(child.value).kind.Symlink? {
          StepsOf(fs.stat(child.value).kind.target);
        }
      }
    }
  }

  lemma {:induction false} TraceKeeps(fs: FileSystem, uid: nat, trace: seq<Scene>, i: nat)
    requires IsTrace(fs, uid, trace) && Standing(fs, trace[0]) && i < |trace|
    ensures Standing(fs, trace[i]) && Outcome(fs, uid, trace[i]) == Outcome(fs, uid, trace[0])
    decreases i
  {
    if i > 0 {
      TraceKeeps(fs, uid, trace, i - 1);
      assert MovesAt(fs, uid, trace, i - 1);
      MoveStands(fs, uid, trace[i - 1], trace[i]);
      MoveKeeps(fs, uid, trace[i - 1], trace[i]);
    }
  }

  /** A scene is the end of its trace, or some component can be taken. */
  lemma EndsOrMoves(fs: FileSystem, uid: nat, s: Scene) returns (next: Option<Scene>)
    requires Standing(fs, s)
    ensures next.None? ==> exists r :: Ends(fs, uid, s, r)
    ensures next.Some? ==> Moves(fs, uid, s, next.value)
  {
    if s.pending == [] {
      assert Ends(fs, uid, s, Ok(Place(s.stack, None)));
      return None;
    }
    var rest := s.pending[1..];
    match s.pending[0]
    case RootDir => next := Some(Scene([fs.root], rest, s.names, s.links));
    case CurDir => next := Some(s.(pending := rest));
    case ParentDir =>
      next := Some(s.(stack := Ascend(s.stack), pending := rest));
      assert |s.stack| > 1 ==> s.stack == Ascend(s.stack) + [Last(s.stack)];
    case Normal(name) => next := NameEndsOrLeadsOn(fs, uid, s, name);
    case Prefix => assert false;
  }

  lemma NameEndsOrLeadsOn(fs: FileSystem, uid: nat, s: Scene, name: string) returns (next: Option<Scene>)
    requires Standing(fs, s) && s.pending != [] && s.pending[0] == Normal(name)
    ensures next.None? ==> exists r :: Ends(fs, uid, s, r)
    ensures next.Some? ==> NameLeadsOn(fs, uid, s, name, next.value)
  {
    var child, rest := fs.entry(Last(s.stack), name), s.pending[1..];
    next := None;
    var r := Err(NotRegular);
    if s.names >= 256 {
      r := Err(TooManyComponents);
    } else if child.None? {
      r := Err(EntryUnavailable);
    } else {
      var stat := fs.stat(child.value);
      if stat.owner != 0 && stat.owner != uid {
        r := Err(UntrustedOwner);
      } else if stat.kind.Directory? {
        if SafeDirectory(stat, uid) {
          return Some(Scene(s.stack + [child.value], rest, s.names + 1, s.links));
        }
        r := Err(UnsafeDirectory);
      } else if stat.kind.Symlink? {
        if s.links < 40 && !stat.kind.magic && Prefix !in stat.kind.target {
          return Some(Scene(s.stack, stat.kind.target + rest, s.names + 1, s.links + 1));
        }
        r := Err(if s.links >= 40 then TooManySymlinks else if stat.kind.magic then MagicLink else UnsupportedPrefix);
      } else if stat.kind.RegularFile? {
        r := if OnlyDots(rest) then Ok(Place(s.stack, Some(Entry(name, child.value)))) else Err(NonDirectoryComponent);
      }
    }
    assert Ends(fs, uid, s, r);
  }

  /** Every scene has a trace to an end. */
  lemma {:induction false} TraceExists(fs: FileSystem, uid: nat, s: Scene) returns (trace: seq<Scene>, r: Result<Place>)
    requires Standing(fs, s)
    ensures TraceYields(fs, uid, s, trace, r)
    decreases 256 - s.names, |s.pending|
  {
    var next := EndsOrMoves(fs, uid, s);
    if next.None? {
      r :| Ends(fs, uid, s, r);
      trace := [s];
    } else {
      MoveStands(fs, uid, s, next.value);
      var rest;
      rest, r := TraceExists(fs, uid, next.value);
      trace := [s] + rest;
      ConsTrace(fs, uid, s, rest);
    }
  }

  lemma ConsTrace(fs: FileSystem, uid: nat, s: Scene, rest: seq<Scene>)
    requires s.stack != [] && IsTrace(fs, uid, rest) && Moves(fs, uid, s, rest[0])
    ensures IsTrace(fs, uid, [s] + rest)
  {
    var trace := [s] + rest;
    forall i | 0 <= i < |trace| - 1 ensures MovesAt(fs, uid, trace, i) {
      assert i > 0 ==> MovesAt(fs, uid, rest, i - 1);
    }
  }

  /** The place or error that recursive resolution yields. */
  function Resolved(fs: FileSystem, uid: nat, path: seq<Component>): Result<Place> {
    var steps := PathSteps(path);
    if steps.Err? then Err(steps.error)
    else
      var r := Walk(fs, uid, [fs.root], steps.value, Budget(MAX_PATH_COMPONENTS, MAX_SYMLINKS));
      if r.Err? then Err(r.error) else Ok(r.value.place)
  }

  /** Recursive resolution yields exactly what the trace from the root says, place and error alike. */
  lemma ResolvesExactly(fs: FileSystem, uid: nat, path: seq<Component>, r: Result<Place>)
    requires Prefix !in path
    ensures Resolved(fs, uid, path) == r <==> Resolves(fs, uid, path, r)
  {
    var start := Scene([fs.root], path, 0, 0);
    StepsOf(path);
    WorklistIsRecursion(fs, uid, [fs.root], PathSteps(path).value, Budget(256, 40));
    assert Outcome(fs, uid, start) == Resolved(fs, uid, path);
    forall trace, q | TraceYields(fs, uid, start, trace, q) ensures q == Outcome(fs, uid, start) {
      TraceKeeps(fs, uid, trace, |trace| - 1);
      EndIsOutcome(fs, uid, trace[|trace| - 1], q);
    }
    var trace, q := TraceExists(fs, uid, start);
    assert TraceYields(fs, uid, start, trace, q);
  }

  // ----- What is opened -----

  /** The path leads to the file `node`, under `name` in the last directory of `stack`. */
  ghost predicate LeadsTo(fs: FileSystem, uid: nat, path: seq<Component>, stack: seq<Node>, name: string, node: Node) {
    Resolves(fs, uid, path, Ok(Place(stack, Some(Entry(name, node)))))
  }

  /** The path leads to `file`, it is acceptable, and its name there still leads to it, unchanged, when it is opened. */
  ghost predicate OpensAt(
    fs: FileSystem, uid: nat, purpose: Purpose, path: seq<Component>, again: (Node, string) -> Option<OpenFile>,
    stack: seq<Node>, name: string, file: OpenFile)
  {
    && stack != [] && LeadsTo(fs, uid, path, stack, name, file.node)
    && file.stat == fs.stat(file.node) && SafeFile(file.stat, purpose, uid)
    && again(Last(stack), name) == Some(file)
  }

  /** A file is opened exactly if the path leads to it through safe directories and it is still there under its name. */
  lemma OpenedExactly(fs: FileSystem, uid: nat, purpose: Purpose, path: seq<Component>, again: (Node, string) -> Option<OpenFile>, file: OpenFile)
    ensures Opened(fs, uid, purpose, path, again) == Ok(file) <==>
      && SafeDirectory(fs.stat(fs.root), uid) && Prefix !in path
      && exists stack, name :: OpensAt(fs, uid, purpose, path, again, stack, name, file)
  {
    DirectoryChecksMean(fs.stat(fs.root), uid);
    FileChecksMean(file.stat, purpose, uid);
    StepsOf(path);
    if Prefix !in path {
      forall stack, name | LeadsTo(fs, uid, path, stack, name, file.node)
        ensures Resolved(fs, uid, path) == Ok(Place(stack, Some(Entry(name, file.node))))
      {
        ResolvesExactly(fs, uid, path, Ok(Place(stack, Some(Entry(name, file.node)))));
      }
      if Opened(fs, uid, purpose, path, again) == Ok(file) {
        var place := Resolved(fs, uid, path).value;
        ResolvesExactly(fs, uid, path, Ok(place));
        assert place == Place(place.stack, Some(Entry(place.file.value.name, file.node)));
        assert OpensAt(fs, uid, purpose, path, again, place.stack, place.file.value.name, file);
      }
    }
  }

  method OpenValidatedFile(fs: FileSystem, uid: nat, purpose: Purpose, path: seq<Component>, again: (Node, string) -> Option<OpenFile>)
    returns (r: Result<OpenFile>)
    ensures r == Opened(fs, uid, purpose, path, again)
    ensures forall file :: r == Ok(file) <==>
      && SafeDirectory(fs.stat(fs.root), uid) && Prefix !in path
      && exists stack, name :: OpensAt(fs, uid, purpose, path, again, stack, name, file)
  {
    forall file { OpenedExactly(fs, uid, purpose, path, again, file); }
    if !DirectoryAcceptable(fs.stat(fs.root), uid) {
      return Err(UnsafeDirectory);
    }
    var steps := ConvertPath(path);
    if steps.Err? {
      return Err(steps.error);
    }
    var found := ResolvePending(fs, uid, steps.value);
    if found.Err? {
      return Err(found.error);
    }
    if found.value.file.None? {
      return Err(NoRegularFile);
    }
    var directory, entry := found.value.stack[|found.value.stack| - 1], found.value.file.value;
    var inspected := OpenFile(entry.node, fs.stat(entry.node));
    if !FileAcceptable(inspected.stat, purpose, uid) {
      return Err(UnacceptableFile);
    }
    var reopened := again(directory, entry.name);
    if reopened.None? {
      return Err(EntryUnavailable);
    }
    if !FileAcceptable(reopened.value.stat, purpose, uid) {
      return Err(UnacceptableFile);
    }
    if reopened.value != inspected {
      return Err(ChangedWhileOpening);
    }
    return Ok(reopened.value);
  }

  /** Where nothing is opened because of the path, the error is that of the trace. */
  lemma RefusedPath(fs: FileSystem, uid: nat, purpose: Purpose, path: seq<Component>, again: (Node, string) -> Option<OpenFile>, error: Error)
    requires SafeDirectory(fs.stat(fs.root), uid) && Prefix !in path && Resolves(fs, uid, path, Err(error))
    ensures Opened(fs, uid, purpose, path, again) == Err(error)
  {
    DirectoryChecksMean(fs.stat(fs.root), uid);
    StepsOf(path);
    ResolvesExactly(fs, uid, path, Err(error));
  }

  /** Where an absolute link leads does not depend on where the link stands. */
  lemma AbsoluteLinkIsPlaceless(fs: FileSystem, uid: nat, a: Scene, b: Scene, x: string, y: string, target: seq<Component>)
    requires Standing(fs, a) && Standing(fs, b) && target != [] && target[0] == RootDir
    requires a.pending != [] && a.pending[0] == Normal(x) && b.pending != [] && b.pending[0] == Normal(y)
    requires a.pending[1..] == b.pending[1..] && a.names == b.names && a.links == b.links
    requires exists next :: NameLeadsOn(fs, uid, a, x, next)
    requires exists next :: NameLeadsOn(fs, uid, b, y, next)
    requires fs.stat(fs.entry(Last(a.stack), x).value).kind == Symlink(target, false)
    requires fs.stat(fs.entry(Last(b.stack), y).value).kind == Symlink(target, false)
    ensures Outcome(fs, uid, a) == Outcome(fs, uid, b)
  {
    var rest := a.pending[1..];
    var nextA := Scene(a.stack, target + rest, a.names + 1, a.links + 1);
    var nextB := Scene(b.stack, target + rest, a.names + 1, a.links + 1);
    var both := Scene([fs.root], (target + rest)[1..], a.names + 1, a.links + 1);
    assert (target + rest)[0] == RootDir;
    MoveStands(fs, uid, a, nextA);
    MoveStands(fs, uid, b, nextB);
    MoveStands(fs, uid, nextA, both);
    MoveKeeps(fs, uid, a, nextA);
    MoveKeeps(fs, uid, b, nextB);
    MoveKeeps(fs, uid, nextA, both);
    MoveKeeps(fs, uid, nextB, both);
  }
}
