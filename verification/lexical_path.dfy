/** Resolving a relative import without touching the disk: a stack machine over path components,
    then a fixed preference order of candidate files. */
module LexicalPath {
  import opened Wrappers

  datatype Component = RootDir | CurDir | ParentDir | Normal(name: string)

  type Path = seq<Component>

  // ----- normalisation -----

  function PushComponent(stack: Path, c: Component): Option<Path> {
    match c
    case CurDir => Some(stack)
    case ParentDir => if stack != [] && stack[|stack| - 1].Normal? then Some(stack[..|stack| - 1]) else None
    case _ => Some(stack + [c])
  }

  /** The stack after a whole path, or nothing once a parent step has no ordinary segment to undo. */
  function Normalized(path: Path): Option<Path> {
    if path == [] then Some([]) else
      match Normalized(path[..|path| - 1])
      case None => None
      case Some(stack) => PushComponent(stack, path[|path| - 1])
  }

  method NormalizeLexically(path: Path) returns (r: Option<Path>)
    ensures r == Normalized(path)
  {
    var stack: Path := [];
    for i := 0 to |path|
      invariant Normalized(path[..i]) == Some(stack)
    {
      assert path[..i + 1][..i] == path[..i];
      match path[i] {
        case CurDir =>
        case ParentDir =>
          if stack != [] && stack[|stack| - 1].Normal? {
            stack := stack[..|stack| - 1];
          } else {
            NoneStays(path, i + 1);
            return None;
          }
        case _ => stack := stack + [path[i]];
      }
    }
    assert path[..|path|] == path;
    return Some(stack);
  }

  lemma {:induction false} NoneStays(path: Path, k: nat)
    requires k <= |path| && Normalized(path[..k]).None?
    ensures Normalized(path).None?
  {
    if k < |path| {
      assert path[..|path| - 1][..k] == path[..k];
      NoneStays(path[..|path| - 1], k);
    } else {
      assert path[..k] == path;
    }
  }

  predicate IsPlain(path: Path) {
    forall i :: 0 <= i < |path| ==> !path[i].CurDir? && !path[i].ParentDir?
  }

  /** No `.` and no `..` is left, and nothing is added. */
  lemma {:induction false} NormalizedIsPlain(path: Path)
    requires Normalized(path).Some?
    ensures IsPlain(Normalized(path).value) && |Normalized(path).value| <= |path|
  {
    if path != [] {
      NormalizedIsPlain(path[..|path| - 1]);
    }
  }

  lemma {:induction false} PlainUnchanged(path: Path)
    requires IsPlain(path)
    ensures Normalized(path) == Some(path)
  {
    if path != [] {
      PlainUnchanged(path[..|path| - 1]);
      assert path == path[..|path| - 1] + [path[|path| - 1]];
    }
  }

  /** Normalising twice changes nothing. */
  lemma {:induction false} Idempotent(path: Path)
    requires Normalized(path).Some?
    ensures Normalized(Normalized(path).value) == Normalized(path)
  {
    NormalizedIsPlain(path);
    PlainUnchanged(Normalized(path).value);
  }

  /** A prefix may be normalised first. */
  lemma {:induction false} NormalizePrefixFirst(a: Path, b: Path)
    ensures Normalized(a + b) == match Normalized(a) case None => None case Some(r) => Normalized(r + b)
  {
    if b == [] {
      assert a + b == a;
      if Normalized(a).Some? {
        assert Normalized(a).value + b == Normalized(a).value;
        Idempotent(a);
      }
    } else {
      var last := |b| - 1;
      assert (a + b)[..|a + b| - 1] == a + b[..last];
      NormalizePrefixFirst(a, b[..last]);
      if Normalized(a).Some? {
        var r := Normalized(a).value;
        assert (r + b)[..|r + b| - 1] == r + b[..last];
      }
    }
  }

  /** Pushing a segment and stepping back to its parent leaves the stack as it was. */
  lemma PushThenParent(a: Path, n: string)
    ensures Normalized(a + [Normal(n), ParentDir]) == Normalized(a)
  {
    var once := a + [Normal(n)];
    assert (a + [Normal(n), ParentDir])[..|a| + 1] == once && once[..|a|] == a;
    if Normalized(a).Some? {
      var stack := Normalized(a).value;
      assert (stack + [Normal(n)])[..|stack|] == stack;
    }
  }

  /** A `..` undoes the named segment right before it, wherever the two stand in a path. */
  lemma ParentUndoesName(a: Path, n: string, b: Path)
    ensures Normalized(a + [Normal(n), ParentDir] + b) == Normalized(a + b)
  {
    PushThenParent(a, n);
    NormalizePrefixFirst(a + [Normal(n), ParentDir], b);
    NormalizePrefixFirst(a, b);
  }

  /** A `.` changes nothing, wherever it stands. */
  lemma CurrentChangesNothing(a: Path, b: Path)
    ensures Normalized(a + [CurDir] + b) == Normalized(a + b)
  {
    assert (a + [CurDir])[..|a|] == a;
    NormalizePrefixFirst(a + [CurDir], b);
    NormalizePrefixFirst(a, b);
  }

  function Names(path: Path): nat {
    if path == [] then 0 else Names(path[..|path| - 1]) + if path[|path| - 1].Normal? then 1 else 0
  }

  function Parents(path: Path): nat {
    if path == [] then 0 else Parents(path[..|path| - 1]) + if path[|path| - 1].ParentDir? then 1 else 0
  }

  /** A root can only come first. */
  predicate RootFirst(path: Path) {
    forall i :: 0 < i < |path| ==> !path[i].RootDir?
  }

  /** The path never asks for more parents than it has named segments so far. */
  ghost predicate NeverClimbsOut(path: Path) {
    forall k :: 0 <= k <= |path| ==> Parents(path[..k]) <= Names(path[..k])
  }

  /** What is kept: the root if there was one, then as many segments as names outnumber parents. */
  ghost predicate Keeps(path: Path, stack: Path) {
    && |stack| == Names(path) - Parents(path) + (if path != [] && path[0].RootDir? then 1 else 0)
    && (forall i :: 0 <= i < |stack| ==> if i == 0 && path != [] && path[0].RootDir? then stack[i].RootDir? else stack[i].Normal?)
  }

  /** Normalisation fails exactly on the paths that climb past their start. */
  lemma {:induction false} FailsIffClimbsOut(path: Path)
    requires RootFirst(path)
    ensures Normalized(path).Some? <==> NeverClimbsOut(path)
    ensures Normalized(path).Some? ==> Keeps(path, Normalized(path).value)
  {
    if path != [] {
      var rest := path[..|path| - 1];
      FailsIffClimbsOut(rest);
      assert forall k :: 0 <= k <= |rest| ==> path[..k] == rest[..k];
      assert path[..|path|] == path;
      assert NeverClimbsOut(path) <==> NeverClimbsOut(rest) && Parents(path) <= Names(path);
    }
  }

  // ----- candidate files -----

  const EXTENSIONS: seq<string> := ["ts", "mts", "cts", "js", "jsx", "mjs", "cjs"]

  /** The position of the last dot, if any. */
  function LastDot(name: string): Option<nat> {
    if name == "" then None
    else if name[|name| - 1] == '.' then Some(|name| - 1)
    else LastDot(name[..|name| - 1])
  }

  lemma {:induction false} LastDotInside(name: string)
    ensures LastDot(name).Some? ==> LastDot(name).value < |name| && name[LastDot(name).value] == '.'
  {
    if name != "" && name[|name| - 1] != '.' {
      LastDotInside(name[..|name| - 1]);
    }
  }

  /** What follows the last dot, unless there is no dot or only a leading one. */
  function Extension(name: string): Option<string> {
    LastDotInside(name);
    match LastDot(name)
    case None => None
    case Some(k) => if k == 0 then None else Some(name[k + 1..])
  }

  function Stem(name: string): string {
    LastDotInside(name);
    match LastDot(name)
    case None => name
    case Some(k) => if k == 0 then name else name[..k]
  }

  predicate HasFileName(path: Path) {
    path != [] && path[|path| - 1].Normal?
  }

  function FileName(path: Path): string
    requires HasFileName(path)
  {
    path[|path| - 1].name
  }

  function Renamed(path: Path, name: string): Path
    requires HasFileName(path)
  {
    path[..|path| - 1] + [Normal(name)]
  }

  function TypescriptTwin(extension: string): Option<string> {
    if extension == "js" then Some("ts")
    else if extension == "mjs" then Some("mts")
    else if extension == "cjs" then Some("cts")
    else None
  }

  predicate HasKnownExtension(path: Path) {
    HasFileName(path) && Extension(FileName(path)).Some? && Extension(FileName(path)).value in EXTENSIONS
  }

  /** The files an import may mean, most preferred first. */
  function CandidatePaths(path: Path): seq<Path> {
    if HasKnownExtension(path) then
      [path] + match TypescriptTwin(Extension(FileName(path)).value)
               case None => []
               case Some(twin) => [Renamed(path, Stem(FileName(path)) + "." + twin)]
    else
      (if HasFileName(path) then seq(|EXTENSIONS|, i requires 0 <= i < |EXTENSIONS| => Renamed(path, FileName(path) + "." + EXTENSIONS[i])) else [])
      + seq(|EXTENSIONS|, i requires 0 <= i < |EXTENSIONS| => path + [Normal("index." + EXTENSIONS[i])])
  }

  /** One or two candidates for a known extension, otherwise seven for the name and seven for the directory;
      a path without a name has the directory ones only. */
  lemma CandidateCount(path: Path)
    ensures HasKnownExtension(path) ==> 1 <= |CandidatePaths(path)| <= 2 && CandidatePaths(path)[0] == path
    ensures !HasKnownExtension(path) ==> |CandidatePaths(path)| == if HasFileName(path) then 14 else 7
  {
  }

  lemma {:induction false} LastDotIs(stem: string, rest: string)
    requires '.' !in rest
    ensures LastDot(stem + "." + rest) == Some(|stem|)
  {
    var name := stem + "." + rest;
    assert name[|stem|] == '.';
    if rest != "" {
      assert name[|name| - 1] == rest[|rest| - 1];
      assert name[..|name| - 1] == stem + "." + rest[..|rest| - 1];
      LastDotIs(stem, rest[..|rest| - 1]);
    }
  }

  lemma ExtensionIs(stem: string, rest: string)
    requires stem != "" && '.' !in rest
    ensures Extension(stem + "." + rest) == Some(rest) && Stem(stem + "." + rest) == stem
  {
    LastDotIs(stem, rest);
    assert (stem + "." + rest)[|stem| + 1..] == rest && (stem + "." + rest)[..|stem|] == stem;
  }

  /** The names with a known extension: something, a dot, and the extension. */
  lemma KnownExtensionMeans(path: Path)
    ensures HasKnownExtension(path) <==>
      HasFileName(path) && exists stem: string, e :: e in EXTENSIONS && stem != "" && FileName(path) == stem + "." + e
  {
    if HasKnownExtension(path) {
      var name := FileName(path);
      LastDotInside(name);
      var k := LastDot(name).value;
      assert name == name[..k] + "." + name[k + 1..];
    }
    if HasFileName(path) && exists stem: string, e :: e in EXTENSIONS && stem != "" && FileName(path) == stem + "." + e {
      var stem: string, e :| e in EXTENSIONS && stem != "" && FileName(path) == stem + "." + e;
      assert '.' !in e;
      ExtensionIs(stem, e);
    }
  }

  /** An import that names a script file means that file or, for the three emitted kinds, the TypeScript source of the
      same name after it; the other four known kinds mean themselves only. */
  lemma ScriptCandidates(dir: Path, stem: string, extension: string)
    requires stem != "" && extension in EXTENSIONS
    ensures var named := dir + [Normal(stem + "." + extension)];
      CandidatePaths(named) ==
        if extension == "js" then [named, dir + [Normal(stem + "." + "ts")]]
        else if extension == "mjs" then [named, dir + [Normal(stem + "." + "mts")]]
        else if extension == "cjs" then [named, dir + [Normal(stem + "." + "cts")]]
        else [named]
  {
    var name := stem + "." + extension;
    assert '.' !in extension;
    ExtensionIs(stem, extension);
    assert (dir + [Normal(name)])[..|dir|] == dir;
    assert forall twin: string :: Renamed(dir + [Normal(name)], stem + "." + twin) == dir + [Normal(stem + "." + twin)];
  }

  /** An import without a known extension means the seven files of its name, if it has one, then the seven index files
      of its directory, TypeScript before JavaScript. */
  lemma DirectoryCandidates(path: Path, i: nat, extension: string)
    requires !HasKnownExtension(path) && i < 7
    requires extension == ["ts", "mts", "cts", "js", "jsx", "mjs", "cjs"][i]
    ensures var c := CandidatePaths(path);
      && (if HasFileName(path) then |c| == 14 && c[i] == path[..|path| - 1] + [Normal(FileName(path) + "." + extension)] else |c| == 7)
      && c[|c| - 7 + i] == path + [Normal("index." + extension)]
  {
    assert extension == EXTENSIONS[i];
  }

  /** The first candidate that is present. */
  function FirstPresent(candidates: seq<Path>, targets: set<Path>): Option<Path> {
    if candidates == [] then None
    else if candidates[0] in targets then Some(candidates[0])
    else FirstPresent(candidates[1..], targets)
  }

  /** p is the first of the candidates to be present, or none is. */
  ghost predicate IsFirstPresent(candidates: seq<Path>, targets: set<Path>, r: Option<Path>) {
    match r
    case None => forall i :: 0 <= i < |candidates| ==> candidates[i] !in targets
    case Some(p) => p in targets && exists i :: 0 <= i < |candidates| && candidates[i] == p && forall j :: 0 <= j < i ==> candidates[j] !in targets
  }

  lemma {:induction false} FirstPresentExact(candidates: seq<Path>, targets: set<Path>)
    ensures IsFirstPresent(candidates, targets, FirstPresent(candidates, targets))
  {
    if candidates != [] && candidates[0] !in targets {
      var rest := candidates[1..];
      FirstPresentExact(rest, targets);
      assert forall i :: 0 < i < |candidates| ==> candidates[i] == rest[i - 1];
      if FirstPresent(rest, targets).Some? {
        var i :| 0 <= i < |rest| && rest[i] == FirstPresent(rest, targets).value && forall j :: 0 <= j < i ==> rest[j] !in targets;
        assert candidates[i + 1] == rest[i];
        assert forall j :: 0 <= j < i + 1 ==> candidates[j] !in targets;
      }
    }
  }

  function ResolveRelative(base: Path, specifier: Path, targets: set<Path>): Option<Path> {
    match Normalized(base + specifier)
    case None => None
    case Some(path) => FirstPresent(CandidatePaths(path), targets)
  }

  /** An import that climbs out resolves to nothing, any other to the most preferred candidate that was scanned, if one
      was; and where the base directory is spelt differently but means the same it resolves alike. */
  lemma ResolvesWithinTargets(base: Path, specifier: Path, targets: set<Path>)
    ensures match Normalized(base + specifier)
      case None => ResolveRelative(base, specifier, targets) == None
      case Some(path) => IsFirstPresent(CandidatePaths(path), targets, ResolveRelative(base, specifier, targets))
    ensures Normalized(base).Some? ==>
      ResolveRelative(base, specifier, targets) == ResolveRelative(Normalized(base).value, specifier, targets)
  {
    NormalizePrefixFirst(base, specifier);
    if Normalized(base + specifier).Some? {
      FirstPresentExact(CandidatePaths(Normalized(base + specifier).value), targets);
    }
  }
}
