/** Cross-file dependencies: a project-wide index built once per set of sources and kept for as long as
    callers hand in the same sources object, against the direct definition of a dependency. */
module DepsIndexing {
  import opened LexicalPath
  import opened Wrappers

  const MAX_MEASURABLE_SOURCE_BYTES: nat := 1024 * 1024

  datatype Source = Source(text: string, byteLength: nat)

  /** The shared, immutable list of sources; two contexts share it exactly when they hold the same object. */
  class Sources {
    const files: seq<(Path, Source)>

    constructor (files: seq<(Path, Source)>)
      ensures this.files == files
    {
      this.files := files;
    }
  }

  datatype Extraction = Extraction(declared: seq<string>, referenced: seq<string>)

  datatype Strategy = NamespaceIndex | RelativePath

  /** What the language profile supplies: the extraction of declared and referenced names from a text, which may
      fail, and the components of an import text. */
  datatype Profile = Profile(extract: string -> Option<Extraction>, components: string -> Path, strategy: Strategy)

  predicate Admissible(source: Source) {
    source.byteLength <= MAX_MEASURABLE_SOURCE_BYTES
  }

  function ExtractSafe(profile: Profile, source: Source): Option<Extraction> {
    if Admissible(source) then profile.extract(source.text) else None
  }

  predicate UnderAnyRoot(path: Path, roots: seq<Path>) {
    roots == [] || exists i :: 0 <= i < |roots| && roots[i] <= path
  }

  datatype DepsIndex = DepsIndex(declarers: map<string, seq<Path>>, references: map<Path, seq<string>>, targets: set<Path>)

  // ----- the index as a function of the sources -----

  function AddDeclarer(declarers: map<string, seq<Path>>, names: seq<string>, path: Path): map<string, seq<Path>> {
    if names == [] then declarers else
      var rest := AddDeclarer(declarers, names[..|names| - 1], path);
      var name := names[|names| - 1];
      rest[name := (if name in rest then rest[name] else []) + [path]]
  }

  function AddFile(profile: Profile, roots: seq<Path>, index: DepsIndex, path: Path, source: Source): DepsIndex {
    match ExtractSafe(profile, source)
    case None => index
    case Some(e) =>
      DepsIndex(
        if UnderAnyRoot(path, roots) then AddDeclarer(index.declarers, e.declared, path) else index.declarers,
        index.references[path := e.referenced],
        index.targets)
  }

  function AddFiles(profile: Profile, files: seq<(Path, Source)>, roots: seq<Path>, index: DepsIndex): DepsIndex {
    if files == [] then index else
      var rest := AddFiles(profile, files[..|files| - 1], roots, index);
      AddFile(profile, roots, rest, files[|files| - 1].0, files[|files| - 1].1)
  }

  /** What a relative import may resolve to: every file under a root, readable or not. */
  function Targets(files: seq<(Path, Source)>, roots: seq<Path>): (targets: set<Path>)
    ensures forall p :: p in targets <==> UnderAnyRoot(p, roots) && exists i :: 0 <= i < |files| && files[i].0 == p
  {
    set i | 0 <= i < |files| && UnderAnyRoot(files[i].0, roots) :: files[i].0
  }

  function IndexOf(profile: Profile, files: seq<(Path, Source)>, roots: seq<Path>): DepsIndex {
    AddFiles(profile, files, roots, DepsIndex(map[], map[], Targets(files, roots)))
  }

  method BuildDepsIndex(profile: Profile, files: seq<(Path, Source)>, roots: seq<Path>) returns (index: DepsIndex)
    ensures index == IndexOf(profile, files, roots)
  {
    var declarers: map<string, seq<Path>>, references: map<Path, seq<string>> := map[], map[];
    var targets := Targets(files, roots);
    for i := 0 to |files|
      invariant DepsIndex(declarers, references, targets) == AddFiles(profile, files[..i], roots, DepsIndex(map[], map[], targets))
    {
      assert files[..i + 1][..i] == files[..i];
      var (path, source) := files[i];
      var extraction := ExtractSafe(profile, source);
      if extraction.Some? {
        references := references[path := extraction.value.referenced];
        if UnderAnyRoot(path, roots) {
          var names := extraction.value.declared;
          ghost var before := declarers;
          for k := 0 to |names|
            invariant declarers == AddDeclarer(before, names[..k], path)
          {
            assert names[..k + 1][..k] == names[..k];
            var name := names[k];
            declarers := declarers[name := (if name in declarers then declarers[name] else []) + [path]];
          }
          assert names[..|names|] == names;
        }
      }
    }
    assert files[..|files|] == files;
    index := DepsIndex(declarers, references, targets);
  }

  // ----- results in first-use order -----

  /** The distinct paths of a list other than `current`, in the order of their first use. */
  function FirstUses(list: seq<Path>, current: Path): seq<Path> {
    if list == [] then [] else
      var rest := FirstUses(list[..|list| - 1], current);
      var p := list[|list| - 1];
      if p != current && p !in rest then rest + [p] else rest
  }

  ghost predicate NoRepeats(paths: seq<Path>) {
    forall i, j :: 0 <= i < j < |paths| ==> paths[i] != paths[j]
  }

  lemma {:induction false} FirstUsesExact(list: seq<Path>, current: Path)
    ensures forall p :: p in FirstUses(list, current) <==> p in list && p != current
    ensures NoRepeats(FirstUses(list, current))
  {
    if list != [] {
      var front, p := list[..|list| - 1], list[|list| - 1];
      assert list == front + [p];
      FirstUsesExact(front, current);
      var rest := FirstUses(front, current);
      var r := FirstUses(list, current);
      assert r == if p != current && p !in rest then rest + [p] else rest;
    }
  }

  ghost predicate FirstAt(list: seq<Path>, p: Path, k: nat) {
    k < |list| && list[k] == p && p !in list[..k]
  }

  /** Earlier results are first used earlier. */
  lemma {:induction false} FirstUsesInOrder(list: seq<Path>, current: Path, i: nat, j: nat) returns (a: nat, b: nat)
    requires i < j < |FirstUses(list, current)|
    ensures a < b && FirstAt(list, FirstUses(list, current)[i], a) && FirstAt(list, FirstUses(list, current)[j], b)
  {
    var last := |list| - 1;
    var rest := FirstUses(list[..last], current);
    FirstUsesExact(list[..last], current);
    if j < |rest| {
      a, b := FirstUsesInOrder(list[..last], current, i, j);
      assert list[..last][..a] == list[..a] && list[..last][..b] == list[..b];
    } else {
      assert rest[i] in list[..last];
      a := FirstIndex(list[..last], rest[i]);
      assert list[..last][..a] == list[..a];
      b := last;
    }
  }

  lemma {:induction false} FirstIndex(list: seq<Path>, p: Path) returns (k: nat)
    requires p in list
    ensures FirstAt(list, p, k)
  {
    var last := |list| - 1;
    assert list == list[..last] + [list[last]];
    if p in list[..last] {
      k := FirstIndex(list[..last], p);
      assert list[..last][..k] == list[..k];
    } else {
      k := last;
    }
  }

  // ----- resolution -----

  /** The candidate paths of a list of references, in order, before self and repetitions are dropped. */
  function Mentions(profile: Profile, index: DepsIndex, current: Path, referenced: seq<string>): seq<Path> {
    if referenced == [] then [] else
      Mentions(profile, index, current, referenced[..|referenced| - 1])
      + MentionsOf(profile, index, current, referenced[|referenced| - 1])
  }

  predicate IsRelative(specifier: string) {
    "./" <= specifier || "../" <= specifier
  }

  function Parent(path: Path): Option<Path> {
    if path == [] || path[|path| - 1].RootDir? then None else Some(path[..|path| - 1])
  }

  function MentionsOf(profile: Profile, index: DepsIndex, current: Path, reference: string): seq<Path> {
    match profile.strategy
    case NamespaceIndex => if reference in index.declarers then index.declarers[reference] else []
    case RelativePath =>
      if !IsRelative(reference) || Parent(current).None? then [] else
        match ResolveRelative(Parent(current).value, profile.components(reference), index.targets)
        case None => []
        case Some(p) => [p]
  }

  datatype Context = Context(current: Path, sources: Sources, roots: seq<Path>)

  datatype Resolution = Resolved(paths: seq<Path>) | TooLarge | TooComplex

  /** Resolution by the index of the context's own sources and roots, no cache involved. */
  function ResolveBy(profile: Profile, index: DepsIndex, source: Source, current: Path): Resolution {
    if !Admissible(source) then TooLarge
    else if current in index.references then
      Resolved(FirstUses(Mentions(profile, index, current, index.references[current]), current))
    else match ExtractSafe(profile, source)
      case None => TooComplex
      case Some(e) => Resolved(FirstUses(Mentions(profile, index, current, e.referenced), current))
  }

  class TreeSitterParser {
    const profile: Profile
    var cachedSources: Sources?
    var cachedIndex: DepsIndex
    ghost var cachedRoots: seq<Path>

    constructor (profile: Profile)
      ensures this.profile == profile && cachedSources == null && Valid()
    {
      this.profile := profile;
      cachedSources, cachedIndex, cachedRoots := null, DepsIndex(map[], map[], {}), [];
    }

    /** The cached index was built from the cached sources, under the roots of the call that built it. */
    ghost predicate Valid()
      reads this
    {
      cachedSources != null ==> cachedIndex == IndexOf(profile, cachedSources.files, cachedRoots)
    }

    /** The roots the answer is really computed for: those of the call that built the index. */
    ghost function EffectiveRoots(ctx: Context): seq<Path>
      reads this
    {
      if cachedSources == ctx.sources then cachedRoots else ctx.roots
    }

    method DepsIndexFor(ctx: Context) returns (index: DepsIndex)
      requires Valid()
      modifies this
      ensures Valid() && cachedSources == ctx.sources && cachedRoots == old(EffectiveRoots(ctx))
      ensures index == IndexOf(profile, ctx.sources.files, old(EffectiveRoots(ctx)))
      ensures index == IndexOf(profile, ctx.sources.files, ctx.roots) <==> AgreeOn(ctx.sources.files, old(EffectiveRoots(ctx)), ctx.roots)
    {
      SameIndexIff(profile, ctx.sources.files, EffectiveRoots(ctx), ctx.roots);
      if cachedSources == ctx.sources {
        return cachedIndex;
      }
      index := BuildDepsIndex(profile, ctx.sources.files, ctx.roots);
      cachedSources, cachedIndex, cachedRoots := ctx.sources, index, ctx.roots;
    }

    method ResolveDependencies(source: Source, ctx: Context) returns (r: Resolution)
      requires Valid()
      modifies this
      ensures Valid()
      ensures r == ResolveBy(profile, IndexOf(profile, ctx.sources.files, old(EffectiveRoots(ctx))), source, ctx.current)
      ensures Admissible(source) ==> cachedSources == ctx.sources && cachedRoots == old(EffectiveRoots(ctx))
      ensures !Admissible(source) ==> unchanged(this)
    {
      if !Admissible(source) {
        return TooLarge;
      }
      var index := DepsIndexFor(ctx);
      var referenced: seq<string>;
      if ctx.current in index.references {
        referenced := index.references[ctx.current];
      } else {
        var extraction := ExtractSafe(profile, source);
        if extraction.None? {
          return TooComplex;
        }
        referenced := extraction.value.referenced;
      }
      var paths := CollectFirstUses(profile, index, ctx.current, referenced);
      r := Resolved(paths);
    }
  }

  /** Appends the new paths of one more list, `seen` saying which ones are old. */
  method AppendFirstUses(ghost before: seq<Path>, mentioned: seq<Path>, current: Path, resolved0: seq<Path>, seen0: set<Path>)
    returns (resolved: seq<Path>, seen: set<Path>)
    requires resolved0 == FirstUses(before, current) && forall p :: p in seen0 <==> p in resolved0
    ensures resolved == FirstUses(before + mentioned, current) && forall p :: p in seen <==> p in resolved
  {
    resolved, seen := resolved0, seen0;
    assert before + mentioned[..0] == before;
    for k := 0 to |mentioned|
      invariant resolved == FirstUses(before + mentioned[..k], current)
      invariant forall p :: p in seen <==> p in resolved
    {
      ghost var longer := before + mentioned[..k + 1];
      assert longer[..|longer| - 1] == before + mentioned[..k] && longer[|longer| - 1] == mentioned[k];
      if mentioned[k] != current && mentioned[k] !in seen {
        seen := seen + {mentioned[k]};
        resolved := resolved + [mentioned[k]];
      }
    }
    assert mentioned[..|mentioned|] == mentioned;
  }

  method CollectFirstUses(profile: Profile, index: DepsIndex, current: Path, referenced: seq<string>) returns (resolved: seq<Path>)
    ensures resolved == FirstUses(Mentions(profile, index, current, referenced), current)
  {
    hide MentionsOf;
    resolved := [];
    var seen: set<Path> := {};
    ghost var before: seq<Path> := [];
    for i := 0 to |referenced|
      invariant before == Mentions(profile, index, current, referenced[..i])
      invariant resolved == FirstUses(before, current)
      invariant forall p :: p in seen <==> p in resolved
    {
      assert referenced[..i + 1][..i] == referenced[..i];
      var mentioned := MentionsOf(profile, index, current, referenced[i]);
      resolved, seen := AppendFirstUses(before, mentioned, current, resolved, seen);
      before := before + mentioned;
    }
    assert referenced[..|referenced|] == referenced;
  }

  // ----- over a whole run -----

  /** The same files lie under either list of roots. */
  ghost predicate AgreeOn(files: seq<(Path, Source)>, roots: seq<Path>, others: seq<Path>) {
    forall i :: 0 <= i < |files| ==> (UnderAnyRoot(files[i].0, roots) <==> UnderAnyRoot(files[i].0, others))
  }

  /** Contexts that share a sources object agree on which of its files lie under their roots; the project loop gives
      them all the same roots. */
  ghost predicate Consistent(contexts: seq<(Source, Context)>) {
    forall i, j :: 0 <= i < |contexts| && 0 <= j < |contexts| && contexts[i].1.sources == contexts[j].1.sources ==>
      AgreeOn(contexts[i].1.sources.files, contexts[i].1.roots, contexts[j].1.roots)
  }

  /** Over any consistent sequence of calls every answer is the one computed from scratch for its own context. */
  method ResolveAll(parser: TreeSitterParser, contexts: seq<(Source, Context)>) returns (results: seq<Resolution>)
    requires parser.Valid() && parser.cachedSources == null && Consistent(contexts)
    modifies parser
    ensures |results| == |contexts|
    ensures forall i :: 0 <= i < |contexts| ==> var (source, ctx) := contexts[i];
      results[i] == ResolveBy(parser.profile, IndexOf(parser.profile, ctx.sources.files, ctx.roots), source, ctx.current)
  {
    hide ResolveBy, IndexOf, AgreeOn;
    results := [];
    for k := 0 to |contexts|
      invariant parser.Valid() && |results| == k
      invariant parser.cachedSources != null ==>
        exists j :: 0 <= j < k && contexts[j].1.sources == parser.cachedSources && contexts[j].1.roots == parser.cachedRoots
      invariant forall i :: 0 <= i < k ==> var (source, ctx) := contexts[i];
        results[i] == ResolveBy(parser.profile, IndexOf(parser.profile, ctx.sources.files, ctx.roots), source, ctx.current)
    {
      var (source, ctx) := contexts[k];
      SameIndexIff(parser.profile, ctx.sources.files, parser.EffectiveRoots(ctx), ctx.roots);
      var r := parser.ResolveDependencies(source, ctx);
      results := results + [r];
    }
  }

  // ----- the direct definition -----

  /** A text that may be read for dependencies: not over one mebibyte, and its extraction succeeds. */
  ghost predicate Readable(profile: Profile, source: Source) {
    source.byteLength <= 1024 * 1024 && profile.extract(source.text).Some?
  }

  /** A path lies under a root when it goes on from it; without roots every path counts. */
  lemma UnderAnyRootMeans(path: Path, roots: seq<Path>)
    ensures UnderAnyRoot(path, roots) <==> roots == [] || exists root, rest :: root in roots && path == root + rest
  {
    if UnderAnyRoot(path, roots) && roots != [] {
      var i :| 0 <= i < |roots| && roots[i] <= path;
      assert roots[i] in roots && path == roots[i] + path[|roots[i]|..];
    }
  }

  /** The file at i is under a root, can be read for dependencies, and declares the name. */
  ghost predicate Declares(profile: Profile, files: seq<(Path, Source)>, roots: seq<Path>, i: nat, name: string) {
    && i < |files| && UnderAnyRoot(files[i].0, roots)
    && Readable(profile, files[i].1) && name in profile.extract(files[i].1.text).value.declared
  }

  function DeclarersIn(declarers: map<string, seq<Path>>, name: string): seq<Path> {
    if name in declarers then declarers[name] else []
  }

  function Repeated(path: Path, n: nat): seq<Path> {
    seq(n, _ => path)
  }

  /** The declarers of one name: file by file, each as often as it declares the name. */
  ghost function DeclarersOf(profile: Profile, files: seq<(Path, Source)>, roots: seq<Path>, name: string): seq<Path> {
    if files == [] then [] else
      var (path, source) := files[|files| - 1];
      DeclarersOf(profile, files[..|files| - 1], roots, name)
      + if UnderAnyRoot(path, roots) && Readable(profile, source)
        then Repeated(path, multiset(profile.extract(source.text).value.declared)[name]) else []
  }

  lemma {:induction false} AddDeclarerInOrder(declarers: map<string, seq<Path>>, names: seq<string>, path: Path, name: string)
    ensures DeclarersIn(AddDeclarer(declarers, names, path), name) == DeclarersIn(declarers, name) + Repeated(path, multiset(names)[name])
  {
    if names == [] {
      assert Repeated(path, 0) == [];
    } else {
      var last := |names| - 1;
      assert names == names[..last] + [names[last]];
      AddDeclarerInOrder(declarers, names[..last], path, name);
      SnocCount(names[..last], names[last], name);
      assert names[last] == name ==> Repeated(path, multiset(names)[name]) == Repeated(path, multiset(names[..last])[name]) + [path];
    }
  }

  /** The index lists the declarers of a name in the order of the files. */
  lemma {:induction false} DeclarersInOrder(profile: Profile, files: seq<(Path, Source)>, roots: seq<Path>, targets: set<Path>, name: string)
    ensures DeclarersIn(AddFiles(profile, files, roots, DepsIndex(map[], map[], targets)).declarers, name) == DeclarersOf(profile, files, roots, name)
  {
    hide AddDeclarer, UnderAnyRoot;
    if files != [] {
      var last := |files| - 1;
      DeclarersInOrder(profile, files[..last], roots, targets, name);
      var before := AddFiles(profile, files[..last], roots, DepsIndex(map[], map[], targets));
      var extraction := ExtractSafe(profile, files[last].1);
      if extraction.Some? {
        AddDeclarerInOrder(before.declarers, extraction.value.declared, files[last].0, name);
      }
    }
  }

  lemma {:induction false} AddDeclarerExact(declarers: map<string, seq<Path>>, names: seq<string>, path: Path, name: string, p: Path)
    ensures var r := AddDeclarer(declarers, names, path);
      (name in r && p in r[name]) <==> (name in declarers && p in declarers[name]) || (name in names && p == path)
  {
    if names != [] {
      var last := |names| - 1;
      assert names == names[..last] + [names[last]];
      AddDeclarerExact(declarers, names[..last], path, name, p);
    }
  }

  /** The index lists as declarers of a name exactly the in-root files that declare it. */
  lemma {:induction false} DeclarersExact(profile: Profile, files: seq<(Path, Source)>, roots: seq<Path>, targets: set<Path>, name: string, p: Path)
    ensures var index := AddFiles(profile, files, roots, DepsIndex(map[], map[], targets));
      (name in index.declarers && p in index.declarers[name])
      <==> exists i: nat :: Declares(profile, files, roots, i, name) && files[i].0 == p
  {
    if files != [] {
      var last := |files| - 1;
      var rest := files[..last];
      DeclarersExact(profile, rest, roots, targets, name, p);
      var before := AddFiles(profile, rest, roots, DepsIndex(map[], map[], targets));
      assert forall i: nat :: i < last ==> (Declares(profile, files, roots, i, name) <==> Declares(profile, rest, roots, i, name));
      if ExtractSafe(profile, files[last].1).Some? {
        AddDeclarerExact(before.declarers, ExtractSafe(profile, files[last].1).value.declared, files[last].0, name, p);
      }
      if Declares(profile, files, roots, last, name) && files[last].0 == p {
        assert exists i: nat :: Declares(profile, files, roots, i, name) && files[i].0 == p;
      }
      if exists i: nat :: Declares(profile, rest, roots, i, name) && rest[i].0 == p {
        var i: nat :| Declares(profile, rest, roots, i, name) && rest[i].0 == p;
        assert Declares(profile, files, roots, i, name) && files[i].0 == p;
      }
    }
  }

  /** References are followed in the order they stand in. */
  lemma {:induction false} MentionsInOrder(profile: Profile, index: DepsIndex, current: Path, a: seq<string>, b: seq<string>)
    ensures Mentions(profile, index, current, a + b) == Mentions(profile, index, current, a) + Mentions(profile, index, current, b)
  {
    hide MentionsOf;
    if b == [] {
      assert a + b == a;
    } else {
      assert (a + b)[..|a + b| - 1] == a + b[..|b| - 1];
      MentionsInOrder(profile, index, current, a, b[..|b| - 1]);
    }
  }

  lemma {:induction false} MentionedExactly(profile: Profile, index: DepsIndex, current: Path, referenced: seq<string>, p: Path)
    ensures p in Mentions(profile, index, current, referenced)
      <==> exists k :: 0 <= k < |referenced| && p in MentionsOf(profile, index, current, referenced[k])
  {
    hide MentionsOf;
    if referenced != [] {
      var last := |referenced| - 1;
      MentionedExactly(profile, index, current, referenced[..last], p);
      assert forall k :: 0 <= k < last ==> referenced[..last][k] == referenced[k];
    }
  }

  /** Under the namespace strategy the answer holds, without repetition, exactly the other in-root files
      that declare a referenced namespace. */
  lemma NamespaceResolutionExact(profile: Profile, files: seq<(Path, Source)>, roots: seq<Path>, current: Path, referenced: seq<string>, p: Path)
    requires profile.strategy == NamespaceIndex
    ensures var r := FirstUses(Mentions(profile, IndexOf(profile, files, roots), current, referenced), current);
      && (p in r <==> p != current && exists i: nat, k ::
            0 <= k < |referenced| && Declares(profile, files, roots, i, referenced[k]) && files[i].0 == p)
      && NoRepeats(r)
  {
    var index := IndexOf(profile, files, roots);
    FirstUsesExact(Mentions(profile, index, current, referenced), current);
    MentionedExactly(profile, index, current, referenced, p);
    forall k | 0 <= k < |referenced|
      ensures p in MentionsOf(profile, index, current, referenced[k])
        <==> exists i: nat :: Declares(profile, files, roots, i, referenced[k]) && files[i].0 == p
    {
      DeclarersExact(profile, files, roots, Targets(files, roots), referenced[k], p);
    }
  }

  /** A relative import of `current` resolves to p: taken from the directory the file stands in it names a path that does
      not climb out, and p is the first candidate for that path that is a target. */
  ghost predicate ImportMeans(profile: Profile, targets: set<Path>, current: Path, specifier: string, p: Path) {
    && ("./" <= specifier || "../" <= specifier)
    && current != [] && !current[|current| - 1].RootDir?
    && var path := Normalized(current[..|current| - 1] + profile.components(specifier));
       path.Some? && IsFirstPresent(CandidatePaths(path.value), targets, Some(p))
  }

  lemma OneFirstPresent(candidates: seq<Path>, targets: set<Path>, r: Option<Path>, s: Option<Path>)
    requires IsFirstPresent(candidates, targets, r) && IsFirstPresent(candidates, targets, s)
    ensures r == s
  {
  }

  lemma ImportResolves(profile: Profile, index: DepsIndex, current: Path, specifier: string, p: Path)
    requires profile.strategy == RelativePath
    ensures p in MentionsOf(profile, index, current, specifier) <==> ImportMeans(profile, index.targets, current, specifier, p)
  {
    hide Normalized, CandidatePaths, IsFirstPresent, ResolveRelative;
    if Parent(current).Some? {
      var r := ResolveRelative(Parent(current).value, profile.components(specifier), index.targets);
      var path := Normalized(Parent(current).value + profile.components(specifier));
      ResolvesWithinTargets(Parent(current).value, profile.components(specifier), index.targets);
      if path.Some? && IsFirstPresent(CandidatePaths(path.value), index.targets, Some(p)) {
        OneFirstPresent(CandidatePaths(path.value), index.targets, r, Some(p));
      }
    }
  }

  lemma ImportIsTarget(profile: Profile, targets: set<Path>, current: Path, specifier: string, p: Path)
    requires ImportMeans(profile, targets, current, specifier, p)
    ensures p in targets
  {
    hide Normalized, CandidatePaths;
  }

  /** Under the relative strategy the answer holds, without repetition, exactly what the relative imports resolve to
      other than the file itself, and all of it is scanned files under a root. */
  lemma RelativeResolutionExact(profile: Profile, files: seq<(Path, Source)>, roots: seq<Path>, current: Path, referenced: seq<string>, p: Path)
    requires profile.strategy == RelativePath
    ensures var r := FirstUses(Mentions(profile, IndexOf(profile, files, roots), current, referenced), current);
      && (p in r <==> p != current && exists k :: 0 <= k < |referenced| && ImportMeans(profile, Targets(files, roots), current, referenced[k], p))
      && (p in r ==> exists i :: 0 <= i < |files| && files[i].0 == p && UnderAnyRoot(p, roots))
      && NoRepeats(r)
  {
    hide ImportMeans, MentionsOf, AddFiles;
    var index := IndexOf(profile, files, roots);
    FirstUsesExact(Mentions(profile, index, current, referenced), current);
    MentionedExactly(profile, index, current, referenced, p);
    TargetsKept(profile, files, roots, DepsIndex(map[], map[], Targets(files, roots)));
    forall k | 0 <= k < |referenced|
      ensures p in MentionsOf(profile, index, current, referenced[k]) <==> ImportMeans(profile, Targets(files, roots), current, referenced[k], p)
      ensures ImportMeans(profile, Targets(files, roots), current, referenced[k], p) ==> p in Targets(files, roots)
    {
      ImportResolves(profile, index, current, referenced[k], p);
      if ImportMeans(profile, Targets(files, roots), current, referenced[k], p) {
        ImportIsTarget(profile, Targets(files, roots), current, referenced[k], p);
      }
    }
  }

  lemma {:induction false} TargetsKept(profile: Profile, files: seq<(Path, Source)>, roots: seq<Path>, index: DepsIndex)
    ensures AddFiles(profile, files, roots, index).targets == index.targets
  {
    if files != [] {
      TargetsKept(profile, files[..|files| - 1], roots, index);
    }
  }

  /** The references looked up are those of the last readable copy of the file. */
  lemma {:induction false} ReferencesExact(profile: Profile, files: seq<(Path, Source)>, roots: seq<Path>, index: DepsIndex, i: nat)
    requires i < |files| && LastCopy(profile, files, files[i].0, i)
    ensures var r := AddFiles(profile, files, roots, index).references;
      files[i].0 in r && r[files[i].0] == profile.extract(files[i].1.text).value.referenced
  {
    if i < |files| - 1 {
      ReferencesExact(profile, files[..|files| - 1], roots, index, i);
    }
  }

  lemma {:induction false} AgreeingAddFiles(profile: Profile, files: seq<(Path, Source)>, roots: seq<Path>, others: seq<Path>, index: DepsIndex)
    requires AgreeOn(files, roots, others)
    ensures AddFiles(profile, files, roots, index) == AddFiles(profile, files, others, index)
  {
    if files != [] {
      AgreeingAddFiles(profile, files[..|files| - 1], roots, others, index);
    }
  }

  /** Two lists of roots give the same index exactly when the same files lie under them. */
  lemma SameIndexIff(profile: Profile, files: seq<(Path, Source)>, roots: seq<Path>, others: seq<Path>)
    ensures IndexOf(profile, files, roots) == IndexOf(profile, files, others) <==> AgreeOn(files, roots, others)
  {
    hide UnderAnyRoot, AddFiles;
    if AgreeOn(files, roots, others) {
      assert Targets(files, roots) == Targets(files, others);
      AgreeingAddFiles(profile, files, roots, others, DepsIndex(map[], map[], Targets(files, roots)));
    }
    if IndexOf(profile, files, roots) == IndexOf(profile, files, others) {
      TargetsKept(profile, files, roots, DepsIndex(map[], map[], Targets(files, roots)));
      TargetsKept(profile, files, others, DepsIndex(map[], map[], Targets(files, others)));
      assert forall i :: 0 <= i < |files| && UnderAnyRoot(files[i].0, roots) ==> files[i].0 in Targets(files, roots);
      assert forall i :: 0 <= i < |files| && UnderAnyRoot(files[i].0, others) ==> files[i].0 in Targets(files, others);
    }
  }

  /** The file at i is the last readable copy of `current`. */
  ghost predicate LastCopy(profile: Profile, files: seq<(Path, Source)>, current: Path, i: nat) {
    && i < |files| && files[i].0 == current && Readable(profile, files[i].1)
    && forall j :: i < j < |files| && files[j].0 == current ==> !Readable(profile, files[j].1)
  }

  /** What `current` references: by its last readable copy among the sources, else by the text at hand. */
  ghost function ReferencesOf(profile: Profile, files: seq<(Path, Source)>, source: Source, current: Path): Option<seq<string>> {
    if exists i: nat :: LastCopy(profile, files, current, i) then
      var i: nat :| LastCopy(profile, files, current, i);
      Some(profile.extract(files[i].1.text).value.referenced)
    else if Readable(profile, source) then Some(profile.extract(source.text).value.referenced)
    else None
  }

  lemma {:induction false} NoCopyNoReferences(profile: Profile, files: seq<(Path, Source)>, roots: seq<Path>, index: DepsIndex, current: Path)
    requires current !in index.references && forall i: nat :: !LastCopy(profile, files, current, i)
    ensures current !in AddFiles(profile, files, roots, index).references
  {
    if files != [] {
      var rest := files[..|files| - 1];
      assert !LastCopy(profile, files, current, |rest|);
      forall i: nat
        ensures !LastCopy(profile, rest, current, i)
      {
        assert !LastCopy(profile, files, current, i);
      }
      NoCopyNoReferences(profile, rest, roots, index, current);
    }
  }

  /** An answer is refused for its size or for want of a readable text, and otherwise follows what the file references. */
  lemma AnswerFollows(profile: Profile, files: seq<(Path, Source)>, roots: seq<Path>, source: Source, current: Path)
    ensures
      var index := IndexOf(profile, files, roots);
      var references := ReferencesOf(profile, files, source, current);
      ResolveBy(profile, index, source, current) ==
        if source.byteLength > 1024 * 1024 then TooLarge
        else if references.None? then TooComplex
        else Resolved(FirstUses(Mentions(profile, index, current, references.value), current))
  {
    hide FirstUses, Mentions, AddFiles;
    var start := DepsIndex(map[], map[], Targets(files, roots));
    if exists i: nat :: LastCopy(profile, files, current, i) {
      var i: nat :| LastCopy(profile, files, current, i) && ReferencesOf(profile, files, source, current) == Some(profile.extract(files[i].1.text).value.referenced);
      ReferencesExact(profile, files, roots, start, i);
    } else {
      NoCopyNoReferences(profile, files, roots, start, current);
    }
  }

  /** The whole answer under the namespace strategy: refused for its size or for want of a readable text, otherwise
      without repetition exactly the other files under a root that declare a namespace the file references. */
  lemma AnswerExact(profile: Profile, files: seq<(Path, Source)>, roots: seq<Path>, source: Source, current: Path, p: Path)
    requires profile.strategy == NamespaceIndex
    ensures
      var r := ResolveBy(profile, IndexOf(profile, files, roots), source, current);
      var references := ReferencesOf(profile, files, source, current);
      && (r.TooLarge? <==> source.byteLength > 1024 * 1024)
      && (r.TooComplex? <==> source.byteLength <= 1024 * 1024 && references.None?)
      && (r.Resolved? ==> NoRepeats(r.paths) && (p in r.paths <==> p != current && exists i: nat, k ::
            0 <= k < |references.value| && Declares(profile, files, roots, i, references.value[k]) && files[i].0 == p))
  {
    hide ResolveBy, ReferencesOf, IndexOf, FirstUses, Mentions, Declares;
    AnswerFollows(profile, files, roots, source, current);
    var references := ReferencesOf(profile, files, source, current);
    if references.Some? {
      NamespaceResolutionExact(profile, files, roots, current, references.value, p);
    }
  }

  /** The whole answer under the relative strategy: refused for the same two reasons, otherwise without repetition exactly
      what the relative imports of the file resolve to, other than the file itself. */
  lemma RelativeAnswerExact(profile: Profile, files: seq<(Path, Source)>, roots: seq<Path>, source: Source, current: Path, p: Path)
    requires profile.strategy == RelativePath
    ensures
      var r := ResolveBy(profile, IndexOf(profile, files, roots), source, current);
      var references := ReferencesOf(profile, files, source, current);
      && (r.TooLarge? <==> source.byteLength > 1024 * 1024)
      && (r.TooComplex? <==> source.byteLength <= 1024 * 1024 && references.None?)
      && (r.Resolved? ==> NoRepeats(r.paths) && (p in r.paths <==> p != current && exists k ::
            0 <= k < |references.value| && ImportMeans(profile, Targets(files, roots), current, references.value[k], p)))
  {
    hide ResolveBy, ReferencesOf, IndexOf, FirstUses, Mentions, ImportMeans, Targets;
    AnswerFollows(profile, files, roots, source, current);
    var references := ReferencesOf(profile, files, source, current);
    if references.Some? {
      RelativeResolutionExact(profile, files, roots, current, references.value, p);
    }
  }

  const FILE_A: Path := [Normal("a")]
  const FILE_B: Path := [Normal("b")]
  const ELSEWHERE: seq<Path> := [[Normal("z")]]
  const USING: Source := Source("using", 5)

  /** a declares the namespace that b uses. */
  const TWO_FILES: seq<(Path, Source)> := [(FILE_A, Source("namespace", 9)), (FILE_B, USING)]

  const TWO_PROFILE: Profile :=
    Profile((text: string) => if text == "namespace" then Some(Extraction(["N"], [])) else Some(Extraction([], ["N"])),
            (text: string) => [], NamespaceIndex)

  lemma TwoFilesAnswer(roots: seq<Path>)
    requires roots == [] || roots == ELSEWHERE
    ensures ResolveBy(TWO_PROFILE, IndexOf(TWO_PROFILE, TWO_FILES, roots), USING, FILE_B) == Resolved(if roots == [] then [FILE_A] else [])
  {
    hide IndexOf, ResolveBy;
    var r := ResolveBy(TWO_PROFILE, IndexOf(TWO_PROFILE, TWO_FILES, roots), USING, FILE_B);
    assert LastCopy(TWO_PROFILE, TWO_FILES, FILE_B, 1);
    assert UnderAnyRoot(FILE_A, roots) <==> roots == [] by { assert !(ELSEWHERE[0] <= FILE_A) by { assert ELSEWHERE[0][0] != FILE_A[0]; } }
    assert Declares(TWO_PROFILE, TWO_FILES, roots, 0, "N") <==> roots == [];
    assert ReferencesOf(TWO_PROFILE, TWO_FILES, USING, FILE_B) == Some(["N"]);
    AnswerExact(TWO_PROFILE, TWO_FILES, roots, USING, FILE_B, FILE_A);
    assert r.Resolved?;
    forall p
      ensures p in r.paths <==> p == FILE_A && roots == []
    {
      AnswerExact(TWO_PROFILE, TWO_FILES, roots, USING, FILE_B, p);
    }
    OnlyOne(r.paths, FILE_A);
  }

  lemma OnlyOne(paths: seq<Path>, p: Path)
    requires NoRepeats(paths) && forall q :: q in paths ==> q == p
    ensures paths == [] || paths == [p]
  {
    if paths != [] {
      assert paths[0] in paths && paths[|paths| - 1] in paths;
    }
  }

  /** One parser asked twice about the same sources under different roots: the second answer is the one for the first
      roots, not the one a parser asked only under the second roots gives. */
  method StaleRoots() returns (second: Resolution, own: Resolution)
    ensures second == Resolved([FILE_A]) && own == Resolved([])
  {
    hide ResolveBy, IndexOf;
    var sources := new Sources(TWO_FILES);
    var anywhere, elsewhere := Context(FILE_B, sources, []), Context(FILE_B, sources, ELSEWHERE);
    var asked := new TreeSitterParser(TWO_PROFILE);
    var first := asked.ResolveDependencies(USING, anywhere);
    second := asked.ResolveDependencies(USING, elsewhere);
    var another := new TreeSitterParser(TWO_PROFILE);
    own := another.ResolveDependencies(USING, elsewhere);
    TwoFilesAnswer([]);
    TwoFilesAnswer(ELSEWHERE);
  }
}
