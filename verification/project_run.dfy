/** A whole project run: every listed file is read, then measured, and ends either in the graph or among the
    unmeasurable ones; the exit code says whether the gate could decide on everything. */
module ProjectRun {
  import opened Graphs
  import opened Metrics
  import opened FileConsumptionGraphs
  import opened Wrappers

  const MAX_PROJECT_SOURCE_BYTES: nat := 100 * 1024 * 1024
  const KWH_TO_JOULES: real := 3600000.0

  datatype Reason =
    | NoSampler | NoTestsExecuted | SourceUnparseable | SourceUnreadable | SourceTooLarge | SourceTooComplex | UnsupportedLanguage

  datatype UnmeasurableFile = UnmeasurableFile(path: Node, reason: Reason)

  type Bytes = seq<bv8>

  datatype ReadOutcome = Text(source: Bytes) | ReadFailed

  datatype AnalysisOutcome = Analyzed(metrics: CodeMetrics) | NotMeasurable(reason: Reason) | AnalysisFailed

  type Sources = seq<(Node, Bytes)>

  /** What the run asks of the outside: the file reader, the parser registry and the parsers. */
  datatype Ports = Ports(
    read: Node -> ReadOutcome,
    dispatch: Node -> bool,
    analyze: (Node, Bytes) -> AnalysisOutcome,
    resolve: (Node, Sources) -> Option<seq<Node>>)

  /** What the walk found: the files, those it dropped and why, and whether it left out a whole subtree. */
  datatype Listing = Listing(files: seq<Node>, dropped: seq<UnmeasurableFile>, unexploredSubtree: bool)

  datatype RunResult =
    | TooMuchSource
    | NothingMeasured
    | Ran(graph: FileConsumptionGraph, unmeasurable: seq<UnmeasurableFile>, unexploredSubtree: bool)

  // ----- reading -----

  function SizeOf(o: ReadOutcome): nat {
    match o case Text(source) => |source| case ReadFailed => 0
  }

  /** The bytes of every listed file that can be read. */
  function ReadableBytes(ports: Ports, files: seq<Node>): nat {
    if files == [] then 0 else ReadableBytes(ports, files[..|files| - 1]) + SizeOf(ports.read(files[|files| - 1]))
  }

  function ReadableOne(ports: Ports, f: Node): Sources {
    match ports.read(f) case Text(source) => [(f, source)] case ReadFailed => []
  }

  function UnreadableOne(ports: Ports, f: Node): seq<UnmeasurableFile> {
    match ports.read(f) case Text(_) => [] case ReadFailed => [UnmeasurableFile(f, SourceUnreadable)]
  }

  function Readable(ports: Ports, files: seq<Node>): Sources {
    if files == [] then [] else Readable(ports, files[..|files| - 1]) + ReadableOne(ports, files[|files| - 1])
  }

  function Unreadable(ports: Ports, files: seq<Node>): seq<UnmeasurableFile> {
    if files == [] then [] else Unreadable(ports, files[..|files| - 1]) + UnreadableOne(ports, files[|files| - 1])
  }

  lemma {:induction false} BytesGrow(ports: Ports, files: seq<Node>, i: nat)
    requires i <= |files|
    ensures ReadableBytes(ports, files[..i]) <= ReadableBytes(ports, files)
    decreases |files| - i
  {
    if i < |files| {
      assert files[..i + 1][..i] == files[..i];
      BytesGrow(ports, files, i + 1);
    } else {
      assert files[..i] == files;
    }
  }

  /** The running total is checked after every file; it is over the limit somewhere exactly when the whole is. */
  method ReadAllSources(ports: Ports, files: seq<Node>, unmeasurable: seq<UnmeasurableFile>)
    returns (sources: Option<Sources>, after: seq<UnmeasurableFile>)
    ensures sources.None? <==> ReadableBytes(ports, files) > MAX_PROJECT_SOURCE_BYTES
    ensures sources.Some? ==> sources.value == Readable(ports, files) && after == unmeasurable + Unreadable(ports, files)
  {
    var read: Sources := [];
    after := unmeasurable;
    var totalBytes := 0;
    for i := 0 to |files|
      invariant totalBytes == ReadableBytes(ports, files[..i]) <= MAX_PROJECT_SOURCE_BYTES
      invariant read == Readable(ports, files[..i])
      invariant after == unmeasurable + Unreadable(ports, files[..i])
    {
      assert files[..i + 1][..i] == files[..i];
      match ports.read(files[i]) {
        case Text(source) =>
          totalBytes := totalBytes + |source|;
          if totalBytes > MAX_PROJECT_SOURCE_BYTES {
            BytesGrow(ports, files, i + 1);
            return None, after;
          }
          read := read + [(files[i], source)];
        case ReadFailed =>
          after := after + [UnmeasurableFile(files[i], SourceUnreadable)];
      }
    }
    assert files[..|files|] == files;
    sources := Some(read);
  }

  // ----- measuring -----

  type PerFile = seq<(Node, CodeMetrics)>

  function MeasuredOne(ports: Ports, f: Node, source: Bytes): PerFile {
    if !ports.dispatch(f) then [] else match ports.analyze(f, source) case Analyzed(m) => [(f, m)] case _ => []
  }

  /** Why a file that was read could not be measured, if it could not. */
  function RefusedOne(ports: Ports, f: Node, source: Bytes): seq<UnmeasurableFile> {
    if !ports.dispatch(f) then [UnmeasurableFile(f, UnsupportedLanguage)] else
      match ports.analyze(f, source)
      case Analyzed(_) => []
      case NotMeasurable(reason) => [UnmeasurableFile(f, reason)]
      case AnalysisFailed => [UnmeasurableFile(f, SourceUnparseable)]
  }

  function Measured(ports: Ports, sources: Sources): PerFile {
    if sources == [] then [] else
      Measured(ports, sources[..|sources| - 1]) + MeasuredOne(ports, sources[|sources| - 1].0, sources[|sources| - 1].1)
  }

  function Refusals(ports: Ports, sources: Sources): seq<UnmeasurableFile> {
    if sources == [] then [] else
      Refusals(ports, sources[..|sources| - 1]) + RefusedOne(ports, sources[|sources| - 1].0, sources[|sources| - 1].1)
  }

  function Links(from: Node, targets: seq<Node>): seq<FileDependency> {
    seq(|targets|, i requires 0 <= i < |targets| => FileDependency(from, targets[i]))
  }

  function ResolvedOne(ports: Ports, f: Node, all: Sources): seq<FileDependency> {
    if !ports.dispatch(f) then [] else match ports.resolve(f, all) case Some(targets) => Links(f, targets) case None => []
  }

  /** Every dependency some parser resolved, measured or not, seen against all the sources. */
  function Resolved(ports: Ports, sources: Sources, all: Sources): seq<FileDependency> {
    if sources == [] then [] else Resolved(ports, sources[..|sources| - 1], all) + ResolvedOne(ports, sources[|sources| - 1].0, all)
  }

  lemma NextSource(ports: Ports, sources: Sources, i: nat)
    requires i < |sources|
    ensures Measured(ports, sources[..i + 1]) == Measured(ports, sources[..i]) + MeasuredOne(ports, sources[i].0, sources[i].1)
    ensures Refusals(ports, sources[..i + 1]) == Refusals(ports, sources[..i]) + RefusedOne(ports, sources[i].0, sources[i].1)
    ensures Resolved(ports, sources[..i + 1], sources) == Resolved(ports, sources[..i], sources) + ResolvedOne(ports, sources[i].0, sources)
  {
    hide MeasuredOne, RefusedOne, ResolvedOne;
    assert sources[..i + 1][..i] == sources[..i];
  }

  /** One source: measured or refused with the reason its failure gives, and its dependencies resolved in either case. */
  method MeasureFile(ports: Ports, f: Node, source: Bytes, sources: Sources)
    returns (measured: PerFile, refused: seq<UnmeasurableFile>, deps: seq<FileDependency>)
    ensures measured == MeasuredOne(ports, f, source) && refused == RefusedOne(ports, f, source)
    ensures deps == ResolvedOne(ports, f, sources)
  {
    measured, refused, deps := [], [], [];
    if !ports.dispatch(f) {
      return [], [UnmeasurableFile(f, UnsupportedLanguage)], [];
    }
    match ports.analyze(f, source) {
      case Analyzed(m) => measured := [(f, m)];
      case NotMeasurable(reason) => refused := [UnmeasurableFile(f, reason)];
      case AnalysisFailed => refused := [UnmeasurableFile(f, SourceUnparseable)];
    }
    match ports.resolve(f, sources) {
      case Some(targets) => deps := Links(f, targets);
      case None =>
    }
  }

  method MeasureAll(ports: Ports, sources: Sources, unmeasurable: seq<UnmeasurableFile>)
    returns (perFile: PerFile, after: seq<UnmeasurableFile>, deps: seq<FileDependency>)
    ensures perFile == Measured(ports, sources)
    ensures after == unmeasurable + Refusals(ports, sources)
    ensures deps == Resolved(ports, sources, sources)
  {
    perFile, after, deps := [], unmeasurable, [];
    assert sources[..0] == [] && unmeasurable + [] == unmeasurable;
    hide Measured, Refusals, Resolved, MeasuredOne, RefusedOne, ResolvedOne;
    for i := 0 to |sources|
      invariant perFile == Measured(ports, sources[..i])
      invariant after == unmeasurable + Refusals(ports, sources[..i])
      invariant deps == Resolved(ports, sources[..i], sources)
    {
      NextSource(ports, sources, i);
      var measured, refused, resolved := MeasureFile(ports, sources[i].0, sources[i].1, sources);
      perFile, after, deps := perFile + measured, after + refused, deps + resolved;
    }
    assert sources[..|sources|] == sources;
  }

  // ----- dangling edges -----

  ghost function Kept(perFile: PerFile, deps: seq<FileDependency>): seq<FileDependency> {
    if deps == [] then [] else
      Kept(perFile, deps[..|deps| - 1]) + if Dangling(perFile, deps[|deps| - 1]) then [] else [deps[|deps| - 1]]
  }

  lemma {:induction false} KeptExactly(perFile: PerFile, deps: seq<FileDependency>, d: FileDependency)
    ensures d in Kept(perFile, deps) <==> d in deps && !Dangling(perFile, d)
  {
    if deps != [] {
      var last := |deps| - 1;
      assert deps == deps[..last] + [deps[last]];
      KeptExactly(perFile, deps[..last], d);
    }
  }

  /** Dropping some keeps the others in order, as often as they were given. */
  lemma {:induction false} KeptInOrder(perFile: PerFile, a: seq<FileDependency>, b: seq<FileDependency>)
    ensures Kept(perFile, a + b) == Kept(perFile, a) + Kept(perFile, b)
  {
    hide Dangling;
    if b == [] {
      assert a + b == a;
    } else {
      assert (a + b)[..|a + b| - 1] == a + b[..|b| - 1];
      KeptInOrder(perFile, a, b[..|b| - 1]);
    }
  }

  /** Keeps, in order, exactly the dependencies between two measured files. */
  method DropDanglingEdges(perFile: PerFile, deps: seq<FileDependency>) returns (kept: seq<FileDependency>)
    ensures kept == Kept(perFile, deps)
    ensures forall d :: d in kept <==> d in deps && !Dangling(perFile, d)
  {
    var knownFiles := set i | 0 <= i < |perFile| :: perFile[i].0;
    assert forall p :: p in knownFiles <==> Listed(perFile, p);
    kept := [];
    for i := 0 to |deps|
      invariant kept == Kept(perFile, deps[..i])
    {
      assert deps[..i + 1][..i] == deps[..i];
      if deps[i].from in knownFiles && deps[i].to in knownFiles {
        kept := kept + [deps[i]];
      }
    }
    assert deps[..|deps|] == deps;
    forall d
      ensures d in kept <==> d in deps && !Dangling(perFile, d)
    {
      KeptExactly(perFile, deps, d);
    }
  }

  // ----- nothing is lost -----

  function Paths(files: seq<UnmeasurableFile>): multiset<Node> {
    if files == [] then multiset{} else Paths(files[..|files| - 1]) + multiset{files[|files| - 1].path}
  }

  function PathsIn<T>(files: seq<(Node, T)>): multiset<Node> {
    if files == [] then multiset{} else PathsIn(files[..|files| - 1]) + multiset{files[|files| - 1].0}
  }

  lemma {:induction false} PathsConcat(a: seq<UnmeasurableFile>, b: seq<UnmeasurableFile>)
    ensures Paths(a + b) == Paths(a) + Paths(b)
  {
    if b == [] {
      assert a + b == a;
    } else {
      assert (a + b)[..|a + b| - 1] == a + b[..|b| - 1];
      PathsConcat(a, b[..|b| - 1]);
    }
  }

  lemma {:induction false} PathsInConcat<T>(a: seq<(Node, T)>, b: seq<(Node, T)>)
    ensures PathsIn(a + b) == PathsIn(a) + PathsIn(b)
  {
    if b == [] {
      assert a + b == a;
    } else {
      assert (a + b)[..|a + b| - 1] == a + b[..|b| - 1];
      PathsInConcat(a, b[..|b| - 1]);
    }
  }

  lemma {:induction false} PathsCount(files: seq<UnmeasurableFile>)
    ensures |Paths(files)| == |files|
  {
    if files != [] {
      PathsCount(files[..|files| - 1]);
    }
  }

  lemma ReadingOne(ports: Ports, f: Node)
    ensures PathsIn(ReadableOne(ports, f)) + Paths(UnreadableOne(ports, f)) == multiset{f}
  {
  }

  lemma {:induction false} ReadingConserves(ports: Ports, files: seq<Node>)
    ensures PathsIn(Readable(ports, files)) + Paths(Unreadable(ports, files)) == multiset(files)
  {
    hide ReadableOne, UnreadableOne, PathsIn, Paths;
    if files == [] {
      NoPaths<Bytes>();
    } else {
      var last := |files| - 1;
      ReadingConserves(ports, files[..last]);
      ReadingOne(ports, files[last]);
      PathsInConcat(Readable(ports, files[..last]), ReadableOne(ports, files[last]));
      PathsConcat(Unreadable(ports, files[..last]), UnreadableOne(ports, files[last]));
      assert files == files[..last] + [files[last]];
    }
  }

  lemma NoPaths<T>()
    ensures PathsIn<T>([]) == multiset{} && Paths([]) == multiset{}
  {
  }

  lemma LastPath<T>(files: seq<(Node, T)>)
    requires files != []
    ensures PathsIn(files) == PathsIn(files[..|files| - 1]) + multiset{files[|files| - 1].0}
  {
  }

  lemma MeasuringOne(ports: Ports, f: Node, source: Bytes)
    ensures PathsIn(MeasuredOne(ports, f, source)) + Paths(RefusedOne(ports, f, source)) == multiset{f}
  {
  }

  lemma {:induction false} MeasuringConserves(ports: Ports, sources: Sources)
    ensures PathsIn(Measured(ports, sources)) + Paths(Refusals(ports, sources)) == PathsIn(sources)
  {
    hide MeasuredOne, RefusedOne, Paths, PathsIn;
    if sources == [] {
      NoPaths<CodeMetrics>();
      NoPaths<Bytes>();
    } else {
      var last := |sources| - 1;
      var (f, source) := sources[last];
      LastPath(sources);
      MeasuringConserves(ports, sources[..last]);
      MeasuringOne(ports, f, source);
      PathsInConcat(Measured(ports, sources[..last]), MeasuredOne(ports, f, source));
      PathsConcat(Refusals(ports, sources[..last]), RefusedOne(ports, f, source));
    }
  }

  lemma {:induction false} MeasuredPathsAre(perFile: PerFile, paths: seq<Node>)
    requires |paths| == |perFile| && forall i :: 0 <= i < |perFile| ==> paths[i] == perFile[i].0
    ensures PathsIn(perFile) == multiset(paths)
  {
    if perFile != [] {
      var last := |perFile| - 1;
      MeasuredPathsAre(perFile[..last], paths[..last]);
      assert paths == paths[..last] + [paths[last]];
    }
  }

  // ----- what the outside says of one file -----

  /** A file that can be read, is dispatched and is analysed. */
  ghost predicate IsAnalysed(ports: Ports, f: Node) {
    ports.read(f).Text? && ports.dispatch(f) && ports.analyze(f, ports.read(f).source).Analyzed?
  }

  /** The analysed files among the listed ones, each with what its analysis gives. */
  ghost function AnalysedFiles(ports: Ports, files: seq<Node>): map<Node, CodeMetrics> {
    map f | f in files && IsAnalysed(ports, f) :: ports.analyze(f, ports.read(f).source).metrics
  }

  /** The same files as they are listed. */
  ghost function AnalysedInOrder(ports: Ports, files: seq<Node>): seq<Node> {
    if files == [] then [] else
      AnalysedInOrder(ports, files[..|files| - 1]) + if IsAnalysed(ports, files[|files| - 1]) then [files[|files| - 1]] else []
  }

  /** Why a listed file has no metrics. */
  ghost predicate Unmeasured(ports: Ports, f: Node, reason: Reason) {
    match ports.read(f)
    case ReadFailed => reason == SourceUnreadable
    case Text(source) =>
      if !ports.dispatch(f) then reason == UnsupportedLanguage else
        match ports.analyze(f, source)
        case Analyzed(_) => false
        case NotMeasurable(why) => reason == why
        case AnalysisFailed => reason == SourceUnparseable
  }

  lemma {:induction false} ReadableExactly(ports: Ports, files: seq<Node>, f: Node, source: Bytes)
    ensures (f, source) in Readable(ports, files) <==> f in files && ports.read(f) == Text(source)
  {
    if files != [] {
      assert files == files[..|files| - 1] + [files[|files| - 1]];
      ReadableExactly(ports, files[..|files| - 1], f, source);
    }
  }

  function TotalLength(sources: Sources): nat {
    if sources == [] then 0 else TotalLength(sources[..|sources| - 1]) + |sources[|sources| - 1].1|
  }

  /** The bytes that count are those of the sources kept. */
  lemma {:induction false} BytesOfReadable(ports: Ports, files: seq<Node>)
    ensures ReadableBytes(ports, files) == TotalLength(Readable(ports, files))
  {
    if files != [] {
      BytesOfReadable(ports, files[..|files| - 1]);
      assert Readable(ports, files[..|files| - 1]) + [] == Readable(ports, files[..|files| - 1]);
    }
  }

  lemma {:induction false} ReadableInOrder(ports: Ports, a: seq<Node>, b: seq<Node>)
    ensures Readable(ports, a + b) == Readable(ports, a) + Readable(ports, b)
  {
    hide ReadableOne;
    if b == [] {
      assert a + b == a;
    } else {
      assert (a + b)[..|a + b| - 1] == a + b[..|b| - 1];
      ReadableInOrder(ports, a, b[..|b| - 1]);
    }
  }

  lemma {:induction false} UnreadableExactly(ports: Ports, files: seq<Node>, u: UnmeasurableFile)
    ensures u in Unreadable(ports, files) <==> u.path in files && ports.read(u.path).ReadFailed? && u.reason == SourceUnreadable
  {
    if files != [] {
      assert files == files[..|files| - 1] + [files[|files| - 1]];
      UnreadableExactly(ports, files[..|files| - 1], u);
    }
  }

  /** Every entry stands for one source, and says of it what dispatch and analysis say. */
  lemma {:induction false} MeasuredExactly(ports: Ports, sources: Sources, f: Node, m: CodeMetrics)
    ensures (f, m) in Measured(ports, sources) <==>
      exists source :: (f, source) in sources && ports.dispatch(f) && ports.analyze(f, source) == Analyzed(m)
  {
    if sources != [] {
      var rest, last := sources[..|sources| - 1], sources[|sources| - 1];
      assert sources == rest + [last];
      MeasuredExactly(ports, rest, f, m);
    }
  }

  lemma {:induction false} RefusalsExactly(ports: Ports, sources: Sources, u: UnmeasurableFile)
    ensures u in Refusals(ports, sources) <==> exists source :: (u.path, source) in sources && u in RefusedOne(ports, u.path, source)
  {
    hide RefusedOne;
    if sources != [] {
      var rest, last := sources[..|sources| - 1], sources[|sources| - 1];
      assert sources == rest + [last];
      RefusedPath(ports, last.0, last.1);
      RefusalsExactly(ports, rest, u);
    }
  }

  lemma RefusedPath(ports: Ports, f: Node, source: Bytes)
    ensures forall u :: u in RefusedOne(ports, f, source) ==> u.path == f
  {
  }

  /** The refusals of a run: each listed file without metrics, for the reason it has none, and what the walk dropped. */
  lemma AllRefusalsExactly(ports: Ports, listing: Listing, u: UnmeasurableFile)
    ensures u in AllRefusals(ports, listing) <==> u in listing.dropped || (u.path in listing.files && Unmeasured(ports, u.path, u.reason))
  {
    hide Readable, Unreadable, Refusals;
    UnreadableExactly(ports, listing.files, u);
    RefusalsExactly(ports, Readable(ports, listing.files), u);
    forall source
      ensures (u.path, source) in Readable(ports, listing.files) <==> u.path in listing.files && ports.read(u.path) == Text(source)
    {
      ReadableExactly(ports, listing.files, u.path, source);
    }
  }

  lemma MeasuredIsAnalysed(ports: Ports, files: seq<Node>, f: Node, m: CodeMetrics)
    ensures (f, m) in Measured(ports, Readable(ports, files)) <==> f in AnalysedFiles(ports, files) && AnalysedFiles(ports, files)[f] == m
  {
    hide Readable, Measured;
    MeasuredExactly(ports, Readable(ports, files), f, m);
    forall source
      ensures (f, source) in Readable(ports, files) <==> f in files && ports.read(f) == Text(source)
    {
      ReadableExactly(ports, files, f, source);
    }
  }

  function PathList(perFile: PerFile): seq<Node> {
    seq(|perFile|, i requires 0 <= i < |perFile| => perFile[i].0)
  }

  lemma {:induction false} MeasuredConcat(ports: Ports, a: Sources, b: Sources)
    ensures Measured(ports, a + b) == Measured(ports, a) + Measured(ports, b)
  {
    hide MeasuredOne;
    if b == [] {
      assert a + b == a;
    } else {
      assert (a + b)[..|a + b| - 1] == a + b[..|b| - 1];
      MeasuredConcat(ports, a, b[..|b| - 1]);
    }
  }

  lemma MeasuredLast(ports: Ports, f: Node)
    ensures PathList(Measured(ports, ReadableOne(ports, f))) == if IsAnalysed(ports, f) then [f] else []
  {
    var one := ReadableOne(ports, f);
    assert one != [] ==> one[..0] == [];
  }

  /** The measured files stand in the order they are listed in. */
  lemma {:induction false} MeasuredInOrder(ports: Ports, files: seq<Node>)
    ensures PathList(Measured(ports, Readable(ports, files))) == AnalysedInOrder(ports, files)
  {
    if files != [] {
      var rest, f := files[..|files| - 1], files[|files| - 1];
      MeasuredInOrder(ports, rest);
      MeasuredLast(ports, f);
      MeasuredConcat(ports, Readable(ports, rest), ReadableOne(ports, f));
      hide Measured, ReadableOne, IsAnalysed;
      var a, b := Measured(ports, Readable(ports, rest)), Measured(ports, ReadableOne(ports, f));
      assert PathList(a + b) == PathList(a) + PathList(b);
    }
  }

  /** A graph built from the measured files holds the analysed files. */
  lemma GraphHoldsAnalysed(ports: Ports, files: seq<Node>, perFile: map<Node, CodeMetrics>)
    requires var measured := Measured(ports, Readable(ports, files));
      && (forall x :: x in perFile <==> Listed(measured, x))
      && forall i {:trigger LastEntry(measured, i)} :: LastEntry(measured, i) ==> measured[i].0 in perFile && perFile[measured[i].0] == measured[i].1
    ensures perFile == AnalysedFiles(ports, files)
  {
    hide Readable, Measured, AnalysedFiles;
    var measured, analysed := Measured(ports, Readable(ports, files)), AnalysedFiles(ports, files);
    forall x
      ensures x in perFile <==> x in analysed
      ensures x in perFile ==> perFile[x] == analysed[x]
    {
      if x in perFile {
        var k :| 0 <= k < |measured| && measured[k].0 == x;
        var i := HasLastEntry(measured, k);
        MeasuredIsAnalysed(ports, files, x, measured[i].1);
      }
      if x in analysed {
        MeasuredIsAnalysed(ports, files, x, analysed[x]);
      }
    }
  }

  /** A dependency between two analysed files, as the parser of its source resolves it. */
  ghost predicate DependsOn(ports: Ports, files: seq<Node>, from: Node, to: Node) {
    && from in AnalysedFiles(ports, files) && to in AnalysedFiles(ports, files)
    && var targets := ports.resolve(from, Readable(ports, files)); targets.Some? && to in targets.value
  }

  lemma LinksExactly(from: Node, targets: seq<Node>, d: FileDependency)
    ensures |Links(from, targets)| == |targets| && forall i :: 0 <= i < |targets| ==> Links(from, targets)[i] == FileDependency(from, targets[i])
    ensures d in Links(from, targets) <==> d.from == from && d.to in targets
  {
    if d.from == from && d.to in targets {
      var i :| 0 <= i < |targets| && targets[i] == d.to;
      assert Links(from, targets)[i] == d;
    }
  }

  /** Dependencies come file by file, in the order of the sources. */
  lemma {:induction false} ResolvedInOrder(ports: Ports, a: Sources, b: Sources, all: Sources)
    ensures Resolved(ports, a + b, all) == Resolved(ports, a, all) + Resolved(ports, b, all)
  {
    hide ResolvedOne;
    if b == [] {
      assert a + b == a;
    } else {
      assert (a + b)[..|a + b| - 1] == a + b[..|b| - 1];
      ResolvedInOrder(ports, a, b[..|b| - 1], all);
    }
  }

  lemma {:induction false} ResolvedExactly(ports: Ports, sources: Sources, all: Sources, d: FileDependency)
    ensures d in Resolved(ports, sources, all) <==>
      && (exists source :: (d.from, source) in sources) && ports.dispatch(d.from)
      && ports.resolve(d.from, all).Some? && d.to in ports.resolve(d.from, all).value
  {
    hide Links;
    if sources != [] {
      var rest, last := sources[..|sources| - 1], sources[|sources| - 1];
      assert sources == rest + [last];
      ResolvedExactly(ports, rest, all, d);
      if ports.resolve(last.0, all).Some? {
        LinksExactly(last.0, ports.resolve(last.0, all).value, d);
      }
    }
  }

  lemma ListedIsAnalysed(ports: Ports, files: seq<Node>, x: Node)
    ensures Listed(Measured(ports, Readable(ports, files)), x) <==> x in AnalysedFiles(ports, files)
  {
    hide Readable, Measured, AnalysedFiles;
    var measured := Measured(ports, Readable(ports, files));
    if Listed(measured, x) {
      var i :| 0 <= i < |measured| && measured[i].0 == x;
      MeasuredIsAnalysed(ports, files, x, measured[i].1);
    }
    if x in AnalysedFiles(ports, files) {
      MeasuredIsAnalysed(ports, files, x, AnalysedFiles(ports, files)[x]);
      assert (x, AnalysedFiles(ports, files)[x]) in measured;
    }
  }

  /** Of the resolved dependencies the run keeps those between analysed files, each from the file that imports to the
      file that is imported. */
  lemma KeptDependencies(ports: Ports, files: seq<Node>, d: FileDependency)
    ensures var sources := Readable(ports, files);
      d in Kept(Measured(ports, sources), Resolved(ports, sources, sources)) <==> DependsOn(ports, files, d.from, d.to)
  {
    var sources := Readable(ports, files);
    KeptExactly(Measured(ports, sources), Resolved(ports, sources, sources), d);
    ResolvedExactly(ports, sources, sources, d);
    ListedIsAnalysed(ports, files, d.from);
    ListedIsAnalysed(ports, files, d.to);
    if d.from in AnalysedFiles(ports, files) {
      ReadableExactly(ports, files, d.from, ports.read(d.from).source);
    }
  }

  // ----- the run -----

  function AllRefusals(ports: Ports, listing: Listing): seq<UnmeasurableFile> {
    listing.dropped + Unreadable(ports, listing.files) + Refusals(ports, Readable(ports, listing.files))
  }

  /** What the graph of a run holds: the analysed files as they are listed, each with its metrics, and the dependencies
      between two of them. */
  ghost predicate HoldsAnalysed(ports: Ports, files: seq<Node>, graph: FileConsumptionGraph) {
    && graph.files == AnalysedInOrder(ports, files)
    && graph.perFile == AnalysedFiles(ports, files)
    && (forall d :: d in graph.dependencies <==> DependsOn(ports, files, d.from, d.to))
  }

  /** What a run names as unmeasurable: what the walk dropped, and each listed file without metrics for its reason. */
  ghost predicate NamesUnmeasured(ports: Ports, listing: Listing, unmeasurable: seq<UnmeasurableFile>) {
    forall u :: u in unmeasurable <==> u in listing.dropped || (u.path in listing.files && Unmeasured(ports, u.path, u.reason))
  }

  /** How a run must end. */
  ghost predicate RunMeans(ports: Ports, listing: Listing, r: RunResult) {
    var sources := Readable(ports, listing.files);
    && (r.TooMuchSource? <==> TotalLength(sources) > MAX_PROJECT_SOURCE_BYTES)
    && (r.NothingMeasured? <==> !r.TooMuchSource? && AnalysedFiles(ports, listing.files) == map[])
    && (r.Ran? ==>
          && r.graph.Valid()
          && HoldsAnalysed(ports, listing.files, r.graph)
          && NamesUnmeasured(ports, listing, r.unmeasurable)
          && r.graph.dependencies == Kept(Measured(ports, sources), Resolved(ports, sources, sources))
          && r.unmeasurable == AllRefusals(ports, listing)
          && r.unexploredSubtree == listing.unexploredSubtree
          && multiset(r.graph.files) + Paths(r.unmeasurable) == multiset(listing.files) + Paths(listing.dropped))
  }

  lemma NothingMeasuredIff(ports: Ports, files: seq<Node>)
    ensures Measured(ports, Readable(ports, files)) == [] <==> AnalysedFiles(ports, files) == map[]
  {
    hide Readable, Measured, AnalysedFiles;
    var measured, analysed := Measured(ports, Readable(ports, files)), AnalysedFiles(ports, files);
    if measured != [] {
      MeasuredIsAnalysed(ports, files, measured[0].0, measured[0].1);
      assert measured[0].0 in analysed;
    }
    if analysed != map[] {
      assert analysed.Keys != {};
      var f :| f in analysed;
      MeasuredIsAnalysed(ports, files, f, analysed[f]);
    }
  }

  lemma RunNamesUnmeasured(ports: Ports, listing: Listing)
    ensures NamesUnmeasured(ports, listing, AllRefusals(ports, listing))
  {
    hide AllRefusals, Unmeasured;
    forall u
      ensures u in AllRefusals(ports, listing) <==> u in listing.dropped || (u.path in listing.files && Unmeasured(ports, u.path, u.reason))
    {
      AllRefusalsExactly(ports, listing, u);
    }
  }

  lemma GraphKeys(graph: FileConsumptionGraph, measured: PerFile)
    requires graph.Valid()
    requires |graph.files| == |measured| && forall i :: 0 <= i < |measured| ==> graph.files[i] == measured[i].0
    ensures forall x :: x in graph.perFile <==> Listed(measured, x)
  {
    forall x
      ensures x in graph.files <==> Listed(measured, x)
    {
      if x in graph.files {
        var i :| 0 <= i < |graph.files| && graph.files[i] == x;
        assert measured[i].0 == x;
      }
    }
  }

  lemma RunHoldsAnalysed(ports: Ports, files: seq<Node>, graph: FileConsumptionGraph)
    requires var sources := Readable(ports, files);
      var measured := Measured(ports, sources);
      && graph.dependencies == Kept(measured, Resolved(ports, sources, sources))
      && graph.Valid()
      && |graph.files| == |measured| && (forall i :: 0 <= i < |measured| ==> graph.files[i] == measured[i].0)
      && forall i {:trigger LastEntry(measured, i)} :: LastEntry(measured, i) ==>
           measured[i].0 in graph.perFile && graph.perFile[measured[i].0] == measured[i].1
    ensures HoldsAnalysed(ports, files, graph)
  {
    hide Readable, Measured, Resolved, Kept, AnalysedFiles, DependsOn;
    GraphKeys(graph, Measured(ports, Readable(ports, files)));
    hide Listed, FileConsumptionGraph.Valid, AnalysedInOrder;
    MeasuredInOrder(ports, files);
    assert graph.files == PathList(Measured(ports, Readable(ports, files)));
    GraphHoldsAnalysed(ports, files, graph.perFile);
    forall d
      ensures d in graph.dependencies <==> DependsOn(ports, files, d.from, d.to)
    {
      KeptDependencies(ports, files, d);
    }
  }

  /** The run fails only for too much source or for having measured nothing; a dependency on an unmeasured file
      never makes it fail. Otherwise every file the walk listed or dropped is in the graph or named as unmeasurable,
      as often as it was listed or dropped, and the graph holds of each file what its analysis gave. */
  method RunProject(ports: Ports, listing: Listing) returns (r: RunResult)
    ensures RunMeans(ports, listing, r)
  {
    hide Dangling, Readable, Unreadable, Measured, Refusals, Resolved, Kept, ReadableBytes, TotalLength, Paths, PathsIn, NamesUnmeasured, HoldsAnalysed, AnalysedFiles;
    hide FileConsumptionGraph.Valid;
    BytesOfReadable(ports, listing.files);
    var sources, unmeasurable := ReadAllSources(ports, listing.files, listing.dropped);
    if sources.None? {
      return TooMuchSource;
    }
    var perFile, after, deps := MeasureAll(ports, sources.value, unmeasurable);
    NothingMeasuredIff(ports, listing.files);
    if perFile == [] {
      return NothingMeasured;
    }
    var kept := DropDanglingEdges(perFile, deps);
    var built := Build(perFile, kept);
    r := Ran(built.graph, after, listing.unexploredSubtree);
    RunHoldsAnalysed(ports, listing.files, built.graph);
    RunNamesUnmeasured(ports, listing);
    NothingLost(ports, listing, built.graph.files);
  }

  lemma NothingLost(ports: Ports, listing: Listing, paths: seq<Node>)
    requires var measured := Measured(ports, Readable(ports, listing.files));
      |paths| == |measured| && forall i :: 0 <= i < |measured| ==> paths[i] == measured[i].0
    ensures multiset(paths) + Paths(AllRefusals(ports, listing)) == multiset(listing.files) + Paths(listing.dropped)
  {
    hide Readable, Unreadable, Measured, Refusals, Paths, PathsIn;
    var sources := Readable(ports, listing.files);
    ReadingConserves(ports, listing.files);
    MeasuringConserves(ports, sources);
    MeasuredPathsAre(Measured(ports, sources), paths);
    PathsConcat(listing.dropped, Unreadable(ports, listing.files));
    PathsConcat(listing.dropped + Unreadable(ports, listing.files), Refusals(ports, sources));
  }

  // ----- the gate -----

  datatype Thresholds = Thresholds(maxEnergyKwh: Option<real>, maxCo2Grams: Option<real>) {
    predicate Configured() {
      maxEnergyKwh.Some? || maxCo2Grams.Some?
    }
  }

  datatype Coverage = Complete | Partial(unmeasurableFiles: nat, unexploredSubtree: bool)

  datatype Breach = Energy(limit: real, actual: real) | Co2(limit: real, actual: real)

  /** Each metric over its limit is listed with its own limit and value, nothing else is; an impact nobody could
      measure breaches nothing. */
  method Evaluate(thresholds: Thresholds, impact: Option<EcologicalCost>) returns (breaches: seq<Breach>)
    ensures breaches == [] <==> !Breaches(thresholds, impact)
    ensures forall b :: b in breaches ==> impact.Some? && b.limit < b.actual
    ensures forall b :: b in breaches && b.Energy? ==> thresholds.maxEnergyKwh == Some(b.limit) && b.actual * KWH_TO_JOULES == impact.value.energy
    ensures forall b :: b in breaches && b.Co2? ==> thresholds.maxCo2Grams == Some(b.limit) && b.actual == impact.value.co2
    ensures (exists b :: b in breaches && b.Energy?) <==> EnergyBreached(thresholds, impact)
    ensures (exists b :: b in breaches && b.Co2?) <==> Co2Breached(thresholds, impact)
  {
    breaches := [];
    if impact.Some? {
      if thresholds.maxEnergyKwh.Some? && impact.value.energy / KWH_TO_JOULES > thresholds.maxEnergyKwh.value {
        var breach := Energy(thresholds.maxEnergyKwh.value, impact.value.energy / KWH_TO_JOULES);
        breaches := breaches + [breach];
        assert breach in breaches;
      }
      if thresholds.maxCo2Grams.Some? && impact.value.co2 > thresholds.maxCo2Grams.value {
        var breach := Co2(thresholds.maxCo2Grams.value, impact.value.co2);
        breaches := breaches + [breach];
        assert breach in breaches;
      }
    }
  }

  predicate EnergyBreached(thresholds: Thresholds, impact: Option<EcologicalCost>) {
    impact.Some? && thresholds.maxEnergyKwh.Some? && impact.value.energy > thresholds.maxEnergyKwh.value * KWH_TO_JOULES
  }

  predicate Co2Breached(thresholds: Thresholds, impact: Option<EcologicalCost>) {
    impact.Some? && thresholds.maxCo2Grams.Some? && impact.value.co2 > thresholds.maxCo2Grams.value
  }

  predicate Breaches(thresholds: Thresholds, impact: Option<EcologicalCost>) {
    EnergyBreached(thresholds, impact) || Co2Breached(thresholds, impact)
  }

  function DeriveGateCoverage(thresholds: Thresholds, unmeasurableFiles: nat, unexploredSubtree: bool): Coverage {
    if !thresholds.Configured() || (unmeasurableFiles == 0 && !unexploredSubtree) then Complete
    else Partial(unmeasurableFiles, unexploredSubtree)
  }

  function GatedExitCode(strict: bool, breaches: seq<Breach>, coverage: Coverage): int {
    if !strict then 0 else if breaches != [] then 3 else if coverage != Complete then 4 else 0
  }

  /** Nothing the walk saw went unmeasured, and nothing it knows of went unseen. */
  ghost predicate FullyMeasured(ports: Ports, listing: Listing) {
    !listing.unexploredSubtree && listing.dropped == [] && forall f :: f in listing.files ==> f in AnalysedFiles(ports, listing.files)
  }

  /** No limit is exceeded by what the files cost together. */
  ghost predicate WithinLimits(thresholds: Thresholds, files: map<Node, CodeMetrics>) {
    forall impact :: IsEcologicalTotal(files.Keys, files, impact) ==> !Breaches(thresholds, impact)
  }

  lemma WithinLimitsIff(thresholds: Thresholds, files: map<Node, CodeMetrics>, impact: Option<EcologicalCost>)
    requires IsEcologicalTotal(files.Keys, files, impact)
    ensures WithinLimits(thresholds, files) <==> !Breaches(thresholds, impact)
  {
  }

  lemma FullyMeasuredIff(ports: Ports, listing: Listing, unmeasurable: seq<UnmeasurableFile>)
    requires NamesUnmeasured(ports, listing, unmeasurable)
    ensures FullyMeasured(ports, listing) <==> unmeasurable == [] && !listing.unexploredSubtree
  {
    if unmeasurable != [] {
      assert unmeasurable[0] in unmeasurable;
    }
    if listing.dropped != [] {
      assert listing.dropped[0] in unmeasurable;
    }
    forall f | f in listing.files
      ensures f in AnalysedFiles(ports, listing.files) || exists reason :: UnmeasurableFile(f, reason) in unmeasurable
    {
      SomeReason(ports, listing.files, f);
      if f !in AnalysedFiles(ports, listing.files) {
        var reason :| Unmeasured(ports, f, reason);
        assert UnmeasurableFile(f, reason) in unmeasurable;
      }
    }
  }

  lemma SomeReason(ports: Ports, files: seq<Node>, f: Node)
    requires f in files
    ensures f !in AnalysedFiles(ports, files) <==> exists reason :: Unmeasured(ports, f, reason)
  {
    assert forall why :: ports.read(f).Text? && ports.dispatch(f) && ports.analyze(f, ports.read(f).source) == NotMeasurable(why) ==> Unmeasured(ports, f, why);
    assert ports.read(f).ReadFailed? ==> Unmeasured(ports, f, SourceUnreadable);
    assert ports.read(f).Text? && !ports.dispatch(f) ==> Unmeasured(ports, f, UnsupportedLanguage);
    assert ports.read(f).Text? && ports.dispatch(f) && ports.analyze(f, ports.read(f).source).AnalysisFailed? ==> Unmeasured(ports, f, SourceUnparseable);
  }

  /** The whole command on a project: exit 1 is a failed run, 3 a strict breach, 4 a strict run that could not see
      everything, and a strict 0 under a threshold means everything was measured and nothing is over its limit. What
      is held against the limits is what the analyses of the listed files gave. */
  method HandleProject(ports: Ports, listing: Listing, thresholds: Thresholds, strict: bool) returns (r: RunResult, exitCode: int)
    ensures RunMeans(ports, listing, r)
    ensures exitCode == 1 <==> !r.Ran?
    ensures exitCode == 0 && strict && thresholds.Configured() ==>
              FullyMeasured(ports, listing) && WithinLimits(thresholds, AnalysedFiles(ports, listing.files))
    ensures exitCode == 3 <==> r.Ran? && strict && !WithinLimits(thresholds, AnalysedFiles(ports, listing.files))
    ensures exitCode == 4 <==> r.Ran? && strict && WithinLimits(thresholds, AnalysedFiles(ports, listing.files))
                               && thresholds.Configured() && !FullyMeasured(ports, listing)
    ensures r.Ran? && !strict ==> exitCode == 0
  {
    hide IsEcologicalTotal, Breaches, FullyMeasured, WithinLimits, AllRefusals, Paths, AnalysedFiles, NamesUnmeasured, DependsOn, Kept;
    r := RunProject(ports, listing);
    if !r.Ran? {
      return r, 1;
    }
    var impact := r.graph.AggregatedEcological();
    var breaches := Evaluate(thresholds, impact);
    var coverage := DeriveGateCoverage(thresholds, |r.unmeasurable|, r.unexploredSubtree);
    WithinLimitsIff(thresholds, r.graph.perFile, impact);
    FullyMeasuredIff(ports, listing, r.unmeasurable);
    exitCode := GatedExitCode(strict, breaches, coverage);
  }
}
