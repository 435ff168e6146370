/** The consumption graph of a project: files, dependencies, cycles, depth and totals. */
module FileConsumptionGraphs {
  import opened Graphs
  import opened Saturating
  import opened ChainDepth
  import opened Metrics
  import opened MetricSupports
  import CycleMarking
  import ConsumptionChain
  import Median
  import opened Wrappers

  datatype FileDependency = FileDependency(from: Node, to: Node)

  datatype BuildError = UnknownSource(path: Node) | UnknownTarget(path: Node)

  datatype BuildResult = Built(graph: FileConsumptionGraph) | Refused(error: BuildError)

  ghost predicate Listed(files: seq<(Node, CodeMetrics)>, path: Node) {
    exists i :: 0 <= i < |files| && files[i].0 == path
  }

  ghost predicate Dangling(files: seq<(Node, CodeMetrics)>, dep: FileDependency) {
    !Listed(files, dep.from) || !Listed(files, dep.to)
  }

  /** The targets of one file, in the order its dependencies were given. */
  function Targets(deps: seq<FileDependency>, from: Node): seq<Node> {
    if deps == [] then [] else
      Targets(deps[..|deps| - 1], from) + (if deps[|deps| - 1].from == from then [deps[|deps| - 1].to] else [])
  }

  datatype FileConsumptionGraph = FileConsumptionGraph(
    files: seq<Node>,
    dependencies: seq<FileDependency>,
    adjacency: Edges,
    perFile: map<Node, CodeMetrics>,
    cycleNodes: set<Node>,
    maxDepth: nat)
  {
    /** What `Build` establishes. */
    ghost predicate Valid() {
      && (forall x :: x in adjacency <==> x in files)
      && perFile.Keys == adjacency.Keys
      && (forall x :: x in adjacency ==> adjacency[x] == Targets(dependencies, x))
      && (forall x, y {:trigger Edge(adjacency, x, y)} :: Edge(adjacency, x, y) ==> y in adjacency)
      && CycleMarking.Sound(adjacency, cycleNodes)
      && CycleMarking.MarkedInSomeOrder(adjacency, cycleNodes)
      && HitsEveryCycle(adjacency, cycleNodes)
      && IsMaxDepth(adjacency, cycleNodes, maxDepth)
    }

    /** The chain lists exactly what the file reaches, itself first, as the one whole walk from it does; an unknown file
        has none. */
    method ChainOf(file: Node) returns (chain: seq<Node>)
      requires Valid()
      ensures file !in files ==> chain == []
      ensures file in files ==> chain != [] && chain[0] == file
      ensures file in files ==> forall x :: x in chain <==> Reach(adjacency, file, x)
      ensures file in files ==> exists trace :: ConsumptionChain.WholeWalk(adjacency, file, trace) && chain == ConsumptionChain.Listed(adjacency, trace)
    {
      hide ConsumptionChain.WholeWalk, ConsumptionChain.Listed, Reach, CycleMarking.Sound, CycleMarking.MarkedInSomeOrder, HitsEveryCycle, IsMaxDepth;
      ghost var trace;
      chain, trace := ConsumptionChain.ConsumptionChain(adjacency, file);
      if file in adjacency {
        forall x | Reach(adjacency, file, x)
          ensures x in adjacency
        {
          ClosedReach(adjacency, adjacency.Keys, file, x);
        }
      }
    }

    method AggregatedTotals() returns (t: ProjectTotals)
      ensures IsProjectTotals(perFile.Keys, perFile, t)
    {
      t := ProjectTotals(0, 0, 0, 0, 0, 0, 0, 0, 0);
      var rest := perFile.Keys;
      ghost var done: set<Node> := {};
      while rest != {}
        invariant rest + done == perFile.Keys && rest !! done
        invariant IsProjectTotals(done, perFile, t)
      {
        var k :| k in rest;
        MoveOne(rest, done, k);
        ProjectTotalsAdd(done, perFile, t, k);
        t := AddFile(t, perFile[k]);
        rest, done := rest - {k}, done + {k};
      }
      assert done == perFile.Keys;
    }

    method AggregatedEcological() returns (total: Option<EcologicalCost>)
      ensures IsEcologicalTotal(perFile.Keys, perFile, total)
    {
      total := None;
      var rest := perFile.Keys;
      ghost var done: set<Node> := {};
      while rest != {}
        invariant rest + done == perFile.Keys && rest !! done
        invariant IsEcologicalTotal(done, perFile, total)
      {
        var k :| k in rest;
        MoveOne(rest, done, k);
        EcologicalTotalAdd(done, perFile, total, k);
        total := FoldEcological(total, perFile[k].ecological);
        rest, done := rest - {k}, done + {k};
      }
      assert done == perFile.Keys;
    }

    /** The median cyclomatic complexity of the measured files. */
    method MedianCyclomatic() returns (r: u32)
      ensures exists values :: Median.AreValues(values, perFile.Keys, map k | k in perFile :: perFile[k].cyclomatic) && Median.IsMedian(values, r)
    {
      var complexities := map k | k in perFile :: perFile[k].cyclomatic;
      r := Median.MedianOf(complexities);
      assert complexities.Keys == perFile.Keys;
      assert complexities == map k | k in perFile :: perFile[k].cyclomatic;
    }

    method AggregatedSupport(axis: Axis) returns (r: AxisSupport)
      ensures IsVerdict(map k | k in perFile :: perFile[k].capabilities, axis, r)
    {
      r := FoldAxis(map k | k in perFile :: perFile[k].capabilities, axis);
    }
  }

  // ----- build -----

  lemma {:induction false} TargetsExactly(deps: seq<FileDependency>, from: Node, y: Node)
    ensures y in Targets(deps, from) <==> FileDependency(from, y) in deps
  {
    if deps != [] {
      var last := |deps| - 1;
      assert deps == deps[..last] + [deps[last]];
      TargetsExactly(deps[..last], from, y);
    }
  }

  /** Targets keep the order of the dependencies, and each dependency gives its own. */
  lemma {:induction false} TargetsInOrder(a: seq<FileDependency>, b: seq<FileDependency>, from: Node)
    ensures Targets(a + b, from) == Targets(a, from) + Targets(b, from)
  {
    if b == [] {
      assert a + b == a;
    } else {
      assert (a + b)[..|a + b| - 1] == a + b[..|b| - 1];
      TargetsInOrder(a, b[..|b| - 1], from);
    }
  }

  method Adjacency(files: seq<(Node, CodeMetrics)>, deps: seq<FileDependency>) returns (adjacency: Edges)
    requires forall d :: d in deps ==> !Dangling(files, d)
    ensures forall x :: x in adjacency <==> Listed(files, x)
    ensures forall x :: x in adjacency ==> adjacency[x] == Targets(deps, x)
  {
    adjacency := map[];
    for i := 0 to |files|
      invariant forall x :: x in adjacency <==> exists j :: 0 <= j < i && files[j].0 == x
      invariant forall x :: x in adjacency ==> adjacency[x] == []
    {
      if files[i].0 !in adjacency {
        adjacency := adjacency[files[i].0 := []];
      }
    }
    assert forall x :: x in adjacency <==> Listed(files, x);
    for i := 0 to |deps|
      invariant forall x :: x in adjacency <==> Listed(files, x)
      invariant forall x :: x in adjacency ==> adjacency[x] == Targets(deps[..i], x)
    {
      var dep := deps[i];
      assert deps[i] in deps && Listed(files, dep.from);
      assert deps[..i + 1][..i] == deps[..i];
      adjacency := adjacency[dep.from := adjacency[dep.from] + [dep.to]];
    }
    assert deps[..|deps|] == deps;
  }

  /** Entry i is the last one for its path, the one a later duplicate does not replace. */
  ghost predicate LastEntry(files: seq<(Node, CodeMetrics)>, i: int) {
    0 <= i < |files| && forall j :: i < j < |files| ==> files[j].0 != files[i].0
  }

  lemma {:induction false} HasLastEntry(files: seq<(Node, CodeMetrics)>, k: nat) returns (i: nat)
    requires k < |files|
    ensures LastEntry(files, i) && files[i].0 == files[k].0
    decreases |files| - k
  {
    if j :| k < j < |files| && files[j].0 == files[k].0 {
      i := HasLastEntry(files, j);
    } else {
      i := k;
    }
  }

  method PerFile(files: seq<(Node, CodeMetrics)>) returns (perFile: map<Node, CodeMetrics>, paths: seq<Node>)
    ensures forall x :: x in perFile <==> Listed(files, x)
    ensures forall x :: x in paths <==> Listed(files, x)
    ensures |paths| == |files| && forall i :: 0 <= i < |files| ==> paths[i] == files[i].0
    ensures forall i {:trigger LastEntry(files, i)} :: LastEntry(files, i) ==>
              files[i].0 in perFile && perFile[files[i].0] == files[i].1
  {
    perFile, paths := map[], [];
    for i := 0 to |files|
      invariant forall x :: x in perFile <==> exists j :: 0 <= j < i && files[j].0 == x
      invariant |paths| == i && forall j :: 0 <= j < i ==> paths[j] == files[j].0
      invariant forall k {:trigger LastEntry(files[..i], k)} :: LastEntry(files[..i], k) ==>
                  files[k].0 in perFile && perFile[files[k].0] == files[k].1
    {
      ghost var before := perFile;
      perFile := perFile[files[i].0 := files[i].1];
      paths := paths + [files[i].0];
      forall k {:trigger LastEntry(files[..i + 1], k)} | LastEntry(files[..i + 1], k)
        ensures files[k].0 in perFile && perFile[files[k].0] == files[k].1
      {
        if k < i {
          assert files[..i + 1][i].0 != files[..i + 1][k].0;
          assert LastEntry(files[..i], k) by {
            assert forall j :: k < j < i ==> files[..i][j] == files[..i + 1][j];
          }
        }
      }
    }
    assert files[..|files|] == files;
  }

  /** Dependency i is the first one with an endpoint that is not listed. */
  ghost predicate FirstDangling(files: seq<(Node, CodeMetrics)>, deps: seq<FileDependency>, i: int) {
    0 <= i < |deps| && Dangling(files, deps[i]) && forall j :: 0 <= j < i ==> !Dangling(files, deps[j])
  }

  /** The missing endpoint of a dangling dependency, its source if both are missing. */
  ghost function Missing(files: seq<(Node, CodeMetrics)>, dep: FileDependency): BuildError {
    if Listed(files, dep.from) then UnknownTarget(dep.to) else UnknownSource(dep.from)
  }

  method FindDangling(files: seq<(Node, CodeMetrics)>, deps: seq<FileDependency>) returns (error: Option<BuildError>)
    ensures error.None? <==> forall d :: d in deps ==> !Dangling(files, d)
    ensures error.Some? ==> exists i :: FirstDangling(files, deps, i) && error.value == Missing(files, deps[i])
  {
    var fileSet := set i | 0 <= i < |files| :: files[i].0;
    assert forall p :: p in fileSet <==> Listed(files, p);
    for i := 0 to |deps|
      invariant forall j :: 0 <= j < i ==> !Dangling(files, deps[j])
    {
      if deps[i].from !in fileSet {
        assert FirstDangling(files, deps, i) && deps[i] in deps;
        return Some(UnknownSource(deps[i].from));
      }
      if deps[i].to !in fileSet {
        assert FirstDangling(files, deps, i) && deps[i] in deps;
        return Some(UnknownTarget(deps[i].to));
      }
    }
    return None;
  }

  /** Succeeds exactly when every dependency links two listed files; otherwise names the first one that does not. */
  method Build(files: seq<(Node, CodeMetrics)>, deps: seq<FileDependency>) returns (r: BuildResult)
    ensures r.Built? <==> forall d :: d in deps ==> !Dangling(files, d)
    ensures r.Refused? ==> exists i :: FirstDangling(files, deps, i) && r.error == Missing(files, deps[i])
    ensures r.Built? ==> r.graph.Valid() && r.graph.dependencies == deps
    ensures r.Built? ==> |r.graph.files| == |files| && forall i :: 0 <= i < |files| ==> r.graph.files[i] == files[i].0
    ensures r.Built? ==> forall i {:trigger LastEntry(files, i)} :: LastEntry(files, i) ==>
              files[i].0 in r.graph.perFile && r.graph.perFile[files[i].0] == files[i].1
  {
    hide CycleMarking.Sound, HitsEveryCycle, IsMaxDepth, CycleMarking.MarkedInSomeOrder, Dangling;
    var error := FindDangling(files, deps);
    if error.Some? {
      return Refused(error.value);
    }
    var perFile, paths := PerFile(files);
    var adjacency := Adjacency(files, deps);
    var cycleNodes := CycleMarking.DetectCycles(adjacency);
    var maxDepth := MaxDepth(adjacency, cycleNodes, paths);
    TargetsAreFiles(files, deps, adjacency);
    r := Built(FileConsumptionGraph(paths, deps, adjacency, perFile, cycleNodes, maxDepth));
  }

  lemma TargetsAreFiles(files: seq<(Node, CodeMetrics)>, deps: seq<FileDependency>, adjacency: Edges)
    requires forall d :: d in deps ==> !Dangling(files, d)
    requires forall x :: x in adjacency <==> Listed(files, x)
    requires forall x :: x in adjacency ==> adjacency[x] == Targets(deps, x)
    ensures forall x, y {:trigger Edge(adjacency, x, y)} :: Edge(adjacency, x, y) ==> y in adjacency
  {
    forall x, y {:trigger Edge(adjacency, x, y)} | Edge(adjacency, x, y)
      ensures y in adjacency
    {
      TargetsExactly(deps, x, y);
    }
  }

  method MaxDepth(adjacency: Edges, cycleNodes: set<Node>, paths: seq<Node>) returns (maxDepth: nat)
    requires HitsEveryCycle(adjacency, cycleNodes) && forall x :: x in paths <==> x in adjacency
    ensures IsMaxDepth(adjacency, cycleNodes, maxDepth)
  {
    hide IsDepth, HitsEveryCycle;
    var memo := new DepthMemo();
    maxDepth := 0;
    for i := 0 to |paths|
      invariant memo.Sound(adjacency, cycleNodes) && fresh(memo)
      invariant forall x :: x in paths[..i] ==> DepthAtMost(adjacency, cycleNodes, x, maxDepth)
      invariant if i == 0 then maxDepth == 0 else exists x :: x in adjacency && IsDepth(adjacency, cycleNodes, x, maxDepth)
    {
      var path := paths[i];
      SingletonWalk(adjacency, path);
      assert [] + [path] == [path];
      var depth := memo.ComputeDepth(adjacency, cycleNodes, path, [], Vertices(adjacency));
      ghost var before := maxDepth;
      maxDepth := if maxDepth < depth then depth else maxDepth;
      forall x | x in paths[..i + 1]
        ensures DepthAtMost(adjacency, cycleNodes, x, maxDepth)
      {
        if x in paths[..i] {
          assert DepthAtMost(adjacency, cycleNodes, x, before);
        }
      }
    }
    assert paths[..|paths|] == paths;
    if |paths| == 0 {
      assert adjacency == map[];
    }
  }
}
