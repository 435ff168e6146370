/** The call graph of one file: cycles, hidden and transitive complexity, call depth. */
module CallGraphs {
  import opened Graphs
  import opened Saturating
  import opened ChainDepth
  import Tarjan

  datatype ParsedFunction = ParsedFunction(name: Node, calls: seq<Node>, decisionPoints: u32)

  // ----- reachable set -----

  class Visited {
    var seen: set<Node>

    constructor ()
      ensures seen == {}
    {
      seen := {};
    }

    /** Adds `name` and everything it reaches past nodes not seen before. */
    method DfsReachable(edges: Edges, name: Node, ghost universe: set<Node>)
      requires Vertices(edges) <= universe && name in universe
      modifies this
      ensures old(seen) <= seen && name in seen
      ensures forall y :: y in seen ==> y in old(seen) || Reach(edges, name, y)
      ensures forall x, y {:trigger Edge(edges, x, y)} :: x in seen && x !in old(seen) && Edge(edges, x, y) ==> y in seen
      decreases universe - seen
    {
      hide Reach;
      if name in seen {
        return;
      }
      seen := seen + {name};
      ReachRefl(edges, name);
      var callees := Succ(edges, name);
      for i := 0 to |callees|
        invariant old(seen) <= seen && name in seen
        invariant forall y :: y in seen ==> y in old(seen) || Reach(edges, name, y)
        invariant forall y :: y in callees[..i] ==> y in seen
        invariant forall x, y {:trigger Edge(edges, x, y)} ::
          x in seen && x !in old(seen) && x != name && Edge(edges, x, y) ==> y in seen
      {
        assert Edge(edges, name, callees[i]);
        ghost var before := seen;
        DfsReachable(edges, callees[i], universe);
        forall y | y in seen && y !in before
          ensures Reach(edges, name, y)
        {
          ReachEdge(edges, name, callees[i]);
          ReachTrans(edges, name, callees[i], y);
        }
      }
    }
  }

  /** Exactly the closure of `name` under calls, itself included. */
  method ReachableFrom(edges: Edges, name: Node) returns (reachable: set<Node>)
    ensures reachable == ReachSet(edges, name)
  {
    hide Reach, ReachSet;
    var visited := new Visited();
    visited.DfsReachable(edges, name, Vertices(edges) + {name});
    reachable := visited.seen;
    forall y
      ensures y in reachable <==> y in ReachSet(edges, name)
    {
      ReachSetExact(edges, name, y);
      if Reach(edges, name, y) {
        ClosedReach(edges, reachable, name, y);
      }
    }
  }

  // ----- the graph -----

  datatype CallGraph = CallGraph(
    edges: Edges,
    directComplexity: map<Node, u32>,
    hiddenComplexity: map<Node, u32>,
    cycleNodes: set<Node>,
    maxDepth: nat)
  {
    function DirectOf(name: Node): u32 {
      if name in directComplexity then directComplexity[name] else 0
    }

    function HiddenOf(name: Node): u32 {
      if name in hiddenComplexity then hiddenComplexity[name] else 0
    }

    function TransitiveOf(name: Node): u32 {
      SatAdd(DirectOf(name), HiddenOf(name))
    }

    /** What `Build` establishes. */
    ghost predicate Valid() {
      && directComplexity.Keys == edges.Keys
      && hiddenComplexity.Keys == edges.Keys
      && (forall f :: f in edges ==> hiddenComplexity[f] == Clamp(SumOf(ReachSet(edges, f) - {f}, directComplexity)))
      && (forall f :: f in cycleNodes <==> OnCycle(edges, f))
      && IsMaxDepth(edges, cycleNodes, maxDepth)
    }

    /** The depth of one function's call chain, zero for a name the file does not declare. */
    method CallChainDepth(name: Node) returns (depth: nat)
      requires Valid()
      ensures name !in edges ==> depth == 0
      ensures name in edges ==> IsDepth(edges, cycleNodes, name, depth) && depth <= maxDepth
    {
      hide IsDepth, ReachSet, OnCycle;
      if name !in edges {
        return 0;
      }
      var memo := new DepthMemo();
      CyclesAreHit(edges, cycleNodes);
      SingletonWalk(edges, name);
      assert [] + [name] == [name];
      depth := memo.ComputeDepth(edges, cycleNodes, name, [], Vertices(edges));
      assert DepthAtMost(edges, cycleNodes, name, maxDepth);
      ghost var d: nat :| d <= maxDepth && IsDepth(edges, cycleNodes, name, d);
      DepthUnique(edges, cycleNodes, name, depth, d);
    }

    /** The saturated sum of every declared function's transitive complexity, in any order. */
    method TransitiveTotal() returns (total: u32)
      ensures total == Clamp(SumOf(edges.Keys, map f | f in edges :: TransitiveOf(f)))
    {
      ghost var w: map<Node, nat> := map f | f in edges :: TransitiveOf(f);
      var names := edges.Keys;
      ghost var done: set<Node> := {};
      total := 0;
      while names != {}
        invariant names + done == edges.Keys && names !! done
        invariant total == Clamp(SumOf(done, w))
      {
        var name :| name in names;
        SumOfAdd(done, w, name);
        total := SatAdd(total, TransitiveOf(name));
        names, done := names - {name}, done + {name};
      }
      assert done == edges.Keys;
    }
  }

  // ----- build -----

  /** Later declarations of a name replace earlier ones. */
  function EdgesOf(functions: seq<ParsedFunction>): Edges {
    if functions == [] then map[] else
      var f := functions[|functions| - 1];
      EdgesOf(functions[..|functions| - 1])[f.name := f.calls]
  }

  function DirectOf(functions: seq<ParsedFunction>): map<Node, u32> {
    if functions == [] then map[] else
      var f := functions[|functions| - 1];
      DirectOf(functions[..|functions| - 1])[f.name := f.decisionPoints]
  }

  method Build(functions: seq<ParsedFunction>) returns (graph: CallGraph)
    ensures graph.Valid()
    ensures graph.edges == EdgesOf(functions) && graph.directComplexity == DirectOf(functions)
  {
    hide IsDepth, OnCycle, ReachSet;
    var edges: Edges := map[];
    var directComplexity: map<Node, u32> := map[];
    for i := 0 to |functions|
      invariant edges == EdgesOf(functions[..i]) && directComplexity == DirectOf(functions[..i])
      invariant directComplexity.Keys == edges.Keys
    {
      assert functions[..i + 1][..i] == functions[..i];
      var f := functions[i];
      edges := edges[f.name := f.calls];
      directComplexity := directComplexity[f.name := f.decisionPoints];
    }
    assert functions[..|functions|] == functions;

    var cycleNodes, _ := Tarjan.DetectCycles(edges);
    var hiddenComplexity := HiddenComplexities(edges, directComplexity);
    var maxDepth := MaxDepth(edges, cycleNodes);
    graph := CallGraph(edges, directComplexity, hiddenComplexity, cycleNodes, maxDepth);
  }

  method HiddenComplexities(edges: Edges, directComplexity: map<Node, u32>) returns (hidden: map<Node, u32>)
    ensures hidden.Keys == edges.Keys
    ensures forall f :: f in edges ==> hidden[f] == Clamp(SumOf(ReachSet(edges, f) - {f}, directComplexity))
  {
    hide ReachSet;
    hidden := map[];
    var names := edges.Keys;
    while names != {}
      invariant names <= edges.Keys && hidden.Keys == edges.Keys - names
      invariant forall f :: f in hidden ==> hidden[f] == Clamp(SumOf(ReachSet(edges, f) - {f}, directComplexity))
    {
      var name :| name in names;
      var reachable := ReachableFrom(edges, name);
      var total := SaturatingTotal(reachable - {name}, directComplexity);
      hidden := hidden[name := total];
      names := names - {name};
    }
  }

  /** Folds `saturating_add` over a set in whatever order it is iterated. */
  method SaturatingTotal(keys: set<Node>, w: map<Node, u32>) returns (total: u32)
    ensures total == Clamp(SumOf(keys, w))
  {
    var rest := keys;
    ghost var done: set<Node> := {};
    total := 0;
    while rest != {}
      invariant rest + done == keys && rest !! done
      invariant total == Clamp(SumOf(done, w))
    {
      var k :| k in rest;
      SumOfAdd(done, w, k);
      total := SatAdd(total, if k in w then w[k] else 0);
      rest, done := rest - {k}, done + {k};
    }
    assert done == keys;
  }

  method MaxDepth(edges: Edges, cycleNodes: set<Node>) returns (maxDepth: nat)
    requires forall f :: f in cycleNodes <==> OnCycle(edges, f)
    ensures IsMaxDepth(edges, cycleNodes, maxDepth)
  {
    hide IsDepth, OnCycle;
    CyclesAreHit(edges, cycleNodes);
    var memo := new DepthMemo();
    var names := edges.Keys;
    maxDepth := 0;
    while names != {}
      invariant names <= edges.Keys && memo.Sound(edges, cycleNodes) && fresh(memo)
      invariant forall f :: f in edges && f !in names ==> DepthAtMost(edges, cycleNodes, f, maxDepth)
      invariant if names == edges.Keys then maxDepth == 0 else exists f :: f in edges && IsDepth(edges, cycleNodes, f, maxDepth)
    {
      var name :| name in names;
      SingletonWalk(edges, name);
      assert [] + [name] == [name];
      var depth := memo.ComputeDepth(edges, cycleNodes, name, [], Vertices(edges));
      ghost var before := maxDepth;
      maxDepth := if maxDepth < depth then depth else maxDepth;
      names := names - {name};
      forall f | f in edges && f !in names
        ensures DepthAtMost(edges, cycleNodes, f, maxDepth)
      {
        if f != name {
          assert DepthAtMost(edges, cycleNodes, f, before);
        }
      }
    }
  }

  // ----- what the metric promises -----

  lemma LeafReaches(edges: Edges, x: Node, y: Node)
    requires x !in edges && Reach(edges, x, y)
    ensures x == y
  {
    ClosedReach(edges, {x}, x, y);
  }

  /** Transitive complexity is the saturated direct complexity of the whole reachable set, the function included. */
  lemma TransitiveIsReachSum(graph: CallGraph, f: Node)
    requires graph.Valid()
    ensures graph.TransitiveOf(f) == Clamp(SumOf(ReachSet(graph.edges, f), graph.directComplexity))
  {
    hide OnCycle, IsMaxDepth, Reach;
    var s := ReachSet(graph.edges, f);
    ReachRefl(graph.edges, f);
    ReachSetExact(graph.edges, f, f);
    SumOfRemove(s, graph.directComplexity, f);
    if f !in graph.edges {
      forall g | g in s
        ensures g == f
      {
        LeafReaches(graph.edges, f, g);
      }
      SumOfZero(s, graph.directComplexity);
    }
  }

  /** It never exceeds the direct complexity of the whole file. */
  lemma TransitiveBounded(graph: CallGraph, f: Node)
    requires graph.Valid()
    ensures graph.TransitiveOf(f) <= SumOf(graph.edges.Keys, graph.directComplexity)
  {
    hide OnCycle, IsMaxDepth, ReachSet;
    var s := ReachSet(graph.edges, f);
    TransitiveIsReachSum(graph, f);
    SumOfKnown(s, graph.directComplexity);
    SumOfSubset(s * graph.directComplexity.Keys, graph.edges.Keys, graph.directComplexity);
  }

  /** A caller weighs at least as much as anything it reaches. */
  lemma TransitiveMonotone(graph: CallGraph, f: Node, g: Node)
    requires graph.Valid() && Reach(graph.edges, f, g)
    ensures graph.TransitiveOf(g) <= graph.TransitiveOf(f)
  {
    hide OnCycle, IsMaxDepth, Reach, ReachSet;
    forall h | h in ReachSet(graph.edges, g)
      ensures h in ReachSet(graph.edges, f)
    {
      ReachSetExact(graph.edges, g, h);
      ReachTrans(graph.edges, f, g, h);
      ReachSetExact(graph.edges, f, h);
    }
    SumOfSubset(ReachSet(graph.edges, g), ReachSet(graph.edges, f), graph.directComplexity);
    TransitiveIsReachSum(graph, f);
    TransitiveIsReachSum(graph, g);
  }

  /** The members of one strongly connected component weigh the same. */
  lemma TransitiveEqualInScc(graph: CallGraph, c: set<Node>, f: Node, g: Node)
    requires graph.Valid() && IsScc(graph.edges, c) && f in c && g in c
    ensures graph.TransitiveOf(f) == graph.TransitiveOf(g)
  {
    hide OnCycle, IsMaxDepth, Reach;
    assert Reach(graph.edges, f, g) && Reach(graph.edges, g, f);
    TransitiveMonotone(graph, f, g);
    TransitiveMonotone(graph, g, f);
  }

  ghost predicate DistinctNames(functions: seq<ParsedFunction>) {
    forall i, j :: 0 <= i < j < |functions| ==> functions[i].name != functions[j].name
  }

  /** The last declaration of a name is the one the graph keeps. */
  lemma {:induction false} LastDeclarationWins(functions: seq<ParsedFunction>, i: nat)
    requires i < |functions| && forall j :: i < j < |functions| ==> functions[j].name != functions[i].name
    ensures var f := functions[i];
      && f.name in EdgesOf(functions) && EdgesOf(functions)[f.name] == f.calls
      && f.name in DirectOf(functions) && DirectOf(functions)[f.name] == f.decisionPoints
  {
    if i < |functions| - 1 {
      LastDeclarationWins(functions[..|functions| - 1], i);
    }
  }

  lemma {:induction false} OnlyDeclaredNames(functions: seq<ParsedFunction>, k: Node)
    requires k in EdgesOf(functions)
    ensures exists i :: 0 <= i < |functions| && functions[i].name == k
  {
    var last := |functions| - 1;
    if functions[last].name != k {
      OnlyDeclaredNames(functions[..last], k);
      var i :| 0 <= i < |functions[..last]| && functions[..last][i].name == k;
      assert functions[i].name == k;
    }
  }

  lemma DistinctSnoc(functions: seq<ParsedFunction>)
    requires functions != []
    ensures var last := |functions| - 1;
      DistinctNames(functions) <==> DistinctNames(functions[..last]) && functions[last].name !in EdgesOf(functions[..last])
  {
    var last := |functions| - 1;
    var rest := functions[..last];
    if functions[last].name in EdgesOf(rest) {
      OnlyDeclaredNames(rest, functions[last].name);
    } else {
      forall i | 0 <= i < last
        ensures functions[i].name != functions[last].name
      {
        NameIsKept(rest, i);
      }
    }
  }

  /** One entry per function, exactly when the names are pairwise distinct. */
  lemma {:induction false} NoFunctionLost(functions: seq<ParsedFunction>)
    ensures |EdgesOf(functions).Keys| <= |functions|
    ensures |EdgesOf(functions).Keys| == |functions| <==> DistinctNames(functions)
  {
    hide DistinctNames;
    if functions == [] {
      EmptyIsDistinct();
    } else {
      var rest := functions[..|functions| - 1];
      NoFunctionLost(rest);
      DistinctSnoc(functions);
      assert EdgesOf(functions).Keys == EdgesOf(rest).Keys + {functions[|functions| - 1].name};
    }
  }

  lemma EmptyIsDistinct()
    ensures DistinctNames([])
  {
  }

  lemma {:induction false} NameIsKept(functions: seq<ParsedFunction>, i: nat)
    requires i < |functions|
    ensures functions[i].name in EdgesOf(functions)
  {
    if i < |functions| - 1 {
      NameIsKept(functions[..|functions| - 1], i);
    }
  }
}
