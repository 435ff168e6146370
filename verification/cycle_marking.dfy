/** The file graph's own cycle detector: a three-colour depth-first search that marks,
    at every back edge, the stretch of the current path it closes. */
module CycleMarking {
  import opened Graphs
  import opened ChainDepth

  datatype Color = White | Grey | Black

  /** Colours and verdicts at one moment. A node without an entry is white. */
  datatype Marking = Marking(color: map<Node, Color>, inCycle: set<Node>) {
    function ColorOf(n: Node): Color {
      if n in color then color[n] else White
    }

    ghost function Visited(): set<Node> {
      set n | n in color && color[n] != White
    }
  }

  /** The nodes of the path from the first occurrence of `callee` on. */
  function FromCallee(path: seq<Node>, callee: Node): set<Node> {
    if path == [] then {}
    else if path[0] == callee then set n | n in path
    else FromCallee(path[1..], callee)
  }

  // ----- the search as a function -----

  ghost function Dfs(edges: Edges, universe: set<Node>, node: Node, path: seq<Node>, m: Marking): (r: Marking)
    requires Vertices(edges) <= universe && node in universe && m.ColorOf(node) == White
    ensures m.Visited() <= r.Visited() && r.ColorOf(node) == Black
    decreases universe - m.Visited(), 0
  {
    var entered := m.(color := m.color[node := Grey]);
    assert node in entered.Visited() && m.Visited() <= entered.Visited();
    var explored := DfsCallees(edges, universe, node, Succ(edges, node), path + [node], entered);
    explored.(color := explored.color[node := Black])
  }

  ghost function DfsCallees(edges: Edges, universe: set<Node>, node: Node, callees: seq<Node>, path: seq<Node>, m: Marking): (r: Marking)
    requires Vertices(edges) <= universe && forall c :: c in callees ==> Edge(edges, node, c)
    ensures m.Visited() <= r.Visited()
    decreases universe - m.Visited(), 1 + |callees|
  {
    if callees == [] then m else
      DfsCallees(edges, universe, node, callees[1..], path, OneCallee(edges, universe, node, callees[0], path, m))
  }

  ghost function OneCallee(edges: Edges, universe: set<Node>, node: Node, callee: Node, path: seq<Node>, m: Marking): (r: Marking)
    requires Vertices(edges) <= universe && Edge(edges, node, callee)
    ensures m.Visited() <= r.Visited()
    decreases universe - m.Visited(), 1
  {
    match m.ColorOf(callee)
    case White => Dfs(edges, universe, callee, path, m)
    case Grey => m.(inCycle := m.inCycle + FromCallee(path, callee))
    case Black => m
  }

  /** All keys in the given order. */
  ghost function MarkAll(edges: Edges, order: seq<Node>, m: Marking): Marking
    requires forall n :: n in order ==> n in edges
  {
    if order == [] then m else
      MarkAll(edges, order[1..], if m.ColorOf(order[0]) == White then Dfs(edges, Vertices(edges), order[0], [], m) else m)
  }

  ghost function Unvisited(edges: Edges): Marking {
    Marking(map n | n in edges :: White, {})
  }

  // ----- the search as it runs -----

  class CycleSearch {
    var color: map<Node, Color>
    var pathStack: seq<Node>
    var inCycle: set<Node>

    constructor (keys: set<Node>)
      ensures Now() == Marking(map n | n in keys :: White, {}) && pathStack == []
    {
      color, pathStack, inCycle := map n | n in keys :: White, [], {};
    }

    function Now(): Marking
      reads this
    {
      Marking(color, inCycle)
    }

    method MarkBackEdge(callee: Node)
      modifies this`inCycle
      ensures inCycle == old(inCycle) + FromCallee(pathStack, callee)
    {
      var inCycleRange := false;
      for i := 0 to |pathStack|
        invariant inCycleRange ==> inCycle + (set n | n in pathStack[i..]) == old(inCycle) + FromCallee(pathStack, callee)
        invariant !inCycleRange ==> inCycle == old(inCycle) && FromCallee(pathStack[i..], callee) == FromCallee(pathStack, callee)
      {
        var n := pathStack[i];
        assert pathStack[i..] == [n] + pathStack[i + 1..];
        if n == callee {
          inCycleRange := true;
        }
        if inCycleRange {
          inCycle := inCycle + {n};
        }
      }
    }

    method DfsCycle(edges: Edges, node: Node, ghost universe: set<Node>)
      requires Vertices(edges) <= universe && node in universe && Now().ColorOf(node) == White
      modifies this
      ensures Now() == Dfs(edges, universe, node, old(pathStack), old(Now()))
      ensures pathStack == old(pathStack)
      decreases universe - Now().Visited()
    {
      color := color[node := Grey];
      pathStack := pathStack + [node];
      ghost var entered := Now();
      assert node in entered.Visited() && old(Now()).Visited() <= entered.Visited();
      ghost var path := pathStack;
      var callees := Succ(edges, node);
      for i := 0 to |callees|
        invariant pathStack == path && entered.Visited() <= Now().Visited()
        invariant DfsCallees(edges, universe, node, callees[i..], path, Now()) == DfsCallees(edges, universe, node, callees, path, entered)
      {
        var callee := callees[i];
        assert callees[i..][1..] == callees[i + 1..];
        assert Edge(edges, node, callee);
        match Now().ColorOf(callee) {
          case White => DfsCycle(edges, callee, universe);
          case Grey => MarkBackEdge(callee);
          case Black =>
        }
      }
      pathStack := pathStack[..|pathStack| - 1];
      assert pathStack == old(pathStack);
      color := color[node := Black];
    }
  }

  // ----- invariant -----

  ghost predicate LiesOnMarkedCycle(edges: Edges, inCycle: set<Node>, x: Node) {
    exists p :: IsCycle(edges, p) && x in p && forall y :: y in p ==> y in inCycle
  }

  ghost predicate Inv(edges: Edges, path: seq<Node>, m: Marking) {
    && (forall n :: m.ColorOf(n) == Grey <==> n in path)
    && (path == [] || IsWalk(edges, path))
    && (forall x {:trigger LiesOnMarkedCycle(edges, m.inCycle, x)} :: x in m.inCycle ==> LiesOnMarkedCycle(edges, m.inCycle, x))
    && (forall x, y {:trigger Edge(edges, x, y)} ::
          m.ColorOf(x) == Black && Edge(edges, x, y) ==> m.ColorOf(y) == Black || x in m.inCycle)
    && BlackCyclesHit(edges, m)
  }

  ghost predicate BlackCyclesHit(edges: Edges, m: Marking) {
    forall p :: IsCycle(edges, p) && (forall x :: x in p ==> m.ColorOf(x) == Black) ==> exists x :: x in p && x in m.inCycle
  }

  ghost predicate Grows(m: Marking, r: Marking) {
    m.inCycle <= r.inCycle && forall n :: m.ColorOf(n) == Black ==> r.ColorOf(n) == Black
  }

  lemma FromCalleeIsSuffix(path: seq<Node>, callee: Node)
    requires callee in path
    ensures exists k :: 0 <= k < |path| && path[k] == callee && FromCallee(path, callee) == set n | n in path[k..]
  {
    if path[0] == callee {
      assert path[0..] == path;
    } else {
      FromCalleeIsSuffix(path[1..], callee);
      var k :| 0 <= k < |path[1..]| && path[1..][k] == callee && FromCallee(path[1..], callee) == set n | n in path[1..][k..];
      assert path[1..][k..] == path[k + 1..];
    }
  }

  /** A back edge closes a cycle made of exactly the nodes it marks, its source among them. */
  lemma ClosedByBackEdge(edges: Edges, path: seq<Node>, callee: Node) returns (cycle: seq<Node>)
    requires path != [] && IsWalk(edges, path) && callee in path && Edge(edges, path[|path| - 1], callee)
    ensures IsCycle(edges, cycle) && forall x :: x in cycle <==> x in FromCallee(path, callee)
    ensures path[|path| - 1] in cycle
  {
    FromCalleeIsSuffix(path, callee);
    var k :| 0 <= k < |path| && path[k] == callee && FromCallee(path, callee) == set n | n in path[k..];
    var last := path[|path| - 1];
    var suffix := path[k..];
    assert suffix[0] == callee && suffix[|suffix| - 1] == last;
    SuffixIsWalk(edges, path, k);
    assert IsWalk(edges, [last, callee]);
    WalkConcat(edges, suffix, [last, callee]);
    assert suffix + [last, callee][1..] == suffix + [callee];
    cycle := suffix + [callee];
  }

  /** So marking it keeps the invariant. */
  lemma BackEdge(edges: Edges, path: seq<Node>, m: Marking, callee: Node)
    requires Inv(edges, path, m) && path != [] && callee in path && Edge(edges, path[|path| - 1], callee)
    ensures var r := m.(inCycle := m.inCycle + FromCallee(path, callee));
      Inv(edges, path, r) && Grows(m, r) && path[|path| - 1] in r.inCycle
  {
    hide IsWalk, IsCycle, FromCallee;
    var r := m.(inCycle := m.inCycle + FromCallee(path, callee));
    var cycle := ClosedByBackEdge(edges, path, callee);
    forall x {:trigger LiesOnMarkedCycle(edges, r.inCycle, x)} | x in r.inCycle
      ensures LiesOnMarkedCycle(edges, r.inCycle, x)
    {
      if x in m.inCycle {
        assert LiesOnMarkedCycle(edges, m.inCycle, x);
        var p :| IsCycle(edges, p) && x in p && forall y :: y in p ==> y in m.inCycle;
      } else {
        assert x in cycle;
      }
    }
    hide LiesOnMarkedCycle;
    forall p | IsCycle(edges, p) && (forall x :: x in p ==> r.ColorOf(x) == Black)
      ensures exists x :: x in p && x in r.inCycle
    {
      assert forall x :: x in p ==> m.ColorOf(x) == Black;
    }
  }

  ghost function Blackened(m: Marking, node: Node): Marking {
    m.(color := m.color[node := Black])
  }

  /** Every edge into a node that is not black yet comes from a marked node, so blackening it leaves no unmarked cycle. */
  lemma BlackenHits(edges: Edges, path: seq<Node>, node: Node, m: Marking)
    requires Inv(edges, path, m) && node in path
    requires Edge(edges, node, node) ==> node in m.inCycle
    ensures BlackCyclesHit(edges, Blackened(m, node))
  {
    hide IsCycle, IsWalk, LiesOnMarkedCycle;
    var r := Blackened(m, node);
    forall p | IsCycle(edges, p) && (forall x :: x in p ==> r.ColorOf(x) == Black)
      ensures exists x :: x in p && x in r.inCycle
    {
      if node in p {
        var w := Predecessor(edges, p, node);
        assert w in r.inCycle;
      } else {
        assert forall x :: x in p ==> m.ColorOf(x) == Black;
      }
    }
  }

  lemma Blacken(edges: Edges, path: seq<Node>, node: Node, m: Marking)
    requires Inv(edges, path + [node], m) && node !in path
    requires forall y :: Edge(edges, node, y) ==> m.ColorOf(y) == Black || node in m.inCycle
    ensures Inv(edges, path, Blackened(m, node)) && Grows(m, Blackened(m, node))
  {
    hide IsCycle, LiesOnMarkedCycle, BlackCyclesHit, IsWalk, Edge;
    var r := Blackened(m, node);
    assert forall n :: n in path + [node] <==> n in path || n == node;
    WithoutLast(edges, path, node);
    BlackenHits(edges, path + [node], node, m);
  }

  lemma WithoutLast(edges: Edges, path: seq<Node>, node: Node)
    requires IsWalk(edges, path + [node])
    ensures path == [] || IsWalk(edges, path)
  {
    if path != [] {
      PrefixIsWalk(edges, path + [node], |path|);
      assert (path + [node])[..|path|] == path;
    }
  }

  /** On a closed walk every node has a predecessor. */
  lemma Predecessor(edges: Edges, p: seq<Node>, x: Node) returns (w: Node)
    requires IsCycle(edges, p) && x in p
    ensures w in p && Edge(edges, w, x)
  {
    var k :| 0 <= k < |p| && p[k] == x;
    var j := if k == 0 then |p| - 1 else k;
    w := p[j - 1];
    assert Edge(edges, p[j - 1], p[j]);
  }

  lemma {:induction false} DfsKeeps(edges: Edges, universe: set<Node>, node: Node, path: seq<Node>, m: Marking)
    requires Vertices(edges) <= universe && node in universe && m.ColorOf(node) == White
    requires Inv(edges, path, m) && (path == [] || Edge(edges, path[|path| - 1], node))
    ensures Inv(edges, path, Dfs(edges, universe, node, path, m)) && Grows(m, Dfs(edges, universe, node, path, m))
    decreases universe - m.Visited(), 0
  {
    hide BlackCyclesHit, LiesOnMarkedCycle;
    var entered := m.(color := m.color[node := Grey]);
    assert node in entered.Visited() && m.Visited() <= entered.Visited();
    assert node !in path;
    EnteredKeeps(edges, path, node, m);
    CalleesKeep(edges, universe, node, Succ(edges, node), path + [node], entered);
    var explored := DfsCallees(edges, universe, node, Succ(edges, node), path + [node], entered);
    Blacken(edges, path, node, explored);
  }

  lemma EnteredKeeps(edges: Edges, path: seq<Node>, node: Node, m: Marking)
    requires m.ColorOf(node) == White
    requires Inv(edges, path, m) && (path == [] || Edge(edges, path[|path| - 1], node))
    ensures Inv(edges, path + [node], m.(color := m.color[node := Grey]))
  {
  }

  lemma {:induction false} CalleesKeep(edges: Edges, universe: set<Node>, node: Node, callees: seq<Node>, path: seq<Node>, m: Marking)
    requires Vertices(edges) <= universe && (forall c :: c in callees ==> Edge(edges, node, c))
    requires Inv(edges, path, m) && path != [] && path[|path| - 1] == node
    ensures var r := DfsCallees(edges, universe, node, callees, path, m);
      && Inv(edges, path, r) && Grows(m, r)
      && forall c :: c in callees ==> r.ColorOf(c) == Black || node in r.inCycle
    decreases universe - m.Visited(), 1 + |callees|
  {
    hide BlackCyclesHit, LiesOnMarkedCycle;
    if callees != [] {
      var callee := callees[0];
      var n := OneCallee(edges, universe, node, callee, path, m);
      match m.ColorOf(callee) {
        case White => DfsKeeps(edges, universe, callee, path, m);
        case Grey => BackEdge(edges, path, m, callee);
        case Black =>
      }
      assert n.ColorOf(callee) == Black || node in n.inCycle;
      CalleesKeep(edges, universe, node, callees[1..], path, n);
    }
  }

  // ----- the whole graph -----

  lemma UnvisitedInv(edges: Edges)
    ensures Inv(edges, [], Unvisited(edges))
  {
    forall p | IsCycle(edges, p)
      ensures Unvisited(edges).ColorOf(p[0]) != Black && p[0] in p
    {
    }
  }

  lemma {:induction false} MarkAllKeeps(edges: Edges, order: seq<Node>, m: Marking)
    requires Inv(edges, [], m) && forall n :: n in order ==> n in edges
    ensures Inv(edges, [], MarkAll(edges, order, m)) && Grows(m, MarkAll(edges, order, m))
    ensures forall n :: n in order ==> MarkAll(edges, order, m).ColorOf(n) == Black
  {
    hide BlackCyclesHit, LiesOnMarkedCycle;
    if order != [] {
      var n := order[0];
      if m.ColorOf(n) == White {
        DfsKeeps(edges, Vertices(edges), n, [], m);
        MarkAllKeeps(edges, order[1..], Dfs(edges, Vertices(edges), n, [], m));
      } else {
        MarkAllKeeps(edges, order[1..], m);
      }
    }
  }

  /** Sound: a marked node lies on a cycle whose every node is marked. */
  ghost predicate Sound(edges: Edges, inCycle: set<Node>) {
    forall x {:trigger LiesOnMarkedCycle(edges, inCycle, x)} :: x in inCycle ==> LiesOnMarkedCycle(edges, inCycle, x)
  }

  /** For every order of the keys: what is marked is a union of real cycles, and no cycle escapes unmarked. */
  lemma MarkingSoundAndHitting(edges: Edges, order: seq<Node>)
    requires forall n :: n in order <==> n in edges
    ensures Sound(edges, MarkAll(edges, order, Unvisited(edges)).inCycle)
    ensures HitsEveryCycle(edges, MarkAll(edges, order, Unvisited(edges)).inCycle)
  {
    UnvisitedInv(edges);
    MarkAllKeeps(edges, order, Unvisited(edges));
    var m := MarkAll(edges, order, Unvisited(edges));
    hide Inv, LiesOnMarkedCycle;
    assert BlackCyclesHit(edges, m) by { assert Inv(edges, [], m); hide BlackCyclesHit; }
    forall p | IsCycle(edges, p)
      ensures exists x :: x in p && x in m.inCycle
    {
      forall x | x in p
        ensures m.ColorOf(x) == Black
      {
        CycleNodeIsKey(edges, p, x);
      }
    }
  }

  lemma CycleNodeIsKey(edges: Edges, p: seq<Node>, x: Node)
    requires IsCycle(edges, p) && x in p
    ensures x in edges
  {
    var k :| 0 <= k < |p| && p[k] == x;
    if k < |p| - 1 {
      assert Edge(edges, p[k], p[k + 1]);
    } else {
      assert Edge(edges, p[0], p[1]);
    }
  }

  /** What the search over all keys marks, in some order of the keys. */
  ghost predicate MarkedInSomeOrder(edges: Edges, inCycle: set<Node>) {
    exists order :: (forall n :: n in order <==> n in edges) && inCycle == MarkAll(edges, order, Unvisited(edges)).inCycle
  }

  method DetectCycles(edges: Edges) returns (inCycle: set<Node>)
    ensures Sound(edges, inCycle) && HitsEveryCycle(edges, inCycle)
    ensures MarkedInSomeOrder(edges, inCycle)
  {
    hide Sound, HitsEveryCycle;
    var search := new CycleSearch(edges.Keys);
    var rest := edges.Keys;
    ghost var order: seq<Node> := [];
    while rest != {}
      invariant fresh(search) && search.pathStack == []
      invariant rest <= edges.Keys && forall n :: n in order <==> n in edges && n !in rest
      invariant search.Now() == MarkAll(edges, order, Unvisited(edges))
    {
      var path :| path in rest;
      MarkAllSnoc(edges, order, path, Unvisited(edges));
      if search.Now().ColorOf(path) == White {
        search.DfsCycle(edges, path, Vertices(edges));
      }
      rest, order := rest - {path}, order + [path];
    }
    MarkingSoundAndHitting(edges, order);
    inCycle := search.inCycle;
  }

  lemma {:induction false} MarkAllSnoc(edges: Edges, order: seq<Node>, n: Node, m: Marking)
    requires n in edges && forall k :: k in order ==> k in edges
    ensures var r := MarkAll(edges, order, m);
      MarkAll(edges, order + [n], m) == if r.ColorOf(n) == White then Dfs(edges, Vertices(edges), n, [], r) else r
  {
    if order == [] {
      assert (order + [n])[1..] == [];
    } else {
      assert (order + [n])[1..] == order[1..] + [n];
      MarkAllSnoc(edges, order[1..], n,
                  if m.ColorOf(order[0]) == White then Dfs(edges, Vertices(edges), order[0], [], m) else m);
    }
  }

  // ----- exactly what one visit marks -----

  /** y can be reached from x through nodes outside `seen` only, both ends included. */
  ghost predicate FreshReach(edges: Edges, seen: set<Node>, x: Node, y: Node) {
    exists p :: WalkFromTo(edges, p, x, y) && Avoids(p, seen)
  }

  ghost predicate Avoids(p: seq<Node>, seen: set<Node>) {
    forall n :: n in p ==> n !in seen
  }

  lemma FreshRefl(edges: Edges, seen: set<Node>, x: Node)
    requires x !in seen
    ensures FreshReach(edges, seen, x, x)
  {
    assert WalkFromTo(edges, [x], x, x) && Avoids([x], seen);
  }

  lemma FreshEnds(edges: Edges, seen: set<Node>, x: Node, y: Node)
    requires FreshReach(edges, seen, x, y)
    ensures x !in seen && y !in seen
  {
  }

  lemma FreshTrans(edges: Edges, seen: set<Node>, x: Node, y: Node, z: Node)
    requires FreshReach(edges, seen, x, y) && FreshReach(edges, seen, y, z)
    ensures FreshReach(edges, seen, x, z)
  {
    var p :| WalkFromTo(edges, p, x, y) && Avoids(p, seen);
    var q :| WalkFromTo(edges, q, y, z) && Avoids(q, seen);
    WalkConcat(edges, p, q);
    assert Avoids(p + q[1..], seen);
  }

  lemma FreshFewer(edges: Edges, seen: set<Node>, more: set<Node>, x: Node, y: Node)
    requires seen <= more && FreshReach(edges, more, x, y)
    ensures FreshReach(edges, seen, x, y)
  {
  }

  /** Leaving x for good: the rest of the way goes through a callee and does not come back to x. */
  lemma {:induction false} FreshThrough(edges: Edges, seen: set<Node>, x: Node, p: seq<Node>)
    requires IsWalk(edges, p) && p[0] == x && Avoids(p, seen)
    ensures p[|p| - 1] == x || exists c :: Edge(edges, x, c) && FreshReach(edges, seen + {x}, c, p[|p| - 1])
    decreases |p|
  {
    hide FreshReach;
    if p[|p| - 1] != x {
      SuffixIsWalk(edges, p, 1);
      assert Edge(edges, p[0], p[1]);
      if x in p[1..] {
        var k :| 1 <= k < |p| && p[k] == x;
        SuffixIsWalk(edges, p, k);
        assert Avoids(p[k..], seen);
        FreshThrough(edges, seen, x, p[k..]);
      } else {
        assert Avoids(p[1..], seen + {x});
        assert WalkFromTo(edges, p[1..], p[1], p[|p| - 1]);
        IsFresh(edges, seen + {x}, p[1..]);
      }
    }
  }

  lemma IsFresh(edges: Edges, seen: set<Node>, p: seq<Node>)
    requires IsWalk(edges, p) && Avoids(p, seen)
    ensures FreshReach(edges, seen, p[0], p[|p| - 1])
  {
  }

  lemma FreshEnter(edges: Edges, seen: set<Node>, x: Node, y: Node)
    requires x !in seen
    ensures FreshReach(edges, seen, x, y) <==> y == x || exists c :: Edge(edges, x, c) && FreshReach(edges, seen + {x}, c, y)
  {
    FreshRefl(edges, seen, x);
    if FreshReach(edges, seen, x, y) {
      var p :| WalkFromTo(edges, p, x, y) && Avoids(p, seen);
      FreshThrough(edges, seen, x, p);
    }
    if exists c :: Edge(edges, x, c) && FreshReach(edges, seen + {x}, c, y) {
      var c :| Edge(edges, x, c) && FreshReach(edges, seen + {x}, c, y);
      FreshFewer(edges, seen, seen + {x}, c, y);
      FreshEnds(edges, seen, c, y);
      assert IsWalk(edges, [x, c]) && Avoids([x, c], seen);
      IsFresh(edges, seen, [x, c]);
      FreshTrans(edges, seen, x, c, y);
    }
  }

  ghost predicate SeenAfter(edges: Edges, seen: set<Node>, c: Node, after: set<Node>) {
    forall n {:trigger FreshReach(edges, seen, c, n)} {:trigger n in after} :: n in after <==> n in seen || FreshReach(edges, seen, c, n)
  }

  /** What c leads to, and then what d still leads to, is what either led to at first. */
  lemma FreshStep(edges: Edges, seen: set<Node>, c: Node, after: set<Node>, d: Node, y: Node)
    requires SeenAfter(edges, seen, c, after)
    ensures FreshReach(edges, seen, c, y) || FreshReach(edges, seen, d, y) <==> FreshReach(edges, seen, c, y) || FreshReach(edges, after, d, y)
  {
    if FreshReach(edges, after, d, y) {
      FreshFewer(edges, seen, after, d, y);
    }
    if FreshReach(edges, seen, d, y) && !FreshReach(edges, after, d, y) {
      var p :| WalkFromTo(edges, p, d, y) && Avoids(p, seen);
      assert !Avoids(p, after);
      var k :| 0 <= k < |p| && p[k] in after;
      assert p[k] in p;
      SuffixIsWalk(edges, p, k);
      assert Avoids(p[k..], seen);
      IsFresh(edges, seen, p[k..]);
      FreshTrans(edges, seen, c, p[k], y);
    }
  }

  /** From c, through nodes not seen, some edge leads back to the path at or above z. */
  ghost predicate Closes(edges: Edges, seen: set<Node>, c: Node, path: seq<Node>, z: Node) {
    exists v, y :: FreshReach(edges, seen, c, v) && Edge(edges, v, y) && z in FromCallee(path, y)
  }

  ghost predicate CalleeCloses(edges: Edges, seen: set<Node>, c: Node, path: seq<Node>, z: Node) {
    z in FromCallee(path, c) || Closes(edges, seen, c, path, z)
  }

  ghost predicate SomeCloses(edges: Edges, seen: set<Node>, callees: seq<Node>, path: seq<Node>, z: Node) {
    exists c :: c in callees && CalleeCloses(edges, seen, c, path, z)
  }

  ghost predicate SomeFresh(edges: Edges, seen: set<Node>, callees: seq<Node>, n: Node) {
    exists c :: c in callees && FreshReach(edges, seen, c, n)
  }

  lemma FromCalleeSnoc(path: seq<Node>, node: Node, y: Node, z: Node)
    requires node !in path
    ensures z in path ==> (z in FromCallee(path + [node], y) <==> z in FromCallee(path, y))
    ensures node in FromCallee(path + [node], y) <==> y in path + [node]
  {
    if path == [] {
      assert path + [node] == [node];
      assert [node][1..] == [];
    } else {
      assert (path + [node])[1..] == path[1..] + [node] && (path + [node])[0] == path[0];
      FromCalleeSnoc(path[1..], node, y, z);
      FromCalleeInside(path[1..], y);
      FromCalleeInside(path[1..] + [node], y);
    }
  }

  lemma FromCalleeInside(path: seq<Node>, y: Node)
    ensures FromCallee(path, y) <= set n | n in path
  {
  }

  /** The next callee first, then the others against what it left unseen. */
  lemma ClosesStep(edges: Edges, seen: set<Node>, callees: seq<Node>, after: set<Node>, path: seq<Node>, z: Node)
    requires callees != [] && SeenAfter(edges, seen, callees[0], after)
    ensures SomeCloses(edges, seen, callees, path, z) <==> CalleeCloses(edges, seen, callees[0], path, z) || SomeCloses(edges, after, callees[1..], path, z)
  {
    hide FreshReach, FromCallee, SeenAfter;
    var c := callees[0];
    assert callees == [c] + callees[1..];
    if SomeCloses(edges, seen, callees, path, z) && !CalleeCloses(edges, seen, c, path, z) {
      var d :| d in callees && CalleeCloses(edges, seen, d, path, z);
      assert d in callees[1..];
      if z !in FromCallee(path, d) {
        var v, y :| FreshReach(edges, seen, d, v) && Edge(edges, v, y) && z in FromCallee(path, y);
        FreshStep(edges, seen, c, after, d, v);
        assert FreshReach(edges, after, d, v);
      }
      assert CalleeCloses(edges, after, d, path, z);
    }
    if SomeCloses(edges, after, callees[1..], path, z) && !CalleeCloses(edges, seen, c, path, z) {
      var d :| d in callees[1..] && CalleeCloses(edges, after, d, path, z);
      if z !in FromCallee(path, d) {
        var v, y :| FreshReach(edges, after, d, v) && Edge(edges, v, y) && z in FromCallee(path, y);
        FreshStep(edges, seen, c, after, d, v);
        assert FreshReach(edges, seen, d, v);
      }
      assert CalleeCloses(edges, seen, d, path, z);
    }
  }

  lemma FreshesStep(edges: Edges, seen: set<Node>, callees: seq<Node>, after: set<Node>, n: Node)
    requires callees != [] && SeenAfter(edges, seen, callees[0], after)
    ensures SomeFresh(edges, seen, callees, n) <==> FreshReach(edges, seen, callees[0], n) || SomeFresh(edges, after, callees[1..], n)
  {
    hide FreshReach, SeenAfter;
    var c := callees[0];
    assert callees == [c] + callees[1..];
    if SomeFresh(edges, seen, callees, n) && !FreshReach(edges, seen, c, n) {
      var d :| d in callees && FreshReach(edges, seen, d, n);
      FreshStep(edges, seen, c, after, d, n);
    }
    if SomeFresh(edges, after, callees[1..], n) {
      var d :| d in callees[1..] && FreshReach(edges, after, d, n);
      FreshStep(edges, seen, c, after, d, n);
    }
  }

  lemma ClosesEnter(edges: Edges, seen: set<Node>, node: Node, path: seq<Node>, z: Node)
    requires node !in seen
    ensures Closes(edges, seen, node, path, z) <==> SomeCloses(edges, seen + {node}, Succ(edges, node), path, z)
  {
    hide FreshReach, FromCallee;
    if Closes(edges, seen, node, path, z) {
      var v, y :| FreshReach(edges, seen, node, v) && Edge(edges, v, y) && z in FromCallee(path, y);
      FreshEnter(edges, seen, node, v);
      if v == node {
        assert CalleeCloses(edges, seen + {node}, y, path, z);
      } else {
        var c :| Edge(edges, node, c) && FreshReach(edges, seen + {node}, c, v);
        assert CalleeCloses(edges, seen + {node}, c, path, z);
      }
    }
    if SomeCloses(edges, seen + {node}, Succ(edges, node), path, z) {
      var c :| c in Succ(edges, node) && CalleeCloses(edges, seen + {node}, c, path, z);
      assert Edge(edges, node, c);
      if z in FromCallee(path, c) {
        FreshEnter(edges, seen, node, node);
      } else {
        var v, y :| FreshReach(edges, seen + {node}, c, v) && Edge(edges, v, y) && z in FromCallee(path, y);
        FreshEnter(edges, seen, node, v);
      }
    }
  }

  lemma FreshesEnter(edges: Edges, seen: set<Node>, node: Node, n: Node)
    requires node !in seen
    ensures FreshReach(edges, seen, node, n) <==> n == node || SomeFresh(edges, seen + {node}, Succ(edges, node), n)
  {
    hide FreshReach;
    FreshEnter(edges, seen, node, n);
    assert forall c :: c in Succ(edges, node) <==> Edge(edges, node, c);
  }

  /** The path holds exactly the grey nodes, each once. */
  ghost predicate GreyPath(path: seq<Node>, m: Marking) {
    && (forall n :: m.ColorOf(n) == Grey <==> n in path)
    && forall i, j :: 0 <= i < j < |path| ==> path[i] != path[j]
  }

  /** One visit sees what is reachable through unvisited nodes, and marks, among the nodes on the path, those below
      an edge that leads back to it from there. */
  ghost predicate VisitMeans(edges: Edges, node: Node, path: seq<Node>, m: Marking, r: Marking) {
    && SeenAfter(edges, m.Visited(), node, r.Visited())
    && GreyPath(path, r)
    && forall z {:trigger z in r.inCycle} :: z in path + [node] ==> (z in r.inCycle <==> z in m.inCycle || Closes(edges, m.Visited(), node, path + [node], z))
  }

  ghost predicate CalleesMean(edges: Edges, callees: seq<Node>, path: seq<Node>, m: Marking, r: Marking) {
    && (forall n {:trigger n in r.Visited()} :: n in r.Visited() <==> n in m.Visited() || SomeFresh(edges, m.Visited(), callees, n))
    && GreyPath(path, r)
    && forall z {:trigger z in r.inCycle} :: z in path ==> (z in r.inCycle <==> z in m.inCycle || SomeCloses(edges, m.Visited(), callees, path, z))
  }

  ghost predicate CalleeMeans(edges: Edges, c: Node, path: seq<Node>, m: Marking, r: Marking) {
    && SeenAfter(edges, m.Visited(), c, r.Visited())
    && GreyPath(path, r)
    && forall z {:trigger z in r.inCycle} :: z in path ==> (z in r.inCycle <==> z in m.inCycle || CalleeCloses(edges, m.Visited(), c, path, z))
  }

  lemma {:induction false} VisitExactly(edges: Edges, universe: set<Node>, node: Node, path: seq<Node>, m: Marking)
    requires Vertices(edges) <= universe && node in universe && m.ColorOf(node) == White && GreyPath(path, m)
    ensures VisitMeans(edges, node, path, m, Dfs(edges, universe, node, path, m))
    decreases universe - m.Visited(), 0
  {
    hide CalleesMean, SomeFresh, SomeCloses, Closes, FreshReach, FromCallee;
    var entered := m.(color := m.color[node := Grey]);
    assert node in entered.Visited() && m.Visited() <= entered.Visited();
    assert entered.Visited() == m.Visited() + {node};
    CalleesExactly(edges, universe, node, Succ(edges, node), path + [node], entered);
    var explored := DfsCallees(edges, universe, node, Succ(edges, node), path + [node], entered);
    AfterCallees(edges, node, path, m, entered, explored);
  }

  lemma AfterCallees(edges: Edges, node: Node, path: seq<Node>, m: Marking, entered: Marking, explored: Marking)
    requires m.ColorOf(node) == White && entered == m.(color := m.color[node := Grey])
    requires entered.Visited() == m.Visited() + {node} && GreyPath(path, m)
    requires CalleesMean(edges, Succ(edges, node), path + [node], entered, explored)
    ensures VisitMeans(edges, node, path, m, Blackened(explored, node))
  {
    hide SomeFresh, SomeCloses, Closes, FreshReach, FromCallee;
    var r := Blackened(explored, node);
    assert r.Visited() == explored.Visited() by { assert node in path + [node]; }
    forall n
      ensures n in r.Visited() <==> n in m.Visited() || FreshReach(edges, m.Visited(), node, n)
    {
      FreshesEnter(edges, m.Visited(), node, n);
    }
    forall z | z in path + [node]
      ensures z in r.inCycle <==> z in m.inCycle || Closes(edges, m.Visited(), node, path + [node], z)
    {
      ClosesEnter(edges, m.Visited(), node, path + [node], z);
    }
    forall i, j | 0 <= i < j < |path|
      ensures path[i] != path[j]
    {
      assert (path + [node])[i] == path[i] && (path + [node])[j] == path[j];
    }
    assert node !in path;
    forall n
      ensures r.ColorOf(n) == Grey <==> n in path
    {
      assert explored.ColorOf(n) == Grey <==> n in path + [node];
    }
  }

  lemma {:induction false} CalleesExactly(edges: Edges, universe: set<Node>, node: Node, callees: seq<Node>, path: seq<Node>, m: Marking)
    requires Vertices(edges) <= universe && (forall c :: c in callees ==> Edge(edges, node, c))
    requires GreyPath(path, m)
    ensures CalleesMean(edges, callees, path, m, DfsCallees(edges, universe, node, callees, path, m))
    decreases universe - m.Visited(), 1 + |callees|
  {
    hide CalleeMeans, VisitMeans, Closes, FreshReach, FromCallee, GreyPath, CalleesMean, Vertices;
    if callees == [] {
      NoCallees(edges, path, m);
    } else {
      var c := callees[0];
      var n := OneCallee(edges, universe, node, c, path, m);
      match m.ColorOf(c) {
        case White =>
          VisitExactly(edges, universe, c, path, m);
          WhiteCallee(edges, c, path, m, n);
        case Grey => GreyCallee(edges, c, path, m, n);
        case Black => BlackCallee(edges, c, path, m);
      }
      CalleeKeepsPath(edges, c, path, m, n);
      CalleesExactly(edges, universe, node, callees[1..], path, n);
      ThenOthers(edges, callees, path, m, n, DfsCallees(edges, universe, node, callees[1..], path, n));
    }
  }

  lemma CalleeKeepsPath(edges: Edges, c: Node, path: seq<Node>, m: Marking, n: Marking)
    requires CalleeMeans(edges, c, path, m, n)
    ensures GreyPath(path, n)
  {
  }

  lemma NoCallees(edges: Edges, path: seq<Node>, m: Marking)
    requires GreyPath(path, m)
    ensures CalleesMean(edges, [], path, m, m)
  {
  }

  lemma WhiteCallee(edges: Edges, c: Node, path: seq<Node>, m: Marking, r: Marking)
    requires m.ColorOf(c) == White && GreyPath(path, m) && VisitMeans(edges, c, path, m, r)
    ensures CalleeMeans(edges, c, path, m, r)
  {
    hide FreshReach, FromCallee;
    forall z | z in path
      ensures Closes(edges, m.Visited(), c, path + [c], z) <==> CalleeCloses(edges, m.Visited(), c, path, z)
    {
      forall y
        ensures z in FromCallee(path + [c], y) <==> z in FromCallee(path, y)
      {
        FromCalleeSnoc(path, c, y, z);
      }
      NotFromOutside(path, c);
    }
  }

  lemma NotFromOutside(path: seq<Node>, c: Node)
    requires c !in path
    ensures FromCallee(path, c) == {}
  {
  }

  lemma GreyCallee(edges: Edges, c: Node, path: seq<Node>, m: Marking, r: Marking)
    requires m.ColorOf(c) == Grey && GreyPath(path, m) && r == m.(inCycle := m.inCycle + FromCallee(path, c))
    ensures CalleeMeans(edges, c, path, m, r)
  {
    SeenLeadsNowhere(edges, c, m);
    assert r.Visited() == m.Visited();
  }

  lemma BlackCallee(edges: Edges, c: Node, path: seq<Node>, m: Marking)
    requires m.ColorOf(c) == Black && GreyPath(path, m)
    ensures CalleeMeans(edges, c, path, m, m)
  {
    SeenLeadsNowhere(edges, c, m);
    NotFromOutside(path, c);
  }

  lemma SeenLeadsNowhere(edges: Edges, c: Node, m: Marking)
    requires m.ColorOf(c) != White
    ensures forall n :: !FreshReach(edges, m.Visited(), c, n)
  {
    forall n | FreshReach(edges, m.Visited(), c, n)
      ensures false
    {
      FreshEnds(edges, m.Visited(), c, n);
    }
  }

  lemma ThenOthers(edges: Edges, callees: seq<Node>, path: seq<Node>, m: Marking, n: Marking, r: Marking)
    requires callees != [] && CalleeMeans(edges, callees[0], path, m, n) && CalleesMean(edges, callees[1..], path, n, r)
    ensures CalleesMean(edges, callees, path, m, r)
  {
    hide FreshReach, FromCallee, SomeFresh, SomeCloses, CalleeCloses, GreyPath;
    forall k
      ensures k in r.Visited() <==> k in m.Visited() || SomeFresh(edges, m.Visited(), callees, k)
    {
      FreshesStep(edges, m.Visited(), callees, n.Visited(), k);
    }
    forall z | z in path
      ensures z in r.inCycle <==> z in m.inCycle || SomeCloses(edges, m.Visited(), callees, path, z)
    {
      ClosesStep(edges, m.Visited(), callees, n.Visited(), path, z);
    }
  }

  /** As the search enters `node`, it still leads back to itself or to the path through files not visited yet. */
  ghost predicate LeadsBack(edges: Edges, m: Marking, path: seq<Node>, node: Node) {
    exists v, y :: FreshReach(edges, m.Visited(), node, v) && Edge(edges, v, y) && y in path + [node]
  }

  /** A visit marks the node it is for exactly when the node leads back at that moment; a file on a cycle whose
      other files were all finished before it was entered is the one that is missed. */
  lemma MarkedIffLeadsBack(edges: Edges, universe: set<Node>, node: Node, path: seq<Node>, m: Marking)
    requires Vertices(edges) <= universe && node in universe && m.ColorOf(node) == White && GreyPath(path, m)
    requires node !in m.inCycle
    ensures node in Dfs(edges, universe, node, path, m).inCycle <==> LeadsBack(edges, m, path, node)
  {
    hide FreshReach, FromCallee, Dfs;
    VisitExactly(edges, universe, node, path, m);
    assert node !in path;
    forall y
      ensures node in FromCallee(path + [node], y) <==> y in path + [node]
    {
      FromCalleeSnoc(path, node, y, node);
    }
    assert node in path + [node];
  }

  // ----- where it is exact, and where it is not -----

  /** Every visit to a file on a cycle finds it leading back. */
  ghost predicate VisitsLeadBack(edges: Edges, universe: set<Node>, node: Node, path: seq<Node>, m: Marking)
    requires Vertices(edges) <= universe && node in universe && m.ColorOf(node) == White
    decreases universe - m.Visited(), 0
  {
    var entered := m.(color := m.color[node := Grey]);
    assert node in entered.Visited() && m.Visited() <= entered.Visited();
    && (OnCycle(edges, node) ==> LeadsBack(edges, m, path, node))
    && CalleesLeadBack(edges, universe, node, Succ(edges, node), path + [node], entered)
  }

  ghost predicate CalleesLeadBack(edges: Edges, universe: set<Node>, node: Node, callees: seq<Node>, path: seq<Node>, m: Marking)
    requires Vertices(edges) <= universe && forall c :: c in callees ==> Edge(edges, node, c)
    decreases universe - m.Visited(), 1 + |callees|
  {
    assert callees != [] ==> Edge(edges, node, callees[0]);
    callees == [] || (
      && (m.ColorOf(callees[0]) == White ==> VisitsLeadBack(edges, universe, callees[0], path, m))
      && CalleesLeadBack(edges, universe, node, callees[1..], path, OneCallee(edges, universe, node, callees[0], path, m)))
  }

  ghost predicate AllLeadBack(edges: Edges, order: seq<Node>, m: Marking)
    requires forall n :: n in order ==> n in edges
  {
    order == [] || (
      && (m.ColorOf(order[0]) == White ==> VisitsLeadBack(edges, Vertices(edges), order[0], [], m))
      && AllLeadBack(edges, order[1..], if m.ColorOf(order[0]) == White then Dfs(edges, Vertices(edges), order[0], [], m) else m))
  }

  /** Of the files visited between m and r, every one on a cycle is marked. */
  ghost predicate CatchesAll(edges: Edges, m: Marking, r: Marking) {
    forall n {:trigger n in r.Visited()} :: n in r.Visited() && n !in m.Visited() && OnCycle(edges, n) ==> n in r.inCycle
  }

  /** Only visited files are marked, and a finished file's mark never changes. */
  ghost predicate MarksStay(path: seq<Node>, m: Marking, r: Marking) {
    && m.Visited() <= r.Visited() && GreyPath(path, r) && r.inCycle <= r.Visited()
    && forall n {:trigger n in r.inCycle} :: n in m.Visited() && n !in path ==> (n in r.inCycle <==> n in m.inCycle)
  }

  lemma {:induction false} VisitMarksStay(edges: Edges, universe: set<Node>, node: Node, path: seq<Node>, m: Marking)
    requires Vertices(edges) <= universe && node in universe && m.ColorOf(node) == White
    requires GreyPath(path, m) && m.inCycle <= m.Visited()
    ensures MarksStay(path, m, Dfs(edges, universe, node, path, m))
    decreases universe - m.Visited(), 0
  {
    hide VisitMeans;
    var entered := m.(color := m.color[node := Grey]);
    assert node in entered.Visited() && m.Visited() <= entered.Visited();
    CalleesMarksStay(edges, universe, node, Succ(edges, node), path + [node], entered);
    VisitExactly(edges, universe, node, path, m);
    VisitKeepsPath(edges, node, path, m, Dfs(edges, universe, node, path, m));
  }

  lemma VisitKeepsPath(edges: Edges, node: Node, path: seq<Node>, m: Marking, r: Marking)
    requires VisitMeans(edges, node, path, m, r)
    ensures GreyPath(path, r)
  {
  }

  lemma {:induction false} CalleesMarksStay(edges: Edges, universe: set<Node>, node: Node, callees: seq<Node>, path: seq<Node>, m: Marking)
    requires Vertices(edges) <= universe && (forall c :: c in callees ==> Edge(edges, node, c))
    requires GreyPath(path, m) && m.inCycle <= m.Visited()
    ensures MarksStay(path, m, DfsCallees(edges, universe, node, callees, path, m))
    decreases universe - m.Visited(), 1 + |callees|
  {
    if callees != [] {
      OneMarksStay(edges, universe, node, callees, path, m);
      CalleesMarksStay(edges, universe, node, callees[1..], path, OneCallee(edges, universe, node, callees[0], path, m));
    }
  }

  lemma {:induction false} OneMarksStay(edges: Edges, universe: set<Node>, node: Node, callees: seq<Node>, path: seq<Node>, m: Marking)
    requires Vertices(edges) <= universe && callees != [] && Edge(edges, node, callees[0])
    requires GreyPath(path, m) && m.inCycle <= m.Visited()
    ensures MarksStay(path, m, OneCallee(edges, universe, node, callees[0], path, m))
    decreases universe - m.Visited(), 1
  {
    match m.ColorOf(callees[0]) {
      case White => VisitMarksStay(edges, universe, callees[0], path, m);
      case Grey => FromCalleeInside(path, callees[0]);
      case Black =>
    }
  }

  lemma {:induction false} VisitCatchesAll(edges: Edges, universe: set<Node>, node: Node, path: seq<Node>, m: Marking)
    requires Vertices(edges) <= universe && node in universe && m.ColorOf(node) == White
    requires GreyPath(path, m) && m.inCycle <= m.Visited()
    ensures VisitsLeadBack(edges, universe, node, path, m) <==> CatchesAll(edges, m, Dfs(edges, universe, node, path, m))
    decreases universe - m.Visited(), 0
  {
    hide OnCycle, LeadsBack, CalleesLeadBack, MarksStay;
    var entered := m.(color := m.color[node := Grey]);
    assert node in entered.Visited() && m.Visited() <= entered.Visited();
    assert entered.Visited() == m.Visited() + {node};
    var explored := DfsCallees(edges, universe, node, Succ(edges, node), path + [node], entered);
    CalleesCatchAll(edges, universe, node, Succ(edges, node), path + [node], entered);
    MarkedIffLeadsBack(edges, universe, node, path, m);
    assert Dfs(edges, universe, node, path, m) == Blackened(explored, node);
    assert node in explored.Visited() && explored.Visited() == Blackened(explored, node).Visited();
  }

  lemma {:induction false} CalleesCatchAll(edges: Edges, universe: set<Node>, node: Node, callees: seq<Node>, path: seq<Node>, m: Marking)
    requires Vertices(edges) <= universe && (forall c :: c in callees ==> Edge(edges, node, c))
    requires GreyPath(path, m) && m.inCycle <= m.Visited()
    ensures CalleesLeadBack(edges, universe, node, callees, path, m) <==> CatchesAll(edges, m, DfsCallees(edges, universe, node, callees, path, m))
    decreases universe - m.Visited(), 1 + |callees|
  {
    hide OnCycle, MarksStay, VisitsLeadBack, Dfs;
    if callees != [] {
      var c := callees[0];
      var n := OneCallee(edges, universe, node, c, path, m);
      OneMarksStay(edges, universe, node, callees, path, m);
      StaysMeans(path, m, n);
      if m.ColorOf(c) == White {
        VisitCatchesAll(edges, universe, c, path, m);
      }
      CalleesMarksStay(edges, universe, node, callees[1..], path, n);
      CalleesCatchAll(edges, universe, node, callees[1..], path, n);
      BothCatch(edges, path, m, n, DfsCallees(edges, universe, node, callees[1..], path, n));
    }
  }

  lemma StaysMeans(path: seq<Node>, m: Marking, n: Marking)
    requires MarksStay(path, m, n)
    ensures GreyPath(path, n) && n.inCycle <= n.Visited()
  {
  }

  /** What the first part visits is finished when the second begins, so its marks are final. */
  lemma BothCatch(edges: Edges, path: seq<Node>, m: Marking, n: Marking, r: Marking)
    requires GreyPath(path, m) && MarksStay(path, m, n) && MarksStay(path, n, r)
    ensures CatchesAll(edges, m, r) <==> CatchesAll(edges, m, n) && CatchesAll(edges, n, r)
  {
  }

  /** The whole search, from the marking m on. */
  lemma {:induction false} AllCatch(edges: Edges, order: seq<Node>, m: Marking)
    requires GreyPath([], m) && m.inCycle <= m.Visited() && forall n :: n in order ==> n in edges
    ensures AllLeadBack(edges, order, m) <==> CatchesAll(edges, m, MarkAll(edges, order, m))
    ensures MarksStay([], m, MarkAll(edges, order, m))
  {
    hide OnCycle, VisitsLeadBack, Dfs;
    if order != [] {
      if m.ColorOf(order[0]) == White {
        var n := Dfs(edges, Vertices(edges), order[0], [], m);
        VisitCatchesAll(edges, Vertices(edges), order[0], [], m);
        VisitMarksStay(edges, Vertices(edges), order[0], [], m);
        AllCatch(edges, order[1..], n);
        BothCatch(edges, [], m, n, MarkAll(edges, order[1..], n));
      } else {
        AllCatch(edges, order[1..], m);
      }
    }
  }

  /** The marked files are exactly those on a cycle if and only if every file on a cycle, at the moment the search
      enters it, leads back to the current path through files not visited yet. */
  lemma ExactIffAllLeadBack(edges: Edges, order: seq<Node>)
    requires forall n :: n in order <==> n in edges
    ensures (forall x :: x in MarkAll(edges, order, Unvisited(edges)).inCycle <==> OnCycle(edges, x)) <==> AllLeadBack(edges, order, Unvisited(edges))
  {
    hide OnCycle, Sound, HitsEveryCycle, MarksStay, AllLeadBack, MarkAll, Inv;
    var m := Unvisited(edges);
    var r := MarkAll(edges, order, m);
    assert m.Visited() == {};
    AllCatch(edges, order, m);
    MarkingSoundAndHitting(edges, order);
    UnvisitedInv(edges);
    MarkAllKeeps(edges, order, m);
    forall x | x in r.inCycle
      ensures OnCycle(edges, x)
    {
      MarkedIsCyclic(edges, r.inCycle, x);
    }
    forall x | OnCycle(edges, x)
      ensures x in r.Visited()
    {
      OnCycleIsKey(edges, x);
      assert r.ColorOf(x) == Black;
    }
  }

  lemma OnCycleIsKey(edges: Edges, x: Node)
    requires OnCycle(edges, x)
    ensures x in edges
  {
    OnCycleViaSuccessor(edges, x);
  }

  // ----- the exact condition, without an order and without a search -----

  /** The callees listed before x. */
  function Before(callees: seq<Node>, x: Node): seq<Node> {
    if callees == [] || callees[0] == x then [] else [callees[0]] + Before(callees[1..], x)
  }

  /** What is reachable from one of these files past those seen already. */
  ghost function Explored(edges: Edges, seen: set<Node>, callees: seq<Node>): set<Node> {
    set n | n in Vertices(edges) && SomeFresh(edges, seen, callees, n)
  }

  /** What is seen when x is reached from p: p itself and all that the dependencies listed before x lead to. */
  ghost function SeenNext(edges: Edges, seen: set<Node>, p: Node, x: Node): set<Node> {
    seen + {p} + Explored(edges, seen + {p}, Before(Succ(edges, p), x))
  }

  /** A walk each of whose files is still new when the dependencies listed before it are followed first. */
  ghost predicate IsTrail(edges: Edges, seen: set<Node>, q: seq<Node>)
    decreases |q|
  {
    q != [] && q[0] !in seen && (|q| > 1 ==> Edge(edges, q[0], q[1]) && IsTrail(edges, SeenNext(edges, seen, q[0], q[1]), q[1..]))
  }

  /** The end of the trail still leads back to a file of the trail, or of the path before it, through files that are
      new there. */
  ghost predicate EndLeadsBack(edges: Edges, seen: set<Node>, path: seq<Node>, q: seq<Node>)
    requires q != []
    decreases |q|
  {
    if |q| > 1 then EndLeadsBack(edges, SeenNext(edges, seen, q[0], q[1]), path + [q[0]], q[1..])
    else exists v, y :: FreshReach(edges, seen, q[0], v) && Edge(edges, v, y) && y in path + q
  }

  /** Every trail from x that ends on a cycle leads back. */
  ghost predicate TrailsLeadBack(edges: Edges, seen: set<Node>, path: seq<Node>, x: Node) {
    forall q {:trigger IsTrail(edges, seen, q)} :: IsTrail(edges, seen, q) && q[0] == x && OnCycle(edges, q[|q| - 1]) ==> EndLeadsBack(edges, seen, path, q)
  }

  /** The same for the callees of the last file of the path. */
  ghost predicate CalleeTrailsLeadBack(edges: Edges, callees: seq<Node>, path: seq<Node>, seen: set<Node>) {
    forall c {:trigger c in callees} :: c in callees ==> TrailsLeadBack(edges, seen + Explored(edges, seen, Before(callees, c)), path, c)
  }

  lemma ExploredNext(edges: Edges, seen: set<Node>, callees: seq<Node>, after: set<Node>)
    requires callees != [] && SeenAfter(edges, seen, callees[0], after) && forall c :: c in callees ==> c in Vertices(edges)
    ensures seen + Explored(edges, seen, callees) == after + Explored(edges, after, callees[1..])
  {
    hide FreshReach;
    forall n
      ensures n in seen + Explored(edges, seen, callees) <==> n in after + Explored(edges, after, callees[1..])
    {
      FreshesStep(edges, seen, callees, after, n);
      if FreshReach(edges, seen, callees[0], n) {
        FreshStaysInside(edges, seen, callees[0], n);
      }
    }
  }

  lemma FreshStaysInside(edges: Edges, seen: set<Node>, c: Node, n: Node)
    requires c in Vertices(edges) && FreshReach(edges, seen, c, n)
    ensures n in Vertices(edges)
  {
    ClosedReach(edges, Vertices(edges), c, n);
  }

  lemma NothingExplored(edges: Edges, seen: set<Node>)
    ensures seen + Explored(edges, seen, []) == seen
  {
  }

  lemma SeenHasNoTrails(edges: Edges, seen: set<Node>, path: seq<Node>, x: Node)
    requires x in seen
    ensures TrailsLeadBack(edges, seen, path, x)
  {
  }

  lemma TrailsGoOn(edges: Edges, seen: set<Node>, path: seq<Node>, x: Node, c: Node)
    requires x !in seen && Edge(edges, x, c) && TrailsLeadBack(edges, seen, path, x)
    ensures TrailsLeadBack(edges, SeenNext(edges, seen, x, c), path + [x], c)
  {
    hide OnCycle, SeenNext;
    var after := SeenNext(edges, seen, x, c);
    forall t {:trigger IsTrail(edges, after, t)} | IsTrail(edges, after, t) && t[0] == c && OnCycle(edges, t[|t| - 1])
      ensures EndLeadsBack(edges, after, path + [x], t)
    {
      var q := [x] + t;
      assert q[1..] == t && IsTrail(edges, seen, q);
    }
  }

  /** A trail from a file is the file alone or goes on as a trail from one of its callees. */
  lemma TrailsSplit(edges: Edges, seen: set<Node>, path: seq<Node>, x: Node)
    requires x !in seen
    ensures TrailsLeadBack(edges, seen, path, x) <==>
      (OnCycle(edges, x) ==> EndLeadsBack(edges, seen, path, [x])) && CalleeTrailsLeadBack(edges, Succ(edges, x), path + [x], seen + {x})
  {
    hide OnCycle, Explored;
    assert IsTrail(edges, seen, [x]);
    if TrailsLeadBack(edges, seen, path, x) {
      forall c | c in Succ(edges, x)
        ensures TrailsLeadBack(edges, SeenNext(edges, seen, x, c), path + [x], c)
      {
        TrailsGoOn(edges, seen, path, x, c);
      }
      assert CalleeTrailsLeadBack(edges, Succ(edges, x), path + [x], seen + {x});
    }
    if (OnCycle(edges, x) ==> EndLeadsBack(edges, seen, path, [x])) && CalleeTrailsLeadBack(edges, Succ(edges, x), path + [x], seen + {x}) {
      forall q {:trigger IsTrail(edges, seen, q)} | IsTrail(edges, seen, q) && q[0] == x && OnCycle(edges, q[|q| - 1])
        ensures EndLeadsBack(edges, seen, path, q)
      {
        if |q| > 1 {
          var t := q[1..];
          assert Edge(edges, x, t[0]) && t[0] in Succ(edges, x) && t[|t| - 1] == q[|q| - 1];
          assert TrailsLeadBack(edges, SeenNext(edges, seen, x, t[0]), path + [x], t[0]);
          assert IsTrail(edges, SeenNext(edges, seen, x, t[0]), t);
          assert EndLeadsBack(edges, SeenNext(edges, seen, x, t[0]), path + [x], t);
        } else {
          assert q == [x];
        }
      }
    }
  }

  /** The first callee, then the others against what it left unseen. */
  lemma CalleeTrailsSplit(edges: Edges, callees: seq<Node>, path: seq<Node>, seen: set<Node>, after: set<Node>)
    requires callees != [] && SeenAfter(edges, seen, callees[0], after) && forall c :: c in callees ==> c in Vertices(edges)
    ensures CalleeTrailsLeadBack(edges, callees, path, seen) <==>
      TrailsLeadBack(edges, seen, path, callees[0]) && CalleeTrailsLeadBack(edges, callees[1..], path, after)
  {
    hide TrailsLeadBack, Explored, FreshReach;
    var first := callees[0];
    NothingExplored(edges, seen);
    assert Before(callees, first) == [];
    forall c | c in callees[1..] && c == first
      ensures TrailsLeadBack(edges, after + Explored(edges, after, Before(callees[1..], c)), path, c)
    {
      FirstSeenAfter(edges, seen, first, after);
      SeenHasNoTrails(edges, after + Explored(edges, after, Before(callees[1..], c)), path, c);
    }
    forall c | c in callees[1..] && c != first
      ensures TrailsLeadBack(edges, seen + Explored(edges, seen, Before(callees, c)), path, c)
        <==> TrailsLeadBack(edges, after + Explored(edges, after, Before(callees[1..], c)), path, c)
    {
      var b := Before(callees, c);
      assert b[0] == first && b[1..] == Before(callees[1..], c);
      BeforeInside(callees, c);
      ExploredNext(edges, seen, b, after);
    }
    assert forall c :: c in callees <==> c == first || c in callees[1..];
    if CalleeTrailsLeadBack(edges, callees, path, seen) {
      assert first in callees;
      forall c {:trigger c in callees[1..]} | c in callees[1..]
        ensures TrailsLeadBack(edges, after + Explored(edges, after, Before(callees[1..], c)), path, c)
      {
        assert c in callees;
      }
    }
  }

  lemma {:induction false} BeforeInside(callees: seq<Node>, x: Node)
    ensures forall c :: c in Before(callees, x) ==> c in callees
  {
    if callees != [] && callees[0] != x {
      BeforeInside(callees[1..], x);
    }
  }

  lemma FirstSeenAfter(edges: Edges, seen: set<Node>, c: Node, after: set<Node>)
    requires SeenAfter(edges, seen, c, after)
    ensures c in after
  {
    if c !in seen {
      FreshRefl(edges, seen, c);
    }
  }

  lemma OneExactly(edges: Edges, universe: set<Node>, node: Node, c: Node, path: seq<Node>, m: Marking)
    requires Vertices(edges) <= universe && Edge(edges, node, c) && GreyPath(path, m)
    ensures CalleeMeans(edges, c, path, m, OneCallee(edges, universe, node, c, path, m))
  {
    hide CalleeMeans, VisitMeans, FromCallee, GreyPath;
    match m.ColorOf(c) {
      case White =>
        VisitExactly(edges, universe, c, path, m);
        WhiteCallee(edges, c, path, m, OneCallee(edges, universe, node, c, path, m));
      case Grey => GreyCallee(edges, c, path, m, OneCallee(edges, universe, node, c, path, m));
      case Black => BlackCallee(edges, c, path, m);
    }
  }

  lemma CalleeSees(edges: Edges, c: Node, path: seq<Node>, m: Marking, r: Marking)
    requires CalleeMeans(edges, c, path, m, r)
    ensures SeenAfter(edges, m.Visited(), c, r.Visited()) && GreyPath(path, r)
  {
  }

  /** The visits below one file lead back exactly when the trails from it do. */
  lemma {:induction false} VisitsAreTrails(edges: Edges, universe: set<Node>, node: Node, path: seq<Node>, m: Marking)
    requires Vertices(edges) <= universe && node in universe && m.ColorOf(node) == White && GreyPath(path, m)
    ensures VisitsLeadBack(edges, universe, node, path, m) <==> TrailsLeadBack(edges, m.Visited(), path, node)
    decreases universe - m.Visited(), 0
  {
    hide OnCycle, FreshReach, TrailsLeadBack, CalleeTrailsLeadBack, CalleesLeadBack;
    var entered := m.(color := m.color[node := Grey]);
    assert node in entered.Visited() && m.Visited() <= entered.Visited();
    assert entered.Visited() == m.Visited() + {node};
    CalleesAreTrails(edges, universe, node, Succ(edges, node), path + [node], entered);
    TrailsSplit(edges, m.Visited(), path, node);
    assert EndLeadsBack(edges, m.Visited(), path, [node]) <==> LeadsBack(edges, m, path, node);
  }

  lemma {:induction false} CalleesAreTrails(edges: Edges, universe: set<Node>, node: Node, callees: seq<Node>, path: seq<Node>, m: Marking)
    requires Vertices(edges) <= universe && (forall c :: c in callees ==> Edge(edges, node, c)) && GreyPath(path, m)
    ensures CalleesLeadBack(edges, universe, node, callees, path, m) <==> CalleeTrailsLeadBack(edges, callees, path, m.Visited())
    decreases universe - m.Visited(), 1 + |callees|
  {
    hide TrailsLeadBack, CalleeMeans, GreyPath, VisitsLeadBack, SeenAfter, Dfs;
    if callees != [] {
      var c := callees[0];
      var n := OneCallee(edges, universe, node, c, path, m);
      OneExactly(edges, universe, node, c, path, m);
      CalleeSees(edges, c, path, m, n);
      if m.ColorOf(c) == White {
        VisitsAreTrails(edges, universe, c, path, m);
      } else {
        SeenHasNoTrails(edges, m.Visited(), path, c);
      }
      CalleesAreTrails(edges, universe, node, callees[1..], path, n);
      hide CalleeTrailsLeadBack;
      CalleeTrailsSplit(edges, callees, path, m.Visited(), n.Visited());
    }
  }

  /** What is finished and closed is never on the way to anything outside it. */
  lemma FreshBeyond(edges: Edges, seen: set<Node>, b: set<Node>, x: Node, y: Node)
    requires ClosedUnder(edges, b) && y !in b
    ensures FreshReach(edges, seen, x, y) <==> FreshReach(edges, seen + b, x, y)
  {
    if FreshReach(edges, seen, x, y) {
      var p :| WalkFromTo(edges, p, x, y) && Avoids(p, seen);
      forall k | 0 <= k < |p|
        ensures p[k] !in b
      {
        SuffixIsWalk(edges, p, k);
        assert WalkFromTo(edges, p[k..], p[k], y);
        if p[k] in b {
          ClosedReach(edges, b, p[k], y);
        }
      }
      assert Avoids(p, seen + b);
    }
    if FreshReach(edges, seen + b, x, y) {
      FreshFewer(edges, seen, seen + b, x, y);
    }
  }

  lemma SeenNextBeyond(edges: Edges, seen: set<Node>, b: set<Node>, p: Node, x: Node)
    requires ClosedUnder(edges, b)
    ensures SeenNext(edges, seen + b, p, x) == SeenNext(edges, seen, p, x) + b
  {
    hide FreshReach, ClosedUnder;
    var callees := Before(Succ(edges, p), x);
    assert seen + {p} + b == seen + b + {p};
    forall n | n !in b
      ensures SomeFresh(edges, seen + b + {p}, callees, n) <==> SomeFresh(edges, seen + {p}, callees, n)
    {
      forall c
        ensures FreshReach(edges, seen + {p}, c, n) <==> FreshReach(edges, seen + b + {p}, c, n)
      {
        FreshBeyond(edges, seen + {p}, b, c, n);
      }
    }
  }

  lemma {:induction false} TrailBeyond(edges: Edges, seen: set<Node>, b: set<Node>, path: seq<Node>, q: seq<Node>)
    requires ClosedUnder(edges, b) && IsTrail(edges, seen + b, q) && forall y :: y in path ==> y !in b
    ensures IsTrail(edges, seen, q) && (EndLeadsBack(edges, seen, path, q) ==> EndLeadsBack(edges, seen + b, path, q))
    decreases |q|
  {
    hide FreshReach, SeenNext;
    if |q| > 1 {
      SeenNextBeyond(edges, seen, b, q[0], q[1]);
      TrailBeyond(edges, SeenNext(edges, seen, q[0], q[1]), b, path + [q[0]], q[1..]);
    } else if EndLeadsBack(edges, seen, path, q) {
      var v, y :| FreshReach(edges, seen, q[0], v) && Edge(edges, v, y) && y in path + q;
      assert v !in b;
      FreshBeyond(edges, seen, b, q[0], v);
    }
  }

  lemma TrailsBeyond(edges: Edges, b: set<Node>, x: Node)
    requires ClosedUnder(edges, b) && TrailsLeadBack(edges, {}, [], x)
    ensures TrailsLeadBack(edges, b, [], x)
  {
    hide OnCycle, EndLeadsBack, ClosedUnder;
    assert {} + b == b;
    forall q {:trigger IsTrail(edges, b, q)} | IsTrail(edges, b, q) && q[0] == x && OnCycle(edges, q[|q| - 1])
      ensures EndLeadsBack(edges, b, [], q)
    {
      TrailBeyond(edges, {}, b, [], q);
    }
  }

  /** Between two roots everything a visited file depends on is visited. */
  lemma RootCloses(edges: Edges, seen: set<Node>, root: Node, after: set<Node>)
    requires ClosedUnder(edges, seen) && SeenAfter(edges, seen, root, after)
    ensures ClosedUnder(edges, after)
  {
    hide FreshReach;
    forall x, y {:trigger Edge(edges, x, y)} | x in after && Edge(edges, x, y)
      ensures y in after
    {
      if x !in seen && y !in seen {
        FreshEnds(edges, seen, root, x);
        assert IsWalk(edges, [x, y]) && Avoids([x, y], seen);
        IsFresh(edges, seen, [x, y]);
        FreshTrans(edges, seen, root, x, y);
      }
    }
  }

  lemma {:induction false} TrailsServeAnyOrder(edges: Edges, order: seq<Node>, m: Marking)
    requires GreyPath([], m) && ClosedUnder(edges, m.Visited()) && forall n :: n in order ==> n in edges
    requires forall x :: x in edges ==> TrailsLeadBack(edges, {}, [], x)
    ensures AllLeadBack(edges, order, m)
  {
    hide TrailsLeadBack, VisitsLeadBack, Dfs, GreyPath, ClosedUnder, VisitMeans;
    if order != [] {
      var root := order[0];
      if m.ColorOf(root) == White {
        var r := Dfs(edges, Vertices(edges), root, [], m);
        TrailsBeyond(edges, m.Visited(), root);
        VisitsAreTrails(edges, Vertices(edges), root, [], m);
        VisitExactly(edges, Vertices(edges), root, [], m);
        VisitSees(edges, root, [], m, r);
        RootCloses(edges, m.Visited(), root, r.Visited());
        TrailsServeAnyOrder(edges, order[1..], r);
      } else {
        TrailsServeAnyOrder(edges, order[1..], m);
      }
    }
  }

  lemma VisitSees(edges: Edges, node: Node, path: seq<Node>, m: Marking, r: Marking)
    requires VisitMeans(edges, node, path, m, r)
    ensures SeenAfter(edges, m.Visited(), node, r.Visited()) && GreyPath(path, r)
  {
  }

  lemma {:induction false} Listing(keys: set<Node>) returns (order: seq<Node>)
    ensures forall n :: n in order <==> n in keys
    decreases keys
  {
    if keys == {} {
      order := [];
    } else {
      var k :| k in keys;
      var rest := Listing(keys - {k});
      order := [k] + rest;
    }
  }

  /** Every trail that ends on a cycle leads back at its end. */
  ghost predicate EveryTrailLeadsBack(edges: Edges) {
    forall q {:trigger IsTrail(edges, {}, q)} :: IsTrail(edges, {}, q) && OnCycle(edges, q[|q| - 1]) ==> EndLeadsBack(edges, {}, [], q)
  }

  ghost predicate ExactFor(edges: Edges, order: seq<Node>) {
    (forall n :: n in order <==> n in edges) ==>
      forall x :: x in MarkAll(edges, order, Unvisited(edges)).inCycle <==> OnCycle(edges, x)
  }

  lemma TrailsFromKeys(edges: Edges)
    ensures EveryTrailLeadsBack(edges) <==> forall x :: x in edges ==> TrailsLeadBack(edges, {}, [], x)
  {
    hide OnCycle, EndLeadsBack, SeenNext;
    forall q | IsTrail(edges, {}, q) && OnCycle(edges, q[|q| - 1])
      ensures q[0] in edges
    {
      OnCycleIsKey(edges, q[|q| - 1]);
    }
    if forall x :: x in edges ==> TrailsLeadBack(edges, {}, [], x) {
      forall q | IsTrail(edges, {}, q) && OnCycle(edges, q[|q| - 1])
        ensures EndLeadsBack(edges, {}, [], q)
      {
        assert TrailsLeadBack(edges, {}, [], q[0]);
      }
    }
  }

  /** The search marks exactly the files on a cycle, whatever the order of the roots, if and only if every trail that
      ends on a cycle leads back at its end. */
  lemma ExactInEveryOrderIff(edges: Edges)
    ensures (forall order {:trigger ExactFor(edges, order)} :: ExactFor(edges, order)) <==> EveryTrailLeadsBack(edges)
  {
    hide OnCycle, TrailsLeadBack, EveryTrailLeadsBack, AllLeadBack, VisitsLeadBack, MarkAll;
    var m := Unvisited(edges);
    assert m.Visited() == {} && GreyPath([], m) && ClosedUnder(edges, {});
    TrailsFromKeys(edges);
    if EveryTrailLeadsBack(edges) {
      forall order {:trigger ExactFor(edges, order)}
        ensures ExactFor(edges, order)
      {
        if forall n :: n in order <==> n in edges {
          TrailsServeAnyOrder(edges, order, m);
          ExactIffAllLeadBack(edges, order);
        }
      }
    }
    if forall order {:trigger ExactFor(edges, order)} :: ExactFor(edges, order) {
      forall x | x in edges
        ensures TrailsLeadBack(edges, {}, [], x)
      {
        FirstRootLeadsBack(edges, x);
        VisitsAreTrails(edges, Vertices(edges), x, [], m);
      }
    }
  }

  lemma FirstRootLeadsBack(edges: Edges, x: Node)
    requires x in edges && forall order {:trigger ExactFor(edges, order)} :: ExactFor(edges, order)
    ensures VisitsLeadBack(edges, Vertices(edges), x, [], Unvisited(edges))
  {
    hide OnCycle, VisitsLeadBack, MarkAll;
    var rest := Listing(edges.Keys);
    var order := [x] + rest;
    assert ExactFor(edges, order);
    ExactIffAllLeadBack(edges, order);
  }

  lemma MarkedIsCyclic(edges: Edges, inCycle: set<Node>, x: Node)
    requires Sound(edges, inCycle) && x in inCycle
    ensures OnCycle(edges, x)
  {
    assert LiesOnMarkedCycle(edges, inCycle, x);
    var p :| IsCycle(edges, p) && x in p && forall y :: y in p ==> y in inCycle;
    var k :| 0 <= k < |p| && p[k] == x;
    CycleMembers(edges, p, k);
  }

  /** Two cycles that meet visit the same nodes. */
  ghost predicate CyclesDoNotBranch(edges: Edges) {
    forall p, q {:trigger IsCycle(edges, p), IsCycle(edges, q)} ::
      IsCycle(edges, p) && IsCycle(edges, q) && (exists x :: x in p && x in q) ==> forall x :: x in p ==> x in q
  }

  /** Where cycles never branch, every order marks exactly the nodes on a cycle. */
  lemma ExactWithoutBranching(edges: Edges, inCycle: set<Node>, x: Node)
    requires Sound(edges, inCycle) && HitsEveryCycle(edges, inCycle) && CyclesDoNotBranch(edges)
    ensures x in inCycle <==> OnCycle(edges, x)
  {
    if x in inCycle {
      MarkedIsCyclic(edges, inCycle, x);
    }
    if OnCycle(edges, x) {
      var p :| |p| > 1 && WalkFromTo(edges, p, x, x);
      assert IsCycle(edges, p) && x in p;
      var y :| y in p && y in inCycle;
      assert LiesOnMarkedCycle(edges, inCycle, y);
      var q :| IsCycle(edges, q) && y in q && forall z :: z in q ==> z in inCycle;
    }
  }

  const A := Node("a")
  const B := Node("b")
  const C := Node("c")
  const D := Node("d")

  /** Two ways from a to d, one way back. */
  const CONFLUENCE: Edges := map[A := [B, C], B := [D], C := [D], D := [A]]

  /** The state once a is on the path and before its second callee, c, is looked at. */
  ghost function AfterB(): Marking {
    Marking(map[A := Grey, B := Black, C := White, D := Black], {A, B, D})
  }

  lemma VisitB()
    ensures Dfs(CONFLUENCE, Vertices(CONFLUENCE), B, [A], Marking(map[A := Grey, B := White, C := White, D := White], {})) == AfterB()
  {
    var e, u := CONFLUENCE, Vertices(CONFLUENCE);
    var mA := Marking(map[A := Grey, B := White, C := White, D := White], {});
    var mB := mA.(color := mA.color[B := Grey]);
    var mD := mB.(color := mB.color[D := Grey]);
    var marked := mD.(inCycle := {A, B, D});
    assert Succ(e, D)[1..] == [] && Succ(e, B)[1..] == [];
    assert [A] + [B] == [A, B] && [A, B] + [D] == [A, B, D];
    assert {} + FromCallee([A, B, D], A) == {A, B, D};
    assert DfsCallees(e, u, D, Succ(e, D), [A, B, D], mD) == marked;
    assert Dfs(e, u, D, [A, B], mB) == Blackened(marked, D);
    assert DfsCallees(e, u, B, Succ(e, B), [A, B], mB) == Blackened(marked, D);
    assert Blackened(Blackened(marked, D), B).color == AfterB().color;
  }

  lemma VisitC()
    ensures Dfs(CONFLUENCE, Vertices(CONFLUENCE), C, [A], AfterB()) == Blackened(AfterB(), C)
  {
    var e, u := CONFLUENCE, Vertices(CONFLUENCE);
    var mC := AfterB().(color := AfterB().color[C := Grey]);
    assert Succ(e, C)[1..] == [];
    assert DfsCallees(e, u, C, Succ(e, C), [A] + [C], mC) == mC;
    assert Blackened(mC, C).color == Blackened(AfterB(), C).color;
  }

  lemma VisitA()
    ensures Dfs(CONFLUENCE, Vertices(CONFLUENCE), A, [], Unvisited(CONFLUENCE)) == Blackened(Blackened(AfterB(), C), A)
  {
    var e, u := CONFLUENCE, Vertices(CONFLUENCE);
    var mA := Unvisited(e).(color := Unvisited(e).color[A := Grey]);
    assert mA == Marking(map[A := Grey, B := White, C := White, D := White], {});
    VisitB();
    VisitC();
    hide Dfs;
    assert Succ(e, A) == [B, C] && [B, C][1..] == [C] && [C][1..] == [];
    assert DfsCallees(e, u, A, [C], [A], AfterB()) == Blackened(AfterB(), C);
    assert DfsCallees(e, u, A, [B, C], [A], mA) == Blackened(AfterB(), C);
    assert [] + [A] == [A];
    DfsUnfolds(e, u, A, [], Unvisited(e));
  }

  lemma DfsUnfolds(edges: Edges, universe: set<Node>, node: Node, path: seq<Node>, m: Marking)
    requires Vertices(edges) <= universe && node in universe && m.ColorOf(node) == White
    ensures Dfs(edges, universe, node, path, m)
      == Blackened(DfsCallees(edges, universe, node, Succ(edges, node), path + [node], m.(color := m.color[node := Grey])), node)
  {
  }

  /** Visited from a through b, the node c of the confluence is on a cycle and stays unmarked. */
  lemma ConfluenceMissesC()
    ensures OnCycle(CONFLUENCE, C)
    ensures C !in MarkAll(CONFLUENCE, [A, B, C, D], Unvisited(CONFLUENCE)).inCycle
  {
    assert WalkFromTo(CONFLUENCE, [C, D, A, C], C, C);
    hide OnCycle, Dfs;
    VisitA();
    AllBlackUnchanged(CONFLUENCE, [B, C, D], Blackened(Blackened(AfterB(), C), A));
    assert [A, B, C, D][1..] == [B, C, D];
  }

  /** So some trail of the confluence does not lead back. */
  lemma ConfluenceHasBadTrail()
    ensures !EveryTrailLeadsBack(CONFLUENCE)
  {
    hide EveryTrailLeadsBack, OnCycle, MarkAll;
    ExactInEveryOrderIff(CONFLUENCE);
    ConfluenceMissesC();
    var order := [A, B, C, D];
    assert (forall n :: n in order <==> n in CONFLUENCE) && !ExactFor(CONFLUENCE, order);
  }

  lemma {:induction false} AllBlackUnchanged(edges: Edges, order: seq<Node>, m: Marking)
    requires forall n :: n in order ==> n in edges && m.ColorOf(n) == Black
    ensures MarkAll(edges, order, m) == m
  {
    if order != [] {
      AllBlackUnchanged(edges, order[1..], m);
    }
  }
}
