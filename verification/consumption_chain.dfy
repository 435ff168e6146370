/** The consumption chain of a file: a depth-first listing that closes every cycle it meets
    by listing the repeated file again. */
module ConsumptionChain {
  import opened Graphs

  /** What the walk does, in order: it enters a file, meets one that is on the current path, passes one it has left
      behind, leaves a file. */
  datatype Event = Enter(file: Node) | Close(file: Node) | Pass(file: Node) | Leave(file: Node)

  /** A file on the current path and how many of its dependencies have been followed. */
  datatype Frame = Frame(file: Node, followed: nat)

  /** The current path, outermost first, and the files left behind. */
  datatype Walk = Walk(path: seq<Frame>, visited: set<Node>) | Illegal

  function Top(path: seq<Frame>): Frame
    requires path != []
  {
    path[|path| - 1]
  }

  predicate OnPath(path: seq<Frame>, x: Node) {
    exists i :: 0 <= i < |path| && path[i].file == x
  }

  /** x is the dependency to follow next: the first one not followed yet of the file at the end of the path. */
  ghost predicate IsNext(edges: Edges, path: seq<Frame>, x: Node) {
    path != [] && var deps := Succ(edges, Top(path).file); Top(path).followed < |deps| && deps[Top(path).followed] == x
  }

  ghost function Followed(path: seq<Frame>): seq<Frame> {
    if path == [] then [] else path[|path| - 1 := Frame(Top(path).file, Top(path).followed + 1)]
  }

  /** One root, then each dependency in the order it is listed: entered if it is new, closed if it is on the path, passed
      if it was left behind. A file is left once all its dependencies have been followed. */
  ghost function Step(edges: Edges, w: Walk, e: Event): Walk {
    if w.Illegal? then Illegal else
    match e
    case Enter(x) =>
      if !OnPath(w.path, x) && x !in w.visited && (if w.path == [] then w.visited == {} else IsNext(edges, w.path, x))
      then Walk(Followed(w.path) + [Frame(x, 0)], w.visited) else Illegal
    case Close(x) =>
      if IsNext(edges, w.path, x) && OnPath(w.path, x) then Walk(Followed(w.path), w.visited) else Illegal
    case Pass(x) =>
      if IsNext(edges, w.path, x) && x in w.visited then Walk(Followed(w.path), w.visited) else Illegal
    case Leave(x) =>
      if w.path != [] && Top(w.path) == Frame(x, |Succ(edges, x)|)
      then Walk(w.path[..|w.path| - 1], w.visited + {x}) else Illegal
  }

  ghost function Replay(edges: Edges, trace: seq<Event>): Walk {
    if trace == [] then Walk([], {}) else Step(edges, Replay(edges, trace[..|trace| - 1]), trace[|trace| - 1])
  }

  /** What an event adds to the chain: closures always, entries only for files of the graph. */
  function ListedBy(edges: Edges, e: Event): seq<Node> {
    match e
    case Enter(x) => if x in edges then [x] else []
    case Close(x) => [x]
    case _ => []
  }

  function Listed(edges: Edges, trace: seq<Event>): seq<Node> {
    if trace == [] then [] else Listed(edges, trace[..|trace| - 1]) + ListedBy(edges, trace[|trace| - 1])
  }

  ghost predicate Longer(p: seq<Node>, q: seq<Node>) {
    p <= q
  }

  lemma LongerTrans(p: seq<Node>, q: seq<Node>, r: seq<Node>)
    requires Longer(p, q) && Longer(q, r)
    ensures Longer(p, r)
  {
  }

  lemma IsLonger(p: seq<Node>, q: seq<Node>)
    requires p <= q
    ensures Longer(p, q)
  {
  }

  lemma StillReached(edges: Edges, node: Node, callee: Node, known: set<Node>, before: set<Node>, after: set<Node>)
    requires Edge(edges, node, callee)
    requires forall x :: x in before ==> x in known || Reach(edges, node, x)
    requires forall x :: x in after ==> x in before || Reach(edges, callee, x)
    ensures forall x :: x in after ==> x in known || Reach(edges, node, x)
  {
    hide Reach;
    forall x | x in after && x !in before
      ensures Reach(edges, node, x)
    {
      ReachEdge(edges, node, callee);
      ReachTrans(edges, node, callee, x);
    }
  }

  /** Following a dependency leaves the files on the path as they are. */
  lemma FollowedFiles(path: seq<Frame>)
    ensures |Followed(path)| == |path|
    ensures forall i :: 0 <= i < |path| ==> Followed(path)[i].file == path[i].file
    ensures forall x :: OnPath(Followed(path), x) <==> OnPath(path, x)
  {
    forall x
      ensures OnPath(Followed(path), x) <==> OnPath(path, x)
    {
      if OnPath(path, x) {
        var i :| 0 <= i < |path| && path[i].file == x;
        assert Followed(path)[i].file == x;
      }
    }
  }

  lemma PushedFiles(path: seq<Frame>, frame: Frame)
    ensures forall x :: OnPath(path + [frame], x) <==> OnPath(path, x) || x == frame.file
  {
    forall x
      ensures OnPath(path + [frame], x) <==> OnPath(path, x) || x == frame.file
    {
      assert (path + [frame])[|path|] == frame;
      if OnPath(path, x) {
        var i :| 0 <= i < |path| && path[i].file == x;
        assert (path + [frame])[i].file == x;
      }
    }
  }

  class ChainWalk {
    var visited: set<Node>
    var inPath: set<Node>
    var chain: seq<Node>
    ghost var path: seq<Frame>
    ghost var trace: seq<Event>

    constructor ()
      ensures visited == {} && inPath == {} && chain == [] && path == [] && trace == []
    {
      visited, inPath, chain, path, trace := {}, {}, [], [], [];
    }

    ghost predicate Valid(edges: Edges)
      reads this
    {
      && Replay(edges, trace) == Walk(path, visited)
      && Listed(edges, trace) == chain
      && (forall x :: x in inPath <==> OnPath(path, x))
      && inPath !! visited
    }

    ghost method Record(edges: Edges, e: Event)
      modifies this`trace
      ensures trace == old(trace) + [e]
      ensures Replay(edges, trace) == Step(edges, Replay(edges, old(trace)), e)
      ensures Listed(edges, trace) == Listed(edges, old(trace)) + ListedBy(edges, e)
    {
      trace := trace + [e];
      assert trace[..|trace| - 1] == old(trace);
    }

    ghost method PassFile(edges: Edges, node: Node)
      requires Valid(edges) && node in visited && IsNext(edges, path, node)
      modifies this`path, this`trace
      ensures Valid(edges) && path == Followed(old(path))
      ensures trace == old(trace) + [Pass(node)]
    {
      hide Replay, Listed, IsNext, OnPath;
      FollowedFiles(path);
      path := Followed(path);
      Record(edges, Pass(node));
    }

    method CloseCycle(edges: Edges, node: Node)
      requires Valid(edges) && node in inPath && IsNext(edges, path, node)
      modifies this`chain, this`path, this`trace
      ensures Valid(edges) && chain == old(chain) + [node] && path == Followed(old(path))
      ensures trace == old(trace) + [Close(node)]
    {
      hide Replay, Listed, IsNext, OnPath;
      FollowedFiles(path);
      chain := chain + [node];
      path := Followed(path);
      Record(edges, Close(node));
    }

    method EnterFile(edges: Edges, node: Node)
      requires Valid(edges) && node !in visited && node !in inPath
      requires if path == [] then visited == {} else IsNext(edges, path, node)
      modifies this`inPath, this`chain, this`path, this`trace
      ensures Valid(edges) && path == Followed(old(path)) + [Frame(node, 0)] && inPath == old(inPath) + {node}
      ensures chain == old(chain) + (if node in edges then [node] else [])
      ensures trace == old(trace) + [Enter(node)]
    {
      hide Replay, Listed, IsNext, OnPath;
      FollowedFiles(path);
      PushedFiles(Followed(path), Frame(node, 0));
      inPath := inPath + {node};
      path := Followed(path) + [Frame(node, 0)];
      Record(edges, Enter(node));
      if node in edges {
        chain := chain + [node];
      }
    }

    method LeaveFile(edges: Edges, node: Node, ghost rest: seq<Frame>)
      requires Valid(edges) && path == rest + [Frame(node, |Succ(edges, node)|)] && !OnPath(rest, node)
      modifies this`inPath, this`visited, this`path, this`trace
      ensures Valid(edges) && path == rest
      ensures inPath == old(inPath) - {node} && visited == old(visited) + {node}
      ensures trace == old(trace) + [Leave(node)]
    {
      hide Replay, Listed, OnPath;
      PushedFiles(rest, Frame(node, |Succ(edges, node)|));
      assert path[..|path| - 1] == rest;
      inPath := inPath - {node};
      visited := visited + {node};
      path := rest;
      Record(edges, Leave(node));
    }

    method DfsChain(edges: Edges, node: Node, ghost universe: set<Node>)
      requires Valid(edges) && Vertices(edges) <= universe && node in universe
      requires if path == [] then visited == {} else IsNext(edges, path, node)
      modifies this
      ensures Valid(edges) && path == Followed(old(path)) && inPath == old(inPath)
      ensures old(visited) <= visited && (node in visited || node in inPath)
      ensures forall x :: x in visited ==> x in old(visited) || Reach(edges, node, x)
      ensures Longer(old(chain), chain) && (old(path) == [] && node in edges ==> Longer(old(chain) + [node], chain))
      ensures old(path) == [] ==> old(trace) + [Enter(node)] <= trace
      ensures old(trace) <= trace
      decreases universe - visited - inPath, 0
    {
      hide Reach, Step, Replay, Listed, ListedBy, Longer, Followed, OnPath, IsNext;
      IsLonger(chain, chain);
      if node in visited {
        PassFile(edges, node);
        return;
      }
      assert path == [] ==> node !in inPath by { EmptyPath(path); }
      if node in inPath {
        CloseCycle(edges, node);
        IsLonger(old(chain), chain);
        return;
      }
      FollowedFiles(path);
      ghost var rest := Followed(path);
      EnterFile(edges, node);
      ghost var listed := chain;
      IsLonger(old(chain), listed);
      VisitDependencies(edges, node, universe, rest);
      LongerTrans(old(chain), listed, chain);
      ReachRefl(edges, node);
      LeaveFile(edges, node, rest);
    }

    /** Follows the dependencies of the file at the end of the path. */
    method VisitDependencies(edges: Edges, node: Node, ghost universe: set<Node>, ghost rest: seq<Frame>)
      requires Valid(edges) && Vertices(edges) <= universe && path == rest + [Frame(node, 0)]
      modifies this
      ensures Valid(edges) && path == rest + [Frame(node, |Succ(edges, node)|)] && inPath == old(inPath) && old(visited) <= visited
      ensures forall x :: x in visited ==> x in old(visited) || Reach(edges, node, x)
      ensures Longer(old(chain), chain) && old(trace) <= trace
      decreases universe - visited - inPath, 1
    {
      hide Reach, Step, Replay, Listed, ListedBy, Longer, Followed, OnPath, IsNext;
      IsLonger(chain, chain);
      var callees := Succ(edges, node);
      for i := 0 to |callees|
        invariant Valid(edges) && path == rest + [Frame(node, i)] && inPath == old(inPath) && old(visited) <= visited
        invariant Longer(old(chain), chain) && old(trace) <= trace
        invariant forall x :: x in visited ==> x in old(visited) || Reach(edges, node, x)
      {
        assert Edge(edges, node, callees[i]);
        ghost var before, soFar := visited, chain;
        NextDependency(edges, rest, node, i);
        DfsChain(edges, callees[i], universe);
        LongerTrans(old(chain), soFar, chain);
        StillReached(edges, node, callees[i], old(visited), before, visited);
      }
    }
  }

  lemma EmptyPath(path: seq<Frame>)
    ensures path == [] ==> forall x :: !OnPath(path, x)
  {
  }

  lemma NextDependency(edges: Edges, rest: seq<Frame>, node: Node, i: nat)
    requires i < |Succ(edges, node)|
    ensures IsNext(edges, rest + [Frame(node, i)], Succ(edges, node)[i])
    ensures Followed(rest + [Frame(node, i)]) == rest + [Frame(node, i + 1)]
  {
  }

  // ----- what a legal trace says -----

  ghost predicate Entered(trace: seq<Event>, x: Node) {
    Enter(x) in trace
  }

  lemma {:induction false} PrefixLegal(edges: Edges, trace: seq<Event>, k: nat)
    requires Replay(edges, trace).Walk? && k <= |trace|
    ensures Replay(edges, trace[..k]).Walk?
  {
    if k < |trace| {
      var rest := trace[..|trace| - 1];
      PrefixLegal(edges, rest, k);
      assert rest[..k] == trace[..k];
    } else {
      assert trace[..k] == trace;
    }
  }

  /** The files entered are those on the path and those left behind. */
  lemma {:induction false} EnteredExactly(edges: Edges, trace: seq<Event>, x: Node)
    requires Replay(edges, trace).Walk?
    ensures var w := Replay(edges, trace); Entered(trace, x) <==> OnPath(w.path, x) || x in w.visited
  {
    if trace != [] {
      var rest, last := trace[..|trace| - 1], trace[|trace| - 1];
      assert trace == rest + [last];
      EnteredExactly(edges, rest, x);
      StepFiles(edges, Replay(edges, rest), last, x);
    }
  }

  lemma StepFiles(edges: Edges, w: Walk, e: Event, x: Node)
    requires Step(edges, w, e).Walk?
    ensures var v := Step(edges, w, e);
      (OnPath(v.path, x) || x in v.visited) <==> OnPath(w.path, x) || x in w.visited || e == Enter(x)
  {
    hide OnPath, IsNext, Followed;
    FollowedFiles(w.path);
    match e {
      case Enter(y) => PushedFiles(Followed(w.path), Frame(y, 0));
      case Leave(_) =>
        var n := |w.path| - 1;
        assert w.path == w.path[..n] + [w.path[n]];
        PushedFiles(w.path[..n], w.path[n]);
      case _ =>
    }
  }

  /** No file is entered twice. */
  lemma EnteredOnce(edges: Edges, trace: seq<Event>, i: nat, j: nat)
    requires Replay(edges, trace).Walk? && i < j < |trace|
    requires trace[i].Enter? && trace[j].Enter?
    ensures trace[i].file != trace[j].file
  {
    PrefixLegal(edges, trace, j + 1);
    assert trace[..j + 1][..j] == trace[..j];
    EnteredExactly(edges, trace[..j], trace[j].file);
    assert trace[i] in trace[..j];
  }

  /** Each frame but the last has followed an edge to the next one. */
  ghost predicate Linked(edges: Edges, path: seq<Frame>) {
    forall i, j :: 0 <= i && j == i + 1 && j < |path| ==> Edge(edges, path[i].file, path[j].file)
  }

  ghost predicate Known(path: seq<Frame>, visited: set<Node>, due: set<Node>, x: Node) {
    OnPath(path, x) || x in visited || x in due
  }

  ghost predicate FollowedKnown(edges: Edges, path: seq<Frame>, visited: set<Node>, due: set<Node>) {
    forall i, k :: 0 <= i < |path| && 0 <= k < path[i].followed && k < |Succ(edges, path[i].file)| ==>
      Known(path, visited, due, Succ(edges, path[i].file)[k])
  }

  ghost predicate LeftKnown(edges: Edges, path: seq<Frame>, visited: set<Node>, due: set<Node>) {
    forall x, y {:trigger Edge(edges, x, y)} :: x in visited && Edge(edges, x, y) ==> Known(path, visited, due, y)
  }

  ghost predicate Apart(path: seq<Frame>, visited: set<Node>) {
    forall x :: x in visited ==> !OnPath(path, x)
  }

  /** Whatever was followed or left behind leads only to files on the path, left behind, or about to be dealt with. */
  ghost predicate WalkOk(edges: Edges, path: seq<Frame>, visited: set<Node>, due: set<Node>) {
    Linked(edges, path) && FollowedKnown(edges, path, visited, due) && LeftKnown(edges, path, visited, due) && Apart(path, visited)
  }

  ghost predicate StillKnown(path: seq<Frame>, visited: set<Node>, due: set<Node>, path': seq<Frame>, visited': set<Node>, due': set<Node>) {
    forall y :: Known(path, visited, due, y) ==> Known(path', visited', due', y)
  }

  lemma FollowOk(edges: Edges, path: seq<Frame>, visited: set<Node>, x: Node)
    requires WalkOk(edges, path, visited, {}) && IsNext(edges, path, x)
    ensures WalkOk(edges, Followed(path), visited, {x})
  {
    var after, n := Followed(path), |path| - 1;
    FollowedFiles(path);
    assert StillKnown(path, visited, {}, after, visited, {x});
    hide OnPath, Edge, Known, LeftKnown;
    forall i, k | 0 <= i < |after| && 0 <= k < after[i].followed && k < |Succ(edges, after[i].file)|
      ensures Known(after, visited, {x}, Succ(edges, after[i].file)[k])
    {
      assert i < n ==> after[i] == path[i];
      assert k < path[i].followed ==> Known(path, visited, {}, Succ(edges, path[i].file)[k]);
      if k == path[i].followed {
        DueKnown(after, visited, x);
      }
    }
    assert LeftKnown(edges, after, visited, {x}) by { LeftStillKnown(edges, path, visited, {}, after, {x}); }
  }

  lemma DueKnown(path: seq<Frame>, visited: set<Node>, x: Node)
    ensures Known(path, visited, {x}, x)
  {
  }

  lemma LeftStillKnown(edges: Edges, path: seq<Frame>, visited: set<Node>, due: set<Node>, path': seq<Frame>, due': set<Node>)
    requires LeftKnown(edges, path, visited, due) && StillKnown(path, visited, due, path', visited, due')
    ensures LeftKnown(edges, path', visited, due')
  {
    hide Known, Edge;
  }

  lemma DueDone(edges: Edges, path: seq<Frame>, visited: set<Node>, x: Node)
    requires WalkOk(edges, path, visited, {x}) && (OnPath(path, x) || x in visited)
    ensures WalkOk(edges, path, visited, {})
  {
    assert StillKnown(path, visited, {x}, path, visited, {});
    hide OnPath, Known, LeftKnown;
    LeftStillKnown(edges, path, visited, {x}, path, {});
  }

  lemma PushOk(edges: Edges, path: seq<Frame>, visited: set<Node>, x: Node)
    requires WalkOk(edges, path, visited, {x}) && x !in visited && (path != [] ==> Edge(edges, Top(path).file, x))
    ensures WalkOk(edges, path + [Frame(x, 0)], visited, {})
  {
    var after := path + [Frame(x, 0)];
    PushedFiles(path, Frame(x, 0));
    assert StillKnown(path, visited, {x}, after, visited, {});
    hide OnPath, Edge, Known, LeftKnown;
    forall i, k | 0 <= i < |after| && 0 <= k < after[i].followed && k < |Succ(edges, after[i].file)|
      ensures Known(after, visited, {}, Succ(edges, after[i].file)[k])
    {
      assert i < |path| && after[i] == path[i];
      assert Known(path, visited, {x}, Succ(edges, path[i].file)[k]);
    }
    LeftStillKnown(edges, path, visited, {x}, after, {});
  }

  lemma LeaveOk(edges: Edges, path: seq<Frame>, visited: set<Node>, x: Node)
    requires WalkOk(edges, path, visited, {}) && path != [] && Top(path) == Frame(x, |Succ(edges, x)|) && !OnPath(path[..|path| - 1], x)
    ensures WalkOk(edges, path[..|path| - 1], visited + {x}, {})
  {
    var rest, n := path[..|path| - 1], |path| - 1;
    assert path == rest + [path[n]];
    PushedFiles(rest, path[n]);
    assert StillKnown(path, visited, {}, rest, visited + {x}, {});
    hide OnPath, Known;
    forall y | Edge(edges, x, y)
      ensures Known(rest, visited + {x}, {}, y)
    {
      var k :| 0 <= k < |Succ(edges, x)| && Succ(edges, x)[k] == y;
      assert Known(path, visited, {}, Succ(edges, path[n].file)[k]);
    }
    hide Edge;
  }

  ghost predicate Distinct(path: seq<Frame>) {
    forall i, j :: 0 <= i < j < |path| ==> path[i].file != path[j].file
  }

  lemma FollowedDistinct(path: seq<Frame>)
    requires Distinct(path)
    ensures Distinct(Followed(path))
  {
    FollowedFiles(path);
    hide Followed, OnPath;
  }

  lemma PushedDistinct(path: seq<Frame>, frame: Frame)
    requires Distinct(path) && !OnPath(path, frame.file)
    ensures Distinct(path + [frame])
  {
    assert forall i :: 0 <= i < |path| ==> OnPath(path, path[i].file);
    hide OnPath;
  }

  lemma TopOnce(path: seq<Frame>)
    requires Distinct(path) && path != []
    ensures Distinct(path[..|path| - 1]) && !OnPath(path[..|path| - 1], Top(path).file)
  {
  }

  lemma EnterOk(edges: Edges, path: seq<Frame>, visited: set<Node>, x: Node)
    requires WalkOk(edges, path, visited, {}) && Distinct(path) && !OnPath(path, x) && x !in visited
    requires if path == [] then visited == {} else IsNext(edges, path, x)
    ensures WalkOk(edges, Followed(path) + [Frame(x, 0)], visited, {}) && Distinct(Followed(path) + [Frame(x, 0)])
  {
    FollowedFiles(path);
    FollowedDistinct(path);
    PushedDistinct(Followed(path), Frame(x, 0));
    assert path != [] ==> Edge(edges, Top(Followed(path)).file, x);
    if path == [] {
      assert WalkOk(edges, Followed(path), visited, {x});
    } else {
      FollowOk(edges, path, visited, x);
    }
    hide WalkOk, Followed, Edge, Distinct, OnPath, IsNext;
    PushOk(edges, Followed(path), visited, x);
  }

  lemma StepOk(edges: Edges, w: Walk, e: Event)
    requires w.Walk? && WalkOk(edges, w.path, w.visited, {}) && Distinct(w.path) && Step(edges, w, e).Walk?
    ensures var v := Step(edges, w, e); WalkOk(edges, v.path, v.visited, {}) && Distinct(v.path)
  {
    hide WalkOk, Followed, Edge, Distinct, OnPath, IsNext;
    match e {
      case Enter(x) => EnterOk(edges, w.path, w.visited, x);
      case Close(x) =>
        FollowedFiles(w.path);
        FollowOk(edges, w.path, w.visited, x);
        FollowedDistinct(w.path);
        DueDone(edges, Followed(w.path), w.visited, x);
      case Pass(x) =>
        FollowOk(edges, w.path, w.visited, x);
        FollowedDistinct(w.path);
        DueDone(edges, Followed(w.path), w.visited, x);
      case Leave(x) =>
        TopOnce(w.path);
        LeaveOk(edges, w.path, w.visited, x);
    }
  }

  lemma {:induction false} ReplayOk(edges: Edges, trace: seq<Event>)
    requires Replay(edges, trace).Walk?
    ensures var w := Replay(edges, trace); WalkOk(edges, w.path, w.visited, {}) && Distinct(w.path)
  {
    if trace != [] {
      var rest := trace[..|trace| - 1];
      ReplayOk(edges, rest);
      hide WalkOk, Distinct, Step;
      StepOk(edges, Replay(edges, rest), trace[|trace| - 1]) by { IllegalStays(edges, trace[|trace| - 1]); }
    }
  }

  lemma IllegalStays(edges: Edges, e: Event)
    ensures Step(edges, Illegal, e) == Illegal
  {
  }

  /** A repetition is a cycle closure: the file is on the current path, whose last file depends on it. */
  lemma ClosureIsCycle(edges: Edges, trace: seq<Event>, i: nat)
    requires Replay(edges, trace).Walk? && i < |trace| && trace[i].Close?
    ensures var w := Replay(edges, trace[..i]);
      && w.Walk? && OnPath(w.path, trace[i].file) && Edge(edges, Top(w.path).file, trace[i].file)
      && OnCycle(edges, trace[i].file)
  {
    PrefixLegal(edges, trace, i + 1);
    assert trace[..i + 1][..i] == trace[..i];
    ReplayOk(edges, trace[..i]);
    hide OnCycle;
    var w := Replay(edges, trace[..i]);
    ClosesCycle(edges, w.path, w.visited, trace[i].file);
  }

  lemma ClosesCycle(edges: Edges, path: seq<Frame>, visited: set<Node>, x: Node)
    requires WalkOk(edges, path, visited, {}) && OnPath(path, x) && IsNext(edges, path, x)
    ensures OnCycle(edges, x)
  {
    hide OnCycle, FollowedKnown, LeftKnown, Apart;
    var p := seq(|path|, k requires 0 <= k < |path| => path[k].file);
    var k :| 0 <= k < |path| && path[k].file == x;
    assert p[k] == x && p[|p| - 1] == Top(path).file && Edge(edges, Top(path).file, x);
    assert forall i, j :: 0 <= i && j == i + 1 && j < |p| ==> Edge(edges, p[i], p[j]);
    hide WalkOk, OnPath, Edge, IsNext;
    BackToPath(edges, p, x);
  }

  lemma BackToPath(edges: Edges, p: seq<Node>, x: Node)
    requires p != [] && IsWalk(edges, p) && x in p && Edge(edges, p[|p| - 1], x)
    ensures OnCycle(edges, x)
  {
    var k :| 0 <= k < |p| && p[k] == x;
    SuffixIsWalk(edges, p, k);
    assert IsWalk(edges, [p[|p| - 1], x]);
    WalkConcat(edges, p[k..], [p[|p| - 1], x]);
  }

  /** What is left behind is closed, up to the current path. */
  lemma LeftBehindClosed(edges: Edges, trace: seq<Event>, x: Node, y: Node)
    requires Replay(edges, trace).Walk? && x in Replay(edges, trace).visited && Edge(edges, x, y)
    ensures var w := Replay(edges, trace); OnPath(w.path, y) || y in w.visited
  {
    hide Replay;
    ReplayOk(edges, trace);
    var w := Replay(edges, trace);
    assert LeftKnown(edges, w.path, w.visited, {}) && Known(w.path, w.visited, {}, y);
  }

  lemma {:induction false} ListedExactly(edges: Edges, trace: seq<Event>, x: Node)
    requires Replay(edges, trace).Walk? && x in edges
    ensures x in Listed(edges, trace) <==> Entered(trace, x)
  {
    hide OnPath, IsNext;
    if trace != [] {
      var rest := trace[..|trace| - 1];
      var last := trace[|trace| - 1];
      assert trace == rest + [last];
      ListedExactly(edges, rest, x);
      if last == Close(x) {
        EnteredExactly(edges, rest, x);
      }
    }
  }

  /** Only a file that some edge leaves can be closed, so only files of the graph are listed. */
  lemma {:induction false} ListedAreFiles(edges: Edges, trace: seq<Event>, x: Node)
    requires Replay(edges, trace).Walk? && x in Listed(edges, trace)
    ensures x in edges
  {
    var rest := trace[..|trace| - 1];
    var last := trace[|trace| - 1];
    PrefixLegal(edges, trace, |trace| - 1);
    if x in Listed(edges, rest) {
      ListedAreFiles(edges, rest, x);
    } else if last.Close? {
      ClosureIsCycle(edges, trace, |trace| - 1);
      OnCycleViaSuccessor(edges, x);
    }
  }

  /** How often the walk met a file again while it was on the current path. */
  ghost function Closures(trace: seq<Event>, x: Node): nat {
    if trace == [] then 0 else
      Closures(trace[..|trace| - 1], x) + if trace[|trace| - 1] == Close(x) then 1 else 0
  }

  /** A file of the graph is listed once for being entered and once more for every cycle closed on it. */
  lemma {:induction false} ListedCount(edges: Edges, trace: seq<Event>, x: Node)
    requires Replay(edges, trace).Walk? && x in edges
    ensures multiset(Listed(edges, trace))[x] == Closures(trace, x) + if Entered(trace, x) then 1 else 0
  {
    if trace != [] {
      var rest := trace[..|trace| - 1];
      LastStep(edges, trace, x);
      ListedCount(edges, rest, x);
      hide Replay, Listed, Closures, Entered;
      assert multiset(Listed(edges, trace)) == multiset(Listed(edges, rest)) + multiset(ListedBy(edges, trace[|trace| - 1]));
    }
  }

  /** What the last step of a legal trace adds. */
  lemma LastStep(edges: Edges, trace: seq<Event>, x: Node)
    requires trace != [] && Replay(edges, trace).Walk?
    ensures
      var rest, last := trace[..|trace| - 1], trace[|trace| - 1];
      && Replay(edges, rest).Walk?
      && Listed(edges, trace) == Listed(edges, rest) + ListedBy(edges, last)
      && Closures(trace, x) == Closures(rest, x) + (if last == Close(x) then 1 else 0)
      && (Entered(trace, x) <==> Entered(rest, x) || last == Enter(x))
      && (last == Enter(x) ==> !Entered(rest, x))
  {
    hide OnPath, IsNext;
    var rest, last := trace[..|trace| - 1], trace[|trace| - 1];
    assert trace == rest + [last];
    if last == Enter(x) {
      EnteredExactly(edges, rest, x);
    }
  }

  // ----- there is only one walk -----

  /** What may happen next is settled by the walk so far. */
  lemma OneStep(edges: Edges, w: Walk, e: Event, f: Event)
    requires w.Walk? && WalkOk(edges, w.path, w.visited, {}) && w.path != [] && Step(edges, w, e).Walk? && Step(edges, w, f).Walk?
    ensures e == f
  {
    hide OnPath;
    assert Apart(w.path, w.visited);
    assert forall x, y :: IsNext(edges, w.path, x) && IsNext(edges, w.path, y) ==> x == y;
    assert forall x, y :: IsNext(edges, w.path, x) ==> Top(w.path) != Frame(y, |Succ(edges, y)|);
    hide IsNext, WalkOk;
  }

  lemma {:induction false} LeftSomething(edges: Edges, trace: seq<Event>)
    requires Replay(edges, trace).Walk? && trace != [] && Replay(edges, trace).path == []
    ensures Replay(edges, trace).visited != {}
  {
    hide OnPath;
    var w, last := Replay(edges, trace[..|trace| - 1]), trace[|trace| - 1];
    FollowedFiles(w.path);
    if last.Leave? {
      assert last.file in Replay(edges, trace).visited;
    }
  }

  /** A walk from a file that ends with nothing on the path. */
  ghost predicate WholeWalk(edges: Edges, file: Node, trace: seq<Event>) {
    trace != [] && trace[0] == Enter(file) && Replay(edges, trace).Walk? && Replay(edges, trace).path == []
  }

  /** Two walks that have gone the same way so far go on alike. */
  lemma SameNext(edges: Edges, so: seq<Event>, e: Event, t: seq<Event>)
    requires so != [] && so <= t && Replay(edges, so + [e]).Walk? && Replay(edges, t).Walk? && Replay(edges, t).path == []
    ensures so + [e] <= t
  {
    hide Step, WalkOk, Distinct;
    var w := Replay(edges, so);
    LastReplayed(edges, so, e);
    if w.path == [] {
      LeftSomething(edges, so);
      NothingAfter(edges, w, e);
    }
    assert so != t;
    hide Replay;
    var f := t[|so|];
    assert t[..|so| + 1] == so + [f];
    PrefixLegal(edges, t, |so| + 1);
    LastReplayed(edges, so, f);
    ReplayOk(edges, so);
    OneStep(edges, w, e, f);
  }

  lemma LastReplayed(edges: Edges, so: seq<Event>, e: Event)
    requires Replay(edges, so + [e]).Walk?
    ensures Replay(edges, so).Walk? && Replay(edges, so + [e]) == Step(edges, Replay(edges, so), e)
  {
    hide Step;
    assert (so + [e])[..|so|] == so;
    IllegalStays(edges, e);
  }

  lemma {:induction false} SameSoFar(edges: Edges, file: Node, s: seq<Event>, t: seq<Event>, k: nat)
    requires Replay(edges, s).Walk? && WholeWalk(edges, file, t)
    requires s != [] && s[0] == Enter(file) && 1 <= k <= |s|
    ensures s[..k] <= t
  {
    if k > 1 {
      SameSoFar(edges, file, s, t, k - 1);
      PrefixLegal(edges, s, k);
      assert s[..k] == s[..k - 1] + [s[k - 1]];
      SameNext(edges, s[..k - 1], s[k - 1], t);
    }
  }

  lemma NothingAfter(edges: Edges, w: Walk, e: Event)
    requires w.Walk? && w.path == [] && w.visited != {}
    ensures Step(edges, w, e).Illegal?
  {
  }

  /** From each file there is exactly one whole walk, so the order of the dependencies settles the chain: every file in
      the order it is first met, every closure where it is met. */
  lemma WalkUnique(edges: Edges, file: Node, s: seq<Event>, t: seq<Event>)
    requires WholeWalk(edges, file, s) && WholeWalk(edges, file, t)
    ensures s == t
  {
    SameSoFar(edges, file, s, t, |s|);
    SameSoFar(edges, file, t, s, |t|);
    assert s[..|s|] == s && t[..|t|] == t;
  }

  lemma EmptyReplay(edges: Edges)
    ensures Replay(edges, []) == Walk([], {}) && Listed(edges, []) == [] && Followed([]) == []
    ensures forall x :: !OnPath([], x)
  {
  }

  /** The chain of `file`: it comes first, the files listed are exactly those it reaches, and the listing is that of
      `trace`, the one whole walk from the file. */
  method ConsumptionChain(edges: Edges, file: Node) returns (chain: seq<Node>, ghost trace: seq<Event>)
    ensures file !in edges ==> chain == []
    ensures file in edges ==> chain != [] && chain[0] == file
    ensures file in edges ==> forall x :: x in chain <==> x in edges && Reach(edges, file, x)
    ensures file in edges ==> WholeWalk(edges, file, trace) && chain == Listed(edges, trace)
  {
    hide Reach, OnCycle, OnPath, IsNext;
    trace := [];
    if file !in edges {
      return [], [];
    }
    var walk := new ChainWalk();
    EmptyReplay(edges);
    walk.DfsChain(edges, file, Vertices(edges));
    chain, trace := walk.chain, walk.trace;
    ghost var visited := walk.visited;
    assert ClosedUnder(edges, visited) by {
      forall x, y {:trigger Edge(edges, x, y)} | x in visited && Edge(edges, x, y)
        ensures y in visited
      {
        LeftBehindClosed(edges, trace, x, y);
      }
    }
    forall x
      ensures x in chain <==> x in edges && Reach(edges, file, x)
    {
      if x in chain {
        ListedAreFiles(edges, trace, x);
      }
      if x in edges {
        ListedExactly(edges, trace, x);
        EnteredExactly(edges, trace, x);
        if Reach(edges, file, x) {
          ClosedReach(edges, visited, file, x);
        }
      }
    }
  }
}
