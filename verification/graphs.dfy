/** Directed graphs given by an edge map, as both graph files of the hexagon build them.
    A node without an entry is a leaf. */
module Graphs {

  /** A function's qualified name in the call graph, a path in the file graph:
      both graphs only ever compare nodes for equality. */
  datatype Node = Node(id: string)

  type Edges = map<Node, seq<Node>>

  predicate Edge(edges: Edges, x: Node, y: Node) {
    x in edges && y in edges[x]
  }

  /** The outgoing list of a node, empty for a leaf. */
  function Succ(edges: Edges, x: Node): seq<Node> {
    if x in edges then edges[x] else []
  }

  /** Every node the traversals can meet: the keys and everything they point to. */
  ghost function Vertices(edges: Edges): (vs: set<Node>)
    ensures edges.Keys <= vs
    ensures forall x, y :: Edge(edges, x, y) ==> y in vs
  {
    edges.Keys + set x, y | x in edges && y in edges[x] :: y
  }

  /** A non-empty walk along edges. */
  ghost predicate IsWalk(edges: Edges, p: seq<Node>) {
    p != [] && forall i, j :: 0 <= i && j == i + 1 && j < |p| ==> Edge(edges, p[i], p[j])
  }

  ghost predicate WalkFromTo(edges: Edges, p: seq<Node>, x: Node, y: Node) {
    IsWalk(edges, p) && p[0] == x && p[|p| - 1] == y
  }

  /** y is reachable from x by zero or more edges. */
  ghost predicate Reach(edges: Edges, x: Node, y: Node) {
    exists p :: WalkFromTo(edges, p, x, y)
  }

  /** x reaches itself by a walk of at least one edge. */
  ghost predicate OnCycle(edges: Edges, x: Node) {
    exists p :: |p| > 1 && WalkFromTo(edges, p, x, x)
  }

  /** A walk of at least one edge that ends where it starts. */
  ghost predicate IsCycle(edges: Edges, p: seq<Node>) {
    |p| > 1 && IsWalk(edges, p) && p[0] == p[|p| - 1]
  }

  /** Strongly connected component: non-empty, and exactly the nodes mutually reachable with any member. */
  ghost predicate IsScc(edges: Edges, c: set<Node>) {
    c != {} && forall x, y {:trigger Reach(edges, x, y)} :: x in c ==> (y in c <==> (Reach(edges, x, y) && Reach(edges, y, x)))
  }

  ghost predicate ClosedUnder(edges: Edges, s: set<Node>) {
    forall x, y {:trigger Edge(edges, x, y)} :: x in s && Edge(edges, x, y) ==> y in s
  }

  lemma ReachRefl(edges: Edges, x: Node)
    ensures Reach(edges, x, x)
  {
    assert WalkFromTo(edges, [x], x, x);
  }

  lemma ReachEdge(edges: Edges, x: Node, y: Node)
    requires Edge(edges, x, y)
    ensures Reach(edges, x, y)
  {
    assert WalkFromTo(edges, [x, y], x, y);
  }

  lemma WalkConcat(edges: Edges, p: seq<Node>, q: seq<Node>)
    requires IsWalk(edges, p) && IsWalk(edges, q) && p[|p| - 1] == q[0]
    ensures WalkFromTo(edges, p + q[1..], p[0], q[|q| - 1])
    ensures |p + q[1..]| == |p| + |q| - 1
  {
  }

  lemma ReachTrans(edges: Edges, x: Node, y: Node, z: Node)
    requires Reach(edges, x, y) && Reach(edges, y, z)
    ensures Reach(edges, x, z)
  {
    var p :| WalkFromTo(edges, p, x, y);
    var q :| WalkFromTo(edges, q, y, z);
    WalkConcat(edges, p, q);
  }

  /** Nothing leaves a closed set. */
  lemma ClosedReach(edges: Edges, s: set<Node>, x: Node, y: Node)
    requires ClosedUnder(edges, s) && x in s && Reach(edges, x, y)
    ensures y in s
  {
    var p :| WalkFromTo(edges, p, x, y);
    var k := 0;
    while k < |p| - 1
      invariant 0 <= k <= |p| - 1 && p[k] in s
    {
      assert Edge(edges, p[k], p[k + 1]);
      k := k + 1;
    }
  }

  /** A node is on a cycle exactly when one of its successors leads back to it. */
  lemma OnCycleViaSuccessor(edges: Edges, x: Node)
    ensures OnCycle(edges, x) <==> exists y :: Edge(edges, x, y) && Reach(edges, y, x)
  {
    if OnCycle(edges, x) {
      var p :| |p| > 1 && WalkFromTo(edges, p, x, x);
      assert Edge(edges, p[0], p[1]);
      SuffixIsWalk(edges, p, 1);
      assert WalkFromTo(edges, p[1..], p[1], x);
    }
    if exists y :: Edge(edges, x, y) && Reach(edges, y, x) {
      var y :| Edge(edges, x, y) && Reach(edges, y, x);
      var q :| WalkFromTo(edges, q, y, x);
      assert IsWalk(edges, [x, y]);
      WalkConcat(edges, [x, y], q);
    }
  }

  lemma SuffixIsWalk(edges: Edges, p: seq<Node>, k: nat)
    requires IsWalk(edges, p) && k < |p|
    ensures IsWalk(edges, p[k..])
  {
  }

  lemma PrefixIsWalk(edges: Edges, p: seq<Node>, k: nat)
    requires IsWalk(edges, p) && 0 < k <= |p|
    ensures IsWalk(edges, p[..k])
  {
  }

  /** Every node on a closed walk is on a cycle. */
  lemma CycleMembers(edges: Edges, p: seq<Node>, k: nat)
    requires IsCycle(edges, p) && k < |p|
    ensures OnCycle(edges, p[k])
  {
    PrefixIsWalk(edges, p, k + 1);
    SuffixIsWalk(edges, p, k);
    var q := p[k..];
    var r := p[..k + 1];
    assert q[|q| - 1] == p[|p| - 1];
    WalkConcat(edges, q, r);
  }

  ghost function ReachSet(edges: Edges, x: Node): set<Node> {
    set y | y in Vertices(edges) + {x} && Reach(edges, x, y)
  }

  lemma ReachSetExact(edges: Edges, x: Node, y: Node)
    ensures y in ReachSet(edges, x) <==> Reach(edges, x, y)
  {
    if Reach(edges, x, y) {
      ClosedReach(edges, Vertices(edges) + {x}, x, y);
    }
  }
}
