/** The memoised depth recursion, word for word the same in the call graph and in the file graph:
    the longest chain from a node, cut at the nodes marked as cyclic. */
module ChainDepth {
  import opened Graphs

  /** A walk from x that goes on past no marked node. */
  ghost predicate IsChain(edges: Edges, cut: set<Node>, p: seq<Node>, x: Node) {
    IsWalk(edges, p) && p[0] == x && forall i :: 0 <= i < |p| - 1 ==> p[i] !in cut
  }

  /** d is the number of nodes on the longest chain from x. */
  ghost predicate IsDepth(edges: Edges, cut: set<Node>, x: Node, d: nat) {
    && (exists p :: IsChain(edges, cut, p, x) && |p| == d)
    && (forall p :: IsChain(edges, cut, p, x) ==> |p| <= d)
  }

  ghost predicate DepthAtMost(edges: Edges, cut: set<Node>, x: Node, bound: nat) {
    exists d: nat :: d <= bound && IsDepth(edges, cut, x, d)
  }

  /** The marked nodes leave no cycle behind. */
  ghost predicate HitsEveryCycle(edges: Edges, cut: set<Node>) {
    forall p :: IsCycle(edges, p) ==> exists x :: x in p && x in cut
  }

  lemma DepthUnique(edges: Edges, cut: set<Node>, x: Node, d: nat, e: nat)
    requires IsDepth(edges, cut, x, d) && IsDepth(edges, cut, x, e)
    ensures d == e
  {
  }

  lemma DepthAtCut(edges: Edges, cut: set<Node>, x: Node)
    requires x in cut
    ensures IsDepth(edges, cut, x, 1)
  {
    assert IsChain(edges, cut, [x], x);
  }

  lemma ChainTail(edges: Edges, cut: set<Node>, p: seq<Node>, x: Node)
    requires IsChain(edges, cut, p, x) && |p| > 1
    ensures Edge(edges, x, p[1]) && IsChain(edges, cut, p[1..], p[1])
  {
  }

  lemma ChainCons(edges: Edges, cut: set<Node>, x: Node, y: Node, p: seq<Node>)
    requires x !in cut && Edge(edges, x, y) && IsChain(edges, cut, p, y)
    ensures IsChain(edges, cut, [x] + p, x)
  {
  }

  /** `bound` covers the depth of every callee and is the depth of one of them, or zero if there is none. */
  ghost predicate IsMaxOver(edges: Edges, cut: set<Node>, callees: seq<Node>, bound: nat) {
    && (forall y :: y in callees ==> DepthAtMost(edges, cut, y, bound))
    && (if callees == [] then bound == 0 else exists y :: y in callees && IsDepth(edges, cut, y, bound))
  }

  lemma DepthStep(edges: Edges, cut: set<Node>, x: Node, bound: nat)
    requires x !in cut && IsMaxOver(edges, cut, Succ(edges, x), bound)
    ensures IsDepth(edges, cut, x, 1 + bound)
  {
    forall p | IsChain(edges, cut, p, x)
      ensures |p| <= 1 + bound
    {
      if |p| > 1 {
        ChainTail(edges, cut, p, x);
        assert DepthAtMost(edges, cut, p[1], bound);
      }
    }
    if Succ(edges, x) == [] {
      assert IsChain(edges, cut, [x], x);
    } else {
      var y :| y in Succ(edges, x) && IsDepth(edges, cut, y, bound);
      var p :| IsChain(edges, cut, p, y) && |p| == bound;
      ChainCons(edges, cut, x, y, p);
      assert |[x] + p| == 1 + bound;
    }
  }

  /** A running recursion never meets an unmarked node twice. */
  lemma NotOnTrail(edges: Edges, cut: set<Node>, trail: seq<Node>, x: Node)
    requires HitsEveryCycle(edges, cut) && IsWalk(edges, trail + [x])
    requires (forall y :: y in trail ==> y !in cut) && x !in cut
    ensures x !in trail
  {
    if x in trail {
      var k :| 0 <= k < |trail| && trail[k] == x;
      SuffixIsWalk(edges, trail + [x], k);
      assert IsCycle(edges, (trail + [x])[k..]);
    }
  }

  class DepthMemo {
    var memo: map<Node, nat>

    constructor ()
      ensures memo == map[]
    {
      memo := map[];
    }

    ghost predicate Sound(edges: Edges, cut: set<Node>)
      reads this
    {
      forall x :: x in memo ==> IsDepth(edges, cut, x, memo[x])
    }

    /** `trail` is the chain of running calls; that it cannot repeat a node is why the recursion ends. */
    method ComputeDepth(edges: Edges, cut: set<Node>, node: Node, ghost trail: seq<Node>, ghost universe: set<Node>)
      returns (depth: nat)
      requires Sound(edges, cut) && HitsEveryCycle(edges, cut)
      requires Vertices(edges) <= universe && node in universe && IsWalk(edges, trail + [node])
      requires forall y :: y in trail ==> y !in cut
      modifies this
      ensures Sound(edges, cut) && IsDepth(edges, cut, node, depth)
      decreases universe - (set y | y in trail)
    {
      hide IsDepth, HitsEveryCycle, IsWalk;
      if node in memo {
        return memo[node];
      }
      if node in cut {
        DepthAtCut(edges, cut, node);
        memo := memo[node := 1];
        return 1;
      }
      NotOnTrail(edges, cut, trail, node);
      var maxChild := 0;
      var callees := Succ(edges, node);
      for i := 0 to |callees|
        invariant Sound(edges, cut)
        invariant IsMaxOver(edges, cut, callees[..i], maxChild)
      {
        ExtendTrail(edges, trail, node, callees[i]);
        assert (set y | y in trail + [node]) == (set y | y in trail) + {node};
        var childDepth := ComputeDepth(edges, cut, callees[i], trail + [node], universe);
        MaxOverSnoc(edges, cut, callees[..i], maxChild, callees[i], childDepth);
        assert callees[..i + 1] == callees[..i] + [callees[i]];
        maxChild := if maxChild < childDepth then childDepth else maxChild;
      }
      assert callees[..|callees|] == callees;
      DepthStep(edges, cut, node, maxChild);
      depth := 1 + maxChild;
      memo := memo[node := depth];
    }
  }

  lemma ExtendTrail(edges: Edges, trail: seq<Node>, x: Node, y: Node)
    requires IsWalk(edges, trail + [x]) && Edge(edges, x, y)
    ensures IsWalk(edges, trail + [x] + [y])
  {
  }

  lemma MaxOverSnoc(edges: Edges, cut: set<Node>, callees: seq<Node>, bound: nat, y: Node, d: nat)
    requires IsMaxOver(edges, cut, callees, bound) && IsDepth(edges, cut, y, d)
    ensures IsMaxOver(edges, cut, callees + [y], if bound < d then d else bound)
  {
  }

  /** The largest depth over the nodes that have an entry, zero if there are none. */
  ghost predicate IsMaxDepth(edges: Edges, cut: set<Node>, d: nat) {
    && (forall f :: f in edges ==> DepthAtMost(edges, cut, f, d))
    && (if edges == map[] then d == 0 else exists f :: f in edges && IsDepth(edges, cut, f, d))
  }

  lemma SingletonWalk(edges: Edges, x: Node)
    ensures IsWalk(edges, [x])
  {
  }

  /** Exact cycle verdicts leave no cycle unmarked, which is what the depth recursion needs to end. */
  lemma CyclesAreHit(edges: Edges, cut: set<Node>)
    requires forall x :: x in cut <==> OnCycle(edges, x)
    ensures HitsEveryCycle(edges, cut)
  {
    forall p | IsCycle(edges, p)
      ensures exists x :: x in p && x in cut
    {
      CycleMembers(edges, p, 0);
      assert p[0] in p;
    }
  }
}
