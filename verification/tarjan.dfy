/** Tarjan's strongly connected components, as the call graph runs it to find call cycles. */
module Tarjan {
  import opened Graphs

  /** The fields of a TarjanState at one moment, lowlinks aside, plus what has been popped so far. */
  datatype Snapshot = Snapshot(
    next: nat,
    index: map<Node, nat>,
    onStack: set<Node>,
    stack: seq<Node>,
    inCycle: set<Node>,
    popped: set<Node>,
    components: set<set<Node>>)

  // ----- invariant -----

  ghost predicate Numbered(edges: Edges, s: Snapshot) {
    && s.index.Keys <= Vertices(edges)
    && (forall n :: n in s.index ==> s.index[n] < s.next)
    && (forall n :: n in s.index <==> n in s.onStack || n in s.popped)
    && (forall n :: n in s.popped ==> n !in s.onStack)
  }

  /** The stack lists onStack in increasing number. */
  ghost predicate Stacked(s: Snapshot) {
    && (forall n :: n in s.onStack <==> n in s.stack)
    && (forall n :: n in s.stack ==> n in s.index)
    && (forall i, j :: 0 <= i < j < |s.stack| ==> s.index[s.stack[i]] < s.index[s.stack[j]])
  }

  /** y reaches a node numbered no later whose visit is still running. */
  ghost predicate Anchored(edges: Edges, s: Snapshot, open: set<Node>, y: Node)
    requires Numbered(edges, s) && y in s.onStack
  {
    exists g :: g in open && g in s.onStack && s.index[g] <= s.index[y] && Reach(edges, y, g)
  }

  /** On the stack, an earlier number reaches a later one, and every node is anchored. */
  ghost predicate Connected(edges: Edges, s: Snapshot, open: set<Node>)
    requires Numbered(edges, s)
  {
    && (forall g :: g in open ==> g in s.onStack)
    && (forall x, y {:trigger Reach(edges, x, y)} ::
          x in s.onStack && y in s.onStack && s.index[x] <= s.index[y] ==> Reach(edges, x, y))
    && (forall y {:trigger Anchored(edges, s, open, y)} :: y in s.onStack ==> Anchored(edges, s, open, y))
  }

  /** A finished node has numbered successors only; a popped node has popped successors only. */
  ghost predicate Explored(edges: Edges, s: Snapshot, open: set<Node>) {
    && (forall x, y {:trigger Edge(edges, x, y)} :: x in s.index && x !in open && Edge(edges, x, y) ==> y in s.index)
    && ClosedUnder(edges, s.popped)
  }

  ghost predicate Covered(components: set<set<Node>>, x: Node) {
    exists c :: c in components && x in c
  }

  /** The verdicts so far are right, and the popped nodes are exactly the popped components. */
  ghost predicate Judged(edges: Edges, s: Snapshot) {
    && (forall x :: x in s.inCycle ==> x in s.popped)
    && (forall x :: x in s.popped ==> (x in s.inCycle <==> OnCycle(edges, x)))
    && (forall c :: c in s.components ==> IsScc(edges, c))
    && (forall c, x :: c in s.components && x in c ==> x in s.popped)
    && (forall x :: x in s.popped ==> Covered(s.components, x))
  }

  ghost predicate Inv(edges: Edges, s: Snapshot, open: set<Node>) {
    && Numbered(edges, s)
    && Stacked(s)
    && Connected(edges, s, open)
    && Explored(edges, s, open)
    && Judged(edges, s)
  }

  ghost predicate Prefix(p: seq<Node>, q: seq<Node>) {
    p <= q
  }

  lemma PrefixTrans(p: seq<Node>, q: seq<Node>, r: seq<Node>)
    requires Prefix(p, q) && Prefix(q, r)
    ensures Prefix(p, r)
  {
  }

  /** What a visit never disturbs: old numbers and the old stack. */
  ghost predicate Extends(s: Snapshot, t: Snapshot) {
    && s.next <= t.next
    && (forall n :: n in s.index ==> n in t.index && t.index[n] == s.index[n])
    && (forall n :: n in t.index && n !in s.index ==> s.next <= t.index[n])
    && Prefix(s.stack, t.stack)
    && (forall n :: n in t.onStack && n !in s.onStack ==> n !in s.index)
    && (forall n :: n in s.onStack ==> n in t.onStack)
  }

  ghost predicate LowWitness(edges: Edges, s: Snapshot, node: Node, low: nat) {
    exists y :: y in s.onStack && y in s.index && s.index[y] == low && Reach(edges, node, y)
  }

  /** What one finished visit of `node`, begun in `s` and ended in `t`, says through its lowlink. */
  ghost predicate Outcome(edges: Edges, s: Snapshot, t: Snapshot, node: Node, low: nat) {
    && node in t.index
    && (node in t.onStack ==> low < t.index[node] && LowWitness(edges, t, node, low))
    && (node !in t.onStack ==> low == t.index[node])
    && (forall x, y {:trigger Edge(edges, x, y)} ::
          x in t.onStack && x !in s.onStack && y in s.onStack && y in t.index && Edge(edges, x, y) ==> low <= t.index[y])
  }

  /** The visit of `node`, begun in state `s`, has handled the callees in `seen`, is now in state `t`
      and has lowlink `low`. */
  ghost predicate Visiting(edges: Edges, s: Snapshot, t: Snapshot, node: Node, low: nat, open: set<Node>, seen: set<Node>) {
    && node !in s.index
    && Inv(edges, t, open + {node})
    && Extends(s, t)
    && node in t.onStack && t.index[node] == s.next
    && Prefix(s.stack + [node], t.stack)
    && low <= t.index[node]
    && LowWitness(edges, t, node, low)
    && (forall x, y {:trigger Edge(edges, x, y)} ::
          x in t.onStack && x !in s.onStack && x != node && y in s.onStack && y in t.index && Edge(edges, x, y)
          ==> low <= t.index[y])
    && (forall y :: y in seen ==> y in t.index && (y in s.onStack ==> low <= t.index[y]))
  }

  // ----- entering a node -----

  ghost function Entered(s: Snapshot, node: Node): Snapshot {
    s.(next := s.next + 1, index := s.index[node := s.next], onStack := s.onStack + {node}, stack := s.stack + [node])
  }

  lemma EnterConnected(edges: Edges, s: Snapshot, node: Node, open: set<Node>)
    requires Inv(edges, s, open) && node in Vertices(edges) && node !in s.index
    requires forall g :: g in open ==> Reach(edges, g, node)
    ensures Numbered(edges, Entered(s, node)) && Connected(edges, Entered(s, node), open + {node})
  {
    hide Reach, OnCycle, Explored, Judged, Stacked;
    var t := Entered(s, node);
    ReachRefl(edges, node);
    forall x | x in s.onStack
      ensures Reach(edges, x, node)
    {
      assert Anchored(edges, s, open, x);
      var g :| g in open && g in s.onStack && s.index[g] <= s.index[x] && Reach(edges, x, g);
      ReachTrans(edges, x, g, node);
    }
    assert Numbered(edges, t);
    forall y {:trigger Anchored(edges, t, open + {node}, y)} | y in t.onStack
      ensures Anchored(edges, t, open + {node}, y)
    {
      if y != node {
        assert Anchored(edges, s, open, y);
        var g :| g in open && g in s.onStack && s.index[g] <= s.index[y] && Reach(edges, y, g);
        assert g in open + {node} && t.index[g] <= t.index[y];
      }
    }
  }

  lemma EnterJudged(edges: Edges, s: Snapshot, node: Node, open: set<Node>)
    requires Inv(edges, s, open) && node !in s.index
    ensures Explored(edges, Entered(s, node), open + {node}) && Judged(edges, Entered(s, node))
  {
  }

  /** Numbering and pushing a node starts its visit. */
  lemma Enter(edges: Edges, s: Snapshot, node: Node, open: set<Node>)
    requires Inv(edges, s, open) && node in Vertices(edges) && node !in s.index
    requires forall g :: g in open ==> Reach(edges, g, node)
    ensures Visiting(edges, s, Entered(s, node), node, s.next, open, {})
  {
    hide Reach, OnCycle, Explored, Judged, Connected;
    EnterConnected(edges, s, node, open);
    EnterJudged(edges, s, node, open);
    ReachRefl(edges, node);
    assert LowWitness(edges, Entered(s, node), node, s.next) by {
      assert node in Entered(s, node).onStack;
    }
  }

  // ----- one callee -----

  function Min(a: nat, b: nat): nat {
    if b < a then b else a
  }

  /** A callee whose visit has just finished in state `u` with lowlink `low'`. */
  lemma AfterVisit(edges: Edges, s: Snapshot, t: Snapshot, u: Snapshot, node: Node, callee: Node, low: nat, low': nat,
                   open: set<Node>, seen: set<Node>)
    requires Visiting(edges, s, t, node, low, open, seen)
    requires Edge(edges, node, callee) && callee !in t.index
    requires Inv(edges, u, open + {node}) && Extends(t, u) && Outcome(edges, t, u, callee, low')
    ensures Visiting(edges, s, u, node, Min(low, low'), open, seen + {callee})
  {
    hide Reach, OnCycle, Connected, Explored, Judged, Stacked, Prefix;
    PrefixTrans(s.stack, t.stack, u.stack);
    PrefixTrans(s.stack + [node], t.stack, u.stack);
    assert LowWitness(edges, u, node, Min(low, low')) by {
      if low' < low {
        var y :| y in u.onStack && y in u.index && u.index[y] == low' && Reach(edges, callee, y);
        ReachEdge(edges, node, callee);
        ReachTrans(edges, node, callee, y);
      } else {
        var y :| y in t.onStack && y in t.index && t.index[y] == low && Reach(edges, node, y);
        assert y in u.onStack && u.index[y] == t.index[y];
      }
    }
  }

  /** A callee that is already numbered: on the stack it may lower the lowlink, popped it says nothing. */
  lemma AfterNumbered(edges: Edges, s: Snapshot, t: Snapshot, node: Node, callee: Node, low: nat, open: set<Node>, seen: set<Node>)
    requires Visiting(edges, s, t, node, low, open, seen)
    requires Edge(edges, node, callee) && callee in t.index
    ensures callee in t.onStack ==> Visiting(edges, s, t, node, Min(low, t.index[callee]), open, seen + {callee})
    ensures callee !in t.onStack ==> Visiting(edges, s, t, node, low, open, seen + {callee})
  {
    hide Reach, OnCycle, Connected, Explored, Judged, Stacked, Prefix;
    ReachEdge(edges, node, callee);
    assert callee in t.onStack ==> LowWitness(edges, t, node, Min(low, t.index[callee]));
  }

  // ----- leaving a node -----

  /** A node that can still reach below itself stays on the stack. */
  lemma Keep(edges: Edges, s: Snapshot, t: Snapshot, node: Node, low: nat, open: set<Node>, seen: set<Node>)
    requires Inv(edges, s, open) && Visiting(edges, s, t, node, low, open, seen)
    requires forall y :: Edge(edges, node, y) ==> y in seen
    requires low < t.index[node]
    ensures Inv(edges, t, open) && Outcome(edges, s, t, node, low)
  {
    hide Reach, OnCycle, Judged, Stacked, Prefix;
    var y :| y in t.onStack && y in t.index && t.index[y] == low && Reach(edges, node, y);
    forall z {:trigger Anchored(edges, t, open, z)} | z in t.onStack
      ensures Anchored(edges, t, open, z)
    {
      assert Anchored(edges, t, open + {node}, z) && Anchored(edges, t, open + {node}, y);
      var g :| g in open + {node} && g in t.onStack && t.index[g] <= t.index[z] && Reach(edges, z, g);
      if g == node {
        var h :| h in open + {node} && h in t.onStack && t.index[h] <= t.index[y] && Reach(edges, y, h);
        ReachTrans(edges, z, node, y);
        ReachTrans(edges, z, y, h);
        assert h in open && t.index[h] <= t.index[z];
      }
    }
  }

  ghost function Popped(s: Snapshot, t: Snapshot, component: set<Node>, selfLoop: bool): Snapshot {
    t.(stack := s.stack, onStack := s.onStack,
       inCycle := if |component| > 1 || selfLoop then t.inCycle + component else t.inCycle,
       popped := t.popped + component,
       components := t.components + {component})
  }

  /** Every callee is handled, none led below `node`, and `c` is what the stack gained. */
  ghost predicate AtRoot(edges: Edges, s: Snapshot, t: Snapshot, node: Node, open: set<Node>, seen: set<Node>, c: set<Node>) {
    && Inv(edges, s, open) && node in t.index
    && Visiting(edges, s, t, node, t.index[node], open, seen)
    && (forall y :: Edge(edges, node, y) ==> y in seen)
    && (forall x :: x in c <==> x in t.onStack && x !in s.onStack)
  }

  /** No edge leaves the nodes above a root except to popped nodes. */
  lemma SuffixClosed(edges: Edges, s: Snapshot, t: Snapshot, node: Node, open: set<Node>, seen: set<Node>, c: set<Node>)
    requires AtRoot(edges, s, t, node, open, seen, c)
    ensures ClosedUnder(edges, t.popped + c)
  {
    hide Reach, OnCycle, Judged, Stacked, Prefix;
    forall x, y {:trigger Edge(edges, x, y)} | x in t.popped + c && Edge(edges, x, y)
      ensures y in t.popped + c
    {
    }
  }

  lemma SuffixMutual(edges: Edges, s: Snapshot, t: Snapshot, node: Node, open: set<Node>, seen: set<Node>, c: set<Node>, x: Node)
    requires AtRoot(edges, s, t, node, open, seen, c) && x in c
    ensures Reach(edges, x, node) && Reach(edges, node, x)
  {
    hide Reach, OnCycle, Judged, Stacked, Prefix, LowWitness;
    SuffixClosed(edges, s, t, node, open, seen, c);
    assert Anchored(edges, t, open + {node}, x);
    var g :| g in open + {node} && g in t.onStack && t.index[g] <= t.index[x] && Reach(edges, x, g);
    ClosedReach(edges, t.popped + c, x, g);
  }

  /** ... so those nodes are one strongly connected component. */
  lemma SuffixIsScc(edges: Edges, s: Snapshot, t: Snapshot, node: Node, open: set<Node>, seen: set<Node>, c: set<Node>)
    requires AtRoot(edges, s, t, node, open, seen, c)
    ensures IsScc(edges, c)
  {
    hide Reach, OnCycle, Judged, Stacked, Prefix, LowWitness, Connected;
    SuffixClosed(edges, s, t, node, open, seen, c);
    assert node in c;
    forall x, y {:trigger Reach(edges, x, y)} | x in c
      ensures y in c <==> (Reach(edges, x, y) && Reach(edges, y, x))
    {
      SuffixMutual(edges, s, t, node, open, seen, c, x);
      if y in c {
        SuffixMutual(edges, s, t, node, open, seen, c, y);
        ReachTrans(edges, x, node, y);
        ReachTrans(edges, y, node, x);
      } else if Reach(edges, x, y) && Reach(edges, y, x) {
        ClosedReach(edges, t.popped + c, x, y);
        ClosedReach(edges, t.popped, y, x);
      }
    }
  }

  lemma TwoMembersCycle(edges: Edges, x: Node, y: Node)
    requires x != y && Reach(edges, x, y) && Reach(edges, y, x)
    ensures OnCycle(edges, x)
  {
    var p :| WalkFromTo(edges, p, x, y);
    var q :| WalkFromTo(edges, q, y, x);
    WalkConcat(edges, p, q);
  }

  lemma OtherMember(c: set<Node>, x: Node)
    requires x in c
    ensures |c| > 1 <==> exists y :: y in c && y != x
  {
    var rest := c - {x};
    assert |c| == |rest| + 1;
    if |c| > 1 {
      var y :| y in rest;
    }
    if exists y :: y in c && y != x {
      var y :| y in c && y != x;
      assert y in rest;
    }
  }

  /** The verdict on a component: on a cycle exactly when it has two members or its one member calls itself. */
  lemma ComponentVerdict(edges: Edges, c: set<Node>, node: Node, x: Node)
    requires IsScc(edges, c) && node in c && x in c
    ensures OnCycle(edges, x) <==> |c| > 1 || Edge(edges, node, node)
  {
    hide Reach, OnCycle;
    OnCycleViaSuccessor(edges, x);
    OtherMember(c, x);
    OtherMember(c, node);
    ReachRefl(edges, node);
    if |c| > 1 {
      var y :| y in c && y != x;
      TwoMembersCycle(edges, x, y);
    } else if OnCycle(edges, x) {
      var y :| Edge(edges, x, y) && Reach(edges, y, x);
      ReachEdge(edges, x, y);
      assert y in c;
    }
  }

  lemma PopConnected(edges: Edges, s: Snapshot, t: Snapshot, node: Node, open: set<Node>, seen: set<Node>, c: set<Node>, selfLoop: bool)
    requires AtRoot(edges, s, t, node, open, seen, c)
    ensures Numbered(edges, Popped(s, t, c, selfLoop)) && Connected(edges, Popped(s, t, c, selfLoop), open)
  {
    hide Reach, OnCycle, Judged, Explored, Stacked, LowWitness, Prefix;
    var u := Popped(s, t, c, selfLoop);
    assert Numbered(edges, u);
    forall y {:trigger Anchored(edges, u, open, y)} | y in u.onStack
      ensures Anchored(edges, u, open, y)
    {
      assert Anchored(edges, s, open, y);
      var g :| g in open && g in s.onStack && s.index[g] <= s.index[y] && Reach(edges, y, g);
      assert u.index[g] <= u.index[y];
    }
  }

  /** Back to the old stack, with the numbers given since. */
  lemma StackRestored(edges: Edges, s: Snapshot, t: Snapshot, u: Snapshot, node: Node, low: nat)
    requires Stacked(s) && Extends(s, t) && node in t.index && node !in s.index && low == t.index[node]
    requires u.next == t.next && u.index == t.index && u.stack == s.stack && u.onStack == s.onStack
    ensures Stacked(u) && Extends(s, u) && Outcome(edges, s, u, node, low)
  {
    hide LowWitness;
    assert Prefix(s.stack, u.stack);
    assert forall i :: 0 <= i < |s.stack| ==> s.stack[i] in s.stack;
    hide Prefix;
  }

  lemma PopStacked(edges: Edges, s: Snapshot, t: Snapshot, node: Node, open: set<Node>, seen: set<Node>, c: set<Node>, selfLoop: bool)
    requires AtRoot(edges, s, t, node, open, seen, c)
    ensures Stacked(Popped(s, t, c, selfLoop)) && Extends(s, Popped(s, t, c, selfLoop))
    ensures Outcome(edges, s, Popped(s, t, c, selfLoop), node, t.index[node])
  {
    hide Reach, OnCycle, Judged, Explored, Connected, LowWitness, Numbered, Stacked, Extends, Outcome;
    StackRestored(edges, s, t, Popped(s, t, c, selfLoop), node, t.index[node]);
  }

  lemma PopExplored(edges: Edges, s: Snapshot, t: Snapshot, node: Node, open: set<Node>, seen: set<Node>, c: set<Node>, selfLoop: bool)
    requires AtRoot(edges, s, t, node, open, seen, c)
    ensures Explored(edges, Popped(s, t, c, selfLoop), open)
  {
    hide Reach, OnCycle, Connected, Stacked, Judged, LowWitness, Prefix;
    SuffixClosed(edges, s, t, node, open, seen, c);
  }

  /** One more component judged. */
  lemma JudgedWith(edges: Edges, t: Snapshot, u: Snapshot, node: Node, c: set<Node>, selfLoop: bool)
    requires Judged(edges, t) && IsScc(edges, c) && node in c && c !! t.popped
    requires selfLoop <==> Edge(edges, node, node)
    requires u.popped == t.popped + c && u.components == t.components + {c}
    requires u.inCycle == if |c| > 1 || selfLoop then t.inCycle + c else t.inCycle
    ensures Judged(edges, u)
  {
    hide OnCycle, IsScc;
    forall x | x in u.popped
      ensures x in u.inCycle <==> OnCycle(edges, x)
      ensures Covered(u.components, x)
    {
      if x in c {
        ComponentVerdict(edges, c, node, x);
        assert c in u.components;
      } else {
        assert Covered(t.components, x);
        var d :| d in t.components && x in d;
        assert d in u.components;
      }
    }
    hide Covered;
  }

  lemma PopJudged(edges: Edges, s: Snapshot, t: Snapshot, node: Node, open: set<Node>, seen: set<Node>, c: set<Node>, selfLoop: bool)
    requires AtRoot(edges, s, t, node, open, seen, c)
    requires selfLoop <==> Edge(edges, node, node)
    ensures Judged(edges, Popped(s, t, c, selfLoop))
  {
    hide Reach, OnCycle, Connected, Stacked, IsScc, LowWitness, Prefix, Explored, Judged;
    SuffixIsScc(edges, s, t, node, open, seen, c);
    assert node in c && c !! t.popped;
    JudgedWith(edges, t, Popped(s, t, c, selfLoop), node, c, selfLoop);
  }

  /** A node that cannot reach below itself closes one component, and the verdict on it is right. */
  lemma Pop(edges: Edges, s: Snapshot, t: Snapshot, node: Node, open: set<Node>, seen: set<Node>, c: set<Node>, selfLoop: bool)
    requires AtRoot(edges, s, t, node, open, seen, c)
    requires selfLoop <==> Edge(edges, node, node)
    ensures Inv(edges, Popped(s, t, c, selfLoop), open) && Extends(s, Popped(s, t, c, selfLoop))
    ensures Outcome(edges, s, Popped(s, t, c, selfLoop), node, t.index[node])
  {
    hide Reach, OnCycle, Connected, Stacked, Judged, Explored, Numbered, AtRoot, Extends, Outcome, Popped;
    PopConnected(edges, s, t, node, open, seen, c, selfLoop);
    PopStacked(edges, s, t, node, open, seen, c, selfLoop);
    PopExplored(edges, s, t, node, open, seen, c, selfLoop);
    PopJudged(edges, s, t, node, open, seen, c, selfLoop);
  }

  // ----- the traversal -----

  ghost predicate Distinct(p: seq<Node>) {
    forall i, j :: 0 <= i < j < |p| ==> p[i] != p[j]
  }

  lemma {:induction false} DistinctCardinality(p: seq<Node>, c: set<Node>)
    requires Distinct(p) && forall n :: n in c <==> n in p
    ensures |p| == |c|
  {
    if p != [] {
      var last := p[|p| - 1];
      var rest := p[..|p| - 1];
      assert p == rest + [last];
      DistinctCardinality(rest, c - {last});
    }
  }

  /** What the visit of `node` may assume about one of its callees. */
  lemma InVisit(edges: Edges, s: Snapshot, t: Snapshot, node: Node, callee: Node, low: nat, open: set<Node>, seen: set<Node>)
    requires Visiting(edges, s, t, node, low, open, seen)
    requires Edge(edges, node, callee)
    requires forall g :: g in open ==> Reach(edges, g, node)
    ensures Inv(edges, t, open + {node}) && callee in Vertices(edges)
    ensures node in t.index && node !in s.index && s.index.Keys < t.index.Keys
    ensures forall g :: g in open + {node} ==> Reach(edges, g, callee)
  {
    hide Reach, OnCycle, Judged, Explored, Connected, LowWitness, Stacked, Vertices;
    forall g | g in open + {node}
      ensures Reach(edges, g, callee)
    {
      ReachEdge(edges, node, callee);
      if g != node {
        ReachTrans(edges, g, node, callee);
      }
    }
  }

  /** What the pop loop relies on: above the old stack sits `node`, and onStack is the old one plus the part above. */
  lemma AboveRoot(edges: Edges, s: Snapshot, t: Snapshot, node: Node, low: nat, open: set<Node>, seen: set<Node>)
    requires Inv(edges, s, open) && Visiting(edges, s, t, node, low, open, seen)
    ensures |s.stack| < |t.stack| && t.stack[..|s.stack|] == s.stack && t.stack[|s.stack|] == node
    ensures Distinct(t.stack) && node in t.index && low <= t.index[node] && Extends(s, t)
    ensures forall n :: n in t.onStack <==> n in t.stack
    ensures forall n :: n in s.onStack <==> n in s.stack
  {
    hide Reach, OnCycle, Judged, Explored, Connected, LowWitness;
  }

  /** The nodes of a stack from position k on. */
  ghost function Above(stack: seq<Node>, k: nat): set<Node>
    requires k <= |stack|
  {
    set n | n in stack && n !in stack[..k]
  }

  /** Taking what the visit of a root put on the stack ends the visit. */
  lemma RootCloses(edges: Edges, s: Snapshot, t: Snapshot, u: Snapshot, node: Node, selfLoop: bool, open: set<Node>, seen: set<Node>)
    requires Inv(edges, s, open) && node in t.index && Visiting(edges, s, t, node, t.index[node], open, seen)
    requires (forall y :: Edge(edges, node, y) ==> y in seen) && (selfLoop <==> Edge(edges, node, node))
    requires |s.stack| < |t.stack| && u.stack == t.stack[..|s.stack|] && forall n :: n in u.onStack <==> n in u.stack
    requires var c := Above(t.stack, |s.stack|);
      u == t.(stack := u.stack, onStack := u.onStack, popped := t.popped + c, components := t.components + {c},
              inCycle := t.inCycle + if |c| > 1 || selfLoop then c else {})
    ensures Inv(edges, u, open) && Extends(s, u) && Outcome(edges, s, u, node, t.index[node])
  {
    hide Reach, OnCycle, Inv, Visiting, Extends, Outcome;
    AboveRoot(edges, s, t, node, t.index[node], open, seen);
    var c := Above(t.stack, |s.stack|);
    assert u.onStack == s.onStack;
    assert t.inCycle + {} == t.inCycle;
    assert u == Popped(s, t, c, selfLoop);
    Pop(edges, s, t, node, open, seen, c, selfLoop);
  }

  lemma FewerLeft(all: set<Node>, numbered: set<Node>, node: Node)
    requires node in all && node !in numbered
    ensures all - (numbered + {node}) < all - numbered
  {
    assert node in all - numbered;
  }

  class TarjanState {
    var nextIndex: nat
    var index: map<Node, nat>
    var lowlink: map<Node, nat>
    var onStack: set<Node>
    var stack: seq<Node>
    var inCycle: set<Node>
    ghost var popped: set<Node>
    ghost var components: set<set<Node>>

    constructor ()
      ensures Now() == Snapshot(0, map[], {}, [], {}, {}, {}) && lowlink == map[]
    {
      nextIndex, index, lowlink := 0, map[], map[];
      onStack, stack, inCycle := {}, [], {};
      popped, components := {}, {};
    }

    ghost function Now(): Snapshot
      reads this
    {
      Snapshot(nextIndex, index, onStack, stack, inCycle, popped, components)
    }

    /** Pops down to and including `node`, which sits at position `k`. */
    method PopComponent(node: Node, ghost k: nat) returns (component: seq<Node>)
      requires k < |stack| && stack[k] == node
      requires Distinct(stack) && (forall n :: n in onStack <==> n in stack)
      modifies this`stack, this`onStack
      ensures stack == old(stack)[..k]
      ensures forall n :: n in onStack <==> n in stack
      ensures Distinct(component) && forall n :: n in component <==> n in old(stack) && n !in stack
    {
      component := [];
      while true
        invariant k < |stack| && stack == old(stack)[..|stack|]
        invariant forall n :: n in onStack <==> n in stack
        invariant Distinct(component)
        invariant forall n :: n in component <==> n in old(stack) && n !in stack
        decreases |stack|
      {
        ghost var before := stack;
        var member := stack[|stack| - 1];
        stack := stack[..|stack| - 1];
        assert before == stack + [member];
        onStack := onStack - {member};
        assert member !in component;
        component := component + [member];
        if member == node {
          break;
        }
      }
    }

    /** Adds every member to the cycle set. */
    method MarkCyclic(component: seq<Node>)
      modifies this`inCycle
      ensures forall n :: n in inCycle <==> n in old(inCycle) || n in component
    {
      for i := 0 to |component|
        invariant forall n :: n in inCycle <==> n in old(inCycle) || n in component[..i]
      {
        inCycle := inCycle + {component[i]};
      }
    }

    /** Takes the suffix of the stack from position `k` on as one component, and marks its members if it has two of
        them or its node calls itself. */
    method TakeComponent(node: Node, selfLoop: bool, ghost k: nat)
      requires k < |stack| && stack[k] == node
      requires Distinct(stack) && (forall n :: n in onStack <==> n in stack)
      modifies this`stack, this`onStack, this`inCycle, this`popped, this`components
      ensures stack == old(stack)[..k] && forall n :: n in onStack <==> n in stack
      ensures var c := Above(old(stack), k);
        && popped == old(popped) + c && components == old(components) + {c}
        && inCycle == old(inCycle) + if |c| > 1 || selfLoop then c else {}
    {
      var component := PopComponent(node, k);
      ghost var c := Above(old(stack), k);
      DistinctCardinality(component, c);
      if |component| > 1 || selfLoop {
        MarkCyclic(component);
      }
      popped, components := popped + c, components + {c};
    }

    /** The visit of `node`, begun in state `s`, found it to be a root: pops its component and gives the verdict on it. */
    method CloseComponent(edges: Edges, node: Node, selfLoop: bool, ghost s: Snapshot, ghost open: set<Node>, ghost seen: set<Node>)
      requires Inv(edges, s, open) && node in index
      requires Visiting(edges, s, Now(), node, index[node], open, seen)
      requires forall y :: Edge(edges, node, y) ==> y in seen
      requires selfLoop <==> Edge(edges, node, node)
      modifies this`stack, this`onStack, this`inCycle, this`popped, this`components
      ensures Inv(edges, Now(), open) && Extends(s, Now()) && Outcome(edges, s, Now(), node, index[node])
      ensures |s.stack| < |old(stack)| && stack == old(stack)[..|s.stack|]
      ensures var c := Above(old(stack), |s.stack|);
        components == old(components) + {c} && inCycle == old(inCycle) + if |c| > 1 || selfLoop then c else {}
    {
      hide Reach, OnCycle, Inv, Visiting, Extends, Outcome, Above;
      ghost var t := Now();
      AboveRoot(edges, s, t, node, index[node], open, seen);
      TakeComponent(node, selfLoop, |s.stack|);
      RootCloses(edges, s, t, Now(), node, selfLoop, open, seen);
    }

    /** One turn of the callee loop in the visit of `node` begun in state `s`. */
    method VisitCallee(edges: Edges, node: Node, callee: Node, ghost s: Snapshot, ghost open: set<Node>, ghost seen: set<Node>)
      requires Edge(edges, node, callee) && forall g :: g in open ==> Reach(edges, g, node)
      requires lowlink.Keys == index.Keys && node in lowlink
      requires Visiting(edges, s, Now(), node, lowlink[node], open, seen)
      modifies this
      ensures lowlink.Keys == index.Keys && node in lowlink
      ensures Visiting(edges, s, Now(), node, lowlink[node], open, seen + {callee})
      ensures forall n :: n in old(lowlink) && n != node ==> n in lowlink && lowlink[n] == old(lowlink[n])
      ensures callee !in old(index) ==> callee in lowlink && lowlink[node] == Min(old(lowlink[node]), lowlink[callee])
      ensures callee in old(index) ==> index == old(index)
      ensures callee in old(index) ==> lowlink[node] == if callee in old(onStack) then Min(old(lowlink[node]), index[callee]) else old(lowlink[node])
      decreases Vertices(edges) - index.Keys, 1
    {
      hide Reach, OnCycle, Inv, Visiting, Vertices, Extends, Outcome;
      ghost var t := Now();
      ghost var low := lowlink[node];
      InVisit(edges, s, t, node, callee, low, open, seen);
      if callee !in index {
        TarjanScc(edges, callee, open + {node});
        AfterVisit(edges, s, t, Now(), node, callee, low, lowlink[callee], open, seen);
        var calleeLowlink := lowlink[callee];
        var nodeLowlink := lowlink[node];
        if calleeLowlink < nodeLowlink {
          lowlink := lowlink[node := calleeLowlink];
        }
      } else {
        AfterNumbered(edges, s, t, node, callee, low, open, seen);
        if callee in onStack {
          var calleeIndex := index[callee];
          var nodeLowlink := lowlink[node];
          if calleeIndex < nodeLowlink {
            lowlink := lowlink[node := calleeIndex];
          }
        }
      }
    }

    /** The callee loop in the visit of `node` begun in state `s`. */
    method VisitCallees(edges: Edges, node: Node, ghost s: Snapshot, ghost open: set<Node>) returns (selfLoop: bool)
      requires forall g :: g in open ==> Reach(edges, g, node)
      requires lowlink.Keys == index.Keys && node in lowlink
      requires Visiting(edges, s, Now(), node, lowlink[node], open, {})
      modifies this
      ensures lowlink.Keys == index.Keys && node in lowlink
      ensures Visiting(edges, s, Now(), node, lowlink[node], open, set n | n in Succ(edges, node))
      ensures forall n :: n in old(lowlink) && n != node ==> n in lowlink && lowlink[n] == old(lowlink[n])
      ensures selfLoop <==> node in Succ(edges, node)
      decreases Vertices(edges) - index.Keys, 2
    {
      hide Reach, OnCycle, Inv, Visiting, Vertices, Extends, Outcome;
      selfLoop := false;
      var callees := Succ(edges, node);
      ghost var seen := {};
      ghost var numbered := index.Keys;
      for k := 0 to |callees|
        invariant forall c :: c in seen <==> c in callees[..k]
        invariant lowlink.Keys == index.Keys && node in lowlink && numbered <= index.Keys
        invariant Visiting(edges, s, Now(), node, lowlink[node], open, seen)
        invariant forall n :: n in old(lowlink) && n != node ==> n in lowlink && lowlink[n] == old(lowlink[n])
        invariant selfLoop <==> node in callees[..k]
      {
        var callee := callees[k];
        if callee == node {
          selfLoop := true;
        }
        VisitCallee(edges, node, callee, s, open, seen);
        seen := seen + {callee};
      }
      assert callees[..|callees|] == callees && seen == set n | n in callees;
    }

    /** Numbers `node` and puts it on the stack. */
    method Push(edges: Edges, node: Node, ghost open: set<Node>)
      requires Inv(edges, Now(), open) && lowlink.Keys == index.Keys
      requires node in Vertices(edges) && node !in index
      requires forall g :: g in open ==> Reach(edges, g, node)
      modifies this
      ensures index == old(index)[node := old(nextIndex)] && lowlink == old(lowlink)[node := old(nextIndex)]
      ensures Visiting(edges, old(Now()), Now(), node, lowlink[node], open, {})
    {
      hide Reach, Inv, Visiting, Vertices;
      ghost var s := Now();
      var nodeIndex := nextIndex;
      index := index[node := nodeIndex];
      lowlink := lowlink[node := nodeIndex];
      nextIndex := nextIndex + 1;
      stack := stack + [node];
      onStack := onStack + {node};
      Enter(edges, s, node, open);
    }

    /** Visits `node` and everything not yet numbered that it reaches; `open` holds the nodes whose visits are running. */
    method TarjanScc(edges: Edges, node: Node, ghost open: set<Node>)
      requires Inv(edges, Now(), open) && lowlink.Keys == index.Keys
      requires node in Vertices(edges) && node !in index
      requires forall g :: g in open ==> Reach(edges, g, node)
      modifies this
      ensures Inv(edges, Now(), open) && lowlink.Keys == index.Keys
      ensures Extends(old(Now()), Now())
      ensures forall n :: n in old(lowlink) ==> n in lowlink && lowlink[n] == old(lowlink[n])
      ensures node in index && Outcome(edges, old(Now()), Now(), node, lowlink[node])
      decreases Vertices(edges) - index.Keys, 0
    {
      hide Reach, OnCycle, Inv, Visiting, Vertices, Extends, Outcome;
      ghost var s := Now();
      Push(edges, node, open);
      FewerLeft(Vertices(edges), s.index.Keys, node);

      var selfLoop := VisitCallees(edges, node, s, open);
      ghost var seen := set n | n in Succ(edges, node);
      AboveRoot(edges, s, Now(), node, lowlink[node], open, seen);
      assert forall y :: Edge(edges, node, y) <==> y in seen;
      if lowlink[node] == index[node] {
        CloseComponent(edges, node, selfLoop, s, open, seen);
      } else {
        Keep(edges, s, Now(), node, lowlink[node], open, seen);
      }
    }
  }

  // ----- the whole graph -----

  lemma FreshState(edges: Edges)
    ensures Inv(edges, Snapshot(0, map[], {}, [], {}, {}, {}), {})
  {
  }

  /** Between two roots nothing is on the stack. */
  lemma NothingOpen(edges: Edges, s: Snapshot)
    requires Inv(edges, s, {})
    ensures s.onStack == {} && s.index.Keys == s.popped
  {
    hide Reach, OnCycle, Judged, Explored, Stacked;
    if y :| y in s.onStack {
      var _ := Anchored(edges, s, {}, y);
    }
  }

  /** Once every key is numbered the verdicts and the components are those of the whole graph. */
  lemma AllJudged(edges: Edges, s: Snapshot)
    requires Inv(edges, s, {}) && edges.Keys <= s.index.Keys
    ensures forall n :: n in s.inCycle <==> OnCycle(edges, n)
    ensures forall c :: c in s.components ==> IsScc(edges, c)
    ensures forall n :: n in Vertices(edges) ==> Covered(s.components, n)
  {
    hide Reach, OnCycle, IsScc, Covered, Connected, Stacked;
    NothingOpen(edges, s);
    forall n
      ensures n in s.inCycle <==> OnCycle(edges, n)
    {
      OnCycleViaSuccessor(edges, n);
    }
    forall n | n in Vertices(edges)
      ensures n in s.popped
    {
      if n !in edges {
        var x, y :| x in edges && y in edges[x] && y == n;
        assert Edge(edges, x, n);
      }
    }
  }

  /** Exactly the nodes on a cycle, whatever the order of roots and callees; and the components popped
      on the way are strongly connected components that cover the graph. */
  method DetectCycles(edges: Edges) returns (inCycle: set<Node>, ghost components: set<set<Node>>)
    ensures forall n :: n in inCycle <==> OnCycle(edges, n)
    ensures forall c :: c in components ==> IsScc(edges, c)
    ensures forall n :: n in Vertices(edges) ==> Covered(components, n)
  {
    hide Reach, OnCycle, IsScc, Covered, Inv, Extends, Outcome;
    var state := new TarjanState();
    FreshState(edges);
    var names := edges.Keys;
    while names != {}
      invariant names <= edges.Keys && edges.Keys <= names + state.index.Keys
      invariant fresh(state) && state.lowlink.Keys == state.index.Keys
      invariant Inv(edges, state.Now(), {})
    {
      var name :| name in names;
      names := names - {name};
      if name !in state.index {
        ghost var s := state.Now();
        state.TarjanScc(edges, name, {});
        NumbersKept(s, state.Now());
      }
    }
    AllJudged(edges, state.Now());
    return state.inCycle, state.components;
  }

  lemma NumbersKept(s: Snapshot, t: Snapshot)
    requires Extends(s, t)
    ensures s.index.Keys <= t.index.Keys
  {
  }
}
