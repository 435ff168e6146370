/** Folding owned captures into per-function counts, and the containment measures of one function. */
module CaptureFolding {
  import opened CaptureSweep
  import opened Wrappers

  const MAX_NESTING_DEPTH: nat := 2000
  const MAX_QUADRATIC_CAPTURES_PER_FUNCTION: nat := 2000

  // ----- per-function tallies -----

  datatype Tally = Tally(
    decisionPoints: nat,
    hasLoop: bool,
    loops: seq<SyntaxNode>,
    depthNodes: seq<SyntaxNode>,
    switchSections: seq<SyntaxNode>,
    calls: seq<SyntaxNode>)

  const EMPTY: Tally := Tally(0, false, [], [], [], [])

  /** A label of a switch without a body of its own falls through to the next one and does not count. */
  predicate IsDecision(c: Capture) {
    match c.name
    case Loop => true
    case Conditional => true
    case BranchArm => (c.node.kind == SwitchLabel && c.node.hasBody) || c.node.kind == IfStatement
    case _ => false
  }

  function Fold(t: Tally, c: Capture): Tally {
    match c.name
    case Loop =>
      t.(decisionPoints := t.decisionPoints + 1, hasLoop := true, loops := t.loops + [c.node], depthNodes := t.depthNodes + [c.node])
    case BranchArm =>
      if c.node.kind == SwitchLabel && c.node.hasBody then
        t.(decisionPoints := t.decisionPoints + 1, switchSections := t.switchSections + [c.node], depthNodes := t.depthNodes + [c.node])
      else if c.node.kind == IfStatement then
        t.(decisionPoints := t.decisionPoints + 1, depthNodes := t.depthNodes + [c.node])
      else t
    case Conditional => t.(decisionPoints := t.decisionPoints + 1)
    case Call => t.(calls := t.calls + [c.node])
    case _ => t
  }

  function TallyOf(owned: seq<(nat, Capture)>, i: nat): Tally {
    if owned == [] then EMPTY else
      var rest := TallyOf(owned[..|owned| - 1], i);
      if owned[|owned| - 1].0 == i then Fold(rest, owned[|owned| - 1].1) else rest
  }

  // ----- what a tally says of the captures a function owns -----

  /** A switch label with a body of its own. */
  predicate IsSection(node: SyntaxNode) {
    node.kind == SwitchLabel && node.hasBody
  }

  ghost function Deciding(owned: seq<(nat, Capture)>, i: nat): set<nat> {
    set k: nat | k < |owned| && owned[k].0 == i && IsDecision(owned[k].1)
  }

  /** How often function i owns a capture of this name on this node. */
  ghost function Times(owned: seq<(nat, Capture)>, i: nat, name: Label, node: SyntaxNode): nat {
    multiset(owned)[(i, Capture(name, node))]
  }

  ghost predicate HoldsLoops(owned: seq<(nat, Capture)>, i: nat, nodes: seq<SyntaxNode>) {
    forall n :: multiset(nodes)[n] == Times(owned, i, Loop, n)
  }

  ghost predicate HoldsNesting(owned: seq<(nat, Capture)>, i: nat, nodes: seq<SyntaxNode>) {
    forall n :: multiset(nodes)[n] ==
      Times(owned, i, Loop, n) + if IsSection(n) || n.kind == IfStatement then Times(owned, i, BranchArm, n) else 0
  }

  ghost predicate HoldsSections(owned: seq<(nat, Capture)>, i: nat, nodes: seq<SyntaxNode>) {
    forall n :: multiset(nodes)[n] == if IsSection(n) then Times(owned, i, BranchArm, n) else 0
  }

  ghost predicate HoldsCalls(owned: seq<(nat, Capture)>, i: nat, nodes: seq<SyntaxNode>) {
    forall n :: multiset(nodes)[n] == Times(owned, i, Call, n)
  }

  ghost predicate OwnsLoop(owned: seq<(nat, Capture)>, i: nat) {
    exists n :: Times(owned, i, Loop, n) > 0
  }

  /** Of the captures function i owns, a tally counts the decisions and holds each node as often as it is owned: every
      loop, every node that nests, every switch section and every call. */
  ghost predicate Tallied(owned: seq<(nat, Capture)>, i: nat, t: Tally) {
    && t.decisionPoints == |Deciding(owned, i)|
    && (t.hasLoop <==> OwnsLoop(owned, i))
    && HoldsLoops(owned, i, t.loops)
    && HoldsNesting(owned, i, t.depthNodes)
    && HoldsSections(owned, i, t.switchSections)
    && HoldsCalls(owned, i, t.calls)
  }

  lemma OneMoreTimes(rest: seq<(nat, Capture)>, last: (nat, Capture), i: nat, name: Label, n: SyntaxNode)
    ensures Times(rest + [last], i, name, n) == Times(rest, i, name, n) + if last == (i, Capture(name, n)) then 1 else 0
  {
    SnocCount(rest, last, (i, Capture(name, n)));
  }

  lemma OneMoreDeciding(rest: seq<(nat, Capture)>, last: (nat, Capture), i: nat)
    ensures |Deciding(rest + [last], i)| == |Deciding(rest, i)| + if last.0 == i && IsDecision(last.1) then 1 else 0
  {
    assert |rest| !in Deciding(rest, i);
    assert Deciding(rest + [last], i) == Deciding(rest, i) + if last.0 == i && IsDecision(last.1) then {|rest|} else {};
  }

  lemma LoopsTally(rest: seq<(nat, Capture)>, c: Capture, i: nat, t: Tally)
    requires HoldsLoops(rest, i, t.loops)
    ensures HoldsLoops(rest + [(i, c)], i, Fold(t, c).loops)
  {
    hide Times;
    forall n
      ensures multiset(Fold(t, c).loops)[n] == Times(rest + [(i, c)], i, Loop, n)
    {
      OneMoreTimes(rest, (i, c), i, Loop, n);
      SnocCount(t.loops, c.node, n);
    }
  }

  lemma NestingTallies(rest: seq<(nat, Capture)>, c: Capture, i: nat, t: Tally)
    requires HoldsNesting(rest, i, t.depthNodes)
    ensures HoldsNesting(rest + [(i, c)], i, Fold(t, c).depthNodes)
  {
    hide Times;
    forall n
      ensures multiset(Fold(t, c).depthNodes)[n] == Times(rest + [(i, c)], i, Loop, n)
        + if IsSection(n) || n.kind == IfStatement then Times(rest + [(i, c)], i, BranchArm, n) else 0
    {
      OneMoreTimes(rest, (i, c), i, Loop, n);
      OneMoreTimes(rest, (i, c), i, BranchArm, n);
      SnocCount(t.depthNodes, c.node, n);
    }
  }

  lemma SectionsTally(rest: seq<(nat, Capture)>, c: Capture, i: nat, t: Tally)
    requires HoldsSections(rest, i, t.switchSections)
    ensures HoldsSections(rest + [(i, c)], i, Fold(t, c).switchSections)
  {
    hide Times;
    forall n
      ensures multiset(Fold(t, c).switchSections)[n] == if IsSection(n) then Times(rest + [(i, c)], i, BranchArm, n) else 0
    {
      OneMoreTimes(rest, (i, c), i, BranchArm, n);
      SnocCount(t.switchSections, c.node, n);
    }
  }

  lemma CallsTally(rest: seq<(nat, Capture)>, c: Capture, i: nat, t: Tally)
    requires HoldsCalls(rest, i, t.calls)
    ensures HoldsCalls(rest + [(i, c)], i, Fold(t, c).calls)
  {
    hide Times;
    forall n
      ensures multiset(Fold(t, c).calls)[n] == Times(rest + [(i, c)], i, Call, n)
    {
      OneMoreTimes(rest, (i, c), i, Call, n);
      SnocCount(t.calls, c.node, n);
    }
  }

  lemma OneMoreLoop(rest: seq<(nat, Capture)>, c: Capture, i: nat)
    ensures OwnsLoop(rest + [(i, c)], i) <==> OwnsLoop(rest, i) || c.name == Loop
  {
    hide Times;
    forall n
      ensures Times(rest + [(i, c)], i, Loop, n) == Times(rest, i, Loop, n) + if c == Capture(Loop, n) then 1 else 0
    {
      OneMoreTimes(rest, (i, c), i, Loop, n);
    }
    if c.name == Loop {
      assert Times(rest + [(i, c)], i, Loop, c.node) > 0;
    }
  }

  lemma FoldTallies(rest: seq<(nat, Capture)>, c: Capture, i: nat, t: Tally)
    requires Tallied(rest, i, t)
    ensures Tallied(rest + [(i, c)], i, Fold(t, c))
  {
    LoopsTally(rest, c, i, t);
    NestingTallies(rest, c, i, t);
    SectionsTally(rest, c, i, t);
    CallsTally(rest, c, i, t);
    OneMoreDeciding(rest, (i, c), i);
    OneMoreLoop(rest, c, i);
    hide HoldsLoops, HoldsNesting, HoldsSections, HoldsCalls, OwnsLoop, Deciding;
  }

  lemma SkipTallies(rest: seq<(nat, Capture)>, last: (nat, Capture), i: nat, t: Tally)
    requires Tallied(rest, i, t) && last.0 != i
    ensures Tallied(rest + [last], i, t)
  {
    OneMoreDeciding(rest, last, i);
    hide Times, Deciding;
    forall name, n
      ensures Times(rest + [last], i, name, n) == Times(rest, i, name, n)
    {
      OneMoreTimes(rest, last, i, name, n);
    }
  }

  lemma {:induction false} TallyCounts(owned: seq<(nat, Capture)>, i: nat)
    ensures Tallied(owned, i, TallyOf(owned, i))
  {
    if owned != [] {
      var rest, last := owned[..|owned| - 1], owned[|owned| - 1];
      assert owned == rest + [last];
      TallyCounts(rest, i);
      hide Tallied;
      if last.0 == i {
        FoldTallies(rest, last.1, i, TallyOf(rest, i));
      } else {
        SkipTallies(rest, last, i, TallyOf(rest, i));
      }
    }
  }

  lemma SameNodes(a: seq<SyntaxNode>, b: seq<SyntaxNode>)
    requires forall n :: multiset(a)[n] == multiset(b)[n]
    ensures |a| == |b|
  {
    assert multiset(a) == multiset(b);
    assert |multiset(a)| == |a| && |multiset(b)| == |b|;
  }

  /** Two tallies of the same captures differ in the order of their nodes only. */
  lemma TalliedUnique(owned: seq<(nat, Capture)>, i: nat, s: Tally, t: Tally)
    requires Tallied(owned, i, s) && Tallied(owned, i, t)
    ensures s.decisionPoints == t.decisionPoints && s.hasLoop == t.hasLoop
    ensures |s.loops| == |t.loops| && |s.depthNodes| == |t.depthNodes|
    ensures |s.switchSections| == |t.switchSections| && |s.calls| == |t.calls|
  {
    hide Times, Deciding;
    SameNodes(s.loops, t.loops);
    SameNodes(s.depthNodes, t.depthNodes);
    SameNodes(s.switchSections, t.switchSections);
    SameNodes(s.calls, t.calls);
  }

  method FoldCaptures(n: nat, owned: seq<(nat, Capture)>) returns (tallies: array<Tally>)
    requires forall k :: 0 <= k < |owned| ==> owned[k].0 < n
    ensures fresh(tallies) && tallies.Length == n && forall i :: 0 <= i < n ==> tallies[i] == TallyOf(owned, i)
    ensures forall i :: 0 <= i < n ==> Tallied(owned, i, tallies[i])
  {
    hide Tallied;
    tallies := new Tally[n](_ => EMPTY);
    for k := 0 to |owned|
      invariant forall i :: 0 <= i < n ==> tallies[i] == TallyOf(owned[..k], i)
    {
      assert owned[..k + 1][..k] == owned[..k];
      var (owner, c) := owned[k];
      tallies[owner] := Fold(tallies[owner], c);
    }
    assert owned[..|owned|] == owned;
    forall i | 0 <= i < n
      ensures Tallied(owned, i, tallies[i])
    {
      TallyCounts(owned, i);
    }
  }

  // ----- conservation -----

  ghost function Decisions(owned: seq<(nat, Capture)>): nat {
    if owned == [] then 0 else
      Decisions(owned[..|owned| - 1]) + if IsDecision(owned[|owned| - 1].1) then 1 else 0
  }

  ghost function CallsAmong(owned: seq<(nat, Capture)>): nat {
    if owned == [] then 0 else
      CallsAmong(owned[..|owned| - 1]) + if owned[|owned| - 1].1.name == Call then 1 else 0
  }

  ghost function SumDecisions(owned: seq<(nat, Capture)>, n: nat): nat {
    if n == 0 then 0 else SumDecisions(owned, n - 1) + TallyOf(owned, n - 1).decisionPoints
  }

  ghost function SumCalls(owned: seq<(nat, Capture)>, n: nat): nat {
    if n == 0 then 0 else SumCalls(owned, n - 1) + |TallyOf(owned, n - 1).calls|
  }

  lemma {:induction false} OneMore(owned: seq<(nat, Capture)>, n: nat)
    requires owned != []
    ensures var rest := owned[..|owned| - 1];
      var (owner, c) := owned[|owned| - 1];
      && SumDecisions(owned, n) == SumDecisions(rest, n) + (if owner < n && IsDecision(c) then 1 else 0)
      && SumCalls(owned, n) == SumCalls(rest, n) + (if owner < n && c.name == Call then 1 else 0)
  {
    assert owned[|owned| - 1].0 >= 0;
    if n > 0 {
      OneMore(owned, n - 1);
      var rest := owned[..|owned| - 1];
      var (owner, c) := owned[|owned| - 1];
      assert TallyOf(owned, n - 1) == if owner == n - 1 then Fold(TallyOf(rest, n - 1), c) else TallyOf(rest, n - 1);
      assert SumDecisions(rest, n) == SumDecisions(rest, n - 1) + TallyOf(rest, n - 1).decisionPoints;
      assert SumCalls(rest, n) == SumCalls(rest, n - 1) + |TallyOf(rest, n - 1).calls|;
    }
  }

  lemma {:induction false} NothingYet(n: nat)
    ensures SumDecisions([], n) == 0 && SumCalls([], n) == 0
  {
    if n > 0 {
      NothingYet(n - 1);
    }
  }

  /** Every owned capture counts for exactly one function: the totals over the functions are the counts over the captures. */
  lemma {:induction false} CountsConserved(owned: seq<(nat, Capture)>, n: nat)
    requires forall k :: 0 <= k < |owned| ==> owned[k].0 < n
    ensures SumDecisions(owned, n) == Decisions(owned)
    ensures SumCalls(owned, n) == CallsAmong(owned)
  {
    if owned == [] {
      NothingYet(n);
    } else {
      OneMore(owned, n);
      CountsConserved(owned[..|owned| - 1], n);
    }
  }

  /** The sweep only names functions that exist. */
  lemma {:induction false} OwnersExist(fs: seq<SyntaxNode>, captures: seq<Capture>)
    ensures forall k :: 0 <= k < |OwnedOf(fs, captures)| ==> OwnedOf(fs, captures)[k].0 < |fs|
  {
    if captures != [] {
      OwnersExist(fs, captures[..|captures| - 1]);
      OwnerExact(fs, captures[|captures| - 1].node);
    }
  }

  // ----- containment measures -----

  predicate AnyContained(nodes: seq<SyntaxNode>) {
    exists i, j :: 0 <= i < |nodes| && 0 <= j < |nodes| && i != j && Contains(nodes[j], nodes[i])
  }

  function Ancestors(nodes: seq<SyntaxNode>, i: nat): set<nat>
    requires i < |nodes|
  {
    set j: nat | j < |nodes| && j != i && Contains(nodes[j], nodes[i])
  }

  function CappedDepth(nodes: seq<SyntaxNode>, i: nat): nat
    requires i < |nodes|
  {
    if 1 + |Ancestors(nodes, i)| < MAX_NESTING_DEPTH then 1 + |Ancestors(nodes, i)| else MAX_NESTING_DEPTH
  }

  function MaxCappedDepth(nodes: seq<SyntaxNode>, n: nat): nat
    requires n <= |nodes|
  {
    if n == 0 then 0 else
      var rest := MaxCappedDepth(nodes, n - 1);
      if rest < CappedDepth(nodes, n - 1) then CappedDepth(nodes, n - 1) else rest
  }

  function MaxNestingDepth(nodes: seq<SyntaxNode>): nat {
    MaxCappedDepth(nodes, |nodes|)
  }

  /** Nodes any two of which are nested. */
  ghost predicate IsChain(nodes: seq<SyntaxNode>, chain: set<nat>) {
    && (forall i :: i in chain ==> i < |nodes|)
    && (forall i, j :: i in chain && j in chain ==> Contains(nodes[i], nodes[j]) || Contains(nodes[j], nodes[i]))
  }

  /** Syntax nodes: non-empty, and any two nested or apart. */
  ghost predicate Laminar(nodes: seq<SyntaxNode>) {
    && (forall i :: 0 <= i < |nodes| ==> nodes[i].start < nodes[i].end)
    && (forall i, j :: 0 <= i < |nodes| && 0 <= j < |nodes| ==>
          Disjoint(nodes[i], nodes[j]) || Contains(nodes[i], nodes[j]) || Contains(nodes[j], nodes[i]))
  }

  lemma AncestorCount(nodes: seq<SyntaxNode>, i: nat)
    requires i < |nodes|
    ensures 1 + |Ancestors(nodes, i)| <= |nodes|
  {
    IndicesExact(|nodes|);
    SubsetSmaller(Ancestors(nodes, i) + {i}, Indices(|nodes|));
    assert i !in Ancestors(nodes, i);
  }

  ghost function Indices(n: nat): set<nat> {
    if n == 0 then {} else Indices(n - 1) + {n - 1}
  }

  lemma {:induction false} IndicesExact(n: nat)
    ensures |Indices(n)| == n && forall j: nat :: j in Indices(n) <==> j < n
  {
    if n > 0 {
      IndicesExact(n - 1);
    }
  }

  lemma SubsetSmaller(a: set<nat>, b: set<nat>)
    requires a <= b
    ensures |a| <= |b|
  {
    assert b == a + (b - a);
  }

  /** Admitted inputs never reach the cap. */
  lemma CapUnreached(nodes: seq<SyntaxNode>, i: nat)
    requires i < |nodes| <= MAX_QUADRATIC_CAPTURES_PER_FUNCTION
    ensures CappedDepth(nodes, i) == 1 + |Ancestors(nodes, i)|
  {
    AncestorCount(nodes, i);
  }

  lemma {:induction false} MaxIsMax(nodes: seq<SyntaxNode>, n: nat)
    requires n <= |nodes|
    ensures forall i :: 0 <= i < n ==> CappedDepth(nodes, i) <= MaxCappedDepth(nodes, n)
    ensures n > 0 ==> exists i :: 0 <= i < n && CappedDepth(nodes, i) == MaxCappedDepth(nodes, n)
  {
    hide CappedDepth;
    if n > 0 {
      MaxIsMax(nodes, n - 1);
      if n > 1 && MaxCappedDepth(nodes, n) == MaxCappedDepth(nodes, n - 1) {
        var i :| 0 <= i < n - 1 && CappedDepth(nodes, i) == MaxCappedDepth(nodes, n - 1);
      }
    }
  }

  /** A node and its ancestors are a chain. */
  lemma AncestorsAreChain(nodes: seq<SyntaxNode>, i: nat)
    requires Laminar(nodes) && i < |nodes|
    ensures IsChain(nodes, Ancestors(nodes, i) + {i})
    ensures |Ancestors(nodes, i) + {i}| == 1 + |Ancestors(nodes, i)|
  {
  }

  /** A non-empty chain has an innermost node. */
  lemma {:induction false} Innermost(nodes: seq<SyntaxNode>, chain: set<nat>) returns (i: nat)
    requires IsChain(nodes, chain) && chain != {}
    ensures i in chain && forall j :: j in chain ==> Contains(nodes[j], nodes[i])
    decreases chain
  {
    var k :| k in chain;
    var rest := chain - {k};
    assert forall m :: m in chain ==> m == k || m in rest;
    if rest == {} {
      i := k;
      assert Contains(nodes[k], nodes[k]);
    } else {
      var j := Innermost(nodes, rest);
      i := if Contains(nodes[j], nodes[k]) then k else j;
      assert Contains(nodes[j], nodes[k]) || Contains(nodes[k], nodes[j]);
    }
  }

  /** The nesting depth is the size of the longest containment chain. */
  lemma DepthIsLongestChain(nodes: seq<SyntaxNode>)
    requires Laminar(nodes) && |nodes| <= MAX_QUADRATIC_CAPTURES_PER_FUNCTION
    ensures forall chain :: IsChain(nodes, chain) ==> |chain| <= MaxNestingDepth(nodes)
    ensures exists chain :: IsChain(nodes, chain) && |chain| == MaxNestingDepth(nodes)
  {
    hide CappedDepth, Laminar;
    MaxIsMax(nodes, |nodes|);
    forall chain | IsChain(nodes, chain)
      ensures |chain| <= MaxNestingDepth(nodes)
    {
      if chain != {} {
        ChainBound(nodes, chain);
      }
    }
    if |nodes| > 0 {
      var i :| 0 <= i < |nodes| && CappedDepth(nodes, i) == MaxCappedDepth(nodes, |nodes|);
      CapUnreached(nodes, i);
      AncestorsAreChain(nodes, i);
    } else {
      assert IsChain(nodes, {});
    }
  }

  lemma ChainBound(nodes: seq<SyntaxNode>, chain: set<nat>)
    requires IsChain(nodes, chain) && chain != {} && |nodes| <= MAX_QUADRATIC_CAPTURES_PER_FUNCTION
    ensures |chain| <= MaxNestingDepth(nodes)
  {
    var i := Innermost(nodes, chain);
    assert chain - {i} <= Ancestors(nodes, i);
    SubsetSmaller(chain - {i}, Ancestors(nodes, i));
    MaxIsMax(nodes, |nodes|);
    CapUnreached(nodes, i);
  }

  /** A nested loop is reported exactly when the loops nest to depth two. */
  lemma NestedIffDepthTwo(loops: seq<SyntaxNode>)
    requires |loops| <= MAX_QUADRATIC_CAPTURES_PER_FUNCTION
    ensures AnyContained(loops) <==> MaxNestingDepth(loops) >= 2
  {
    MaxIsMax(loops, |loops|);
    if AnyContained(loops) {
      var i, j :| 0 <= i < |loops| && 0 <= j < |loops| && i != j && Contains(loops[j], loops[i]);
      CapUnreached(loops, i);
      assert j in Ancestors(loops, i);
    }
    if MaxNestingDepth(loops) >= 2 {
      var i :| 0 <= i < |loops| && CappedDepth(loops, i) == MaxCappedDepth(loops, |loops|);
      CapUnreached(loops, i);
      var j :| j in Ancestors(loops, i);
    }
  }

  // ----- switch arms -----

  ghost function SectionsOf(sections: seq<SyntaxNode>, id: nat): nat {
    if sections == [] then 0 else
      SectionsOf(sections[..|sections| - 1], id) + if sections[|sections| - 1].switchId == Some(id) then 1 else 0
  }

  ghost predicate Tabulated(perSwitch: seq<(nat, nat)>, id: nat) {
    exists a :: 0 <= a < |perSwitch| && perSwitch[a].0 == id
  }

  /** The table pairs each switch met so far, once, with its section count. */
  ghost predicate Counted(sections: seq<SyntaxNode>, perSwitch: seq<(nat, nat)>) {
    && (forall a :: 0 <= a < |perSwitch| ==> perSwitch[a].1 == SectionsOf(sections, perSwitch[a].0) && perSwitch[a].1 > 0)
    && (forall a, b :: 0 <= a < b < |perSwitch| ==> perSwitch[a].0 != perSwitch[b].0)
    && (forall id: nat {:trigger Tabulated(perSwitch, id)} {:trigger SectionsOf(sections, id)} ::
          SectionsOf(sections, id) > 0 ==> Tabulated(perSwitch, id))
  }

  method FindSwitch(perSwitch: seq<(nat, nat)>, id: nat) returns (at: Option<nat>)
    ensures at.None? ==> forall a :: 0 <= a < |perSwitch| ==> perSwitch[a].0 != id
    ensures at.Some? ==> at.value < |perSwitch| && perSwitch[at.value].0 == id
  {
    for a := 0 to |perSwitch|
      invariant forall b :: 0 <= b < a ==> perSwitch[b].0 != id
    {
      if perSwitch[a].0 == id {
        return Some(a);
      }
    }
    return None;
  }

  method CountSections(sections: seq<SyntaxNode>) returns (perSwitch: seq<(nat, nat)>)
    ensures Counted(sections, perSwitch)
  {
    perSwitch := [];
    for k := 0 to |sections|
      invariant Counted(sections[..k], perSwitch)
    {
      assert sections[..k + 1][..k] == sections[..k];
      ghost var before := perSwitch;
      if sections[k].switchId.Some? {
        var id := sections[k].switchId.value;
        var at := FindSwitch(perSwitch, id);
        match at
        case Some(a) =>
          perSwitch := perSwitch[a := (id, perSwitch[a].1 + 1)];
        case None =>
          perSwitch := perSwitch + [(id, 1)];
      }
      assert forall i: nat ::
          SectionsOf(sections[..k + 1], i) == SectionsOf(sections[..k], i) + if sections[k].switchId == Some(i) then 1 else 0;
      forall i: nat {:trigger Tabulated(perSwitch, i)} | SectionsOf(sections[..k + 1], i) > 0
        ensures Tabulated(perSwitch, i)
      {
        if SectionsOf(sections[..k], i) > 0 {
          assert Tabulated(before, i);
          var a :| 0 <= a < |before| && before[a].0 == i;
          assert perSwitch[a].0 == i;
        } else {
          assert sections[k].switchId == Some(i);
          assert perSwitch[|perSwitch| - 1].0 == i;
        }
      }
    }
    assert sections[..|sections|] == sections;
  }

  /** The section count of the largest single switch, zero without one. */
  method MaxSwitchSectionCount(sections: seq<SyntaxNode>) returns (r: nat)
    ensures forall id :: SectionsOf(sections, id) <= r
    ensures r == 0 || exists id :: SectionsOf(sections, id) == r
  {
    var perSwitch := CountSections(sections);
    r := 0;
    ghost var widest: nat := 0;
    for a := 0 to |perSwitch|
      invariant forall b :: 0 <= b < a ==> perSwitch[b].1 <= r
      invariant r == 0 || SectionsOf(sections, widest) == r
    {
      if perSwitch[a].1 > r {
        r, widest := perSwitch[a].1, perSwitch[a].0;
      }
    }
    forall id
      ensures SectionsOf(sections, id) <= r
    {
      if SectionsOf(sections, id) > 0 {
        assert Tabulated(perSwitch, id);
        var a :| 0 <= a < |perSwitch| && perSwitch[a].0 == id;
      }
    }
  }

  // ----- one function -----

  datatype Measured = Measured(
    decisionPoints: nat,
    hasLoop: bool,
    hasNestedLoop: bool,
    depth: nat,
    branchArms: nat,
    calls: seq<SyntaxNode>,
    callsInLoops: seq<SyntaxNode>)

  predicate TooMany(t: Tally) {
    || |t.loops| > MAX_QUADRATIC_CAPTURES_PER_FUNCTION
    || |t.depthNodes| > MAX_QUADRATIC_CAPTURES_PER_FUNCTION
    || |t.switchSections| > MAX_QUADRATIC_CAPTURES_PER_FUNCTION
    || |t.calls| > MAX_QUADRATIC_CAPTURES_PER_FUNCTION
  }

  predicate InSomeLoop(loops: seq<SyntaxNode>, call: SyntaxNode) {
    exists j :: 0 <= j < |loops| && Contains(loops[j], call)
  }

  function InLoops(loops: seq<SyntaxNode>, calls: seq<SyntaxNode>): seq<SyntaxNode> {
    if calls == [] then [] else
      InLoops(loops, calls[..|calls| - 1]) + if InSomeLoop(loops, calls[|calls| - 1]) then [calls[|calls| - 1]] else []
  }

  /** n is the number of nodes on the longest containment chain. */
  ghost predicate IsLongestChain(nodes: seq<SyntaxNode>, n: nat) {
    && (forall chain :: IsChain(nodes, chain) ==> |chain| <= n)
    && exists chain :: IsChain(nodes, chain) && |chain| == n
  }

  /** What is measured of one function, stated without the loops that measure it. */
  ghost predicate IsMeasure(t: Tally, m: Measured) {
    && m.decisionPoints == t.decisionPoints && m.hasLoop == t.hasLoop
    && (m.hasNestedLoop <==> exists chain :: IsChain(t.loops, chain) && |chain| == 2)
    && m.depth == MaxNestingDepth(t.depthNodes)
    && (Laminar(t.depthNodes) ==> IsLongestChain(t.depthNodes, m.depth))
    && (forall id :: SectionsOf(t.switchSections, id) <= m.branchArms)
    && (m.branchArms == 0 || exists id :: SectionsOf(t.switchSections, id) == m.branchArms)
    && m.calls == t.calls && m.callsInLoops == InLoops(t.loops, t.calls)
  }

  lemma NestedIffPair(loops: seq<SyntaxNode>)
    ensures AnyContained(loops) <==> exists chain :: IsChain(loops, chain) && |chain| == 2
  {
    if AnyContained(loops) {
      var i, j :| 0 <= i < |loops| && 0 <= j < |loops| && i != j && Contains(loops[j], loops[i]);
      var chain: set<nat> := {i, j};
      assert IsChain(loops, chain) && |chain| == 2;
    }
    if exists chain :: IsChain(loops, chain) && |chain| == 2 {
      var chain :| IsChain(loops, chain) && |chain| == 2;
      var i := Innermost(loops, chain);
      var rest := chain - {i};
      assert |rest| == 1;
      var j :| j in rest;
      assert Contains(loops[j], loops[i]);
    }
  }

  method MeasureFunction(t: Tally) returns (r: Option<Measured>)
    ensures r.None? <==> TooMany(t)
    ensures r.Some? ==> IsMeasure(t, r.value)
  {
    if TooMany(t) {
      return None;
    }
    NestedIffPair(t.loops);
    if Laminar(t.depthNodes) {
      DepthIsLongestChain(t.depthNodes);
    }
    var arms := MaxSwitchSectionCount(t.switchSections);
    var callsInLoops: seq<SyntaxNode> := [];
    for k := 0 to |t.calls|
      invariant callsInLoops == InLoops(t.loops, t.calls[..k])
    {
      assert t.calls[..k + 1][..k] == t.calls[..k];
      if InSomeLoop(t.loops, t.calls[k]) {
        callsInLoops := callsInLoops + [t.calls[k]];
      }
    }
    assert t.calls[..|t.calls|] == t.calls;
    r := Some(Measured(t.decisionPoints, t.hasLoop, AnyContained(t.loops), MaxNestingDepth(t.depthNodes), arms, t.calls, callsInLoops));
  }

  // ----- one file -----

  ghost predicate OwnedInOrder(owned: seq<(nat, Capture)>) {
    forall i, j :: 0 <= i < j < |owned| ==> owned[i].1.node.start <= owned[j].1.node.start
  }

  lemma {:induction false} OwnedFromCaptures(fs: seq<SyntaxNode>, captures: seq<Capture>, k: nat) returns (m: nat)
    requires k < |OwnedOf(fs, captures)|
    ensures m < |captures| && captures[m] == OwnedOf(fs, captures)[k].1
  {
    var rest := captures[..|captures| - 1];
    if k < |OwnedOf(fs, rest)| {
      m := OwnedFromCaptures(fs, rest, k);
    } else {
      m := |captures| - 1;
    }
  }

  lemma {:induction false} OwnedKeepsOrder(fs: seq<SyntaxNode>, captures: seq<Capture>)
    requires SortedByStart(captures)
    ensures OwnedInOrder(OwnedOf(fs, captures))
  {
    if captures != [] {
      var rest := captures[..|captures| - 1];
      OwnedKeepsOrder(fs, rest);
      forall k | 0 <= k < |OwnedOf(fs, rest)|
        ensures OwnedOf(fs, rest)[k].1.node.start <= captures[|captures| - 1].node.start
      {
        var m := OwnedFromCaptures(fs, rest, k);
      }
    }
  }

  ghost predicate StartsInOrder(nodes: seq<SyntaxNode>, bound: nat) {
    && (forall a, b :: 0 <= a < b < |nodes| ==> nodes[a].start <= nodes[b].start)
    && (forall a :: 0 <= a < |nodes| ==> nodes[a].start <= bound)
  }

  lemma OrderSnoc(nodes: seq<SyntaxNode>, bound: nat, node: SyntaxNode)
    requires StartsInOrder(nodes, bound) && bound <= node.start
    ensures StartsInOrder(nodes, node.start) && StartsInOrder(nodes + [node], node.start)
  {
  }

  /** The calls of a function are met in source order, so the sort the program applies to them changes nothing. */
  lemma {:induction false} CallsInOrder(owned: seq<(nat, Capture)>, i: nat)
    requires OwnedInOrder(owned)
    ensures StartsInOrder(TallyOf(owned, i).calls, if owned == [] then 0 else owned[|owned| - 1].1.node.start)
  {
    if owned != [] {
      var last := |owned| - 1;
      var rest := owned[..last];
      assert forall k :: 0 <= k < last ==> rest[k] == owned[k];
      CallsInOrder(rest, i);
      hide StartsInOrder;
      OrderSnoc(TallyOf(rest, i).calls, if rest == [] then 0 else rest[last - 1].1.node.start, owned[last].1.node);
    }
  }

  ghost predicate ByStart(nodes: seq<SyntaxNode>) {
    forall a, b :: 0 <= a < b < |nodes| ==> nodes[a].start <= nodes[b].start
  }

  ghost function TotalDecisions(results: seq<Measured>): nat {
    if results == [] then 0 else TotalDecisions(results[..|results| - 1]) + results[|results| - 1].decisionPoints
  }

  ghost function TotalCalls(results: seq<Measured>): nat {
    if results == [] then 0 else TotalCalls(results[..|results| - 1]) + |results[|results| - 1].calls|
  }

  lemma {:induction false} SumsOfResults(owned: seq<(nat, Capture)>, results: seq<Measured>, n: nat)
    requires n <= |results| && forall i :: 0 <= i < |results| ==> IsMeasure(TallyOf(owned, i), results[i])
    ensures TotalDecisions(results[..n]) == SumDecisions(owned, n) && TotalCalls(results[..n]) == SumCalls(owned, n)
  {
    hide TallyOf, MaxNestingDepth;
    if n > 0 {
      assert results[..n][..n - 1] == results[..n - 1];
      SumsOfResults(owned, results, n - 1);
    }
  }

  lemma CallsByStart(fs: seq<SyntaxNode>, sorted: seq<Capture>, results: seq<Measured>)
    requires SortedByStart(sorted)
    requires forall i :: 0 <= i < |results| ==> IsMeasure(TallyOf(OwnedOf(fs, sorted), i), results[i])
    ensures forall i :: 0 <= i < |results| ==> ByStart(results[i].calls)
  {
    hide TallyOf, OwnedOf, MaxNestingDepth;
    OwnedKeepsOrder(fs, sorted);
    forall i | 0 <= i < |results|
      ensures ByStart(results[i].calls)
    {
      CallsInOrder(OwnedOf(fs, sorted), i);
    }
  }

  // ----- the measures against the captures owned -----

  ghost predicate InOwnedLoop(owned: seq<(nat, Capture)>, i: nat, call: SyntaxNode) {
    exists l :: Times(owned, i, Loop, l) > 0 && Contains(l, call)
  }

  /** Some loop around a call is all that counts: the call is told as often as it is owned if a loop of its function
      contains it, and not at all otherwise. */
  ghost predicate TellsCallsApart(owned: seq<(nat, Capture)>, i: nat, m: Measured) {
    && (forall c :: multiset(m.calls)[c] == Times(owned, i, Call, c))
    && (forall c :: multiset(m.callsInLoops)[c] == if InOwnedLoop(owned, i, c) then Times(owned, i, Call, c) else 0)
  }

  /** What is reported of function i, in terms of the captures it owns. */
  ghost predicate Reports(owned: seq<(nat, Capture)>, i: nat, m: Measured) {
    && (exists t :: Tallied(owned, i, t) && IsMeasure(t, m))
    && TellsCallsApart(owned, i, m)
    && ByStart(m.calls) && ByStart(m.callsInLoops)
  }

  ghost predicate TooManyFor(owned: seq<(nat, Capture)>, i: nat) {
    exists t :: Tallied(owned, i, t) && TooMany(t)
  }

  lemma {:induction false} InLoopsCount(loops: seq<SyntaxNode>, calls: seq<SyntaxNode>, c: SyntaxNode)
    ensures multiset(InLoops(loops, calls))[c] == if InSomeLoop(loops, c) then multiset(calls)[c] else 0
  {
    if calls != [] {
      var last := |calls| - 1;
      InLoopsCount(loops, calls[..last], c);
      assert calls == calls[..last] + [calls[last]];
      SnocCount(calls[..last], calls[last], c);
      SnocCount(InLoops(loops, calls[..last]), calls[last], c);
    }
  }

  lemma SomeLoopOwned(owned: seq<(nat, Capture)>, i: nat, loops: seq<SyntaxNode>, c: SyntaxNode)
    requires HoldsLoops(owned, i, loops)
    ensures InSomeLoop(loops, c) <==> InOwnedLoop(owned, i, c)
  {
    hide Times, Contains;
    if InSomeLoop(loops, c) {
      var j :| 0 <= j < |loops| && Contains(loops[j], c);
      assert loops[j] in multiset(loops);
    }
    if InOwnedLoop(owned, i, c) {
      var l :| Times(owned, i, Loop, l) > 0 && Contains(l, c);
      assert l in multiset(loops);
    }
  }

  /** Leaving some calls out keeps the others in order. */
  lemma {:induction false} InLoopsByStart(loops: seq<SyntaxNode>, calls: seq<SyntaxNode>)
    requires ByStart(calls)
    ensures ByStart(InLoops(loops, calls)) && forall c :: c in InLoops(loops, calls) ==> c in calls
  {
    hide InSomeLoop;
    if calls != [] {
      var rest, last := calls[..|calls| - 1], calls[|calls| - 1];
      InLoopsByStart(loops, rest);
      var before := InLoops(loops, rest);
      forall a | 0 <= a < |before|
        ensures before[a].start <= last.start
      {
        assert before[a] in rest;
      }
    }
  }

  lemma CallsToldApart(owned: seq<(nat, Capture)>, i: nat, loops: seq<SyntaxNode>, m: Measured)
    requires HoldsLoops(owned, i, loops) && HoldsCalls(owned, i, m.calls) && m.callsInLoops == InLoops(loops, m.calls)
    ensures TellsCallsApart(owned, i, m)
  {
    hide Times, HoldsLoops, InOwnedLoop, InSomeLoop;
    forall c
      ensures multiset(m.callsInLoops)[c] == if InOwnedLoop(owned, i, c) then Times(owned, i, Call, c) else 0
    {
      InLoopsCount(loops, m.calls, c);
      SomeLoopOwned(owned, i, loops, c);
    }
  }

  lemma MeasureReports(owned: seq<(nat, Capture)>, i: nat, t: Tally, m: Measured)
    requires Tallied(owned, i, t) && IsMeasure(t, m) && ByStart(m.calls)
    ensures Reports(owned, i, m)
  {
    InLoopsByStart(t.loops, m.calls) by {
      hide HoldsLoops, HoldsCalls, Laminar, IsChain, IsLongestChain, MaxNestingDepth, SectionsOf;
    }
    CallsToldApart(owned, i, t.loops, m) by {
      hide HoldsLoops, HoldsCalls, Laminar, IsChain, IsLongestChain, MaxNestingDepth, SectionsOf;
    }
    hide Tallied, IsMeasure, TellsCallsApart, ByStart;
  }

  lemma TooManyIff(owned: seq<(nat, Capture)>, i: nat)
    ensures TooManyFor(owned, i) <==> TooMany(TallyOf(owned, i))
  {
    TallyCounts(owned, i);
    if TooManyFor(owned, i) {
      var t :| Tallied(owned, i, t) && TooMany(t);
      TalliedUnique(owned, i, t, TallyOf(owned, i));
    }
  }

  /** A whole file: refused when one function has too many captures, measured function by function otherwise. */
  method AssignCaptures(fs: seq<SyntaxNode>, captures: seq<Capture>)
    returns (r: Option<seq<Measured>>, ghost sorted: seq<Capture>)
    requires WellNested(fs)
    ensures Selects(sorted, captures)
    ensures r.None? <==> exists i: nat :: i < |fs| && TooManyFor(OwnedOf(fs, sorted), i)
    ensures r.Some? ==> |r.value| == |fs|
    ensures r.Some? ==> forall i :: 0 <= i < |fs| ==> Reports(OwnedOf(fs, sorted), i, r.value[i])
    ensures r.Some? ==> TotalDecisions(r.value) == Decisions(OwnedOf(fs, sorted)) && TotalCalls(r.value) == CallsAmong(OwnedOf(fs, sorted))
  {
    hide TooMany, IsMeasure, ByStart, WellNested, SortedByStart, NonFunctions, TallyOf, OwnedOf, Tallied, Reports, TooManyFor;
    var owned;
    owned, sorted := OwningFunctionIndices(fs, captures);
    OwnersExist(fs, sorted);
    var tallies := FoldCaptures(|fs|, owned);
    var perFunction := tallies[..];
    assert forall i :: 0 <= i < |fs| ==> perFunction[i] == TallyOf(owned, i);
    var results: seq<Measured> := [];
    for i := 0 to |fs|
      invariant |results| == i
      invariant forall j :: 0 <= j < i ==> !TooManyFor(owned, j) && IsMeasure(TallyOf(owned, j), results[j])
    {
      var m := MeasureFunction(perFunction[i]);
      TooManyIff(owned, i);
      if m.None? {
        return None, sorted;
      }
      results := results + [m.value];
    }
    CallsByStart(fs, sorted, results);
    SumsOfResults(owned, results, |fs|);
    assert results[..|fs|] == results;
    CountsConserved(owned, |fs|);
    forall i | 0 <= i < |fs|
      ensures Reports(owned, i, results[i])
    {
      TallyCounts(owned, i);
      MeasureReports(owned, i, TallyOf(owned, i), results[i]);
    }
    return Some(results), sorted;
  }
}
