/** Giving every query capture to the innermost function around it: one left-to-right sweep with a stack
    of open functions in place of a scan over all functions for each capture. */
module CaptureSweep {
  import opened Wrappers

  datatype Kind = SwitchLabel | IfStatement | OtherKind

  /** What the sweep reads of a syntax node. `hasBody` and `switchId` stand for the child and parent lookups. */
  datatype SyntaxNode = SyntaxNode(id: nat, start: nat, end: nat, kind: Kind, hasBody: bool, switchId: Option<nat>)

  datatype Label = FunctionDef | Loop | BranchArm | Conditional | Call | Other

  datatype Capture = Capture(name: Label, node: SyntaxNode)

  predicate Contains(outer: SyntaxNode, inner: SyntaxNode) {
    outer.start <= inner.start && inner.end <= outer.end
  }

  predicate Disjoint(a: SyntaxNode, b: SyntaxNode) {
    a.end <= b.start || b.end <= a.start
  }

  /** Function spans as a syntax tree gives them: non-empty, nested or apart, sorted by start, outer first on ties. */
  ghost predicate WellNested(fs: seq<SyntaxNode>) {
    && (forall i :: 0 <= i < |fs| ==> fs[i].start < fs[i].end)
    && (forall i, j :: 0 <= i < j < |fs| ==> fs[i].start <= fs[j].start)
    && (forall i, j :: 0 <= i < j < |fs| ==> Disjoint(fs[i], fs[j]) || Contains(fs[i], fs[j]))
  }

  // ----- the simple form -----

  /** A function owns a capture it contains, unless the capture is empty and sits at the function's end. */
  predicate Holds(f: SyntaxNode, c: SyntaxNode) {
    Contains(f, c) && c.start < f.end
  }

  /** The last function, in start order, that holds the node: a plain scan. */
  function Owner(fs: seq<SyntaxNode>, c: SyntaxNode): Option<nat> {
    if fs == [] then None
    else if Holds(fs[|fs| - 1], c) then Some(|fs| - 1)
    else Owner(fs[..|fs| - 1], c)
  }

  function OwnedOf(fs: seq<SyntaxNode>, captures: seq<Capture>): seq<(nat, Capture)> {
    if captures == [] then [] else
      var c := captures[|captures| - 1];
      OwnedOf(fs, captures[..|captures| - 1]) + match Owner(fs, c.node) case None => [] case Some(i) => [(i, c)]
  }

  lemma {:induction false} OwnerExact(fs: seq<SyntaxNode>, c: SyntaxNode)
    ensures match Owner(fs, c)
      case None => forall i :: 0 <= i < |fs| ==> !Holds(fs[i], c)
      case Some(i) => i < |fs| && Holds(fs[i], c) && forall j :: i < j < |fs| ==> !Holds(fs[j], c)
  {
    if fs != [] {
      OwnerExact(fs[..|fs| - 1], c);
    }
  }

  /** On well-nested functions the owner is the innermost of the functions that hold the capture, and only captures
      no function holds are dropped. */
  lemma OwnerIsInnermostHolder(fs: seq<SyntaxNode>, c: SyntaxNode)
    requires WellNested(fs) && c.start <= c.end
    ensures Owner(fs, c).None? <==> forall i :: 0 <= i < |fs| ==> !Holds(fs[i], c)
    ensures Owner(fs, c).Some? ==> var i := Owner(fs, c).value;
      i < |fs| && Holds(fs[i], c) && forall j :: 0 <= j < |fs| && Holds(fs[j], c) ==> Contains(fs[j], fs[i])
  {
    OwnerExact(fs, c);
    hide Owner, Contains, Disjoint;
    if Owner(fs, c).Some? {
      var i := Owner(fs, c).value;
      forall j | 0 <= j < |fs| && Holds(fs[j], c)
        ensures Contains(fs[j], fs[i])
      {
        HoldersNest(fs[j], fs[i], c);
      }
    }
  }

  lemma HoldersNest(f: SyntaxNode, g: SyntaxNode, c: SyntaxNode)
    requires Holds(f, c) && Holds(g, c) && c.start <= c.end
    ensures Contains(f, f) && !Disjoint(f, g)
  {
  }

  /** What the sweep is for: the innermost of the functions containing the capture, none if there is none. */
  ghost predicate IsInnermost(fs: seq<SyntaxNode>, c: SyntaxNode, owner: Option<nat>) {
    && (owner.None? <==> forall i :: 0 <= i < |fs| ==> !Contains(fs[i], c))
    && (owner.Some? ==> owner.value < |fs| && Contains(fs[owner.value], c)
                        && forall j :: 0 <= j < |fs| && Contains(fs[j], c) ==> Contains(fs[j], fs[owner.value]))
  }

  /** An empty capture where some function ends. */
  ghost predicate EmptyAtEnd(fs: seq<SyntaxNode>, c: SyntaxNode) {
    c.start == c.end && exists i :: 0 <= i < |fs| && fs[i].end == c.start
  }

  /** The owner is the innermost function containing the capture exactly when the capture is not an empty one at the
      end of a function: that function contains it and does not hold it. */
  lemma OwnerIsInnermostIff(fs: seq<SyntaxNode>, c: SyntaxNode)
    requires WellNested(fs) && c.start <= c.end
    ensures IsInnermost(fs, c, Owner(fs, c)) <==> !EmptyAtEnd(fs, c)
  {
    OwnerIsInnermostHolder(fs, c);
    if EmptyAtEnd(fs, c) {
      var i :| 0 <= i < |fs| && fs[i].end == c.start;
      assert Contains(fs[i], c) && !Holds(fs[i], c);
    } else {
      assert forall i :: 0 <= i < |fs| ==> (Holds(fs[i], c) <==> Contains(fs[i], c));
    }
  }

  lemma {:induction false} OwnedExactly(fs: seq<SyntaxNode>, captures: seq<Capture>, i: nat, c: Capture)
    ensures (i, c) in OwnedOf(fs, captures) <==> c in captures && Owner(fs, c.node) == Some(i)
  {
    if captures != [] {
      OwnedExactly(fs, captures[..|captures| - 1], i, c);
      assert captures == captures[..|captures| - 1] + [captures[|captures| - 1]];
    }
  }

  /** A capture is listed with its owner, with nothing else, and as often as it was captured. */
  lemma {:induction false} OwnedAsOften(fs: seq<SyntaxNode>, captures: seq<Capture>, i: nat, c: Capture)
    ensures multiset(OwnedOf(fs, captures))[(i, c)] == if Owner(fs, c.node) == Some(i) then multiset(captures)[c] else 0
  {
    hide Owner;
    if captures != [] {
      var last := |captures| - 1;
      OwnedAsOften(fs, captures[..last], i, c);
      assert captures == captures[..last] + [captures[last]];
      SnocCount(captures[..last], captures[last], c);
      var rest := OwnedOf(fs, captures[..last]);
      match Owner(fs, captures[last].node) {
        case None => assert rest + [] == rest;
        case Some(j) => SnocCount(rest, (j, captures[last]), (i, c));
      }
    }
  }

  /** The answer puts a capture where it belongs: with the innermost function containing it and no other, or nowhere
      if no function contains it. */
  ghost predicate PlacedRight(fs: seq<SyntaxNode>, owned: seq<(nat, Capture)>, c: Capture) {
    exists owner :: IsInnermost(fs, c.node, owner) && forall i: nat :: (i, c) in owned <==> owner == Some(i)
  }

  lemma PlacedRightIff(fs: seq<SyntaxNode>, captures: seq<Capture>, c: Capture)
    requires WellNested(fs) && c in captures && c.node.start <= c.node.end
    ensures PlacedRight(fs, OwnedOf(fs, captures), c) <==> !EmptyAtEnd(fs, c.node)
  {
    hide WellNested, IsInnermost, EmptyAtEnd, OwnedOf;
    var owned, own := OwnedOf(fs, captures), Owner(fs, c.node);
    OwnerIsInnermostIff(fs, c.node);
    forall i: nat
      ensures (i, c) in owned <==> own == Some(i)
    {
      OwnedExactly(fs, captures, i, c);
    }
    if PlacedRight(fs, owned, c) {
      var owner :| IsInnermost(fs, c.node, owner) && forall i: nat :: (i, c) in owned <==> owner == Some(i);
      assert own.Some? ==> (own.value, c) in owned;
      assert owner.Some? ==> (owner.value, c) in owned;
      assert owner == own;
    }
  }

  /** Two functions side by side and two empty captures: the one at the end of the second is contained in it and
      dropped, the one in between goes to the second although the first contains it too. */
  lemma EmptyCapturesMisplaced(f: SyntaxNode, g: SyntaxNode, last: Capture, between: Capture)
    requires f.start == 0 && f.end == 5 == g.start && g.end == 9
    requires last.node.start == last.node.end == 9 && between.node.start == between.node.end == 5
    ensures WellNested([f, g])
    ensures Contains(g, last.node) && Owner([f, g], last.node) == None
    ensures Contains(f, between.node) && Owner([f, g], between.node) == Some(1)
    ensures !PlacedRight([f, g], OwnedOf([f, g], [last]), last) && !PlacedRight([f, g], OwnedOf([f, g], [between]), between)
  {
    assert [f, g][..1] == [f] && [f][..0] == [];
    assert Owner([], last.node) == None && Owner([f], last.node) == None;
    assert [f, g][1].end == last.node.start && [f, g][0].end == between.node.start;
    PlacedRightIff([f, g], [last], last);
    PlacedRightIff([f, g], [between], between);
  }

  // ----- the sweep -----

  /** The stack holds functions among the first `next`, outermost first, each containing those above it. */
  ghost predicate OpenChain(fs: seq<SyntaxNode>, open: seq<nat>, next: nat) {
    && next <= |fs|
    && (forall a :: 0 <= a < |open| ==> open[a] < next)
    && (forall a, b :: 0 <= a < b < |open| ==> open[a] < open[b] && Contains(fs[open[a]], fs[open[b]]))
  }

  /** Every function passed and not on the stack ends at or before `position`. */
  ghost predicate RestClosed(fs: seq<SyntaxNode>, open: seq<nat>, next: nat, position: nat)
    requires next <= |fs|
  {
    forall i :: 0 <= i < next ==> i in open || fs[i].end <= position
  }

  lemma PopEnded(fs: seq<SyntaxNode>, open: seq<nat>, next: nat, position: nat)
    requires OpenChain(fs, open, next) && RestClosed(fs, open, next, position)
    requires open != [] && fs[open[|open| - 1]].end <= position
    ensures OpenChain(fs, open[..|open| - 1], next) && RestClosed(fs, open[..|open| - 1], next, position)
  {
    assert open == open[..|open| - 1] + [open[|open| - 1]];
  }

  lemma TopEndsFirst(fs: seq<SyntaxNode>, open: seq<nat>, next: nat)
    requires OpenChain(fs, open, next) && open != []
    ensures forall a :: 0 <= a < |open| ==> fs[open[|open| - 1]].end <= fs[open[a]].end
  {
  }

  method CloseEnded(fs: seq<SyntaxNode>, open0: seq<nat>, next: nat, position: nat) returns (open: seq<nat>)
    requires OpenChain(fs, open0, next) && RestClosed(fs, open0, next, position)
    ensures OpenChain(fs, open, next) && RestClosed(fs, open, next, position)
    ensures forall a :: 0 <= a < |open| ==> position < fs[open[a]].end
  {
    hide RestClosed, Contains;
    open := open0;
    while open != [] && fs[open[|open| - 1]].end <= position
      invariant OpenChain(fs, open, next) && RestClosed(fs, open, next, position)
    {
      PopEnded(fs, open, next, position);
      open := open[..|open| - 1];
    }
    if open != [] {
      TopEndsFirst(fs, open, next);
    }
  }

  /** Opens every function that starts at or before `start`. */
  method OpenUpTo(fs: seq<SyntaxNode>, open0: seq<nat>, next0: nat, ghost position: nat, start: nat) returns (open: seq<nat>, next: nat)
    requires WellNested(fs) && OpenChain(fs, open0, next0) && RestClosed(fs, open0, next0, position) && position <= start
    requires forall i :: next0 <= i < |fs| ==> position <= fs[i].start
    ensures next0 <= next && OpenChain(fs, open, next) && RestClosed(fs, open, next, start)
    ensures forall i :: next0 <= i < |fs| ==> (i < next <==> fs[i].start <= start)
  {
    open, next := open0, next0;
    ghost var reached: nat := position;
    while next < |fs| && fs[next].start <= start
      invariant next0 <= next && OpenChain(fs, open, next) && RestClosed(fs, open, next, reached) && reached <= start
      invariant forall i :: next <= i < |fs| ==> reached <= fs[i].start
      invariant forall i :: next0 <= i < next ==> fs[i].start <= start
      decreases |fs| - next
    {
      reached := fs[next].start;
      open := CloseEnded(fs, open, next, fs[next].start);
      PushNested(fs, open, next);
      open := open + [next];
      next := next + 1;
    }
  }

  /** A function still open where the next one starts contains it. */
  lemma PushNested(fs: seq<SyntaxNode>, open: seq<nat>, next: nat)
    requires WellNested(fs) && OpenChain(fs, open, next) && next < |fs|
    requires forall a :: 0 <= a < |open| ==> fs[next].start < fs[open[a]].end
    ensures OpenChain(fs, open + [next], next + 1)
  {
  }

  /** The topmost open function that ends at or after the capture does. */
  method InnermostOpen(fs: seq<SyntaxNode>, open: seq<nat>, next: nat, c: SyntaxNode) returns (owner: Option<nat>)
    requires OpenChain(fs, open, next)
    ensures owner.None? ==> forall i :: i in open ==> fs[i].end < c.end
    ensures owner.Some? ==> owner.value in open && c.end <= fs[owner.value].end
    ensures owner.Some? ==> forall i :: i in open && owner.value < i ==> fs[i].end < c.end
  {
    var a := |open|;
    while a > 0
      invariant 0 <= a <= |open|
      invariant forall b :: a <= b < |open| ==> fs[open[b]].end < c.end
    {
      a := a - 1;
      if fs[open[a]].end >= c.end {
        return Some(open[a]);
      }
    }
    return None;
  }

  /** What the open stack says about one capture is what the scan says. */
  lemma StackAgrees(fs: seq<SyntaxNode>, open: seq<nat>, next: nat, c: SyntaxNode, owner: Option<nat>)
    requires OpenChain(fs, open, next) && RestClosed(fs, open, next, c.start)
    requires forall i :: 0 <= i < |fs| ==> (i < next <==> fs[i].start <= c.start)
    requires forall i :: i in open ==> c.start < fs[i].end
    requires owner.None? ==> forall i :: i in open ==> fs[i].end < c.end
    requires owner.Some? ==> owner.value in open && c.end <= fs[owner.value].end
    requires owner.Some? ==> forall i :: i in open && owner.value < i ==> fs[i].end < c.end
    ensures owner == Owner(fs, c)
  {
    OwnerExact(fs, c);
    assert forall i :: 0 <= i < |fs| && Holds(fs[i], c) ==> i in open;
  }

  // ----- sorting -----

  ghost predicate SortedByStart(captures: seq<Capture>) {
    forall i, j :: 0 <= i < j < |captures| ==> captures[i].node.start <= captures[j].node.start
  }

  function NonFunctions(captures: seq<Capture>): seq<Capture> {
    if captures == [] then [] else
      NonFunctions(captures[..|captures| - 1])
      + (if captures[|captures| - 1].name == FunctionDef then [] else [captures[|captures| - 1]])
  }

  /** The captures to place: all but the functions themselves, as often as they were given, by start. */
  ghost predicate Selects(sorted: seq<Capture>, captures: seq<Capture>) {
    SortedByStart(sorted) && forall c :: multiset(sorted)[c] == if c.name == FunctionDef then 0 else multiset(captures)[c]
  }

  lemma {:induction false} NonFunctionsCount(captures: seq<Capture>, c: Capture)
    ensures multiset(NonFunctions(captures))[c] == if c.name == FunctionDef then 0 else multiset(captures)[c]
  {
    if captures != [] {
      var last := |captures| - 1;
      NonFunctionsCount(captures[..last], c);
      assert captures == captures[..last] + [captures[last]];
      SnocCount(captures[..last], captures[last], c);
      SnocCount(NonFunctions(captures[..last]), captures[last], c);
    }
  }

  lemma SortedSelects(sorted: seq<Capture>, captures: seq<Capture>)
    requires SortedByStart(sorted) && multiset(sorted) == multiset(NonFunctions(captures))
    ensures Selects(sorted, captures)
  {
    forall c
      ensures multiset(sorted)[c] == if c.name == FunctionDef then 0 else multiset(captures)[c]
    {
      NonFunctionsCount(captures, c);
    }
  }

  lemma InsertSorted(s: seq<Capture>, k: nat, c: Capture)
    requires SortedByStart(s) && k <= |s|
    requires forall i :: 0 <= i < k ==> s[i].node.start <= c.node.start
    requires forall i :: k <= i < |s| ==> c.node.start <= s[i].node.start
    ensures SortedByStart(s[..k] + [c] + s[k..])
  {
  }

  /** Stands for the library's sort by key. */
  method SortByStart(captures: seq<Capture>) returns (sorted: seq<Capture>)
    ensures SortedByStart(sorted) && multiset(sorted) == multiset(captures)
  {
    sorted := [];
    for i := 0 to |captures|
      invariant SortedByStart(sorted) && multiset(sorted) == multiset(captures[..i])
    {
      assert captures[..i + 1] == captures[..i] + [captures[i]];
      sorted := InsertByStart(sorted, captures[i]);
    }
    assert captures[..|captures|] == captures;
  }

  method InsertByStart(s: seq<Capture>, c: Capture) returns (r: seq<Capture>)
    requires SortedByStart(s)
    ensures SortedByStart(r) && multiset(r) == multiset(s) + multiset{c}
  {
    var k := |s|;
    while k > 0 && s[k - 1].node.start > c.node.start
      invariant 0 <= k <= |s| && forall i :: k <= i < |s| ==> c.node.start <= s[i].node.start
    {
      k := k - 1;
    }
    InsertKeeps(s, k, c);
    InsertSorted(s, k, c);
    r := s[..k] + [c] + s[k..];
  }

  method SelectNonFunctions(captures: seq<Capture>) returns (r: seq<Capture>)
    ensures r == NonFunctions(captures)
  {
    r := [];
    for i := 0 to |captures|
      invariant r == NonFunctions(captures[..i])
    {
      assert captures[..i + 1][..i] == captures[..i];
      if captures[i].name != FunctionDef {
        r := r + [captures[i]];
      }
    }
    assert captures[..|captures|] == captures;
  }

  // ----- the whole sweep -----

  /** The list holds every capture but the functions, with its owner and as often as it was captured; a capture of proper
      length, and an empty one anywhere but where a function ends, is where it belongs. */
  ghost predicate Places(fs: seq<SyntaxNode>, captures: seq<Capture>, owned: seq<(nat, Capture)>) {
    && (forall i: nat, c :: multiset(owned)[(i, c)] == if Owner(fs, c.node) == Some(i) && c.name != FunctionDef then multiset(captures)[c] else 0)
    && (forall c :: c in captures && c.name != FunctionDef && c.node.start <= c.node.end ==>
          (PlacedRight(fs, owned, c) <==> !EmptyAtEnd(fs, c.node)))
  }

  lemma SweepPlaces(fs: seq<SyntaxNode>, captures: seq<Capture>, sorted: seq<Capture>)
    requires WellNested(fs) && Selects(sorted, captures)
    ensures Places(fs, captures, OwnedOf(fs, sorted))
  {
    hide WellNested, PlacedRight, EmptyAtEnd, OwnedOf, Owner, SortedByStart;
    forall i: nat, c
      ensures multiset(OwnedOf(fs, sorted))[(i, c)] == if Owner(fs, c.node) == Some(i) && c.name != FunctionDef then multiset(captures)[c] else 0
    {
      OwnedAsOften(fs, sorted, i, c);
    }
    forall c | c in captures && c.name != FunctionDef && c.node.start <= c.node.end
      ensures PlacedRight(fs, OwnedOf(fs, sorted), c) <==> !EmptyAtEnd(fs, c.node)
    {
      assert c in multiset(captures) && c in multiset(sorted);
      PlacedRightIff(fs, sorted, c);
    }
  }

  /** The sweep gives every capture the owner the scan gives it, in order of position. */
  method OwningFunctionIndices(fs: seq<SyntaxNode>, captures: seq<Capture>) returns (owned: seq<(nat, Capture)>, ghost sorted: seq<Capture>)
    requires WellNested(fs)
    ensures Selects(sorted, captures)
    ensures owned == OwnedOf(fs, sorted)
    ensures exists s :: Selects(s, captures) && owned == OwnedOf(fs, s)
    ensures Places(fs, captures, owned)
  {
    hide WellNested, Places;
    var others := SelectNonFunctions(captures);
    var byStart := SortByStart(others);
    sorted := byStart;
    owned := [];
    var open: seq<nat> := [];
    var next := 0;
    ghost var position: nat := 0;
    for k := 0 to |byStart|
      invariant owned == OwnedOf(fs, byStart[..k])
      invariant OpenChain(fs, open, next) && RestClosed(fs, open, next, position)
      invariant forall i :: 0 <= i < next ==> fs[i].start <= position
      invariant forall i :: next <= i < |fs| ==> position <= fs[i].start
      invariant forall i :: k <= i < |byStart| ==> position <= byStart[i].node.start
    {
      var c := byStart[k];
      open, next := OpenUpTo(fs, open, next, position, c.node.start);
      open := CloseEnded(fs, open, next, c.node.start);
      var owner := InnermostOpen(fs, open, next, c.node);
      StackAgrees(fs, open, next, c.node, owner);
      assert byStart[..k + 1][..k] == byStart[..k];
      if owner.Some? {
        owned := owned + [(owner.value, c)];
      }
      position := c.node.start;
    }
    assert byStart[..|byStart|] == byStart;
    SortedSelects(byStart, captures);
    SweepPlaces(fs, captures, byStart);
  }
}
