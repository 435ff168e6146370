/** The tree of the HTML report: a trie of folders built from file paths, its children sorted in place,
    and every folder given the totals of what lies under it. */
module HtmlTree {
  import opened Metrics
  import opened Saturating
  import opened Wrappers

  /** A path relative to the project, segment by segment; the project itself is the empty path. */
  type Id = seq<string>

  datatype Kind = Project | Folder | File

  datatype RawNode = RawNode(
    name: string,
    kind: Kind,
    childIds: seq<Id>,
    direct: u32,
    transitive: u32,
    hidden: u32,
    unclassifiable: u32,
    depth: nat,
    score: u32,
    levelRank: nat,
    warnings: seq<Warning>,
    ios: nat,
    ecological: Option<EcologicalCost>)

  function EmptyNode(name: string, kind: Kind): RawNode {
    RawNode(name, kind, [], 0, 0, 0, 0, 0, 0, 0, [], 0, None)
  }

  function FileNode(name: string, m: CodeMetrics): RawNode {
    RawNode(name, File, [], m.cyclomatic, m.transitive, m.hidden, m.unclassifiable % 0x1_0000_0000, m.maxCallDepth, m.transitive,
            m.level.Rank(), m.warnings, m.ioInLoops, m.ecological)
  }

  type Files = map<Id, CodeMetrics>

  function Last(id: Id): string
    requires id != []
  {
    id[|id| - 1]
  }

  function Parent(id: Id): Id
    requires id != []
  {
    id[..|id| - 1]
  }

  // ----- the shape of the tree -----

  /** A prefix of some file's path, or the project itself. */
  ghost predicate IsNode(placed: set<Id>, x: Id) {
    x == [] || exists id :: id in placed && x <= id
  }

  ghost function ChildrenOf(raw: map<Id, RawNode>, x: Id): set<Id> {
    set c | c in raw && c != [] && Parent(c) == x
  }

  ghost predicate NodeOk(raw: map<Id, RawNode>, placed: set<Id>, files: Files, x: Id)
    requires x in raw && placed <= files.Keys
  {
    && (raw[x].kind == File <==> x in placed)
    && (raw[x].kind == Project <==> x == [])
    && (x != [] ==> Parent(x) in raw && raw[x].name == Last(x))
    && (x in placed ==> raw[x].(childIds := []) == FileNode(raw[x].name, files[x]))
    && multiset(raw[x].childIds) == multiset(ChildrenOf(raw, x))
  }

  /** A tree rooted at the project: a node lists each of its children exactly once, and every node but the
      project is a child of its parent path; files carry their own numbers. */
  ghost predicate Rooted(raw: map<Id, RawNode>, placed: set<Id>, files: Files)
    requires placed <= files.Keys
  {
    && [] in raw && [] !in placed && placed <= raw.Keys
    && forall x {:trigger NodeOk(raw, placed, files, x)} :: x in raw ==> NodeOk(raw, placed, files, x)
  }

  /** The same tree whose nodes are exactly the prefixes of the files. */
  ghost predicate IsTree(raw: map<Id, RawNode>, files: Files) {
    && Rooted(raw, files.Keys, files)
    && forall x {:trigger IsNode(files.Keys, x)} :: x in raw <==> IsNode(files.Keys, x)
  }

  /** Only the order of children and the numbers of folders may differ. */
  ghost predicate SameNodes(before: map<Id, RawNode>, after: map<Id, RawNode>) {
    && before.Keys == after.Keys
    && forall x :: x in before ==>
         && after[x].kind == before[x].kind && after[x].name == before[x].name
         && multiset(after[x].childIds) == multiset(before[x].childIds)
         && (before[x].kind == File ==> after[x].(childIds := []) == before[x].(childIds := []))
  }

  lemma SameNodesKeep(before: map<Id, RawNode>, after: map<Id, RawNode>, files: Files)
    requires IsTree(before, files) && SameNodes(before, after)
    ensures IsTree(after, files)
  {
    hide IsNode, FileNode;
    forall x {:trigger NodeOk(after, files.Keys, files, x)} | x in after
      ensures NodeOk(after, files.Keys, files, x)
    {
      assert NodeOk(before, files.Keys, files, x);
      assert ChildrenOf(after, x) == ChildrenOf(before, x);
    }
  }

  // ----- what a node accounts for -----

  /** The files at or under x that no other file hides: none of the paths from x down to it is itself a file. */
  ghost function Seen(files: Files, x: Id): set<Id> {
    set id | id in files && Shown(files, x, id)
  }

  ghost predicate Shown(files: Files, x: Id, id: Id) {
    x <= id && forall k :: |x| <= k < |id| ==> id[..k] !in files
  }

  /** No file lies under another, as on any file system. */
  ghost predicate PrefixFree(files: Files) {
    forall a, b :: a in files && b in files && a <= b ==> a == b
  }

  /** The project accounts for every file exactly when no file's path is a prefix of another's. */
  lemma AllSeenIffPrefixFree(files: Files)
    requires [] !in files
    ensures Seen(files, []) == files.Keys <==> PrefixFree(files)
  {
    if PrefixFree(files) {
      forall id | id in files
        ensures Shown(files, [], id)
      {
        forall k | 0 <= k < |id|
          ensures id[..k] !in files
        {
          assert id[..k] <= id && id[..k] != id;
        }
      }
    }
    if Seen(files, []) == files.Keys {
      forall a, b | a in files && b in files && a <= b
        ensures a == b
      {
        assert b in Seen(files, []) && b[..|a|] == a;
      }
    }
  }

  lemma SeenFile(files: Files, x: Id)
    requires x in files
    ensures Seen(files, x) == {x}
  {
    forall id | id in files && Shown(files, x, id)
      ensures id == x
    {
      assert id[..|x|] == x;
    }
    assert x[..|x|] == x;
  }

  /** What x accounts for through the children listed so far. */
  ghost function Through(files: Files, x: Id, children: seq<Id>): set<Id> {
    set id | id in Seen(files, x) && |x| < |id| && id[..|x| + 1] in children
  }

  lemma ThroughNext(files: Files, x: Id, children: seq<Id>, c: Id)
    requires x !in files && c != [] && Parent(c) == x && c !in children
    ensures Through(files, x, children + [c]) == Through(files, x, children) + Seen(files, c)
    ensures Through(files, x, children) !! Seen(files, c)
  {
    forall id | id in files
      ensures id in Seen(files, c) <==> id in Seen(files, x) && |x| < |id| && id[..|x| + 1] == c
    {
      ShownThrough(files, x, c, id);
    }
  }

  lemma ShownThrough(files: Files, x: Id, c: Id, id: Id)
    requires x !in files && c != [] && Parent(c) == x
    ensures Shown(files, c, id) <==> Shown(files, x, id) && |x| < |id| && id[..|x| + 1] == c
  {
    assert c[..|x|] == x;
    if c <= id {
      assert id[..|c|] == c;
      assert id[..|x|] == x;
    }
  }

  lemma ThroughAll(raw: map<Id, RawNode>, files: Files, x: Id)
    requires IsTree(raw, files) && x in raw && x !in files
    ensures Through(files, x, raw[x].childIds) == Seen(files, x)
  {
    forall id | id in Seen(files, x)
      ensures |x| < |id| && id[..|x| + 1] in raw[x].childIds
    {
      assert id != x;
      ChildOnTheWay(raw, files, x, id);
    }
  }

  lemma ChildOnTheWay(raw: map<Id, RawNode>, files: Files, x: Id, y: Id)
    requires IsTree(raw, files) && x in raw && y in raw && x <= y && x != y
    ensures |x| < |y| && y[..|x| + 1] in raw && y[..|x| + 1] in raw[x].childIds
  {
    var c := y[..|x| + 1];
    assert IsNode(files.Keys, y);
    var id :| id in files && y <= id;
    assert c <= id;
    assert IsNode(files.Keys, c);
    assert Parent(c) == x;
    assert NodeOk(raw, files.Keys, files, x);
    assert c in ChildrenOf(raw, x);
    assert c in multiset(raw[x].childIds);
  }

  /** The numbers of a node are those of a set of files together. */
  ghost predicate Sums(n: RawNode, ids: set<Id>, files: Files) {
    && n.direct == Clamp(TotalOf(ids, files, OfCyclomatic))
    && n.transitive == Clamp(TotalOf(ids, files, OfTransitive))
    && n.hidden == Clamp(TotalOf(ids, files, OfHidden))
    && n.unclassifiable == Clamp(TotalOf(ids, files, OfUnclassifiableWord))
    && IsMaxOf(ids, files, OfDepth, n.depth)
    && IsMaxOf(ids, files, OfTransitive, n.score)
    && IsMaxOf(ids, files, OfLevel, n.levelRank)
    && |n.warnings| == TotalOf(ids, files, OfWarnings)
    && CountCritical(n.warnings) == TotalOf(ids, files, OfCritical)
    && n.ios == TotalOf(ids, files, OfIoInLoops)
    && IsEcologicalTotal(ids, files, n.ecological)
  }

  /** A folder with one more child taken in. */
  function Absorb(n: RawNode, child: RawNode): RawNode {
    n.(direct := SatAdd(n.direct, child.direct),
       transitive := SatAdd(n.transitive, child.transitive),
       hidden := SatAdd(n.hidden, child.hidden),
       unclassifiable := SatAdd(n.unclassifiable, child.unclassifiable),
       depth := if n.depth < child.depth then child.depth else n.depth,
       score := if n.score < child.score then child.score else n.score,
       levelRank := if n.levelRank < child.levelRank then child.levelRank else n.levelRank,
       warnings := n.warnings + child.warnings,
       ios := n.ios + child.ios,
       ecological := FoldEcological(n.ecological, child.ecological))
  }

  lemma TotalOfUnion(s: set<Id>, t: set<Id>, files: Files, f: Measure)
    requires s !! t
    ensures TotalOf(s + t, files, f) == TotalOf(s, files, f) + TotalOf(t, files, f)
  {
    SumOfUnion(s, t, map k | k in files :: files[k].Of(f));
  }

  /** Saturating folder by folder gives the same totals as saturating once. */
  lemma AbsorbSums(n: RawNode, s: set<Id>, child: RawNode, t: set<Id>, files: Files)
    requires s !! t && Sums(n, s, files) && Sums(child, t, files)
    ensures Sums(Absorb(n, child), s + t, files)
  {
    hide TotalOf, IsMaxOf, IsEcologicalTotal, CountCritical, FoldEcological, Clamp, SatAdd;
    SatAddClamps(TotalOf(s, files, OfCyclomatic), TotalOf(t, files, OfCyclomatic));
    SatAddClamps(TotalOf(s, files, OfTransitive), TotalOf(t, files, OfTransitive));
    SatAddClamps(TotalOf(s, files, OfHidden), TotalOf(t, files, OfHidden));
    SatAddClamps(TotalOf(s, files, OfUnclassifiableWord), TotalOf(t, files, OfUnclassifiableWord));
    TotalOfUnion(s, t, files, OfCyclomatic);
    TotalOfUnion(s, t, files, OfTransitive);
    TotalOfUnion(s, t, files, OfHidden);
    TotalOfUnion(s, t, files, OfUnclassifiableWord);
    TotalOfUnion(s, t, files, OfWarnings);
    TotalOfUnion(s, t, files, OfCritical);
    TotalOfUnion(s, t, files, OfIoInLoops);
    MaxOfUnion(s, t, files, OfDepth, n.depth, child.depth);
    MaxOfUnion(s, t, files, OfTransitive, n.score, child.score);
    MaxOfUnion(s, t, files, OfLevel, n.levelRank, child.levelRank);
    EcologicalTotalUnion(s, t, files, n.ecological, child.ecological);
    CountCriticalConcat(n.warnings, child.warnings);
  }

  lemma NothingSums(n: RawNode, files: Files)
    requires n == EmptyNode(n.name, n.kind).(childIds := n.childIds)
    ensures Sums(n, {}, files)
  {
  }

  lemma SingleTotal(id: Id, files: Files, f: Measure)
    requires id in files
    ensures TotalOf({id}, files, f) == files[id].Of(f)
    ensures IsMaxOf({id}, files, f, files[id].Of(f))
  {
    TotalOfAdd({}, files, f, id);
    assert {} + {id} == {id};
    assert id in {id};
  }

  lemma FileSums(n: RawNode, id: Id, files: Files)
    requires id in files && n.(childIds := []) == FileNode(n.name, files[id])
    ensures Sums(n, {id}, files)
  {
    hide TotalOf, IsMaxOf, IsEcologicalTotal;
    SingleTotal(id, files, OfCyclomatic);
    SingleTotal(id, files, OfTransitive);
    SingleTotal(id, files, OfHidden);
    SingleTotal(id, files, OfUnclassifiableWord);
    SingleTotal(id, files, OfDepth);
    SingleTotal(id, files, OfLevel);
    SingleTotal(id, files, OfWarnings);
    SingleTotal(id, files, OfCritical);
    SingleTotal(id, files, OfIoInLoops);
    assert IsEcologicalTotal({}, files, None) by { NothingSums(EmptyNode("", Folder), files); }
    EcologicalTotalAdd({}, files, None, id);
    assert {} + {id} == {id};
  }

  // ----- order of display -----

  predicate LexLe(a: string, b: string) {
    a == [] || (b != [] && (a[0] < b[0] || (a[0] == b[0] && LexLe(a[1..], b[1..]))))
  }

  /** Alphabetical order: one begins the other, or at the first place they differ the smaller character is first. */
  lemma {:induction false} LexLeMeans(a: string, b: string)
    ensures LexLe(a, b) <==> a <= b || exists k :: 0 <= k < |a| && k < |b| && a[..k] == b[..k] && a[k] < b[k]
  {
    if a != [] && b != [] && a[0] == b[0] {
      LexLeMeans(a[1..], b[1..]);
      forall k | 1 <= k < |a| && k < |b|
        ensures a[..k] == [a[0]] + a[1..][..k - 1] && b[..k] == [b[0]] + b[1..][..k - 1]
      {
      }
      assert a == [a[0]] + a[1..] && b == [b[0]] + b[1..];
      if k :| 0 <= k < |a[1..]| && k < |b[1..]| && a[1..][..k] == b[1..][..k] && a[1..][k] < b[1..][k] {
        assert a[..k + 1] == b[..k + 1] && a[k + 1] < b[k + 1];
      }
      if k :| 0 <= k < |a| && k < |b| && a[..k] == b[..k] && a[k] < b[k] {
        assert k > 0 && a[1..][..k - 1] == a[1..k] && b[1..][..k - 1] == b[1..k] && a[..k][1..] == a[1..k] && b[..k][1..] == b[1..k];
        assert a[1..][k - 1] < b[1..][k - 1];
      }
    }
  }

  lemma {:induction false} LexTotal(a: string, b: string)
    ensures LexLe(a, b) || LexLe(b, a)
    ensures LexLe(a, b) && LexLe(b, a) ==> a == b
  {
    if a != [] && b != [] && a[0] == b[0] {
      LexTotal(a[1..], b[1..]);
      assert a == [a[0]] + a[1..] && b == [b[0]] + b[1..];
    }
  }

  lemma {:induction false} LexTrans(a: string, b: string, c: string)
    requires LexLe(a, b) && LexLe(b, c)
    ensures LexLe(a, c)
  {
    if a != [] && a[0] == b[0] && b[0] == c[0] {
      LexTrans(a[1..], b[1..], c[1..]);
    }
  }

  /** Folders before files; folders by name; files by falling score, then by name. */
  predicate Precedes(a: RawNode, b: RawNode) {
    if a.kind != File && b.kind != File then LexLe(a.name, b.name)
    else if a.kind == File && b.kind == File then b.score < a.score || (a.score == b.score && LexLe(a.name, b.name))
    else b.kind == File
  }

  ghost predicate Ordered(raw: map<Id, RawNode>, ids: seq<Id>) {
    && (forall i :: 0 <= i < |ids| ==> ids[i] in raw)
    && forall i, j :: 0 <= i < j < |ids| ==> Precedes(raw[ids[i]], raw[ids[j]])
  }

  /** What a reader sees: no file above a folder, folders by name, files by falling score and those of one score by name. */
  ghost predicate Displayed(raw: map<Id, RawNode>, ids: seq<Id>) {
    && (forall c :: c in ids ==> c in raw)
    && forall i, j :: 0 <= i < j < |ids| ==>
         var (upper, lower) := (raw[ids[i]], raw[ids[j]]);
         && (upper.kind == File ==> lower.kind == File && upper.score >= lower.score)
         && ((lower.kind != File || (upper.kind == File && upper.score == lower.score)) ==> LexLe(upper.name, lower.name))
  }

  lemma OrderedIsDisplayed(raw: map<Id, RawNode>, ids: seq<Id>)
    requires Ordered(raw, ids)
    ensures Displayed(raw, ids)
  {
    hide LexLe;
  }

  lemma PrecedesTotal(a: RawNode, b: RawNode)
    ensures Precedes(a, b) || Precedes(b, a)
    ensures Precedes(a, b) && Precedes(b, a) ==> a.name == b.name
  {
    LexTotal(a.name, b.name);
  }

  lemma PrecedesTrans(a: RawNode, b: RawNode, c: RawNode)
    requires Precedes(a, b) && Precedes(b, c)
    ensures Precedes(a, c)
  {
    if LexLe(a.name, b.name) && LexLe(b.name, c.name) {
      LexTrans(a.name, b.name, c.name);
    }
  }

  ghost predicate NamesDiffer(raw: map<Id, RawNode>, ids: seq<Id>) {
    forall x, y :: x in ids && y in ids && x in raw && y in raw && raw[x].name == raw[y].name ==> x == y
  }

  /** Siblings have different names, so their order of display does not depend on the order they were found in. */
  lemma {:induction false} OrderUnique(raw: map<Id, RawNode>, a: seq<Id>, b: seq<Id>)
    requires Ordered(raw, a) && Ordered(raw, b) && multiset(a) == multiset(b)
    requires NamesDiffer(raw, a)
    ensures a == b
  {
    hide Precedes, Ordered;
    assert |a| == |multiset(a)| == |multiset(b)| == |b|;
    if a == [] {
      assert b == [];
    } else {
      SameFirst(raw, a, b);
      WithoutFirst(raw, a);
      WithoutFirst(raw, b);
      OrderUnique(raw, a[1..], b[1..]);
      assert a == [a[0]] + a[1..] && b == [b[0]] + b[1..];
    }
  }

  lemma WithoutFirst(raw: map<Id, RawNode>, a: seq<Id>)
    requires Ordered(raw, a) && a != []
    ensures Ordered(raw, a[1..]) && multiset(a[1..]) == multiset(a) - multiset{a[0]}
    ensures forall x :: x in a[1..] ==> x in a && x in raw
  {
    hide Precedes;
    assert a == [a[0]] + a[1..];
  }

  lemma SameFirst(raw: map<Id, RawNode>, a: seq<Id>, b: seq<Id>)
    requires Ordered(raw, a) && Ordered(raw, b) && multiset(a) == multiset(b) && a != [] && b != []
    requires NamesDiffer(raw, a)
    ensures a[0] == b[0]
  {
    hide Precedes;
    assert a[0] in multiset(b) && b[0] in multiset(a);
    var i :| 0 <= i < |b| && b[i] == a[0];
    var j :| 0 <= j < |a| && a[j] == b[0];
    PrecedesTotal(raw[a[0]], raw[b[0]]);
    assert b[0] in a;
  }

  /** Standing in for the standard library's sort. */
  method SortIds(raw: map<Id, RawNode>, ids: seq<Id>) returns (sorted: seq<Id>)
    requires forall c :: c in ids ==> c in raw
    ensures multiset(sorted) == multiset(ids) && Ordered(raw, sorted)
  {
    sorted := [];
    for i := 0 to |ids|
      invariant multiset(sorted) == multiset(ids[..i]) && Ordered(raw, sorted)
    {
      assert ids[..i + 1] == ids[..i] + [ids[i]];
      sorted := InsertId(raw, sorted, ids[i]);
    }
    assert ids[..|ids|] == ids;
  }

  method InsertId(raw: map<Id, RawNode>, ids: seq<Id>, id: Id) returns (r: seq<Id>)
    requires Ordered(raw, ids) && id in raw
    ensures multiset(r) == multiset(ids) + multiset{id} && Ordered(raw, r)
  {
    hide LexLe;
    var k := |ids|;
    while k > 0 && !Precedes(raw[ids[k - 1]], raw[id])
      invariant 0 <= k <= |ids|
      invariant forall j :: k <= j < |ids| ==> Precedes(raw[id], raw[ids[j]])
    {
      PrecedesTotal(raw[id], raw[ids[k - 1]]);
      k := k - 1;
    }
    forall j | 0 <= j < k
      ensures Precedes(raw[ids[j]], raw[id])
    {
      if j < k - 1 {
        PrecedesTrans(raw[ids[j]], raw[ids[k - 1]], raw[id]);
      }
    }
    r := ids[..k] + [id] + ids[k..];
    InsertOrdered(raw, ids, k, id, r);
    InsertKeeps(ids, k, id);
  }

  lemma InsertOrdered(raw: map<Id, RawNode>, ids: seq<Id>, k: nat, id: Id, r: seq<Id>)
    requires k <= |ids| && Ordered(raw, ids) && id in raw && r == ids[..k] + [id] + ids[k..]
    requires forall j :: 0 <= j < k ==> Precedes(raw[ids[j]], raw[id])
    requires forall j :: k <= j < |ids| ==> Precedes(raw[id], raw[ids[j]])
    ensures Ordered(raw, r)
  {
  }

  /** Only the order of children differs. */
  ghost predicate OnlyReordered(before: map<Id, RawNode>, after: map<Id, RawNode>) {
    && before.Keys == after.Keys
    && forall x :: x in before ==> Reordered(before[x], after[x])
  }

  ghost predicate Reordered(a: RawNode, b: RawNode) {
    multiset(a.childIds) == multiset(b.childIds) && a.(childIds := []) == b.(childIds := [])
  }

  lemma OnlyReorderedRefl(raw: map<Id, RawNode>)
    ensures OnlyReordered(raw, raw)
  {
  }

  lemma Reorder(before: map<Id, RawNode>, after: map<Id, RawNode>, id: Id, sorted: seq<Id>)
    requires OnlyReordered(before, after) && id in after && multiset(sorted) == multiset(after[id].childIds)
    ensures OnlyReordered(before, after[id := after[id].(childIds := sorted)])
  {
  }

  lemma OnlyReorderedMeans(before: map<Id, RawNode>, after: map<Id, RawNode>)
    requires OnlyReordered(before, after)
    ensures SameNodes(before, after) && SameNodes(after, before)
  {
  }

  lemma OrderedKept(before: map<Id, RawNode>, after: map<Id, RawNode>, ids: seq<Id>)
    requires SameNodes(before, after) && Ordered(before, ids)
    ensures Ordered(after, ids)
  {
  }

  // ----- totals, folder by folder -----

  /** Only the numbers of folders differ. */
  ghost predicate SameShape(before: map<Id, RawNode>, after: map<Id, RawNode>) {
    && before.Keys == after.Keys
    && forall x :: x in before ==> SameButNumbers(before[x], after[x])
  }

  ghost predicate SameButNumbers(a: RawNode, b: RawNode) {
    a.kind == b.kind && a.name == b.name && a.childIds == b.childIds && (a.kind == File ==> a == b)
  }

  lemma SameShapeKeeps(before: map<Id, RawNode>, after: map<Id, RawNode>, files: Files)
    requires IsTree(before, files) && SameShape(before, after)
    ensures IsTree(after, files)
  {
    hide IsTree;
    SameNodesKeep(before, after, files);
  }

  lemma SameShapeRefl(raw: map<Id, RawNode>)
    ensures SameShape(raw, raw)
  {
  }

  lemma SameShapeTrans(a: map<Id, RawNode>, b: map<Id, RawNode>, c: map<Id, RawNode>)
    requires SameShape(a, b) && SameShape(b, c)
    ensures SameShape(a, c)
    ensures a.Keys == b.Keys == c.Keys
  {
  }

  lemma FolderShape(before: map<Id, RawNode>, after: map<Id, RawNode>, id: Id, n: RawNode)
    requires SameShape(before, after) && id in before && SameButNumbers(n, before[id])
    ensures SameShape(before, after[id := n])
  {
  }

  lemma SettledSelf(raw: map<Id, RawNode>, files: Files, x: Id)
    requires Settled(raw, files, x) && x in raw
    ensures Sums(raw[x], Seen(files, x), files)
  {
  }

  /** The warnings of some nodes, one node after the other. */
  ghost function WarningsOf(raw: map<Id, RawNode>, ids: seq<Id>): seq<Warning> {
    if ids == [] then [] else
      WarningsOf(raw, ids[..|ids| - 1]) + if ids[|ids| - 1] in raw then raw[ids[|ids| - 1]].warnings else []
  }

  lemma {:induction false} WarningsAgree(before: map<Id, RawNode>, after: map<Id, RawNode>, ids: seq<Id>)
    requires before.Keys == after.Keys && forall c :: c in ids && c in before ==> after[c] == before[c]
    ensures WarningsOf(after, ids) == WarningsOf(before, ids)
  {
    if ids != [] {
      assert ids[|ids| - 1] in ids;
      WarningsAgree(before, after, ids[..|ids| - 1]);
    }
  }

  /** A node has the numbers of the files it accounts for, a file its own warnings, and a folder the warnings of its
      children in the order they are displayed. */
  ghost predicate Complete(raw: map<Id, RawNode>, files: Files, y: Id)
    requires y in raw
  {
    && Sums(raw[y], Seen(files, y), files)
    && (if raw[y].kind == File then y in files && raw[y].warnings == files[y].warnings else raw[y].warnings == WarningsOf(raw, raw[y].childIds))
  }

  lemma CompleteKept(before: map<Id, RawNode>, after: map<Id, RawNode>, files: Files, y: Id)
    requires before.Keys == after.Keys && y in before && Complete(before, files, y)
    requires after[y] == before[y] && forall c :: c in before[y].childIds && c in before ==> after[c] == before[c]
    ensures Complete(after, files, y)
  {
    WarningsAgree(before, after, before[y].childIds);
  }

  /** Everything below x that is not hidden by a file is complete. */
  ghost predicate Settled(raw: map<Id, RawNode>, files: Files, x: Id) {
    forall y :: y in raw && Shown(files, x, y) ==> Complete(raw, files, y)
  }

  lemma FileSettled(raw: map<Id, RawNode>, files: Files, id: Id)
    requires IsTree(raw, files) && id in raw && raw[id].kind == File
    ensures Settled(raw, files, id)
  {
    hide Sums, IsNode;
    assert NodeOk(raw, files.Keys, files, id);
    assert raw[id].(childIds := []).warnings == files[id].warnings;
    SeenFile(files, id);
    FileSums(raw[id], id, files);
    forall y | y in raw && Shown(files, id, y)
      ensures y == id
    {
      assert y[..|id|] == id;
    }
  }

  lemma FolderIsNoFile(raw: map<Id, RawNode>, files: Files, id: Id)
    requires IsTree(raw, files) && id in raw && raw[id].kind != File
    ensures id !in files
  {
    assert NodeOk(raw, files.Keys, files, id);
  }

  lemma ThroughNone(files: Files, id: Id)
    ensures Through(files, id, []) == {}
  {
  }

  lemma ChildFacts(raw: map<Id, RawNode>, files: Files, id: Id, i: nat)
    requires IsTree(raw, files) && id in raw && i < |raw[id].childIds|
    ensures
      var c := raw[id].childIds[i];
      c in raw && c != [] && Parent(c) == id && c !in raw[id].childIds[..i]
    ensures forall c :: c in raw[id].childIds ==> |c| == |id| + 1
  {
    hide IsNode, FileNode;
    var children := raw[id].childIds;
    assert NodeOk(raw, files.Keys, files, id);
    assert children[i] in multiset(children);
    assert children == children[..i] + [children[i]] + children[i + 1..];
    assert multiset(children)[children[i]] <= 1;
    forall c | c in children
      ensures |c| == |id| + 1
    {
      assert c in multiset(children);
    }
  }

  /** Nothing outside the part of the tree under `id` differs. */
  ghost predicate OnlyBelow(before: map<Id, RawNode>, after: map<Id, RawNode>, id: Id) {
    before.Keys == after.Keys && forall x :: x in after && !(id <= x) ==> after[x] == before[x]
  }

  lemma OnlyBelowRefl(raw: map<Id, RawNode>, id: Id)
    ensures OnlyBelow(raw, raw, id)
  {
  }

  lemma UnderChild(c: Id, x: Id)
    requires c != []
    ensures c <= x ==> Parent(c) <= x
  {
  }

  lemma ChildOnlyBelow(was: map<Id, RawNode>, before: map<Id, RawNode>, after: map<Id, RawNode>, id: Id, c: Id)
    requires id in was && c != [] && Parent(c) == id
    requires OnlyBelow(was, before, id) && before[id] == was[id] && OnlyBelow(before, after, c)
    ensures OnlyBelow(was, after, id) && after[id] == was[id]
  {
    forall x | x in after && !(id <= x)
      ensures after[x] == was[x]
    {
      UnderChild(c, x);
    }
  }

  lemma RootOnlyBelow(was: map<Id, RawNode>, raw: map<Id, RawNode>, id: Id, n: RawNode)
    requires id in was && OnlyBelow(was, raw, id)
    ensures OnlyBelow(was, raw[id := n], id)
  {
  }

  lemma SettledKept(before: map<Id, RawNode>, after: map<Id, RawNode>, files: Files, children: seq<Id>, i: nat)
    requires i < |children| && before.Keys == after.Keys && IsTree(before, files)
    requires forall j :: 0 <= j < i ==> children[j] != children[i] && |children[j]| == |children[i]|
    requires OnlyBelow(before, after, children[i])
    requires forall j :: 0 <= j < i ==> Settled(before, files, children[j])
    ensures forall j :: 0 <= j < i ==> Settled(after, files, children[j])
  {
    hide IsTree, Complete;
    forall j, y | 0 <= j < i && y in after && Shown(files, children[j], y)
      ensures Complete(after, files, y)
    {
      assert y[..|children[j]|] == children[j];
      forall c | c in before[y].childIds && c in before
        ensures after[c] == before[c]
      {
        ChildExtends(before, files, y, c);
        assert c[..|children[j]|] == children[j];
      }
      CompleteKept(before, after, files, y);
    }
  }

  lemma NoWarnings(raw: map<Id, RawNode>)
    ensures WarningsOf(raw, []) == []
  {
  }

  lemma WarningsNext(before: map<Id, RawNode>, after: map<Id, RawNode>, children: seq<Id>, i: nat)
    requires i < |children| && before.Keys == after.Keys && children[i] in after
    requires forall j :: 0 <= j < i ==> children[j] != children[i] && |children[j]| == |children[i]|
    requires OnlyBelow(before, after, children[i])
    ensures WarningsOf(after, children[..i + 1]) == WarningsOf(before, children[..i]) + after[children[i]].warnings
  {
    WarningsAgree(before, after, children[..i]);
    assert children[..i + 1][..i] == children[..i];
  }

  lemma ChildExtends(raw: map<Id, RawNode>, files: Files, y: Id, c: Id)
    requires IsTree(raw, files) && y in raw && c in raw[y].childIds
    ensures c != [] && Parent(c) == y
  {
    hide IsNode, FileNode;
    assert NodeOk(raw, files.Keys, files, y);
    assert c in multiset(raw[y].childIds);
  }

  method AbsorbChild(total: RawNode, child: RawNode, ghost files: Files, ghost id: Id, ghost children: seq<Id>, ghost i: nat) returns (r: RawNode)
    requires i < |children| && id !in files && total.kind != File
    requires children[i] != [] && Parent(children[i]) == id && children[i] !in children[..i]
    requires Sums(total, Through(files, id, children[..i]), files) && Sums(child, Seen(files, children[i]), files)
    ensures Sums(r, Through(files, id, children[..i + 1]), files) && SameButNumbers(total, r)
    ensures r.warnings == total.warnings + child.warnings
  {
    hide Sums, Through, Seen, FoldEcological;
    r := Absorb(total, child);
    ThroughNext(files, id, children[..i], children[i]);
    AbsorbSums(total, Through(files, id, children[..i]), child, Seen(files, children[i]), files);
    assert children[..i + 1] == children[..i] + [children[i]];
  }

  lemma FolderSettled(raw: map<Id, RawNode>, after: map<Id, RawNode>, files: Files, id: Id)
    requires IsTree(raw, files) && id in raw && id !in files
    requires after.Keys == raw.Keys && forall x :: x in raw && x != id ==> after[x] == raw[x]
    requires forall c :: c in raw[id].childIds ==> Settled(raw, files, c)
    requires Sums(after[id], Through(files, id, raw[id].childIds), files)
    requires SameButNumbers(after[id], raw[id]) && raw[id].kind != File && after[id].warnings == WarningsOf(raw, raw[id].childIds)
    ensures Settled(after, files, id)
  {
    hide Sums, IsTree, Seen, Through;
    ThroughAll(raw, files, id);
    forall c | c in raw[id].childIds && c in raw
      ensures after[c] == raw[c]
    {
      ChildExtends(raw, files, id, c);
    }
    WarningsAgree(raw, after, raw[id].childIds);
    forall y | y in after && Shown(files, id, y) && y != id
      ensures Complete(after, files, y)
    {
      forall c | c in raw[y].childIds && c in raw
        ensures after[c] == raw[c]
      {
        ChildExtends(raw, files, y, c);
      }
      ChildOnTheWay(raw, files, id, y);
      var c := y[..|id| + 1];
      assert Parent(c) == id;
      ShownThrough(files, id, c, y);
      assert Settled(raw, files, c);
      CompleteKept(raw, after, files, y);
    }
  }

  // ----- building -----

  /** The ids arrive sorted, so no later one is a prefix of an earlier one. */
  ghost predicate PrefixesFirst(entries: seq<(Id, CodeMetrics)>) {
    forall i, j :: 0 <= i < j < |entries| ==> !(entries[j].0 <= entries[i].0)
  }

  ghost predicate Enumerates(entries: seq<(Id, CodeMetrics)>, files: Files) {
    && (forall i :: 0 <= i < |entries| ==> entries[i].0 in files && files[entries[i].0] == entries[i].1)
    && (forall id :: id in files ==> exists i :: 0 <= i < |entries| && entries[i].0 == id)
  }

  ghost function Placed(entries: seq<(Id, CodeMetrics)>): set<Id> {
    set i | 0 <= i < |entries| :: entries[i].0
  }

  ghost function Attached(raw: map<Id, RawNode>, parentId: Id, id: Id, node: RawNode): map<Id, RawNode>
    requires parentId in raw
  {
    raw[id := node][parentId := raw[parentId].(childIds := raw[parentId].childIds + [id])]
  }

  lemma AttachKeeps(raw: map<Id, RawNode>, placed: set<Id>, files: Files, id: Id, node: RawNode)
    requires placed <= files.Keys && Rooted(raw, placed, files)
    requires id != [] && id !in raw && Parent(id) in raw && node.childIds == [] && node.name == Last(id)
    requires node.kind == Folder || (id in files && node.kind == File && node == FileNode(Last(id), files[id]))
    ensures Rooted(Attached(raw, Parent(id), id, node), if node.kind == Folder then placed else placed + {id}, files)
  {
    hide FileNode, NodeOk;
    var after := Attached(raw, Parent(id), id, node);
    var now := if node.kind == Folder then placed else placed + {id};
    forall x {:trigger NodeOk(after, now, files, x)} | x in after
      ensures NodeOk(after, now, files, x)
    {
      if x == id {
        NewNodeOk(raw, placed, files, id, node);
      } else {
        OldNodeOk(raw, placed, files, id, node, x);
      }
    }
  }

  /** No node is lost, and those there were only gain children. */
  ghost predicate OnlyAttached(before: map<Id, RawNode>, after: map<Id, RawNode>) {
    forall x :: x in before ==> x in after && after[x].(childIds := []) == before[x].(childIds := [])
  }

  lemma OnlyAttachedRefl(raw: map<Id, RawNode>)
    ensures OnlyAttached(raw, raw)
  {
  }

  lemma AttachOnly(first: map<Id, RawNode>, raw: map<Id, RawNode>, parentId: Id, id: Id, node: RawNode)
    requires OnlyAttached(first, raw) && parentId in raw && id !in raw
    ensures OnlyAttached(first, Attached(raw, parentId, id, node))
  {
  }

  lemma OnlyAttachedName(before: map<Id, RawNode>, after: map<Id, RawNode>, x: Id)
    requires OnlyAttached(before, after) && x in before
    ensures x in after && after[x].name == before[x].name
  {
    assert after[x].(childIds := []).name == before[x].(childIds := []).name;
  }

  lemma NewNodeOk(raw: map<Id, RawNode>, placed: set<Id>, files: Files, id: Id, node: RawNode)
    requires placed <= files.Keys && Rooted(raw, placed, files)
    requires id != [] && id !in raw && Parent(id) in raw && node.childIds == [] && node.name == Last(id)
    requires node.kind == Folder || (id in files && node.kind == File && node == FileNode(Last(id), files[id]))
    ensures NodeOk(Attached(raw, Parent(id), id, node), if node.kind == Folder then placed else placed + {id}, files, id)
  {
    hide FileNode;
    var after := Attached(raw, Parent(id), id, node);
    forall c | c in after && c != []
      ensures Parent(c) != id
    {
      if c in raw {
        assert NodeOk(raw, placed, files, c);
      }
    }
    assert ChildrenOf(after, id) == {};
    assert node.(childIds := []) == node;
  }

  lemma OldNodeOk(raw: map<Id, RawNode>, placed: set<Id>, files: Files, id: Id, node: RawNode, x: Id)
    requires placed <= files.Keys && Rooted(raw, placed, files)
    requires id != [] && id !in raw && Parent(id) in raw && x in raw
    requires node.kind == Folder || id in files
    ensures NodeOk(Attached(raw, Parent(id), id, node), if node.kind == Folder then placed else placed + {id}, files, x)
  {
    hide FileNode;
    var after := Attached(raw, Parent(id), id, node);
    assert NodeOk(raw, placed, files, x);
    NewChild(raw, id, node, x);
    hide ChildrenOf;
    if x == Parent(id) {
      assert after[x] == raw[x].(childIds := raw[x].childIds + [id]);
      ListedWith(raw[x].childIds, ChildrenOf(raw, x), id);
    } else {
      assert after[x] == raw[x];
    }
  }

  lemma ListedWith(childIds: seq<Id>, children: set<Id>, id: Id)
    requires multiset(childIds) == multiset(children) && id !in children
    ensures multiset(childIds + [id]) == multiset(children + {id})
  {
  }

  lemma NewChild(raw: map<Id, RawNode>, id: Id, node: RawNode, x: Id)
    requires id != [] && id !in raw && Parent(id) in raw
    ensures id !in ChildrenOf(raw, x)
    ensures ChildrenOf(Attached(raw, Parent(id), id, node), x) == ChildrenOf(raw, x) + if x == Parent(id) then {id} else {}
  {
  }

  class Tree {
    var raw: map<Id, RawNode>

    constructor (name: string)
      ensures raw == map[[] := EmptyNode(name, Project)]
    {
      raw := map[[] := EmptyNode(name, Project)];
    }

    /** Inserts a node and lists it under its parent. */
    method Attach(parentId: Id, id: Id, node: RawNode)
      requires parentId in raw && id !in raw
      modifies this
      ensures raw == Attached(old(raw), parentId, id, node)
    {
      raw := raw[id := node];
      raw := raw[parentId := raw[parentId].(childIds := raw[parentId].childIds + [id])];
    }

    /** Places one file, creating the folders on its way that are not there yet. */
    method PlaceFile(id: Id, m: CodeMetrics, ghost placed: set<Id>, ghost files: Files)
      requires placed <= files.Keys && Rooted(raw, placed, files)
      requires id != [] && id !in raw && id in files && files[id] == m
      modifies this
      ensures Rooted(raw, placed + {id}, files)
      ensures forall x :: x in raw <==> x in old(raw) || x <= id
      ensures OnlyAttached(old(raw), raw)
    {
      OnlyAttachedRefl(raw);
      hide NodeOk, FileNode, OnlyAttached;
      var parentId: Id := [];
      for i := 0 to |id| - 1
        invariant parentId == id[..i] && parentId in raw
        invariant Rooted(raw, placed, files)
        invariant forall x :: x in raw <==> x in old(raw) || (x <= id && |x| <= i)
        invariant OnlyAttached(old(raw), raw)
      {
        var folderId := id[..i + 1];
        PrefixesOf(id, i);
        if folderId !in raw {
          ghost var before := raw;
          var folder := EmptyNode(id[i], Folder);
          assert Parent(folderId) == parentId;
          Attach(parentId, folderId, folder);
          AttachKeeps(before, placed, files, folderId, folder);
          AttachOnly(old(raw), before, parentId, folderId, folder);
        }
        parentId := folderId;
      }
      ghost var before := raw;
      PrefixesOf(id, |id| - 1);
      assert Parent(id) == parentId;
      var node := FileNode(Last(id), m);
      assert node.kind == File && node.childIds == [] && node.name == Last(id) by { FileNodeIsFile(Last(id), m); }
      Attach(parentId, id, node);
      AttachKeeps(before, placed, files, id, node);
      AttachOnly(old(raw), before, parentId, id, node);
    }

    /** Orders every node's children for display; nothing else changes. */
    method SortChildren()
      requires forall x, c :: x in raw && c in raw[x].childIds ==> c in raw
      modifies this
      ensures OnlyReordered(old(raw), raw)
      ensures forall x :: x in raw ==> Ordered(raw, raw[x].childIds)
    {
      hide Precedes, Ordered, SameNodes, OnlyReordered;
      ghost var was := raw;
      OnlyReorderedRefl(raw);
      var rest := raw.Keys;
      while rest != {}
        invariant rest <= raw.Keys == was.Keys && OnlyReordered(was, raw)
        invariant forall x :: x in rest ==> raw[x] == was[x]
        invariant forall x :: x in raw && x !in rest ==> Ordered(was, raw[x].childIds)
      {
        var id :| id in rest;
        OnlyReorderedMeans(was, raw);
        var sorted := SortIds(raw, raw[id].childIds);
        OrderedKept(raw, was, sorted);
        Reorder(was, raw, id, sorted);
        raw := raw[id := raw[id].(childIds := sorted)];
        rest := rest - {id};
      }
      OnlyReorderedMeans(was, raw);
      forall x | x in raw
        ensures Ordered(raw, raw[x].childIds)
      {
        OrderedKept(was, raw, raw[x].childIds);
      }
    }

    /** Gives id, if it is a folder, the numbers of what lies under it, and does the same for every folder in
        between. */
    method Aggregate(id: Id, ghost files: Files, ghost height: nat)
      requires IsTree(raw, files) && id in raw
      requires forall x :: x in raw ==> |x| <= height
      modifies this
      ensures raw.Keys == old(raw).Keys && SameShape(old(raw), raw)
      ensures OnlyBelow(old(raw), raw, id)
      ensures Settled(raw, files, id)
      decreases height - |id|
    {
      hide IsTree, SameShape, Sums, Seen, Through, Settled, Shown, OnlyBelow, Absorb, WarningsOf;
      SameShapeRefl(raw);
      OnlyBelowRefl(raw, id);
      if raw[id].kind == File {
        FileSettled(raw, files, id);
        return;
      }
      FolderIsNoFile(raw, files, id);
      ghost var was := raw;
      var children := raw[id].childIds;
      var total := EmptyNode(raw[id].name, raw[id].kind).(childIds := children);
      NothingSums(total, files);
      ThroughNone(files, id);
      assert WarningsOf(raw, []) == [] by { NoWarnings(raw); }
      for i := 0 to |children|
        invariant raw.Keys == was.Keys && SameShape(was, raw) && IsTree(raw, files)
        invariant OnlyBelow(was, raw, id) && raw[id] == was[id]
        invariant forall j :: 0 <= j < i ==> Settled(raw, files, children[j])
        invariant Sums(total, Through(files, id, children[..i]), files) && SameButNumbers(total, was[id])
        invariant total.warnings == WarningsOf(raw, children[..i])
      {
        ChildFacts(raw, files, id, i);
        ghost var before := raw;
        Aggregate(children[i], files, height);
        SameShapeKeeps(before, raw, files);
        SameShapeTrans(was, before, raw);
        ChildOnlyBelow(was, before, raw, id, children[i]);
        SettledKept(before, raw, files, children, i);
        WarningsNext(before, raw, children, i);
        SettledSelf(raw, files, children[i]);
        total := AbsorbChild(total, raw[children[i]], files, id, children, i);
      }
      assert children[..|children|] == children;
      FolderSettled(raw, raw[id := total], files, id);
      FolderShape(was, raw, id, total);
      RootOnlyBelow(was, raw, id, total);
      raw := raw[id := total];
    }
  }

  lemma PrefixesOf(id: Id, i: nat)
    requires i < |id|
    ensures forall x :: x <= id && |x| <= i + 1 <==> (x <= id && |x| <= i) || x == id[..i + 1]
    ensures id[..|id|] == id
  {
  }

  lemma FileNodeIsFile(name: string, m: CodeMetrics)
    ensures FileNode(name, m).kind == File && FileNode(name, m).childIds == [] && FileNode(name, m).name == name
  {
  }

  ghost function Height(ids: set<Id>): (h: nat)
    ensures forall x :: x in ids ==> |x| <= h
  {
    if ids == {} then 0 else
      var x :| x in ids;
      var rest := Height(ids - {x});
      if rest < |x| then |x| else rest
  }

  lemma PlacedNext(entries: seq<(Id, CodeMetrics)>, i: nat)
    requires i < |entries| && PrefixesFirst(entries)
    ensures Placed(entries[..i + 1]) == Placed(entries[..i]) + {entries[i].0}
    ensures forall x {:trigger IsNode(Placed(entries[..i + 1]), x)} :: IsNode(Placed(entries[..i + 1]), x) <==> IsNode(Placed(entries[..i]), x) || x <= entries[i].0
    ensures entries[i].0 != [] ==> !IsNode(Placed(entries[..i]), entries[i].0)
  {
  }

  /** The whole tree: every folder carries the totals of the files it accounts for, down from the project itself. */
  method BuildTree(name: string, entries: seq<(Id, CodeMetrics)>, ghost files: Files) returns (tree: Tree)
    requires Enumerates(entries, files) && PrefixesFirst(entries) && [] !in files
    ensures fresh(tree) && IsTree(tree.raw, files) && tree.raw[[]].name == name
    ensures forall x :: x in tree.raw ==> Ordered(tree.raw, tree.raw[x].childIds) && Displayed(tree.raw, tree.raw[x].childIds)
    ensures Settled(tree.raw, files, [])
    ensures Sums(tree.raw[[]], Seen(files, []), files)
  {
    hide NodeOk, Rooted, IsNode, SameNodes, SameShape, OnlyReordered, Ordered, Displayed, Settled, Seen, Sums, Placed;
    tree := new Tree(name);
    RootAlone(name, files);
    for i := 0 to |entries|
      invariant fresh(tree) && [] in tree.raw && tree.raw[[]].name == name
      invariant Placed(entries[..i]) <= files.Keys && Rooted(tree.raw, Placed(entries[..i]), files)
      invariant forall x {:trigger IsNode(Placed(entries[..i]), x)} :: x in tree.raw <==> IsNode(Placed(entries[..i]), x)
    {
      PlacedNext(entries, i);
      ghost var before := tree.raw;
      tree.PlaceFile(entries[i].0, entries[i].1, Placed(entries[..i]), files);
      OnlyAttachedName(before, tree.raw, []);
    }
    assert Placed(entries[..|entries|]) == files.Keys by { AllPlaced(entries, files); }
    ghost var built := tree.raw;
    ChildrenKnown(built, files);
    tree.SortChildren();
    ghost var ordered := tree.raw;
    OnlyReorderedMeans(built, ordered);
    SameNodesKeep(built, ordered, files);
    RootKnown(ordered, files);
    tree.Aggregate([], files, Height(tree.raw.Keys));
    ShapeKeepsNodes(ordered, tree.raw);
    SameNodesKeep(ordered, tree.raw, files);
    SettledSelf(tree.raw, files, []);
    forall x | x in tree.raw
      ensures Ordered(tree.raw, tree.raw[x].childIds) && Displayed(tree.raw, tree.raw[x].childIds)
    {
      OrderedKept(ordered, tree.raw, ordered[x].childIds);
      OrderedIsDisplayed(tree.raw, tree.raw[x].childIds);
    }
  }

  lemma RootAlone(name: string, files: Files)
    ensures Placed([]) == {}
    ensures Rooted(map[[] := EmptyNode(name, Project)], {}, files)
    ensures forall x {:trigger IsNode({}, x)} :: x in map[[] := EmptyNode(name, Project)] <==> IsNode({}, x)
  {
  }

  lemma AllPlaced(entries: seq<(Id, CodeMetrics)>, files: Files)
    requires Enumerates(entries, files)
    ensures Placed(entries[..|entries|]) == files.Keys
  {
  }

  lemma ChildrenKnown(raw: map<Id, RawNode>, files: Files)
    requires IsTree(raw, files)
    ensures forall x, c :: x in raw && c in raw[x].childIds ==> c in raw
  {
    forall x, c | x in raw && c in raw[x].childIds
      ensures c in raw
    {
      assert NodeOk(raw, files.Keys, files, x);
      assert c in multiset(raw[x].childIds);
    }
  }

  lemma RootKnown(raw: map<Id, RawNode>, files: Files)
    requires IsTree(raw, files)
    ensures [] in raw
  {
  }

  lemma ShapeKeepsNodes(before: map<Id, RawNode>, after: map<Id, RawNode>)
    requires SameShape(before, after)
    ensures SameNodes(before, after)
    ensures forall x :: x in before ==> after[x].childIds == before[x].childIds
  {
  }

  // ----- what the report may rely on -----

  /** No file is lost or shown twice: each stands once, as a leaf, in the folder its path names. */
  lemma FilesAreLeaves(raw: map<Id, RawNode>, files: Files, id: Id)
    requires IsTree(raw, files) && PrefixFree(files) && id in files
    ensures id in raw && raw[id].childIds == []
    ensures forall x :: x in raw ==> multiset(raw[x].childIds)[id] == if x == Parent(id) then 1 else 0
  {
    hide FileNode;
    assert IsNode(files.Keys, id);
    assert NodeOk(raw, files.Keys, files, id);
    forall c | c in raw && c != []
      ensures Parent(c) != id
    {
      assert IsNode(files.Keys, c);
      var f :| f in files && c <= f;
      assert Parent(c) <= f;
    }
    assert ChildrenOf(raw, id) == {};
    assert |multiset(raw[id].childIds)| == 0;
    forall x | x in raw
      ensures multiset(raw[x].childIds)[id] == if x == Parent(id) then 1 else 0
    {
      assert NodeOk(raw, files.Keys, files, x);
      assert id in ChildrenOf(raw, x) <==> x == Parent(id);
    }
  }

  lemma MaxUnique(ids: set<Id>, files: Files, f: Measure, m: nat, n: nat)
    requires IsMaxOf(ids, files, f, m) && IsMaxOf(ids, files, f, n)
    ensures m == n
  {
  }

  /** The project's node shows what the project's own totals say, computed from the same files under their full
      paths in any order. */
  lemma RootIsProject<K>(root: RawNode, perFile: map<K, CodeMetrics>, files: Files, nameOf: map<K, Id>, t: ProjectTotals)
    requires Renames(perFile, files, nameOf) && [] !in files && PrefixFree(files)
    requires Sums(root, Seen(files, []), files) && IsProjectTotals(perFile.Keys, perFile, t)
    ensures root.direct == t.cyclomatic && root.transitive == t.transitive && root.hidden == t.hidden
    ensures root.depth == t.maxCallDepth && |root.warnings| == t.warnings && CountCritical(root.warnings) == t.criticalWarnings
    ensures root.ios == t.ioInLoops
    ensures (forall id :: id in files ==> files[id].unclassifiable <= U32_MAX) ==> root.unclassifiable == Clamp(t.unclassifiable)
  {
    hide TotalOf, Clamp;
    AllSeenIffPrefixFree(files);
    ProjectTotalsRenamed(perFile, files, nameOf, t);
    MaxUnique(files.Keys, files, OfDepth, root.depth, t.maxCallDepth);
    if forall id :: id in files ==> files[id].unclassifiable <= U32_MAX {
      WordsExact(files);
    }
  }

  lemma WordsExact(files: Files)
    requires forall id :: id in files ==> files[id].unclassifiable <= U32_MAX
    ensures TotalOf(files.Keys, files, OfUnclassifiableWord) == TotalOf(files.Keys, files, OfUnclassifiable)
  {
    SumOfAgree(files.Keys, map k | k in files :: files[k].Of(OfUnclassifiableWord), map k | k in files :: files[k].Of(OfUnclassifiable));
  }

  /** A file the project does not account for is exactly one with another file's path as a proper prefix. */
  lemma HiddenFileIsLost(files: Files, id: Id)
    requires id in files
    ensures id !in Seen(files, []) <==> exists above :: above in files && above <= id && above != id
  {
    if exists above :: above in files && above <= id && above != id {
      var above :| above in files && above <= id && above != id;
      assert id[..|above|] == above;
    }
    if id !in Seen(files, []) {
      var k :| 0 <= k < |id| && id[..k] in files;
      assert id[..k] <= id && id[..k] != id;
    }
  }
}
