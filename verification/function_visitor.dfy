/** The visitor that walks one Rust function body with depth counters, against a compositional reading of the tree. */
module FunctionVisiting {
  import opened Wrappers

  // ----- syntax -----

  /** The expressions the visitor tells apart. `Each` stands for every form whose parts are only visited in order
      (closure, tuple, paren, let, unary, field, index, range, cast, reference, return, assign, struct, repeat, array,
      break), `Block` also for unsafe and async blocks, `Leaf` for whatever is not entered. A call of anything but a
      path has no `path`; a `PathExpr` carries no type arguments. */
  datatype Expr =
    | If(cond: Expr, thenBranch: seq<Stmt>, elseBranch: Option<Expr>)
    | While(cond: Expr, body: seq<Stmt>)
    | ForLoop(source: Expr, body: seq<Stmt>)
    | Loop(body: seq<Stmt>)
    | Match(scrutinee: Expr, arms: seq<Arm>)
    | Binary(logical: bool, left: Expr, right: Expr)
    | Call(path: seq<string>, args: seq<Expr>, at: nat)
    | MethodCall(receiver: Expr, name: string, args: seq<Expr>, at: nat)
    | Block(stmts: seq<Stmt>)
    | TryBlock(stmts: seq<Stmt>)
    | Try(inner: Expr)
    | Await(inner: Expr)
    | Each(parts: seq<Expr>)
    | PathExpr(segments: seq<string>)
    | Leaf

  /** A match arm: its guard, if any, and its body. */
  datatype Arm = Arm(guard: Option<Expr>, body: Expr)

  datatype Pattern = Typed(ident: string, typeName: Option<string>) | Ident(ident: string) | OtherPattern

  /** `OtherStmt` is passed over: other items, macros, a `let` without a value. */
  datatype Stmt =
    | ExprStmt(expr: Expr)
    | Local(pattern: Pattern, init: Expr)
    | NestedFn(params: map<string, string>, body: seq<Stmt>)
    | OtherStmt

  // ----- what is counted -----

  /** What a piece of syntax contributes, wherever it stands: its decisions, its own nesting depth and widest match,
      a loop anywhere in it, a loop in the same function, and a loop within another loop's scope. */
  datatype Facts = Facts(decisions: nat, depth: nat, arms: nat, hasLoop: bool, loopHere: bool, nestedLoop: bool)

  const NOTHING: Facts := Facts(0, 0, 0, false, false, false)

  function Max(a: nat, b: nat): nat {
    if a < b then b else a
  }

  function Join(a: Facts, b: Facts): Facts {
    Facts(a.decisions + b.decisions, Max(a.depth, b.depth), Max(a.arms, b.arms),
          a.hasLoop || b.hasLoop, a.loopHere || b.loopHere, a.nestedLoop || b.nestedLoop)
  }

  /** A construct that decides once and nests its contents one level deeper. */
  function Branch(f: Facts): Facts {
    f.(decisions := f.decisions + 1, depth := f.depth + 1)
  }

  function LoopOver(f: Facts): Facts {
    f.(decisions := f.decisions + 1, depth := f.depth + 1, hasLoop := true, loopHere := true, nestedLoop := f.nestedLoop || f.loopHere)
  }

  function MatchOver(n: nat, f: Facts): Facts {
    f.(decisions := f.decisions + n, depth := f.depth + 1, arms := Max(n, f.arms))
  }

  function Decide(n: nat): Facts {
    NOTHING.(decisions := n)
  }

  /** What a nested function means to the one around it: neither its depth nor its matches count there, and its
      loops are not loops of the function around it. */
  function Outward(f: Facts): Facts {
    f.(depth := 0, arms := 0, loopHere := false)
  }

  function ExprFacts(e: Expr): Facts
    decreases e, 1
  {
    match e
    case If(cond, thenBranch, elseBranch) => Branch(Join(Join(ExprFacts(cond), BlockFacts(thenBranch)), OptionalFacts(elseBranch)))
    case While(cond, body) => LoopOver(Join(ExprFacts(cond), BlockFacts(body)))
    case ForLoop(source, body) => Join(ExprFacts(source), LoopOver(BlockFacts(body)))
    case Loop(body) => LoopOver(BlockFacts(body))
    case Match(scrutinee, arms) => MatchOver(|arms|, Join(ExprFacts(scrutinee), ArmsFacts(arms)))
    case Binary(logical, left, right) => Join(Decide(if logical then 1 else 0), Join(ExprFacts(left), ExprFacts(right)))
    case Call(_, args, _) => ExprsFacts(args)
    case MethodCall(receiver, _, args, _) => Join(ExprFacts(receiver), ExprsFacts(args))
    case Block(stmts) => BlockFacts(stmts)
    case TryBlock(stmts) => Branch(BlockFacts(stmts))
    case Try(inner) => ExprFacts(inner)
    case Await(inner) => ExprFacts(inner)
    case Each(parts) => ExprsFacts(parts)
    case PathExpr(_) => NOTHING
    case Leaf => NOTHING
  }

  function OptionalFacts(e: Option<Expr>): Facts
    decreases e, 0
  {
    match e case None => NOTHING case Some(x) => ExprFacts(x)
  }

  function ExprsFacts(es: seq<Expr>): Facts
    decreases es, 0
  {
    if es == [] then NOTHING else Join(ExprFacts(es[0]), ExprsFacts(es[1..]))
  }

  function ArmFacts(arm: Arm): Facts
    decreases arm, 1
  {
    Join(OptionalFacts(arm.guard), ExprFacts(arm.body))
  }

  function ArmsFacts(arms: seq<Arm>): Facts
    decreases arms, 0
  {
    if arms == [] then NOTHING else Join(ArmFacts(arms[0]), ArmsFacts(arms[1..]))
  }

  function StmtFacts(s: Stmt): Facts
    decreases s, 1
  {
    match s
    case ExprStmt(e) => ExprFacts(e)
    case Local(_, init) => ExprFacts(init)
    case NestedFn(_, body) => Outward(BlockFacts(body))
    case OtherStmt => NOTHING
  }

  function BlockFacts(stmts: seq<Stmt>): Facts
    decreases stmts, 0
  {
    if stmts == [] then NOTHING else Join(StmtFacts(stmts[0]), BlockFacts(stmts[1..]))
  }

  // ----- the same read from above: every place where something is counted -----

  /** What stands at a place: a call or a `let` as it is written, the start of a nested function, or none of these. */
  datatype Mark =
    | NoMark
    | PathCall(path: seq<string>, at: nat)
    | ReceiverCall(receiver: Expr, name: string, at: nat)
    | LetMark(pattern: Pattern, init: Expr)
    | NestedStart(params: map<string, string>)

  /** A place in a body: how many functions it is nested in, whether it is a loop, what stands there, how many loops of
      its own function are around it, how many nesting constructs (itself included), the arms it has and the decisions
      it is worth. */
  datatype Site = Site(level: nat, isLoop: bool, mark: Mark, loops: nat, depth: nat, arms: nat, decisions: nat)

  function LoopSite(loops: nat, depth: nat): Site {
    Site(0, true, NoMark, loops, depth + 1, 0, 1)
  }

  /** A place that counts for nothing by itself. */
  function MarkSite(mark: Mark, loops: nat, depth: nat): Site {
    Site(0, false, mark, loops, depth, 0, 0)
  }

  function ExprSites(e: Expr, loops: nat, depth: nat): seq<Site>
    decreases e, 1
  {
    match e
    case If(cond, thenBranch, elseBranch) =>
      [Site(0, false, NoMark, loops, depth + 1, 0, 1)]
      + (ExprSites(cond, loops, depth + 1) + BlockSites(thenBranch, loops, depth + 1) + OptionalSites(elseBranch, loops, depth + 1))
    case While(cond, body) => [LoopSite(loops, depth)] + (ExprSites(cond, loops + 1, depth + 1) + BlockSites(body, loops + 1, depth + 1))
    case ForLoop(source, body) => ExprSites(source, loops, depth) + ([LoopSite(loops, depth)] + BlockSites(body, loops + 1, depth + 1))
    case Loop(body) => [LoopSite(loops, depth)] + BlockSites(body, loops + 1, depth + 1)
    case Match(scrutinee, arms) =>
      [Site(0, false, NoMark, loops, depth + 1, |arms|, |arms|)] + (ExprSites(scrutinee, loops, depth + 1) + ArmsSites(arms, loops, depth + 1))
    case Binary(logical, left, right) =>
      [Site(0, false, NoMark, loops, depth, 0, if logical then 1 else 0)] + (ExprSites(left, loops, depth) + ExprSites(right, loops, depth))
    case Call(path, args, at) => (if path == [] then [] else [MarkSite(PathCall(path, at), loops, depth)]) + ExprsSites(args, loops, depth)
    case MethodCall(receiver, name, args, at) => [MarkSite(ReceiverCall(receiver, name, at), loops, depth)] + (ExprSites(receiver, loops, depth) + ExprsSites(args, loops, depth))
    case Block(stmts) => BlockSites(stmts, loops, depth)
    case TryBlock(stmts) => [Site(0, false, NoMark, loops, depth + 1, 0, 1)] + BlockSites(stmts, loops, depth + 1)
    case Try(inner) => ExprSites(inner, loops, depth)
    case Await(inner) => ExprSites(inner, loops, depth)
    case Each(parts) => ExprsSites(parts, loops, depth)
    case PathExpr(_) => []
    case Leaf => []
  }

  function OptionalSites(e: Option<Expr>, loops: nat, depth: nat): seq<Site>
    decreases e, 0
  {
    match e case None => [] case Some(x) => ExprSites(x, loops, depth)
  }

  function ExprsSites(es: seq<Expr>, loops: nat, depth: nat): seq<Site>
    decreases es, 0
  {
    if es == [] then [] else ExprSites(es[0], loops, depth) + ExprsSites(es[1..], loops, depth)
  }

  function ArmSites(arm: Arm, loops: nat, depth: nat): seq<Site>
    decreases arm, 1
  {
    OptionalSites(arm.guard, loops, depth) + ExprSites(arm.body, loops, depth)
  }

  function ArmsSites(arms: seq<Arm>, loops: nat, depth: nat): seq<Site>
    decreases arms, 0
  {
    if arms == [] then [] else ArmSites(arms[0], loops, depth) + ArmsSites(arms[1..], loops, depth)
  }

  function StmtSites(s: Stmt, loops: nat, depth: nat): seq<Site>
    decreases s, 1
  {
    match s
    case ExprStmt(e) => ExprSites(e, loops, depth)
    case Local(pattern, init) => ExprSites(init, loops, depth) + [MarkSite(LetMark(pattern, init), loops, depth)]
    case NestedFn(params, body) => Foreign([MarkSite(NestedStart(params), 0, 0)] + BlockSites(body, 0, 0))
    case OtherStmt => []
  }

  function BlockSites(stmts: seq<Stmt>, loops: nat, depth: nat): seq<Site>
    decreases stmts, 0
  {
    if stmts == [] then [] else StmtSites(stmts[0], loops, depth) + BlockSites(stmts[1..], loops, depth)
  }

  /** The same places seen from one function further out. */
  function Foreign(sites: seq<Site>): seq<Site> {
    seq(|sites|, i requires 0 <= i < |sites| => sites[i].(level := sites[i].level + 1))
  }

  function Decisions(sites: seq<Site>): nat {
    if sites == [] then 0 else sites[0].decisions + Decisions(sites[1..])
  }

  ghost predicate OwnDepth(sites: seq<Site>, depth: nat) {
    exists x :: x in sites && x.level == 0 && x.depth == depth
  }

  ghost predicate OwnArms(sites: seq<Site>, arms: nat) {
    exists x :: x in sites && x.level == 0 && x.arms == arms
  }

  ghost predicate SomeLoop(sites: seq<Site>) {
    exists x :: x in sites && x.isLoop
  }

  ghost predicate OwnLoop(sites: seq<Site>) {
    exists x :: x in sites && x.level == 0 && x.isLoop
  }

  ghost predicate LoopInLoop(sites: seq<Site>) {
    exists x :: x in sites && x.isLoop && x.loops > 0
  }

  ghost predicate Bounded(sites: seq<Site>, depth: nat, arms: nat) {
    forall x :: x in sites && x.level == 0 ==> x.depth <= depth && x.arms <= arms
  }

  /** The facts say of the sites, found under so many loops and so deep, what a reader would count. */
  ghost predicate Describes(sites: seq<Site>, f: Facts, loops: nat, depth: nat) {
    && Decisions(sites) == f.decisions
    && Bounded(sites, depth + f.depth, f.arms)
    && (f.depth > 0 ==> OwnDepth(sites, depth + f.depth))
    && (f.arms > 0 ==> OwnArms(sites, f.arms))
    && (f.hasLoop <==> SomeLoop(sites))
    && (f.loopHere <==> OwnLoop(sites))
    && ((f.nestedLoop || (loops > 0 && f.loopHere)) <==> LoopInLoop(sites))
  }

  lemma {:induction false} DecisionsConcat(a: seq<Site>, b: seq<Site>)
    ensures Decisions(a + b) == Decisions(a) + Decisions(b)
  {
    if a == [] {
      assert a + b == b;
    } else {
      assert (a + b)[1..] == a[1..] + b;
      DecisionsConcat(a[1..], b);
    }
  }

  lemma DescribesJoin(a: seq<Site>, f: Facts, b: seq<Site>, g: Facts, loops: nat, depth: nat)
    requires Describes(a, f, loops, depth) && Describes(b, g, loops, depth)
    ensures Describes(a + b, Join(f, g), loops, depth)
  {
    DecisionsConcat(a, b);
  }

  lemma DescribesBranch(site: Site, a: seq<Site>, f: Facts, loops: nat, depth: nat)
    requires site == Site(0, false, NoMark, loops, depth + 1, 0, 1)
    requires Describes(a, f, loops, depth + 1)
    ensures Describes([site] + a, Branch(f), loops, depth)
  {
  }

  lemma DescribesMatch(site: Site, a: seq<Site>, n: nat, f: Facts, loops: nat, depth: nat)
    requires site == Site(0, false, NoMark, loops, depth + 1, n, n)
    requires Describes(a, f, loops, depth + 1)
    ensures Describes([site] + a, MatchOver(n, f), loops, depth)
  {
  }

  lemma DescribesLoop(a: seq<Site>, f: Facts, loops: nat, depth: nat)
    requires Describes(a, f, loops + 1, depth + 1)
    ensures Describes([LoopSite(loops, depth)] + a, LoopOver(f), loops, depth)
  {
  }

  lemma DescribesDecision(site: Site, n: nat, loops: nat, depth: nat)
    requires site == Site(0, false, NoMark, loops, depth, 0, n)
    ensures Describes([site], Decide(n), loops, depth)
  {
  }

  lemma DescribesMark(mark: Mark, a: seq<Site>, f: Facts, loops: nat, depth: nat)
    requires Describes(a, f, loops, depth)
    ensures Describes([MarkSite(mark, loops, depth)] + a, f, loops, depth)
  {
    assert forall x :: x in [MarkSite(mark, loops, depth)] + a <==> x == MarkSite(mark, loops, depth) || x in a;
  }

  lemma DescribesLet(mark: Mark, a: seq<Site>, f: Facts, loops: nat, depth: nat)
    requires Describes(a, f, loops, depth)
    ensures Describes(a + [MarkSite(mark, loops, depth)], f, loops, depth)
  {
    NothingDescribed(loops, depth);
    DescribesMark(mark, [], NOTHING, loops, depth);
    assert [MarkSite(mark, loops, depth)] + [] == [MarkSite(mark, loops, depth)];
    hide Describes;
    DescribesJoin(a, f, [MarkSite(mark, loops, depth)], NOTHING, loops, depth);
    assert Join(f, NOTHING) == f;
  }

  lemma {:induction false} ForeignDecisions(a: seq<Site>)
    ensures Decisions(Foreign(a)) == Decisions(a)
  {
    if a != [] {
      assert Foreign(a)[1..] == Foreign(a[1..]);
      ForeignDecisions(a[1..]);
    }
  }

  lemma DescribesForeign(a: seq<Site>, f: Facts, loops: nat, depth: nat)
    requires Describes(a, f, 0, 0)
    ensures Describes(Foreign(a), Outward(f), loops, depth)
  {
    ForeignDecisions(a);
    forall x | x in a
      ensures x.(level := x.level + 1) in Foreign(a)
    {
      var i :| 0 <= i < |a| && a[i] == x;
      assert Foreign(a)[i] == x.(level := x.level + 1);
    }
  }

  lemma {:induction false} ExprDescribed(e: Expr, loops: nat, depth: nat)
    ensures Describes(ExprSites(e, loops, depth), ExprFacts(e), loops, depth)
    decreases e, 1
  {
    hide Describes, Branch, LoopOver, MatchOver, Join, LoopSite, MarkSite, Decide;
    match e {
      case If(_, _, _) => IfDescribed(e, loops, depth);
      case While(_, _) => WhileDescribed(e, loops, depth);
      case ForLoop(_, _) => ForDescribed(e, loops, depth);
      case Loop(body) =>
        BlockDescribed(body, loops + 1, depth + 1);
        DescribesLoop(BlockSites(body, loops + 1, depth + 1), BlockFacts(body), loops, depth);
      case Match(_, _) => MatchDescribed(e, loops, depth);
      case Binary(_, _, _) => BinaryDescribed(e, loops, depth);
      case Call(path, args, at) =>
        ExprsDescribed(args, loops, depth);
        if path == [] {
          assert [] + ExprsSites(args, loops, depth) == ExprsSites(args, loops, depth);
        } else {
          DescribesMark(PathCall(path, at), ExprsSites(args, loops, depth), ExprsFacts(args), loops, depth);
        }
      case MethodCall(_, _, _, _) => MethodCallDescribed(e, loops, depth);
      case Block(stmts) => BlockDescribed(stmts, loops, depth);
      case TryBlock(stmts) =>
        BlockDescribed(stmts, loops, depth + 1);
        DescribesBranch(Site(0, false, NoMark, loops, depth + 1, 0, 1), BlockSites(stmts, loops, depth + 1), BlockFacts(stmts), loops, depth);
      case Try(inner) => ExprDescribed(inner, loops, depth);
      case Await(inner) => ExprDescribed(inner, loops, depth);
      case Each(parts) => ExprsDescribed(parts, loops, depth);
      case PathExpr(_) => NothingDescribed(loops, depth);
      case Leaf => NothingDescribed(loops, depth);
    }
  }

  lemma {:induction false} IfDescribed(e: Expr, loops: nat, depth: nat)
    requires e.If?
    ensures Describes(ExprSites(e, loops, depth), ExprFacts(e), loops, depth)
    decreases e, 0
  {
    hide Describes, Branch, LoopOver, MatchOver, Join, LoopSite, MarkSite, Decide;
    var cond, thenBranch, elseBranch := e.cond, e.thenBranch, e.elseBranch;
    ExprDescribed(cond, loops, depth + 1);
    BlockDescribed(thenBranch, loops, depth + 1);
    OptionalDescribed(elseBranch, loops, depth + 1);
    var a, b := ExprSites(cond, loops, depth + 1), BlockSites(thenBranch, loops, depth + 1);
    var f, g := ExprFacts(cond), BlockFacts(thenBranch);
    DescribesJoin(a, f, b, g, loops, depth + 1);
    var c := OptionalSites(elseBranch, loops, depth + 1);
    DescribesJoin(a + b, Join(f, g), c, OptionalFacts(elseBranch), loops, depth + 1);
    DescribesBranch(Site(0, false, NoMark, loops, depth + 1, 0, 1), a + b + c, Join(Join(f, g), OptionalFacts(elseBranch)), loops, depth);
  }

  lemma {:induction false} WhileDescribed(e: Expr, loops: nat, depth: nat)
    requires e.While?
    ensures Describes(ExprSites(e, loops, depth), ExprFacts(e), loops, depth)
    decreases e, 0
  {
    hide Describes, Branch, LoopOver, MatchOver, Join, LoopSite, MarkSite, Decide;
    var cond, body := e.cond, e.body;
    ExprDescribed(cond, loops + 1, depth + 1);
    BlockDescribed(body, loops + 1, depth + 1);
    var a, b := ExprSites(cond, loops + 1, depth + 1), BlockSites(body, loops + 1, depth + 1);
    DescribesJoin(a, ExprFacts(cond), b, BlockFacts(body), loops + 1, depth + 1);
    DescribesLoop(a + b, Join(ExprFacts(cond), BlockFacts(body)), loops, depth);
  }

  lemma {:induction false} ForDescribed(e: Expr, loops: nat, depth: nat)
    requires e.ForLoop?
    ensures Describes(ExprSites(e, loops, depth), ExprFacts(e), loops, depth)
    decreases e, 0
  {
    hide Describes, Branch, LoopOver, MatchOver, Join, LoopSite, MarkSite, Decide;
    var source, body := e.source, e.body;
    ExprDescribed(source, loops, depth);
    BlockDescribed(body, loops + 1, depth + 1);
    var b := BlockSites(body, loops + 1, depth + 1);
    DescribesLoop(b, BlockFacts(body), loops, depth);
    DescribesJoin(ExprSites(source, loops, depth), ExprFacts(source), [LoopSite(loops, depth)] + b, LoopOver(BlockFacts(body)), loops, depth);
  }

  lemma {:induction false} MatchDescribed(e: Expr, loops: nat, depth: nat)
    requires e.Match?
    ensures Describes(ExprSites(e, loops, depth), ExprFacts(e), loops, depth)
    decreases e, 0
  {
    hide Describes, Branch, LoopOver, MatchOver, Join, LoopSite, MarkSite, Decide;
    var scrutinee, arms := e.scrutinee, e.arms;
    ExprDescribed(scrutinee, loops, depth + 1);
    ArmsDescribed(arms, loops, depth + 1);
    var a, b := ExprSites(scrutinee, loops, depth + 1), ArmsSites(arms, loops, depth + 1);
    DescribesJoin(a, ExprFacts(scrutinee), b, ArmsFacts(arms), loops, depth + 1);
    DescribesMatch(Site(0, false, NoMark, loops, depth + 1, |arms|, |arms|), a + b, |arms|, Join(ExprFacts(scrutinee), ArmsFacts(arms)), loops, depth);
  }

  lemma {:induction false} BinaryDescribed(e: Expr, loops: nat, depth: nat)
    requires e.Binary?
    ensures Describes(ExprSites(e, loops, depth), ExprFacts(e), loops, depth)
    decreases e, 0
  {
    hide Describes, Branch, LoopOver, MatchOver, Join, LoopSite, MarkSite, Decide;
    var logical, left, right := e.logical, e.left, e.right;
    ExprDescribed(left, loops, depth);
    ExprDescribed(right, loops, depth);
    var a, b := ExprSites(left, loops, depth), ExprSites(right, loops, depth);
    var n: nat := if logical then 1 else 0;
    var site := Site(0, false, NoMark, loops, depth, 0, n);
    DescribesJoin(a, ExprFacts(left), b, ExprFacts(right), loops, depth);
    DescribesDecision(site, n, loops, depth);
    DescribesJoin([site], Decide(n), a + b, Join(ExprFacts(left), ExprFacts(right)), loops, depth);
  }

  lemma {:induction false} MethodCallDescribed(e: Expr, loops: nat, depth: nat)
    requires e.MethodCall?
    ensures Describes(ExprSites(e, loops, depth), ExprFacts(e), loops, depth)
    decreases e, 0
  {
    hide Describes, Branch, LoopOver, MatchOver, Join, LoopSite, MarkSite, Decide;
    var receiver, name, args, at := e.receiver, e.name, e.args, e.at;
    ExprDescribed(receiver, loops, depth);
    ExprsDescribed(args, loops, depth);
    var a, b := ExprSites(receiver, loops, depth), ExprsSites(args, loops, depth);
    DescribesJoin(a, ExprFacts(receiver), b, ExprsFacts(args), loops, depth);
    DescribesMark(ReceiverCall(receiver, name, at), a + b, Join(ExprFacts(receiver), ExprsFacts(args)), loops, depth);
  }

  lemma NothingDescribed(loops: nat, depth: nat)
    ensures Describes([], NOTHING, loops, depth)
  {
  }

  lemma {:induction false} OptionalDescribed(e: Option<Expr>, loops: nat, depth: nat)
    ensures Describes(OptionalSites(e, loops, depth), OptionalFacts(e), loops, depth)
    decreases e, 0
  {
    match e {
      case None => NothingDescribed(loops, depth);
      case Some(x) => ExprDescribed(x, loops, depth);
    }
  }

  lemma {:induction false} ExprsDescribed(es: seq<Expr>, loops: nat, depth: nat)
    ensures Describes(ExprsSites(es, loops, depth), ExprsFacts(es), loops, depth)
    decreases es, 0
  {
    hide Describes, Join;
    if es == [] {
      NothingDescribed(loops, depth);
    } else {
      ExprDescribed(es[0], loops, depth);
      ExprsDescribed(es[1..], loops, depth);
      DescribesJoin(ExprSites(es[0], loops, depth), ExprFacts(es[0]), ExprsSites(es[1..], loops, depth), ExprsFacts(es[1..]), loops, depth);
    }
  }

  lemma {:induction false} ArmsDescribed(arms: seq<Arm>, loops: nat, depth: nat)
    ensures Describes(ArmsSites(arms, loops, depth), ArmsFacts(arms), loops, depth)
    decreases arms, 0
  {
    hide Describes, Join;
    if arms == [] {
      NothingDescribed(loops, depth);
    } else {
      ArmDescribed(arms[0], loops, depth);
      ArmsDescribed(arms[1..], loops, depth);
      DescribesJoin(ArmSites(arms[0], loops, depth), ArmFacts(arms[0]), ArmsSites(arms[1..], loops, depth), ArmsFacts(arms[1..]), loops, depth);
    }
  }

  lemma {:induction false} ArmDescribed(arm: Arm, loops: nat, depth: nat)
    ensures Describes(ArmSites(arm, loops, depth), ArmFacts(arm), loops, depth)
    decreases arm, 1
  {
    hide Describes, Join;
    OptionalDescribed(arm.guard, loops, depth);
    ExprDescribed(arm.body, loops, depth);
    DescribesJoin(OptionalSites(arm.guard, loops, depth), OptionalFacts(arm.guard), ExprSites(arm.body, loops, depth), ExprFacts(arm.body), loops, depth);
  }

  lemma {:induction false} StmtDescribed(s: Stmt, loops: nat, depth: nat)
    ensures Describes(StmtSites(s, loops, depth), StmtFacts(s), loops, depth)
    decreases s, 1
  {
    hide Describes, Outward, Foreign, MarkSite;
    match s {
      case ExprStmt(e) => ExprDescribed(e, loops, depth);
      case Local(pattern, init) =>
        ExprDescribed(init, loops, depth);
        DescribesLet(LetMark(pattern, init), ExprSites(init, loops, depth), ExprFacts(init), loops, depth);
      case NestedFn(params, body) =>
        BlockDescribed(body, 0, 0);
        DescribesMark(NestedStart(params), BlockSites(body, 0, 0), BlockFacts(body), 0, 0);
        DescribesForeign([MarkSite(NestedStart(params), 0, 0)] + BlockSites(body, 0, 0), BlockFacts(body), loops, depth);
      case OtherStmt => NothingDescribed(loops, depth);
    }
  }

  /** What the facts of a body say is what its sites show. */
  lemma {:induction false} BlockDescribed(stmts: seq<Stmt>, loops: nat, depth: nat)
    ensures Describes(BlockSites(stmts, loops, depth), BlockFacts(stmts), loops, depth)
    decreases stmts, 0
  {
    hide Describes, Join;
    if stmts == [] {
      NothingDescribed(loops, depth);
    } else {
      StmtDescribed(stmts[0], loops, depth);
      BlockDescribed(stmts[1..], loops, depth);
      DescribesJoin(StmtSites(stmts[0], loops, depth), StmtFacts(stmts[0]), BlockSites(stmts[1..], loops, depth), BlockFacts(stmts[1..]), loops, depth);
    }
  }

  // ----- what is recorded of calls -----

  datatype Io = IsIo | NotIo | UnknownIo

  datatype CallEvent = CallEvent(name: string, at: nat, io: Io, inLoop: bool)

  /** The constant tables of the classifier. */
  datatype Tables = Tables(isIoType: string -> bool, isIoCall: string -> bool, isSuspicious: string -> bool)

  /** What stays fixed while one function is walked. */
  datatype Scope = Scope(enclosingType: Option<string>, localTypes: set<string>, tables: Tables)

  type TypeEnv = map<string, string>

  /** The calls met, in order, and the bindings in force afterwards. */
  datatype Trace = Trace(events: seq<CallEvent>, env: TypeEnv)

  function JoinPath(segments: seq<string>): string {
    if segments == [] then "" else if |segments| == 1 then segments[0] else segments[0] + "::" + JoinPath(segments[1..])
  }

  /** A path is its segments with `::` between them. */
  lemma {:induction false} PathJoined(a: seq<string>, b: seq<string>)
    requires a != [] && b != []
    ensures JoinPath([a[0]]) == a[0]
    ensures JoinPath(a + b) == JoinPath(a) + "::" + JoinPath(b)
  {
    assert (a + b)[1..] == a[1..] + b;
    if |a| > 1 {
      PathJoined(a[1..], b);
    } else {
      assert a[1..] + b == b;
    }
  }

  function FunctionCallName(scope: Scope, path: seq<string>): string {
    if path != [] && path[0] == "Self" && scope.enclosingType.Some?
    then JoinPath([scope.enclosingType.value] + path[1..])
    else JoinPath(path)
  }

  function MethodCallName(scope: Scope, receiver: Expr, name: string): string {
    if scope.enclosingType.Some? && receiver == PathExpr(["self"]) then scope.enclosingType.value + "::" + name else name
  }

  function ClassifyFunctionCall(scope: Scope, name: string): Io {
    if scope.tables.isIoCall(name) then IsIo else NotIo
  }

  function ClassifyMethodCall(scope: Scope, env: TypeEnv, receiver: Expr, name: string): Io {
    if receiver.PathExpr? && |receiver.segments| == 1 && receiver.segments[0] in env then
      var t := env[receiver.segments[0]];
      if scope.tables.isIoType(t) && t !in scope.localTypes then IsIo else NotIo
    else if scope.tables.isSuspicious(name) then UnknownIo
    else NotIo
  }

  function UnwrapResultChain(e: Expr): Expr {
    match e
    case Try(inner) => UnwrapResultChain(inner)
    case Await(inner) => UnwrapResultChain(inner)
    case MethodCall(receiver, name, _, _) => if name == "unwrap" || name == "expect" then UnwrapResultChain(receiver) else e
    case _ => e
  }

  function ConstructorTypeName(e: Expr): Option<string> {
    if e.Call? && |e.path| >= 2 then Some(e.path[|e.path| - 2]) else None
  }

  /** A binding whose type cannot be told erases what its name meant before. */
  function BindLet(env: TypeEnv, pattern: Pattern, init: Expr): TypeEnv {
    match pattern
    case OtherPattern => env
    case Typed(ident, typeName) => (match typeName case Some(t) => env[ident := t] case None => env - {ident})
    case Ident(ident) => match ConstructorTypeName(UnwrapResultChain(init)) case Some(t) => env[ident := t] case None => env - {ident}
  }

  function Then(a: Trace, b: Trace): Trace {
    Trace(a.events + b.events, b.env)
  }

  function ExprTrace(scope: Scope, e: Expr, inLoop: bool, env: TypeEnv): Trace
    decreases e, 1
  {
    match e
    case If(cond, thenBranch, elseBranch) =>
      var a := ExprTrace(scope, cond, inLoop, env);
      var b := BlockTrace(scope, thenBranch, inLoop, a.env);
      Then(Then(a, b), OptionalTrace(scope, elseBranch, inLoop, b.env))
    case While(cond, body) =>
      var a := ExprTrace(scope, cond, true, env);
      Then(a, BlockTrace(scope, body, true, a.env))
    case ForLoop(source, body) =>
      var a := ExprTrace(scope, source, inLoop, env);
      Then(a, BlockTrace(scope, body, true, a.env))
    case Loop(body) => BlockTrace(scope, body, true, env)
    case Match(scrutinee, arms) =>
      var a := ExprTrace(scope, scrutinee, inLoop, env);
      Then(a, ArmsTrace(scope, arms, inLoop, a.env))
    case Binary(_, left, right) =>
      var a := ExprTrace(scope, left, inLoop, env);
      Then(a, ExprTrace(scope, right, inLoop, a.env))
    case Call(path, args, at) =>
      var name := FunctionCallName(scope, path);
      var own := if path == [] then [] else [CallEvent(name, at, ClassifyFunctionCall(scope, name), inLoop)];
      Then(Trace(own, env), ExprsTrace(scope, args, inLoop, env))
    case MethodCall(receiver, name, args, at) =>
      var own := CallEvent(MethodCallName(scope, receiver, name), at, ClassifyMethodCall(scope, env, receiver, name), inLoop);
      var a := ExprTrace(scope, receiver, inLoop, env);
      Then(Then(Trace([own], env), a), ExprsTrace(scope, args, inLoop, a.env))
    case Block(stmts) => BlockTrace(scope, stmts, inLoop, env)
    case TryBlock(stmts) => BlockTrace(scope, stmts, inLoop, env)
    case Try(inner) => ExprTrace(scope, inner, inLoop, env)
    case Await(inner) => ExprTrace(scope, inner, inLoop, env)
    case Each(parts) => ExprsTrace(scope, parts, inLoop, env)
    case PathExpr(_) => Trace([], env)
    case Leaf => Trace([], env)
  }

  function OptionalTrace(scope: Scope, e: Option<Expr>, inLoop: bool, env: TypeEnv): Trace
    decreases e, 0
  {
    match e case None => Trace([], env) case Some(x) => ExprTrace(scope, x, inLoop, env)
  }

  function ExprsTrace(scope: Scope, es: seq<Expr>, inLoop: bool, env: TypeEnv): Trace
    decreases es, 0
  {
    if es == [] then Trace([], env) else
      var a := ExprTrace(scope, es[0], inLoop, env);
      Then(a, ExprsTrace(scope, es[1..], inLoop, a.env))
  }

  function ArmTrace(scope: Scope, arm: Arm, inLoop: bool, env: TypeEnv): Trace
    decreases arm, 1
  {
    var a := OptionalTrace(scope, arm.guard, inLoop, env);
    Then(a, ExprTrace(scope, arm.body, inLoop, a.env))
  }

  function ArmsTrace(scope: Scope, arms: seq<Arm>, inLoop: bool, env: TypeEnv): Trace
    decreases arms, 0
  {
    if arms == [] then Trace([], env) else
      var a := ArmTrace(scope, arms[0], inLoop, env);
      Then(a, ArmsTrace(scope, arms[1..], inLoop, a.env))
  }

  /** A nested function sees only its own parameters, is in no loop of the outer one, and leaves no bindings behind. */
  function StmtTrace(scope: Scope, s: Stmt, inLoop: bool, env: TypeEnv): Trace
    decreases s, 1
  {
    match s
    case ExprStmt(e) => ExprTrace(scope, e, inLoop, env)
    case Local(pattern, init) =>
      var a := ExprTrace(scope, init, inLoop, env);
      Trace(a.events, BindLet(a.env, pattern, init))
    case NestedFn(params, body) => Trace(BlockTrace(scope.(enclosingType := None), body, false, params).events, env)
    case OtherStmt => Trace([], env)
  }

  function BlockTrace(scope: Scope, stmts: seq<Stmt>, inLoop: bool, env: TypeEnv): Trace
    decreases stmts, 0
  {
    if stmts == [] then Trace([], env) else
      var a := StmtTrace(scope, stmts[0], inLoop, env);
      Then(a, BlockTrace(scope, stmts[1..], inLoop, a.env))
  }

  function Names(events: seq<CallEvent>): seq<string> {
    if events == [] then [] else Names(events[..|events| - 1]) + [events[|events| - 1].name]
  }

  function LoopCalls(events: seq<CallEvent>): seq<CallEvent> {
    if events == [] then [] else
      LoopCalls(events[..|events| - 1]) + if events[|events| - 1].inLoop then [events[|events| - 1]] else []
  }

  // ----- the recorded calls against the places where calls stand -----

  function Lookup(env: TypeEnv, x: string): Option<string> {
    if x in env then Some(env[x]) else None
  }

  /** The type a value is seen to have: that of the constructor call at its core, taken out of any number of `?`,
      `.await`, `.unwrap()` and `.expect()`. */
  function Constructed(e: Expr): Option<string> {
    match e
    case Call(path, _, _) => if |path| < 2 then None else Some(path[|path| - 2])
    case MethodCall(receiver, name, _, _) => if name in {"unwrap", "expect"} then Constructed(receiver) else None
    case Try(inner) => Constructed(inner)
    case Await(inner) => Constructed(inner)
    case _ => None
  }

  /** Whether a place decides what a name stands for from there on, in the function so many levels in. */
  predicate Speaks(site: Site, level: nat, x: string) {
    site.level == level
    && match site.mark
       case LetMark(pattern, _) => !pattern.OtherPattern? && pattern.ident == x
       case NestedStart(_) => true
       case _ => false
  }

  /** The type it gives the name, if any: its annotation or else that of its value; a function starts with its
      parameters. */
  function Spoken(site: Site, x: string): Option<string> {
    match site.mark
    case LetMark(Typed(_, typeName), _) => typeName
    case LetMark(_, init) => Constructed(init)
    case NestedStart(params) => Lookup(params, x)
    case _ => None
  }

  /** The type of a name after these places: the last one to speak of it decides, and before any does the outermost
      function's parameters do. */
  function TypeAt(before: seq<Site>, level: nat, x: string, params: TypeEnv): Option<string> {
    if before == [] then (if level == 0 then Lookup(params, x) else None)
    else if Speaks(before[|before| - 1], level, x) then Spoken(before[|before| - 1], x)
    else TypeAt(before[..|before| - 1], level, x, params)
  }

  /** The last place to speak of a name decides. */
  lemma {:induction false} LastSpeakerDecides(before: seq<Site>, level: nat, x: string, params: TypeEnv, i: nat)
    requires i < |before| && Speaks(before[i], level, x)
    requires forall j :: i < j < |before| ==> !Speaks(before[j], level, x)
    ensures TypeAt(before, level, x, params) == Spoken(before[i], x)
  {
    if i < |before| - 1 {
      LastSpeakerDecides(before[..|before| - 1], level, x, params, i);
    }
  }

  /** The type `Self` stands for: a function nested in another has none. */
  function SelfType(scope: Scope, level: nat): Option<string> {
    if level == 0 then scope.enclosingType else None
  }

  /** A path call is recorded under its path, `Self` replaced by the enclosing type, and is input or output if the
      table of names says so. */
  function ToldPathCall(scope: Scope, site: Site): CallEvent
    requires site.mark.PathCall? && site.mark.path != []
  {
    var path := site.mark.path;
    var self := SelfType(scope, site.level);
    var name := JoinPath(if self.Some? && path[0] == "Self" then path[0 := self.value] else path);
    CallEvent(name, site.mark.at, if scope.tables.isIoCall(name) then IsIo else NotIo, site.loops > 0)
  }

  /** A method call is recorded under the method's name, qualified by the enclosing type on a bare `self`. With the
      receiver's type known it is input or output if that is an input or output type not declared in the file; with the
      type unknown it is unknown if the method's name is suspicious. */
  function ToldMethodCall(scope: Scope, before: seq<Site>, site: Site, params: TypeEnv): CallEvent
    requires site.mark.ReceiverCall?
  {
    var self := SelfType(scope, site.level);
    var name := if site.mark.receiver == PathExpr(["self"]) && self.Some? then self.value + "::" + site.mark.name else site.mark.name;
    var io := match ReceiverType(before, site, params)
      case Some(t) => if scope.tables.isIoType(t) && t !in scope.localTypes then IsIo else NotIo
      case None => if scope.tables.isSuspicious(site.mark.name) then UnknownIo else NotIo;
    CallEvent(name, site.mark.at, io, site.loops > 0)
  }

  /** Only a plain name has a type; the places before the call decide it. */
  function ReceiverType(before: seq<Site>, site: Site, params: TypeEnv): Option<string>
    requires site.mark.ReceiverCall?
  {
    match site.mark.receiver
    case PathExpr(segments) => if |segments| == 1 then TypeAt(before, site.level, segments[0], params) else None
    case _ => None
  }

  /** What one more place adds to the record. */
  function Told(scope: Scope, before: seq<Site>, site: Site, params: TypeEnv): seq<CallEvent> {
    match site.mark
    case PathCall(path, _) => if path == [] then [] else [ToldPathCall(scope, site)]
    case ReceiverCall(_, _, _) => [ToldMethodCall(scope, before, site, params)]
    case _ => []
  }

  /** The calls among the places, in order, each told from the place it stands at and the places before it. */
  function SiteCalls(scope: Scope, params: TypeEnv, sites: seq<Site>): seq<CallEvent> {
    if sites == [] then [] else
      SiteCalls(scope, params, sites[..|sites| - 1]) + Told(scope, sites[..|sites| - 1], sites[|sites| - 1], params)
  }

  ghost predicate Started(sites: seq<Site>, level: nat) {
    exists i :: 0 <= i < |sites| && sites[i].level == level && sites[i].mark.NestedStart?
  }

  /** A place in a nested function comes after the start of one. */
  ghost predicate Scoped(sites: seq<Site>) {
    forall j :: 0 <= j < |sites| && sites[j].level > 0 ==> sites[j].mark.NestedStart? || Started(sites[..j], sites[j].level)
  }

  ghost predicate SameTypes(env: TypeEnv, sites: seq<Site>, params: TypeEnv) {
    forall x :: Lookup(env, x) == TypeAt(sites, 0, x, params)
  }

  /** A trace of places found under some bindings: it records the calls among them as they are told, and leaves the
      bindings the places leave. */
  ghost predicate Records(scope: Scope, env: TypeEnv, t: Trace, sites: seq<Site>) {
    t.events == SiteCalls(scope, env, sites) && SameTypes(t.env, sites, env) && Scoped(sites)
  }

  // ----- one list of places after another -----

  lemma {:induction false} TypeAfter(a: seq<Site>, b: seq<Site>, level: nat, x: string, params: TypeEnv, env: TypeEnv)
    requires SameTypes(env, a, params) && (level == 0 || Started(b, level))
    ensures TypeAt(a + b, level, x, params) == TypeAt(b, level, x, env)
  {
    if b == [] {
      assert a + b == a;
    } else {
      var last := |b| - 1;
      assert (a + b)[..|a + b| - 1] == a + b[..last];
      if !Speaks(b[last], level, x) {
        if level > 0 {
          var i :| 0 <= i < |b| && b[i].level == level && b[i].mark.NestedStart?;
          assert b[..last][i] == b[i];
        }
        TypeAfter(a, b[..last], level, x, params, env);
      }
    }
  }

  lemma ToldAfter(scope: Scope, a: seq<Site>, b: seq<Site>, site: Site, params: TypeEnv, env: TypeEnv)
    requires SameTypes(env, a, params) && (site.level == 0 || site.mark.NestedStart? || Started(b, site.level))
    ensures Told(scope, a + b, site, params) == Told(scope, b, site, env)
  {
    hide SameTypes, TypeAt, Started;
    if site.mark.ReceiverCall? && site.mark.receiver.PathExpr? && |site.mark.receiver.segments| == 1 {
      TypeAfter(a, b, site.level, site.mark.receiver.segments[0], params, env);
    }
  }

  lemma {:induction false} CallsAfter(scope: Scope, a: seq<Site>, b: seq<Site>, params: TypeEnv, env: TypeEnv)
    requires SameTypes(env, a, params) && Scoped(b)
    ensures SiteCalls(scope, params, a + b) == SiteCalls(scope, params, a) + SiteCalls(scope, env, b)
  {
    hide SameTypes, Told;
    if b == [] {
      assert a + b == a;
    } else {
      var last := |b| - 1;
      assert (a + b)[..|a + b| - 1] == a + b[..last];
      ScopedPrefix(b);
      CallsAfter(scope, a, b[..last], params, env);
      ToldAfter(scope, a, b[..last], b[last], params, env);
    }
  }

  lemma ScopedPrefix(b: seq<Site>)
    requires Scoped(b) && b != []
    ensures Scoped(b[..|b| - 1])
  {
    hide Started;
    assert forall j :: 0 <= j < |b| - 1 ==> b[..|b| - 1][..j] == b[..j];
  }

  lemma ScopedConcat(a: seq<Site>, b: seq<Site>)
    requires Scoped(a) && Scoped(b)
    ensures Scoped(a + b)
  {
    forall j | 0 <= j < |a + b| && (a + b)[j].level > 0
      ensures (a + b)[j].mark.NestedStart? || Started((a + b)[..j], (a + b)[j].level)
    {
      if j < |a| {
        assert (a + b)[..j] == a[..j];
      } else {
        var k := j - |a|;
        assert (a + b)[..j] == a + b[..k];
        if !b[k].mark.NestedStart? {
          var i :| 0 <= i < k && b[..k][i].level == b[k].level && b[..k][i].mark.NestedStart?;
          assert (a + b)[..j][|a| + i] == b[i];
        }
      }
    }
  }

  lemma TypesAfter(a: seq<Site>, b: seq<Site>, params: TypeEnv, env: TypeEnv, after: TypeEnv)
    requires SameTypes(env, a, params) && SameTypes(after, b, env)
    ensures SameTypes(after, a + b, params)
  {
    forall x
      ensures Lookup(after, x) == TypeAt(a + b, 0, x, params)
    {
      TypeAfter(a, b, 0, x, params, env);
    }
  }

  lemma RecordsJoin(scope: Scope, env: TypeEnv, t: Trace, a: seq<Site>, u: Trace, b: seq<Site>)
    requires Records(scope, env, t, a) && Records(scope, t.env, u, b)
    ensures Records(scope, env, Then(t, u), a + b)
  {
    hide SameTypes, Scoped;
    CallsAfter(scope, a, b, env, t.env);
    ScopedConcat(a, b);
    TypesAfter(a, b, env, t.env, u.env);
  }

  lemma RecordsNothing(scope: Scope, env: TypeEnv)
    ensures Records(scope, env, Trace([], env), [])
  {
  }

  /** One place by itself. */
  lemma RecordsOne(scope: Scope, env: TypeEnv, site: Site, t: Trace)
    requires site.level == 0 && t.events == Told(scope, [], site, env)
    requires forall x :: Lookup(t.env, x) == if Speaks(site, 0, x) then Spoken(site, x) else Lookup(env, x)
    ensures Records(scope, env, t, [site])
  {
    hide Told, Speaks, Spoken;
    assert [site][..0] == [];
    forall x
      ensures Lookup(t.env, x) == TypeAt([site], 0, x, env)
    {
      assert TypeAt([], 0, x, env) == Lookup(env, x);
    }
    assert SiteCalls(scope, env, []) + t.events == t.events;
  }

  lemma RecordsPlace(scope: Scope, env: TypeEnv, t: Trace, site: Site, a: seq<Site>)
    requires site.level == 0 && site.mark == NoMark && Records(scope, env, t, a)
    ensures Records(scope, env, t, [site] + a)
  {
    hide Records;
    RecordsOne(scope, env, site, Trace([], env));
    RecordsJoin(scope, env, Trace([], env), [site], t, a);
    assert [] + t.events == t.events;
  }

  lemma RecordsCall(scope: Scope, env: TypeEnv, event: CallEvent, mark: Mark, loops: nat, depth: nat, t: Trace, a: seq<Site>)
    requires (mark.PathCall? || mark.ReceiverCall?) && Told(scope, [], MarkSite(mark, loops, depth), env) == [event]
    requires Records(scope, env, t, a)
    ensures Records(scope, env, Then(Trace([event], env), t), [MarkSite(mark, loops, depth)] + a)
  {
    hide Records, Told;
    RecordsOne(scope, env, MarkSite(mark, loops, depth), Trace([event], env));
    RecordsJoin(scope, env, Trace([event], env), [MarkSite(mark, loops, depth)], t, a);
  }

  // ----- what is told of each kind of place -----

  lemma PathCallTold(scope: Scope, env: TypeEnv, path: seq<string>, at: nat, loops: nat, depth: nat)
    requires path != []
    ensures var name := FunctionCallName(scope, path);
      Told(scope, [], MarkSite(PathCall(path, at), loops, depth), env) == [CallEvent(name, at, ClassifyFunctionCall(scope, name), loops > 0)]
  {
    if scope.enclosingType.Some? {
      assert [scope.enclosingType.value] + path[1..] == path[0 := scope.enclosingType.value];
    }
  }

  lemma MethodCallTold(scope: Scope, env: TypeEnv, receiver: Expr, name: string, at: nat, loops: nat, depth: nat)
    ensures Told(scope, [], MarkSite(ReceiverCall(receiver, name, at), loops, depth), env)
      == [CallEvent(MethodCallName(scope, receiver, name), at, ClassifyMethodCall(scope, env, receiver, name), loops > 0)]
  {
  }

  lemma {:induction false} ConstructedIs(e: Expr)
    ensures Constructed(e) == ConstructorTypeName(UnwrapResultChain(e))
  {
    match e {
      case Try(inner) => ConstructedIs(inner);
      case Await(inner) => ConstructedIs(inner);
      case MethodCall(receiver, _, _, _) => ConstructedIs(receiver);
      case _ =>
    }
  }

  lemma LetTold(scope: Scope, env: TypeEnv, pattern: Pattern, init: Expr, loops: nat, depth: nat)
    ensures Records(scope, env, Trace([], BindLet(env, pattern, init)), [MarkSite(LetMark(pattern, init), loops, depth)])
  {
    ConstructedIs(init);
    hide Records, Constructed, ConstructorTypeName, UnwrapResultChain;
    RecordsOne(scope, env, MarkSite(LetMark(pattern, init), loops, depth), Trace([], BindLet(env, pattern, init)));
  }

  /** The places of a nested function, between its start and its end, are told as those of a function of its own. */
  lemma {:induction false} NestedType(params: TypeEnv, env: TypeEnv, sites: seq<Site>, start: Site, level: nat, x: string)
    requires start == MarkSite(NestedStart(params), 0, 0)
    ensures TypeAt(Foreign([start] + sites), level + 1, x, env) == TypeAt(sites, level, x, params)
  {
    var whole := Foreign([start] + sites);
    if sites == [] {
      assert whole[..0] == [];
    } else {
      var last := |sites| - 1;
      assert whole[..|whole| - 1] == Foreign([start] + sites[..last]);
      NestedType(params, env, sites[..last], start, level, x);
    }
  }

  lemma NestedTold(scope: Scope, params: TypeEnv, env: TypeEnv, sites: seq<Site>, start: Site, site: Site)
    requires start == MarkSite(NestedStart(params), 0, 0)
    ensures Told(scope, Foreign([start] + sites), site.(level := site.level + 1), env) == Told(scope.(enclosingType := None), sites, site, params)
  {
    hide TypeAt, Foreign;
    if site.mark.ReceiverCall? && site.mark.receiver.PathExpr? && |site.mark.receiver.segments| == 1 {
      NestedType(params, env, sites, start, site.level, site.mark.receiver.segments[0]);
    }
  }

  lemma {:induction false} NestedCalls(scope: Scope, params: TypeEnv, env: TypeEnv, sites: seq<Site>, start: Site)
    requires start == MarkSite(NestedStart(params), 0, 0)
    ensures SiteCalls(scope, env, Foreign([start] + sites)) == SiteCalls(scope.(enclosingType := None), params, sites)
  {
    hide Told;
    var whole := Foreign([start] + sites);
    if sites == [] {
      assert whole == [start.(level := 1)] && whole[..0] == [];
      assert Told(scope, [], start.(level := 1), env) == [] by { NoCallTold(scope, [], start.(level := 1), env); }
    } else {
      var last := |sites| - 1;
      assert whole[..|whole| - 1] == Foreign([start] + sites[..last]);
      NestedCalls(scope, params, env, sites[..last], start);
      NestedTold(scope, params, env, sites[..last], start, sites[last]);
      assert whole[|whole| - 1] == sites[last].(level := sites[last].level + 1);
    }
  }

  lemma NoCallTold(scope: Scope, before: seq<Site>, site: Site, params: TypeEnv)
    requires site.mark.NestedStart?
    ensures Told(scope, before, site, params) == []
  {
  }

  lemma NestedScoped(sites: seq<Site>, start: Site)
    requires start.level == 0 && start.mark.NestedStart? && Scoped(sites)
    ensures Scoped(Foreign([start] + sites))
  {
    var whole := Foreign([start] + sites);
    forall j | 0 <= j < |whole|
      ensures whole[j].mark.NestedStart? || Started(whole[..j], whole[j].level)
    {
      if j > 0 {
        var site := sites[j - 1];
        if site.level == 0 {
          assert whole[..j][0].mark.NestedStart? && whole[..j][0].level == 1;
        } else if !site.mark.NestedStart? {
          var i :| 0 <= i < j - 1 && sites[..j - 1][i].level == site.level && sites[..j - 1][i].mark.NestedStart?;
          assert whole[..j][i + 1] == sites[i].(level := sites[i].level + 1);
        }
      }
    }
  }

  lemma {:induction false} NestedLeavesTypes(sites: seq<Site>, x: string, env: TypeEnv)
    ensures TypeAt(Foreign(sites), 0, x, env) == Lookup(env, x)
  {
    if sites != [] {
      assert Foreign(sites)[..|sites| - 1] == Foreign(sites[..|sites| - 1]);
      NestedLeavesTypes(sites[..|sites| - 1], x, env);
    }
  }

  lemma RecordsNested(scope: Scope, params: TypeEnv, env: TypeEnv, t: Trace, sites: seq<Site>)
    requires Records(scope.(enclosingType := None), params, t, sites)
    ensures Records(scope, env, Trace(t.events, env), Foreign([MarkSite(NestedStart(params), 0, 0)] + sites))
  {
    hide TypeAt, SiteCalls, Foreign;
    var start := MarkSite(NestedStart(params), 0, 0);
    NestedCalls(scope, params, env, sites, start);
    NestedScoped(sites, start);
    hide Scoped;
    forall x
      ensures Lookup(env, x) == TypeAt(Foreign([start] + sites), 0, x, env)
    {
      NestedLeavesTypes([start] + sites, x, env);
    }
  }

  lemma {:induction false} ExprRecorded(scope: Scope, e: Expr, env: TypeEnv, loops: nat, depth: nat)
    ensures Records(scope, env, ExprTrace(scope, e, loops > 0, env), ExprSites(e, loops, depth))
    decreases e, 1
  {
    hide Records, Told, MarkSite, FunctionCallName, ClassifyFunctionCall, MethodCallName, ClassifyMethodCall;
    var inLoop := loops > 0;
    match e {
      case If(_, _, _) => IfRecorded(scope, e, env, loops, depth);
      case While(_, _) => WhileRecorded(scope, e, env, loops, depth);
      case ForLoop(_, _) => ForRecorded(scope, e, env, loops, depth);
      case Loop(body) =>
        BlockRecorded(scope, body, env, loops + 1, depth + 1);
        RecordsPlace(scope, env, BlockTrace(scope, body, true, env), LoopSite(loops, depth), BlockSites(body, loops + 1, depth + 1));
      case Match(_, _) => MatchRecorded(scope, e, env, loops, depth);
      case Binary(_, _, _) => BinaryRecorded(scope, e, env, loops, depth);
      case Call(path, args, at) =>
        ExprsRecorded(scope, args, env, loops, depth);
        var a, s := ExprsTrace(scope, args, inLoop, env), ExprsSites(args, loops, depth);
        if path == [] {
          assert [] + a.events == a.events && [] + s == s;
        } else {
          var name := FunctionCallName(scope, path);
          PathCallTold(scope, env, path, at, loops, depth);
          RecordsCall(scope, env, CallEvent(name, at, ClassifyFunctionCall(scope, name), inLoop), PathCall(path, at), loops, depth, a, s);
        }
      case MethodCall(_, _, _, _) => MethodCallRecorded(scope, e, env, loops, depth);
      case Block(stmts) => BlockRecorded(scope, stmts, env, loops, depth);
      case TryBlock(stmts) =>
        BlockRecorded(scope, stmts, env, loops, depth + 1);
        RecordsPlace(scope, env, BlockTrace(scope, stmts, inLoop, env), Site(0, false, NoMark, loops, depth + 1, 0, 1), BlockSites(stmts, loops, depth + 1));
      case Try(inner) => ExprRecorded(scope, inner, env, loops, depth);
      case Await(inner) => ExprRecorded(scope, inner, env, loops, depth);
      case Each(parts) => ExprsRecorded(scope, parts, env, loops, depth);
      case PathExpr(_) => RecordsNothing(scope, env);
      case Leaf => RecordsNothing(scope, env);
    }
  }

  lemma {:induction false} IfRecorded(scope: Scope, e: Expr, env: TypeEnv, loops: nat, depth: nat)
    requires e.If?
    ensures Records(scope, env, ExprTrace(scope, e, loops > 0, env), ExprSites(e, loops, depth))
    decreases e, 0
  {
    hide Records, Told, MarkSite, ClassifyMethodCall, MethodCallName;
    var cond, thenBranch, elseBranch := e.cond, e.thenBranch, e.elseBranch;
    var inLoop := loops > 0;
    var a := ExprTrace(scope, cond, inLoop, env);
    var b := BlockTrace(scope, thenBranch, inLoop, a.env);
    var c := OptionalTrace(scope, elseBranch, inLoop, b.env);
    ExprRecorded(scope, cond, env, loops, depth + 1);
    BlockRecorded(scope, thenBranch, a.env, loops, depth + 1);
    OptionalRecorded(scope, elseBranch, b.env, loops, depth + 1);
    var s, t := ExprSites(cond, loops, depth + 1), BlockSites(thenBranch, loops, depth + 1);
    RecordsJoin(scope, env, a, s, b, t);
    RecordsJoin(scope, env, Then(a, b), s + t, c, OptionalSites(elseBranch, loops, depth + 1));
    RecordsPlace(scope, env, Then(Then(a, b), c), Site(0, false, NoMark, loops, depth + 1, 0, 1), s + t + OptionalSites(elseBranch, loops, depth + 1));
  }

  lemma {:induction false} WhileRecorded(scope: Scope, e: Expr, env: TypeEnv, loops: nat, depth: nat)
    requires e.While?
    ensures Records(scope, env, ExprTrace(scope, e, loops > 0, env), ExprSites(e, loops, depth))
    decreases e, 0
  {
    hide Records, Told, MarkSite, ClassifyMethodCall, MethodCallName;
    var cond, body := e.cond, e.body;
    var a := ExprTrace(scope, cond, true, env);
    var b := BlockTrace(scope, body, true, a.env);
    ExprRecorded(scope, cond, env, loops + 1, depth + 1);
    BlockRecorded(scope, body, a.env, loops + 1, depth + 1);
    RecordsJoin(scope, env, a, ExprSites(cond, loops + 1, depth + 1), b, BlockSites(body, loops + 1, depth + 1));
    RecordsPlace(scope, env, Then(a, b), LoopSite(loops, depth), ExprSites(cond, loops + 1, depth + 1) + BlockSites(body, loops + 1, depth + 1));
  }

  lemma {:induction false} ForRecorded(scope: Scope, e: Expr, env: TypeEnv, loops: nat, depth: nat)
    requires e.ForLoop?
    ensures Records(scope, env, ExprTrace(scope, e, loops > 0, env), ExprSites(e, loops, depth))
    decreases e, 0
  {
    hide Records, Told, MarkSite, ClassifyMethodCall, MethodCallName;
    var source, body := e.source, e.body;
    var inLoop := loops > 0;
    var a := ExprTrace(scope, source, inLoop, env);
    var b := BlockTrace(scope, body, true, a.env);
    ExprRecorded(scope, source, env, loops, depth);
    BlockRecorded(scope, body, a.env, loops + 1, depth + 1);
    RecordsPlace(scope, a.env, b, LoopSite(loops, depth), BlockSites(body, loops + 1, depth + 1));
    RecordsJoin(scope, env, a, ExprSites(source, loops, depth), b, [LoopSite(loops, depth)] + BlockSites(body, loops + 1, depth + 1));
  }

  lemma {:induction false} MatchRecorded(scope: Scope, e: Expr, env: TypeEnv, loops: nat, depth: nat)
    requires e.Match?
    ensures Records(scope, env, ExprTrace(scope, e, loops > 0, env), ExprSites(e, loops, depth))
    decreases e, 0
  {
    hide Records, Told, MarkSite, ClassifyMethodCall, MethodCallName;
    var scrutinee, arms := e.scrutinee, e.arms;
    var inLoop := loops > 0;
    var a := ExprTrace(scope, scrutinee, inLoop, env);
    var b := ArmsTrace(scope, arms, inLoop, a.env);
    ExprRecorded(scope, scrutinee, env, loops, depth + 1);
    ArmsRecorded(scope, arms, a.env, loops, depth + 1);
    RecordsJoin(scope, env, a, ExprSites(scrutinee, loops, depth + 1), b, ArmsSites(arms, loops, depth + 1));
    RecordsPlace(scope, env, Then(a, b), Site(0, false, NoMark, loops, depth + 1, |arms|, |arms|), ExprSites(scrutinee, loops, depth + 1) + ArmsSites(arms, loops, depth + 1));
  }

  lemma {:induction false} BinaryRecorded(scope: Scope, e: Expr, env: TypeEnv, loops: nat, depth: nat)
    requires e.Binary?
    ensures Records(scope, env, ExprTrace(scope, e, loops > 0, env), ExprSites(e, loops, depth))
    decreases e, 0
  {
    hide Records, Told, MarkSite, ClassifyMethodCall, MethodCallName;
    var logical, left, right := e.logical, e.left, e.right;
    var inLoop := loops > 0;
    var a := ExprTrace(scope, left, inLoop, env);
    var b := ExprTrace(scope, right, inLoop, a.env);
    ExprRecorded(scope, left, env, loops, depth);
    ExprRecorded(scope, right, a.env, loops, depth);
    RecordsJoin(scope, env, a, ExprSites(left, loops, depth), b, ExprSites(right, loops, depth));
    RecordsPlace(scope, env, Then(a, b), Site(0, false, NoMark, loops, depth, 0, if logical then 1 else 0), ExprSites(left, loops, depth) + ExprSites(right, loops, depth));
  }

  lemma {:induction false} MethodCallRecorded(scope: Scope, e: Expr, env: TypeEnv, loops: nat, depth: nat)
    requires e.MethodCall?
    ensures Records(scope, env, ExprTrace(scope, e, loops > 0, env), ExprSites(e, loops, depth))
    decreases e, 0
  {
    hide Records, Told, MarkSite, ClassifyMethodCall, MethodCallName;
    var receiver, name, args, at := e.receiver, e.name, e.args, e.at;
    var inLoop := loops > 0;
    var own := CallEvent(MethodCallName(scope, receiver, name), at, ClassifyMethodCall(scope, env, receiver, name), inLoop);
    var a := ExprTrace(scope, receiver, inLoop, env);
    var b := ExprsTrace(scope, args, inLoop, a.env);
    ExprRecorded(scope, receiver, env, loops, depth);
    ExprsRecorded(scope, args, a.env, loops, depth);
    RecordsJoin(scope, env, a, ExprSites(receiver, loops, depth), b, ExprsSites(args, loops, depth));
    MethodCallTold(scope, env, receiver, name, at, loops, depth);
    RecordsCall(scope, env, own, ReceiverCall(receiver, name, at), loops, depth, Then(a, b), ExprSites(receiver, loops, depth) + ExprsSites(args, loops, depth));
    assert [own] + a.events + b.events == [own] + (a.events + b.events);
  }

  lemma {:induction false} OptionalRecorded(scope: Scope, e: Option<Expr>, env: TypeEnv, loops: nat, depth: nat)
    ensures Records(scope, env, OptionalTrace(scope, e, loops > 0, env), OptionalSites(e, loops, depth))
    decreases e, 0
  {
    hide Records;
    match e {
      case None => RecordsNothing(scope, env);
      case Some(x) => ExprRecorded(scope, x, env, loops, depth);
    }
  }

  lemma {:induction false} ExprsRecorded(scope: Scope, es: seq<Expr>, env: TypeEnv, loops: nat, depth: nat)
    ensures Records(scope, env, ExprsTrace(scope, es, loops > 0, env), ExprsSites(es, loops, depth))
    decreases es, 0
  {
    hide Records;
    if es == [] {
      RecordsNothing(scope, env);
    } else {
      var a := ExprTrace(scope, es[0], loops > 0, env);
      ExprRecorded(scope, es[0], env, loops, depth);
      ExprsRecorded(scope, es[1..], a.env, loops, depth);
      RecordsJoin(scope, env, a, ExprSites(es[0], loops, depth), ExprsTrace(scope, es[1..], loops > 0, a.env), ExprsSites(es[1..], loops, depth));
    }
  }

  lemma {:induction false} ArmRecorded(scope: Scope, arm: Arm, env: TypeEnv, loops: nat, depth: nat)
    ensures Records(scope, env, ArmTrace(scope, arm, loops > 0, env), ArmSites(arm, loops, depth))
    decreases arm, 1
  {
    hide Records;
    var a := OptionalTrace(scope, arm.guard, loops > 0, env);
    OptionalRecorded(scope, arm.guard, env, loops, depth);
    ExprRecorded(scope, arm.body, a.env, loops, depth);
    RecordsJoin(scope, env, a, OptionalSites(arm.guard, loops, depth), ExprTrace(scope, arm.body, loops > 0, a.env), ExprSites(arm.body, loops, depth));
  }

  lemma {:induction false} ArmsRecorded(scope: Scope, arms: seq<Arm>, env: TypeEnv, loops: nat, depth: nat)
    ensures Records(scope, env, ArmsTrace(scope, arms, loops > 0, env), ArmsSites(arms, loops, depth))
    decreases arms, 0
  {
    hide Records;
    if arms == [] {
      RecordsNothing(scope, env);
    } else {
      var a := ArmTrace(scope, arms[0], loops > 0, env);
      ArmRecorded(scope, arms[0], env, loops, depth);
      ArmsRecorded(scope, arms[1..], a.env, loops, depth);
      RecordsJoin(scope, env, a, ArmSites(arms[0], loops, depth), ArmsTrace(scope, arms[1..], loops > 0, a.env), ArmsSites(arms[1..], loops, depth));
    }
  }

  lemma {:induction false} StmtRecorded(scope: Scope, s: Stmt, env: TypeEnv, loops: nat, depth: nat)
    ensures Records(scope, env, StmtTrace(scope, s, loops > 0, env), StmtSites(s, loops, depth))
    decreases s, 1
  {
    hide Records, BindLet, MarkSite, Foreign;
    match s {
      case ExprStmt(e) => ExprRecorded(scope, e, env, loops, depth);
      case Local(pattern, init) =>
        var a := ExprTrace(scope, init, loops > 0, env);
        ExprRecorded(scope, init, env, loops, depth);
        LetTold(scope, a.env, pattern, init, loops, depth);
        RecordsJoin(scope, env, a, ExprSites(init, loops, depth), Trace([], BindLet(a.env, pattern, init)), [MarkSite(LetMark(pattern, init), loops, depth)]);
        assert a.events + [] == a.events;
      case NestedFn(params, body) =>
        var inner := scope.(enclosingType := None);
        BlockRecorded(inner, body, params, 0, 0);
        RecordsNested(scope, params, env, BlockTrace(inner, body, false, params), BlockSites(body, 0, 0));
      case OtherStmt => RecordsNothing(scope, env);
    }
  }

  /** The calls recorded of a block are the calls that stand in it, in order, each named, classified and known to be in
      a loop as its place in the block tells. */
  lemma {:induction false} BlockRecorded(scope: Scope, stmts: seq<Stmt>, env: TypeEnv, loops: nat, depth: nat)
    ensures Records(scope, env, BlockTrace(scope, stmts, loops > 0, env), BlockSites(stmts, loops, depth))
    decreases stmts, 0
  {
    hide Records;
    if stmts == [] {
      RecordsNothing(scope, env);
    } else {
      var a := StmtTrace(scope, stmts[0], loops > 0, env);
      StmtRecorded(scope, stmts[0], env, loops, depth);
      BlockRecorded(scope, stmts[1..], a.env, loops, depth);
      RecordsJoin(scope, env, a, StmtSites(stmts[0], loops, depth), BlockTrace(scope, stmts[1..], loops > 0, a.env), BlockSites(stmts[1..], loops, depth));
    }
  }

  // ----- the visitor's state as values -----

  datatype Counters = Counters(decisionPoints: nat, hasLoop: bool, hasNestedLoop: bool, maxDepth: nat, currentDepth: nat, loopDepth: nat, branchArms: nat)

  /** What visiting something with these facts does to the counters: the two depths come back as they were. */
  function Apply(c: Counters, f: Facts): (r: Counters)
    ensures r.currentDepth == c.currentDepth && r.loopDepth == c.loopDepth
  {
    c.(decisionPoints := c.decisionPoints + f.decisions,
       hasLoop := c.hasLoop || f.hasLoop,
       hasNestedLoop := c.hasNestedLoop || f.nestedLoop || (c.loopDepth > 0 && f.loopHere),
       maxDepth := Max(c.maxDepth, if f.depth == 0 then 0 else c.currentDepth + f.depth),
       branchArms := Max(c.branchArms, f.arms))
  }

  lemma ApplyJoin(c: Counters, a: Facts, b: Facts)
    ensures Apply(Apply(c, a), b) == Apply(c, Join(a, b))
  {
  }

  lemma ApplyNothing(c: Counters)
    ensures Apply(c, NOTHING) == c
  {
  }

  /** The counters just inside a loop. */
  function Inside(c: Counters): Counters {
    c.(currentDepth := c.currentDepth + 1, loopDepth := c.loopDepth + 1,
       hasNestedLoop := c.hasNestedLoop || c.loopDepth > 0, maxDepth := Max(c.maxDepth, c.currentDepth + 1))
  }

  /** Going in, applying the contents and coming out is applying the construct. */
  lemma BranchBrackets(c: Counters, f: Facts)
    ensures
      var inside := c.(decisionPoints := c.decisionPoints + 1, currentDepth := c.currentDepth + 1, maxDepth := Max(c.maxDepth, c.currentDepth + 1));
      Apply(inside, f).(currentDepth := c.currentDepth) == Apply(c, Branch(f))
  {
  }

  lemma DecideBrackets(c: Counters, n: nat, f: Facts)
    ensures Apply(c.(decisionPoints := c.decisionPoints + n), f) == Apply(c, Join(Decide(n), f))
  {
  }

  lemma LoopBrackets(c: Counters, f: Facts)
    ensures
      var inside := Inside(c.(decisionPoints := c.decisionPoints + 1, hasLoop := true));
      Apply(inside, f).(currentDepth := c.currentDepth, loopDepth := c.loopDepth) == Apply(c, LoopOver(f))
  {
  }

  lemma ForBrackets(c: Counters, source: Facts, f: Facts)
    ensures
      var inside := Inside(Apply(c.(decisionPoints := c.decisionPoints + 1, hasLoop := true), source));
      Apply(inside, f).(currentDepth := c.currentDepth, loopDepth := c.loopDepth) == Apply(c, Join(source, LoopOver(f)))
  {
  }

  lemma MatchBrackets(c: Counters, n: nat, f: Facts)
    ensures
      var inside := c.(decisionPoints := c.decisionPoints + n, branchArms := Max(c.branchArms, n), currentDepth := c.currentDepth + 1, maxDepth := Max(c.maxDepth, c.currentDepth + 1));
      Apply(inside, f).(currentDepth := c.currentDepth) == Apply(c, MatchOver(n, f))
  {
  }

  datatype Log = Log(calls: seq<string>, callsInLoops: seq<CallEvent>, env: TypeEnv)

  function Extend(log: Log, t: Trace): (r: Log)
    ensures r.env == t.env
  {
    Log(log.calls + Names(t.events), log.callsInLoops + LoopCalls(t.events), t.env)
  }

  lemma {:induction false} EventsConcat(a: seq<CallEvent>, b: seq<CallEvent>)
    ensures Names(a + b) == Names(a) + Names(b) && LoopCalls(a + b) == LoopCalls(a) + LoopCalls(b)
  {
    if b == [] {
      assert a + b == a;
    } else {
      assert (a + b)[..|a + b| - 1] == a + b[..|b| - 1];
      EventsConcat(a, b[..|b| - 1]);
    }
  }

  lemma OneEvent(e: CallEvent)
    ensures Names([e]) == [e.name] && LoopCalls([e]) == if e.inLoop then [e] else []
  {
  }

  lemma ExtendNothing(log: Log)
    ensures Extend(log, Trace([], log.env)) == log
  {
  }

  lemma ExtendThen(log: Log, a: Trace, b: Trace)
    ensures Extend(Extend(log, a), b) == Extend(log, Then(a, b))
  {
    EventsConcat(a.events, b.events);
    hide Names, LoopCalls;
  }

  // ----- each construct, step by step -----

  lemma IfFacts(e: Expr, c: Counters)
    requires e.If?
    ensures
      var inside := c.(decisionPoints := c.decisionPoints + 1, currentDepth := c.currentDepth + 1, maxDepth := Max(c.maxDepth, c.currentDepth + 1));
      Apply(Apply(Apply(inside, ExprFacts(e.cond)), BlockFacts(e.thenBranch)), OptionalFacts(e.elseBranch)).(currentDepth := c.currentDepth) == Apply(c, ExprFacts(e))
  {
    hide Apply, Branch, Join, BlockFacts, OptionalFacts;
    var inside := c.(decisionPoints := c.decisionPoints + 1, currentDepth := c.currentDepth + 1, maxDepth := Max(c.maxDepth, c.currentDepth + 1));
    var both := Join(ExprFacts(e.cond), BlockFacts(e.thenBranch));
    ApplyJoin(inside, ExprFacts(e.cond), BlockFacts(e.thenBranch));
    ApplyJoin(inside, both, OptionalFacts(e.elseBranch));
    BranchBrackets(c, Join(both, OptionalFacts(e.elseBranch)));
  }

  lemma IfTrace(scope: Scope, e: Expr, inLoop: bool, log: Log)
    requires e.If?
    ensures
      var a := ExprTrace(scope, e.cond, inLoop, log.env);
      var b := BlockTrace(scope, e.thenBranch, inLoop, a.env);
      Extend(Extend(Extend(log, a), b), OptionalTrace(scope, e.elseBranch, inLoop, b.env)) == Extend(log, ExprTrace(scope, e, inLoop, log.env))
  {
    hide Extend, Then, BlockTrace, OptionalTrace;
    var a := ExprTrace(scope, e.cond, inLoop, log.env);
    var b := BlockTrace(scope, e.thenBranch, inLoop, a.env);
    ExtendThen(log, a, b);
    ExtendThen(log, Then(a, b), OptionalTrace(scope, e.elseBranch, inLoop, b.env));
  }

  /** An `else` visited is its facts and its trace, and one that is not there changes nothing. */
  lemma NothingElse(scope: Scope, e: Expr, c: Counters, log: Log, inLoop: bool)
    requires e.If?
    ensures match e.elseBranch
      case Some(x) => OptionalFacts(e.elseBranch) == ExprFacts(x) && OptionalTrace(scope, e.elseBranch, inLoop, log.env) == ExprTrace(scope, x, inLoop, log.env)
      case None => Apply(c, OptionalFacts(e.elseBranch)) == c && Extend(log, OptionalTrace(scope, e.elseBranch, inLoop, log.env)) == log
  {
    hide ExprFacts, ExprTrace;
    ApplyNothing(c);
    ExtendNothing(log);
  }

  lemma WhileFacts(e: Expr, c: Counters)
    requires e.While?
    ensures
      var inside := Inside(c.(decisionPoints := c.decisionPoints + 1, hasLoop := true));
      Apply(Apply(inside, ExprFacts(e.cond)), BlockFacts(e.body)).(currentDepth := c.currentDepth, loopDepth := c.loopDepth) == Apply(c, ExprFacts(e))
  {
    hide Apply, Inside, LoopOver, Join, BlockFacts;
    ApplyJoin(Inside(c.(decisionPoints := c.decisionPoints + 1, hasLoop := true)), ExprFacts(e.cond), BlockFacts(e.body));
    LoopBrackets(c, Join(ExprFacts(e.cond), BlockFacts(e.body)));
  }

  lemma WhileTrace(scope: Scope, e: Expr, inLoop: bool, log: Log)
    requires e.While?
    ensures
      var a := ExprTrace(scope, e.cond, true, log.env);
      Extend(Extend(log, a), BlockTrace(scope, e.body, true, a.env)) == Extend(log, ExprTrace(scope, e, inLoop, log.env))
  {
    hide Extend, Then, BlockTrace;
    var a := ExprTrace(scope, e.cond, true, log.env);
    ExtendThen(log, a, BlockTrace(scope, e.body, true, a.env));
  }

  lemma ForFacts(e: Expr, c: Counters)
    requires e.ForLoop?
    ensures
      var inside := Inside(Apply(c.(decisionPoints := c.decisionPoints + 1, hasLoop := true), ExprFacts(e.source)));
      Apply(inside, BlockFacts(e.body)).(currentDepth := c.currentDepth, loopDepth := c.loopDepth) == Apply(c, ExprFacts(e))
  {
    hide Apply, Inside, LoopOver, Join, BlockFacts;
    ForBrackets(c, ExprFacts(e.source), BlockFacts(e.body));
  }

  lemma ForTrace(scope: Scope, e: Expr, inLoop: bool, log: Log)
    requires e.ForLoop?
    ensures
      var a := ExprTrace(scope, e.source, inLoop, log.env);
      Extend(Extend(log, a), BlockTrace(scope, e.body, true, a.env)) == Extend(log, ExprTrace(scope, e, inLoop, log.env))
  {
    hide Extend, Then, BlockTrace;
    var a := ExprTrace(scope, e.source, inLoop, log.env);
    ExtendThen(log, a, BlockTrace(scope, e.body, true, a.env));
  }

  lemma LoopFacts(e: Expr, c: Counters)
    requires e.Loop?
    ensures
      var inside := Inside(c.(decisionPoints := c.decisionPoints + 1, hasLoop := true));
      Apply(inside, BlockFacts(e.body)).(currentDepth := c.currentDepth, loopDepth := c.loopDepth) == Apply(c, ExprFacts(e))
  {
    hide Apply, Inside, LoopOver, BlockFacts;
    LoopBrackets(c, BlockFacts(e.body));
  }

  lemma LoopTrace(scope: Scope, e: Expr, inLoop: bool, log: Log)
    requires e.Loop?
    ensures Extend(log, BlockTrace(scope, e.body, true, log.env)) == Extend(log, ExprTrace(scope, e, inLoop, log.env))
  {
    hide Extend, BlockTrace;
  }

  lemma MatchFacts(e: Expr, c: Counters)
    requires e.Match?
    ensures
      var n := |e.arms|;
      var inside := c.(decisionPoints := c.decisionPoints + n, branchArms := Max(c.branchArms, n), currentDepth := c.currentDepth + 1, maxDepth := Max(c.maxDepth, c.currentDepth + 1));
      Apply(Apply(inside, ExprFacts(e.scrutinee)), ArmsFacts(e.arms)).(currentDepth := c.currentDepth) == Apply(c, ExprFacts(e))
  {
    hide Apply, MatchOver, Join, ArmsFacts;
    var n := |e.arms|;
    var inside := c.(decisionPoints := c.decisionPoints + n, branchArms := Max(c.branchArms, n), currentDepth := c.currentDepth + 1, maxDepth := Max(c.maxDepth, c.currentDepth + 1));
    ApplyJoin(inside, ExprFacts(e.scrutinee), ArmsFacts(e.arms));
    MatchBrackets(c, n, Join(ExprFacts(e.scrutinee), ArmsFacts(e.arms)));
  }

  lemma MatchTrace(scope: Scope, e: Expr, inLoop: bool, log: Log)
    requires e.Match?
    ensures
      var a := ExprTrace(scope, e.scrutinee, inLoop, log.env);
      Extend(Extend(log, a), ArmsTrace(scope, e.arms, inLoop, a.env)) == Extend(log, ExprTrace(scope, e, inLoop, log.env))
  {
    hide Extend, Then, ArmsTrace;
    var a := ExprTrace(scope, e.scrutinee, inLoop, log.env);
    ExtendThen(log, a, ArmsTrace(scope, e.arms, inLoop, a.env));
  }

  // ----- the visitor -----

  /** One function body's walk: counters that go up and down as the tree is entered and left, and two call logs. */
  class FunctionVisitor {
    var decisionPoints: nat
    var calls: seq<string>
    var callsInLoops: seq<CallEvent>
    var hasLoop: bool
    var hasNestedLoop: bool
    var maxDepth: nat
    var currentDepth: nat
    var loopDepth: nat
    var branchArms: nat
    var typeEnv: TypeEnv
    const scope: Scope

    ghost function Counted(): Counters
      reads this
    {
      Counters(decisionPoints, hasLoop, hasNestedLoop, maxDepth, currentDepth, loopDepth, branchArms)
    }

    ghost function Logged(): Log
      reads this
    {
      Log(calls, callsInLoops, typeEnv)
    }

    constructor (scope: Scope, params: TypeEnv)
      ensures this.scope == scope
      ensures Counted() == Counters(0, false, false, 0, 0, 0, 0)
      ensures Logged() == Log([], [], params)
    {
      this.scope := scope;
      decisionPoints, maxDepth, currentDepth, loopDepth, branchArms := 0, 0, 0, 0, 0;
      hasLoop, hasNestedLoop := false, false;
      calls, callsInLoops, typeEnv := [], [], params;
    }

    method RecordCall(name: string, at: nat, io: Io)
      modifies this`calls, this`callsInLoops
      ensures Logged() == Extend(old(Logged()), Trace([CallEvent(name, at, io, loopDepth > 0)], typeEnv))
    {
      if loopDepth > 0 {
        callsInLoops := callsInLoops + [CallEvent(name, at, io, true)];
      }
      calls := calls + [name];
      OneEvent(CallEvent(name, at, io, loopDepth > 0));
    }

    method BindName(pattern: Pattern, init: Expr)
      modifies this`typeEnv
      ensures typeEnv == BindLet(old(typeEnv), pattern, init)
    {
      var resolved: Option<string>;
      match pattern {
        case OtherPattern => return;
        case Typed(_, typeName) => resolved := typeName;
        case Ident(_) => resolved := ConstructorTypeName(UnwrapResultChain(init));
      }
      match resolved {
        case Some(t) => typeEnv := typeEnv[pattern.ident := t];
        case None => typeEnv := typeEnv - {pattern.ident};
      }
    }

    method VisitBlock(stmts: seq<Stmt>)
      modifies this
      ensures Counted() == Apply(old(Counted()), BlockFacts(stmts))
      ensures Logged() == Extend(old(Logged()), BlockTrace(scope, stmts, old(loopDepth) > 0, old(typeEnv)))
      decreases stmts, 0
    {
      hide Apply, Extend, Join, Names, LoopCalls, StmtFacts, StmtTrace, ExprFacts, ExprTrace;
      ApplyNothing(Counted());
      ExtendNothing(Logged());
      var i := 0;
      while i < |stmts|
        invariant 0 <= i <= |stmts|
        invariant loopDepth == old(loopDepth)
        invariant Apply(Counted(), BlockFacts(stmts[i..])) == Apply(old(Counted()), BlockFacts(stmts))
        invariant Extend(Logged(), BlockTrace(scope, stmts[i..], loopDepth > 0, typeEnv)) == Extend(old(Logged()), BlockTrace(scope, stmts, old(loopDepth) > 0, old(typeEnv)))
      {
        ghost var rest := stmts[i..];
        assert rest[1..] == stmts[i + 1..];
        ghost var before, log := Counted(), Logged();
        VisitStmt(stmts[i]);
        ApplyJoin(before, StmtFacts(stmts[i]), BlockFacts(rest[1..]));
        ExtendThen(log, StmtTrace(scope, stmts[i], loopDepth > 0, log.env), BlockTrace(scope, rest[1..], loopDepth > 0, typeEnv));
        i := i + 1;
      }
      ApplyNothing(Counted());
      ExtendNothing(Logged());
    }

    method VisitStmt(stmt: Stmt)
      modifies this
      ensures Counted() == Apply(old(Counted()), StmtFacts(stmt))
      ensures Logged() == Extend(old(Logged()), StmtTrace(scope, stmt, old(loopDepth) > 0, old(typeEnv)))
      decreases stmt, 1
    {
      match stmt {
        case ExprStmt(e) => VisitExpr(e);
        case Local(pattern, init) =>
          VisitExpr(init);
          BindName(pattern, init);
        case NestedFn(params, body) =>
          VisitNestedFn(params, body);
        case OtherStmt => ExtendNothing(Logged());
      }
    }

    /** A nested function is walked by a visitor of its own; its depth and its matches stay its own. */
    method VisitNestedFn(params: TypeEnv, body: seq<Stmt>)
      modifies this
      ensures Counted() == Apply(old(Counted()), Outward(BlockFacts(body)))
      ensures Logged() == Extend(old(Logged()), Trace(BlockTrace(scope.(enclosingType := None), body, false, params).events, old(typeEnv)))
      decreases body, 1
    {
      hide BlockFacts, BlockTrace, Names, LoopCalls;
      var inner := new FunctionVisitor(scope.(enclosingType := None), params);
      inner.VisitBlock(body);
      decisionPoints := decisionPoints + inner.decisionPoints;
      calls := calls + inner.calls;
      callsInLoops := callsInLoops + inner.callsInLoops;
      if inner.hasLoop {
        hasLoop := true;
      }
      if inner.hasNestedLoop {
        hasNestedLoop := true;
      }
    }

    method VisitExpr(e: Expr)
      modifies this
      ensures Counted() == Apply(old(Counted()), ExprFacts(e))
      ensures Logged() == Extend(old(Logged()), ExprTrace(scope, e, old(loopDepth) > 0, old(typeEnv)))
      decreases e, 1
    {
      match e {
        case If(_, _, _) => VisitIf(e);
        case While(_, _) => VisitWhile(e);
        case ForLoop(_, _) => VisitFor(e);
        case Loop(_) => VisitLoop(e);
        case Match(_, _) => VisitMatch(e);
        case Binary(_, _, _) => VisitBinary(e);
        case Call(_, _, _) => VisitCall(e);
        case MethodCall(_, _, _, _) => VisitMethodCall(e);
        case Block(stmts) => VisitBlock(stmts);
        case TryBlock(_) => VisitTryBlock(e);
        case Try(inner) => VisitExpr(inner);
        case Await(inner) => VisitExpr(inner);
        case Each(parts) => VisitEach(parts);
        case PathExpr(_) => ExtendNothing(Logged());
        case Leaf => ExtendNothing(Logged());
      }
    }

    method VisitIf(e: Expr)
      requires e.If?
      modifies this
      ensures Counted() == Apply(old(Counted()), ExprFacts(e))
      ensures Logged() == Extend(old(Logged()), ExprTrace(scope, e, old(loopDepth) > 0, old(typeEnv)))
      decreases e, 0
    {
      hide Apply, Extend, ExprFacts, ExprTrace, BlockFacts, BlockTrace, ArmsFacts, ArmsTrace, OptionalFacts, OptionalTrace;
      ghost var entered, log := Counted(), Logged();
      decisionPoints, currentDepth := decisionPoints + 1, currentDepth + 1;
      maxDepth := Max(maxDepth, currentDepth);
      VisitExpr(e.cond);
      VisitBlock(e.thenBranch);
      NothingElse(scope, e, Counted(), Logged(), entered.loopDepth > 0);
      if e.elseBranch.Some? {
        VisitElseBranch(e.elseBranch.value);
      }
      currentDepth := currentDepth - 1;
      IfFacts(e, entered);
      IfTrace(scope, e, entered.loopDepth > 0, log);
    }

    /** An `else if` is one more decision, one level deeper; any other else is visited where it stands. */
    method VisitElseBranch(e: Expr)
      modifies this
      ensures Counted() == Apply(old(Counted()), ExprFacts(e))
      ensures Logged() == Extend(old(Logged()), ExprTrace(scope, e, old(loopDepth) > 0, old(typeEnv)))
      decreases e, 2
    {
      match e {
        case If(_, _, _) => VisitIf(e);
        case Block(stmts) => VisitBlock(stmts);
        case _ => VisitExpr(e);
      }
    }

    method EnterLoop()
      modifies this`loopDepth, this`currentDepth, this`hasNestedLoop, this`maxDepth
      ensures Counted() == Inside(old(Counted()))
    {
      currentDepth, loopDepth := currentDepth + 1, loopDepth + 1;
      if loopDepth > 1 {
        hasNestedLoop := true;
      }
      maxDepth := Max(maxDepth, currentDepth);
    }

    method VisitWhile(e: Expr)
      requires e.While?
      modifies this
      ensures Counted() == Apply(old(Counted()), ExprFacts(e))
      ensures Logged() == Extend(old(Logged()), ExprTrace(scope, e, old(loopDepth) > 0, old(typeEnv)))
      decreases e, 0
    {
      hide Apply, Extend, ExprFacts, ExprTrace, BlockFacts, BlockTrace, ArmsFacts, ArmsTrace, OptionalFacts, OptionalTrace;
      ghost var entered, log := Counted(), Logged();
      decisionPoints, hasLoop := decisionPoints + 1, true;
      EnterLoop();
      VisitExpr(e.cond);
      VisitBlock(e.body);
      loopDepth, currentDepth := loopDepth - 1, currentDepth - 1;
      WhileFacts(e, entered);
      WhileTrace(scope, e, entered.loopDepth > 0, log);
    }

    /** The iterated expression runs once, so it is visited before the loop is entered. */
    method VisitFor(e: Expr)
      requires e.ForLoop?
      modifies this
      ensures Counted() == Apply(old(Counted()), ExprFacts(e))
      ensures Logged() == Extend(old(Logged()), ExprTrace(scope, e, old(loopDepth) > 0, old(typeEnv)))
      decreases e, 0
    {
      hide Apply, Extend, ExprFacts, ExprTrace, BlockFacts, BlockTrace, ArmsFacts, ArmsTrace, OptionalFacts, OptionalTrace;
      ghost var entered, log := Counted(), Logged();
      decisionPoints, hasLoop := decisionPoints + 1, true;
      VisitExpr(e.source);
      EnterLoop();
      VisitBlock(e.body);
      loopDepth, currentDepth := loopDepth - 1, currentDepth - 1;
      ForFacts(e, entered);
      ForTrace(scope, e, entered.loopDepth > 0, log);
    }

    method VisitLoop(e: Expr)
      requires e.Loop?
      modifies this
      ensures Counted() == Apply(old(Counted()), ExprFacts(e))
      ensures Logged() == Extend(old(Logged()), ExprTrace(scope, e, old(loopDepth) > 0, old(typeEnv)))
      decreases e, 0
    {
      hide Apply, Extend, ExprFacts, ExprTrace, BlockFacts, BlockTrace, ArmsFacts, ArmsTrace, OptionalFacts, OptionalTrace;
      ghost var entered, log := Counted(), Logged();
      decisionPoints, hasLoop := decisionPoints + 1, true;
      EnterLoop();
      VisitBlock(e.body);
      loopDepth, currentDepth := loopDepth - 1, currentDepth - 1;
      LoopFacts(e, entered);
      LoopTrace(scope, e, entered.loopDepth > 0, log);
    }

    method VisitMatch(e: Expr)
      requires e.Match?
      modifies this
      ensures Counted() == Apply(old(Counted()), ExprFacts(e))
      ensures Logged() == Extend(old(Logged()), ExprTrace(scope, e, old(loopDepth) > 0, old(typeEnv)))
      decreases e, 0
    {
      hide Apply, Extend, ExprFacts, ExprTrace, BlockFacts, BlockTrace, ArmsFacts, ArmsTrace, OptionalFacts, OptionalTrace;
      ghost var entered, log := Counted(), Logged();
      branchArms := Max(branchArms, |e.arms|);
      if |e.arms| > 0 {
        decisionPoints := decisionPoints + |e.arms|;
      }
      currentDepth := currentDepth + 1;
      maxDepth := Max(maxDepth, currentDepth);
      VisitExpr(e.scrutinee);
      VisitArms(e.arms);
      currentDepth := currentDepth - 1;
      MatchFacts(e, entered);
      MatchTrace(scope, e, entered.loopDepth > 0, log);
    }

    method VisitArms(arms: seq<Arm>)
      modifies this
      ensures Counted() == Apply(old(Counted()), ArmsFacts(arms))
      ensures Logged() == Extend(old(Logged()), ArmsTrace(scope, arms, old(loopDepth) > 0, old(typeEnv)))
      decreases arms, 0
    {
      hide Apply, Extend, Join, Names, LoopCalls, ArmFacts, ArmTrace, ExprFacts, ExprTrace;
      ApplyNothing(Counted());
      ExtendNothing(Logged());
      var i := 0;
      while i < |arms|
        invariant 0 <= i <= |arms|
        invariant loopDepth == old(loopDepth)
        invariant Apply(Counted(), ArmsFacts(arms[i..])) == Apply(old(Counted()), ArmsFacts(arms))
        invariant Extend(Logged(), ArmsTrace(scope, arms[i..], loopDepth > 0, typeEnv)) == Extend(old(Logged()), ArmsTrace(scope, arms, old(loopDepth) > 0, old(typeEnv)))
      {
        ghost var rest := arms[i..];
        assert rest[1..] == arms[i + 1..];
        ghost var before, log := Counted(), Logged();
        VisitArm(arms[i]);
        ApplyJoin(before, ArmFacts(arms[i]), ArmsFacts(rest[1..]));
        ExtendThen(log, ArmTrace(scope, arms[i], loopDepth > 0, log.env), ArmsTrace(scope, rest[1..], loopDepth > 0, typeEnv));
        i := i + 1;
      }
      ApplyNothing(Counted());
      ExtendNothing(Logged());
    }

    method VisitArm(arm: Arm)
      modifies this
      ensures Counted() == Apply(old(Counted()), ArmFacts(arm))
      ensures Logged() == Extend(old(Logged()), ArmTrace(scope, arm, old(loopDepth) > 0, old(typeEnv)))
      decreases arm, 1
    {
      hide Apply, Extend, Join, Names, LoopCalls, ExprFacts, ExprTrace;
      ghost var entered, log := Counted(), Logged();
      ghost var inLoop := loopDepth > 0;
      if arm.guard.Some? {
        VisitExpr(arm.guard.value);
      } else {
        ApplyNothing(Counted());
        ExtendNothing(Logged());
      }
      ghost var a := OptionalTrace(scope, arm.guard, inLoop, log.env);
      VisitExpr(arm.body);
      ApplyJoin(entered, OptionalFacts(arm.guard), ExprFacts(arm.body));
      ExtendThen(log, a, ExprTrace(scope, arm.body, inLoop, a.env));
    }

    method VisitBinary(e: Expr)
      requires e.Binary?
      modifies this
      ensures Counted() == Apply(old(Counted()), ExprFacts(e))
      ensures Logged() == Extend(old(Logged()), ExprTrace(scope, e, old(loopDepth) > 0, old(typeEnv)))
      decreases e, 0
    {
      hide Apply, Extend, Join;
      ghost var entered, log := Counted(), Logged();
      ghost var inLoop := loopDepth > 0;
      if e.logical {
        decisionPoints := decisionPoints + 1;
      }
      ghost var decided := Counted();
      VisitExpr(e.left);
      ghost var a := ExprTrace(scope, e.left, inLoop, log.env);
      VisitExpr(e.right);
      ApplyJoin(decided, ExprFacts(e.left), ExprFacts(e.right));
      DecideBrackets(entered, if e.logical then 1 else 0, Join(ExprFacts(e.left), ExprFacts(e.right)));
      ExtendThen(log, a, ExprTrace(scope, e.right, inLoop, a.env));
    }

    method VisitCall(e: Expr)
      requires e.Call?
      modifies this
      ensures Counted() == Apply(old(Counted()), ExprFacts(e))
      ensures Logged() == Extend(old(Logged()), ExprTrace(scope, e, old(loopDepth) > 0, old(typeEnv)))
      decreases e, 0
    {
      ghost var log := Logged();
      ghost var inLoop := loopDepth > 0;
      ghost var own: seq<CallEvent> := [];
      if e.path != [] {
        var name := FunctionCallName(scope, e.path);
        var io := ClassifyFunctionCall(scope, name);
        RecordCall(name, e.at, io);
        own := [CallEvent(name, e.at, io, inLoop)];
      } else {
        ExtendNothing(Logged());
      }
      VisitEach(e.args);
      ExtendThen(log, Trace(own, log.env), ExprsTrace(scope, e.args, inLoop, log.env));
    }

    /** The receiver's type is looked up as bound before the receiver itself is visited. */
    method VisitMethodCall(e: Expr)
      requires e.MethodCall?
      modifies this
      ensures Counted() == Apply(old(Counted()), ExprFacts(e))
      ensures Logged() == Extend(old(Logged()), ExprTrace(scope, e, old(loopDepth) > 0, old(typeEnv)))
      decreases e, 0
    {
      ghost var entered, log := Counted(), Logged();
      ghost var inLoop := loopDepth > 0;
      var io := ClassifyMethodCall(scope, typeEnv, e.receiver, e.name);
      var name := MethodCallName(scope, e.receiver, e.name);
      RecordCall(name, e.at, io);
      ghost var own := Trace([CallEvent(name, e.at, io, inLoop)], log.env);
      VisitExpr(e.receiver);
      ghost var a := ExprTrace(scope, e.receiver, inLoop, log.env);
      ExtendThen(log, own, a);
      VisitEach(e.args);
      ApplyJoin(entered, ExprFacts(e.receiver), ExprsFacts(e.args));
      ExtendThen(log, Then(own, a), ExprsTrace(scope, e.args, inLoop, a.env));
    }

    method VisitTryBlock(e: Expr)
      requires e.TryBlock?
      modifies this
      ensures Counted() == Apply(old(Counted()), ExprFacts(e))
      ensures Logged() == Extend(old(Logged()), ExprTrace(scope, e, old(loopDepth) > 0, old(typeEnv)))
      decreases e, 0
    {
      hide Apply, Branch, Extend, Join, Names, LoopCalls, BlockFacts, BlockTrace;
      ghost var entered := Counted();
      decisionPoints, currentDepth := decisionPoints + 1, currentDepth + 1;
      maxDepth := Max(maxDepth, currentDepth);
      VisitBlock(e.stmts);
      currentDepth := currentDepth - 1;
      BranchBrackets(entered, BlockFacts(e.stmts));
    }

    method VisitEach(parts: seq<Expr>)
      modifies this
      ensures Counted() == Apply(old(Counted()), ExprsFacts(parts))
      ensures Logged() == Extend(old(Logged()), ExprsTrace(scope, parts, old(loopDepth) > 0, old(typeEnv)))
      decreases parts, 0
    {
      hide Apply, Extend, Join, Names, LoopCalls, ExprFacts, ExprTrace;
      ApplyNothing(Counted());
      ExtendNothing(Logged());
      var i := 0;
      while i < |parts|
        invariant 0 <= i <= |parts|
        invariant loopDepth == old(loopDepth)
        invariant Apply(Counted(), ExprsFacts(parts[i..])) == Apply(old(Counted()), ExprsFacts(parts))
        invariant Extend(Logged(), ExprsTrace(scope, parts[i..], loopDepth > 0, typeEnv)) == Extend(old(Logged()), ExprsTrace(scope, parts, old(loopDepth) > 0, old(typeEnv)))
      {
        ghost var rest := parts[i..];
        assert rest[1..] == parts[i + 1..];
        ghost var before, log := Counted(), Logged();
        VisitExpr(parts[i]);
        ApplyJoin(before, ExprFacts(parts[i]), ExprsFacts(rest[1..]));
        ExtendThen(log, ExprTrace(scope, parts[i], loopDepth > 0, log.env), ExprsTrace(scope, rest[1..], loopDepth > 0, typeEnv));
        i := i + 1;
      }
      ApplyNothing(Counted());
      ExtendNothing(Logged());
    }
  }

  /** What is reported of a function. */
  datatype Measured = Measured(decisions: nat, depth: nat, branchArms: nat, hasLoop: bool, hasNestedLoop: bool, calls: seq<string>, callsInLoops: seq<CallEvent>)

  /** One function measured: a fresh visitor walks its body, and its counters are the report. */
  method MeasureBody(scope: Scope, params: TypeEnv, body: seq<Stmt>) returns (r: Measured)
    ensures Describes(BlockSites(body, 0, 0), Facts(r.decisions, r.depth, r.branchArms, r.hasLoop, BlockFacts(body).loopHere, r.hasNestedLoop), 0, 0)
    ensures r.hasNestedLoop <==> LoopInLoop(BlockSites(body, 0, 0))
    ensures r.calls == Names(SiteCalls(scope, params, BlockSites(body, 0, 0)))
    ensures r.callsInLoops == LoopCalls(SiteCalls(scope, params, BlockSites(body, 0, 0)))
  {
    hide BlockFacts, BlockTrace, BlockSites, SameTypes, Scoped, SiteCalls;
    var visitor := new FunctionVisitor(scope, params);
    visitor.VisitBlock(body);
    BlockDescribed(body, 0, 0);
    BlockRecorded(scope, body, params, 0, 0);
    r := Measured(visitor.decisionPoints, visitor.maxDepth, visitor.branchArms, visitor.hasLoop, visitor.hasNestedLoop, visitor.calls, visitor.callsInLoops);
  }
}
