# CodeImpact, verified

CodeImpact is a static analyser. This project models the data algorithms at its centre in Dafny and proves what they
promise. `dafny verify dfyconfig.toml` checks everything.

What is modelled, one module per component:

- **Call graph of a file** (`graphs`, `tarjan`, `chain_depth`, `call_graph`, `function_names`): Tarjan's algorithm with
  its mutable state, the reachable set, the memoised depth recursion, hidden and transitive complexity, unique names.
  The depth recursion ends only because Tarjan found every cycle; that argument is carried through to `Build`.
- **Consumption graph of a project** (`cycle_marking`, `consumption_chain`, `file_graph`, `metrics`, `median`,
  `metric_support`, `saturating`): a different cycle detector, three colours and back edges. It is sound and hits every
  cycle, which is what the depth recursion needs. It does not mark every file on a cycle; the exact condition under
  which it does is proved, in both directions, with an example where it fails.
- **Tree-sitter adapter** (`capture_sweep`, `capture_folding`, `deps_index`, `lexical_path`): the bracket-stack sweep
  against a plain scan, the fold of captures into measures, the dependency index cached by identity, lexical paths.
- **Rust visitor** (`function_visitor`): a mutable visitor with depth counters against a compositional reading of the
  tree, and that reading against a flat list of every place with what is written there and what surrounds it.
- **HTML report** (`html_tree`, `base64`): the folder trie built in a map, sorted in place and aggregated in postorder,
  and its agreement with the project totals computed another way.
- **Project run** (`project_run`): no file is lost between reading, measuring and reporting, the graph holds what the
  analyses gave, and the exit code is honest about it.
- **Text and time** (`console_sanitize`, `civil_date`): escaping that can be undone, day counts that can be undone.

Maps and sets of the program are iterated in an order nobody knows; the loops here pick an arbitrary element, so every
result holds for every order. `u32` saturation is written out; `f64` costs are `real`. Names and paths are compared for
equality only.

Where the program and its comments differ, the model follows the program:

- the comment at `file_consumption_graph.rs:255` speaks of files "part of at least one cycle"; the marking can miss one
  (`CycleMarking.ConfluenceMissesC`), and finds them all in every order exactly when the adjacency map meets the condition
  of `CycleMarking.ExactInEveryOrderIff`;
- `dedupe_names` is said to enforce uniqueness; it does exactly when no declared name already reads like an assigned
  suffix (`FunctionNames.DistinctIffNoClash`), which holds for every name a Rust path can have;
- `owning_function_indices` is said to give each capture the innermost function containing it; it does exactly when the
  capture is not an empty one where some function ends (`CaptureSweep.OwnerIsInnermostIff`), and otherwise drops it or
  gives it to a function that begins there (`CaptureSweep.EmptyCapturesMisplaced`);
- the dependency index is kept as long as the sources are the same object, whatever the source roots; that is right
  exactly when the same files lie under both (`DepsIndexing.SameIndexIff`, `DepsIndexing.StaleRoots`);
- the comment at `console_sanitize.rs:107` counts the whole tag block U+E0000 to U+E007F in; thirty-one unassigned
  characters of it go through (`ConsoleSanitize.TagBlockExactly`);
- the HTML tree is said to carry every file; a file whose path is a prefix of another's would hide it
  (`HtmlTree.AllSeenIffPrefixFree`), which no file system allows.

## Model

| member | source | states |
|---|---|---|
| `Tarjan.DetectCycles` | src/contexts/codeimpact/hexagon/src/analysis/call_graph.rs:160-171 | for every edge map and every order of roots and callees: `in_cycle` is exactly the set of nodes with a walk of at least one edge back to themselves; the suffixes popped on the way are strongly connected components and cover every vertex |
| `Tarjan.TarjanState.TarjanScc` | src/contexts/codeimpact/hexagon/src/analysis/call_graph.rs:173-227 | one visit keeps the stack, numbering and lowlink invariant and numbers the node; afterwards the node is popped in a finished component, or its lowlink names an older node still on the stack that it reaches |
| `Tarjan.TarjanState.VisitCallee` | src/contexts/codeimpact/hexagon/src/analysis/call_graph.rs:193-206 | one callee: after a tree edge the lowlink is the smaller of the old one and the callee's, after an edge to a stacked node the smaller of the old one and the callee's number, a popped callee changes nothing; the invariant of the running visit holds again |
| `Tarjan.TarjanState.VisitCallees` | src/contexts/codeimpact/hexagon/src/analysis/call_graph.rs:185-208 | the callee loop handles every callee and notices a self call |
| `Tarjan.TarjanState.CloseComponent` | src/contexts/codeimpact/hexagon/src/analysis/call_graph.rs:210-226 | at a root the stack returns to what it was before the visit, the nodes taken off are one component, and exactly they are marked, if they are two or the node calls itself; the invariant and the outcome of the visit hold |
| `Tarjan.TarjanState.PopComponent` | src/contexts/codeimpact/hexagon/src/analysis/call_graph.rs:211-220 | the pop loop takes exactly the stack suffix from the node on, and takes it off the on-stack set |
| `Tarjan.TarjanState.Push` | src/contexts/codeimpact/hexagon/src/analysis/call_graph.rs:178-183 | a fresh node gets the next number as number and lowlink and goes on the stack; its visit begins with the invariant |
| `Tarjan.Enter` | src/contexts/codeimpact/hexagon/src/analysis/call_graph.rs:178-183 | pushing a fresh node keeps the invariant |
| `Tarjan.AfterVisit` | src/contexts/codeimpact/hexagon/src/analysis/call_graph.rs:193-199 | folding a visited callee's lowlink keeps the running visit's invariant |
| `Tarjan.AfterNumbered` | src/contexts/codeimpact/hexagon/src/analysis/call_graph.rs:200-206 | so does an edge to a node numbered before, on the stack or not |
| `Tarjan.Keep` | src/contexts/codeimpact/hexagon/src/analysis/call_graph.rs:210-227 | a visit that ends with a lowlink below its own number leaves its node on the stack with a witness |
| `Tarjan.SuffixIsScc` | src/contexts/codeimpact/hexagon/src/analysis/call_graph.rs:210-220 | at a root the suffix of the stack is one strongly connected component, neither too small nor too large |
| `Tarjan.ComponentVerdict` | src/contexts/codeimpact/hexagon/src/analysis/call_graph.rs:221-225 | a node of the popped component lies on a cycle exactly when the component has two members or the node calls itself |
| `Tarjan.AllJudged` | src/contexts/codeimpact/hexagon/src/analysis/call_graph.rs:160-171 | when every key is numbered the verdicts and the components are those of the whole graph |
| `ChainDepth.DepthMemo.ComputeDepth` | src/contexts/codeimpact/hexagon/src/analysis/call_graph.rs:267-297 | ends whenever the marked nodes hit every cycle; the value, from any sound memo shared or fresh, is the length of the longest walk that goes on past no marked node, and the memo stays sound; the file graph has the same recursion at `file_consumption_graph.rs:470-500` |
| `ChainDepth.NotOnTrail` | src/contexts/codeimpact/hexagon/src/analysis/call_graph.rs:267-297 | the reason it ends: the running calls never meet an unmarked node twice |
| `ChainDepth.DepthStep` | src/contexts/codeimpact/hexagon/src/analysis/call_graph.rs:283-296 | one plus the largest depth among the callees is the depth of an unmarked node |
| `ChainDepth.CyclesAreHit` | src/contexts/codeimpact/hexagon/src/analysis/call_graph.rs:70-77 | exact cycle verdicts leave no cycle unmarked, so Tarjan's result is enough for the recursion |
| `CallGraphs.Visited.DfsReachable` | src/contexts/codeimpact/hexagon/src/analysis/call_graph.rs:241-254 | adds only what the node reaches, and leaves nothing newly seen with an unseen callee |
| `CallGraphs.ReachableFrom` | src/contexts/codeimpact/hexagon/src/analysis/call_graph.rs:235-239 | exactly the reflexive, transitive closure of calls from the node |
| `CallGraphs.Build` | src/contexts/codeimpact/hexagon/src/analysis/call_graph.rs:45-86 | a graph whose hidden complexities are the clamped sums over the reachable set without the function, whose cycle nodes are exactly those on a cycle and whose depth is the maximum over all functions |
| `CallGraphs.HiddenComplexities` | src/contexts/codeimpact/hexagon/src/analysis/call_graph.rs:56-68 | for each function, `min(2^32-1, sum of direct complexity over what it reaches, itself excluded)` |
| `CallGraphs.SaturatingTotal` | src/contexts/codeimpact/hexagon/src/analysis/call_graph.rs:56-68 | folding `saturating_add` over a set in any order gives the clamped true sum |
| `CallGraphs.MaxDepth` | src/contexts/codeimpact/hexagon/src/analysis/call_graph.rs:70-77 | the largest chain depth over the declared functions, one memo shared by all of them |
| `CallGraphs.CallGraph.CallChainDepth` | src/contexts/codeimpact/hexagon/src/analysis/call_graph.rs:116-122 | zero for an undeclared name, otherwise the function's own chain depth, never above the graph's maximum |
| `CallGraphs.CallGraph.TransitiveTotal` | src/contexts/codeimpact/hexagon/src/analysis/call_graph.rs:125-129 | the clamped sum of all transitive complexities, whatever the order of the map |
| `CallGraphs.TransitiveIsReachSum` | src/contexts/codeimpact/hexagon/src/analysis/call_graph.rs:95-103 | transitive complexity is the clamped direct complexity of the whole reachable set, the function included |
| `CallGraphs.TransitiveBounded` | src/contexts/codeimpact/hexagon/src/analysis/call_graph.rs:95-103 | it never exceeds the direct complexity of the file |
| `CallGraphs.TransitiveMonotone` | src/contexts/codeimpact/hexagon/src/analysis/call_graph.rs:95-103 | a caller weighs at least as much as anything it reaches |
| `CallGraphs.TransitiveEqualInScc` | src/contexts/codeimpact/hexagon/src/analysis/call_graph.rs:95-103 | all members of one strongly connected component weigh the same |
| `CallGraphs.LastDeclarationWins` | src/contexts/codeimpact/hexagon/src/analysis/call_graph.rs:45-52 | of several functions with one name the last one is kept |
| `CallGraphs.NoFunctionLost` | src/contexts/codeimpact/hexagon/src/analysis/call_graph.rs:45-52 | one entry per function exactly when the names are pairwise distinct |
| `FunctionNames.DedupeNames` | src/contexts/codeimpact/secondaries/src/gateways/code_parsers/syn_code_parser.rs:794-803 | in place, every name becomes itself at its first occurrence and `name#k` at its k-th |
| `FunctionNames.DistinctIffNoClash` | src/contexts/codeimpact/secondaries/src/gateways/code_parsers/syn_code_parser.rs:788-803 | the result is pairwise distinct exactly when no declared name reads like a suffix that another declaration receives |
| `FunctionNames.PlainNamesStayDistinct` | src/contexts/codeimpact/secondaries/src/gateways/code_parsers/syn_code_parser.rs:788-803 | so it is distinct for names without a `#digits` ending |
| `FunctionNames.ClashExample` | src/contexts/codeimpact/secondaries/src/gateways/code_parsers/syn_code_parser.rs:794-803 | the exception is real: `f`, `f`, `f#2` gives two functions called `f#2` |
| `FunctionNames.SuffixedInjective` | src/contexts/codeimpact/secondaries/src/gateways/code_parsers/syn_code_parser.rs:800-800 | base name and count can be told apart again in `base#count` |
| `FunctionNames.DedupedFileLosesNothing` | src/contexts/codeimpact/secondaries/src/gateways/code_parsers/syn_code_parser.rs:788-803 | with no such clash, the call graph of the renamed functions has one entry per function |
| `CycleMarking.CycleSearch.DfsCycle` | src/contexts/codeimpact/hexagon/src/analysis/file_consumption_graph.rs:378-414 | the three-colour search on mutable state computes `Dfs`, restores the path stack and ends |
| `CycleMarking.CycleSearch.MarkBackEdge` | src/contexts/codeimpact/hexagon/src/analysis/file_consumption_graph.rs:397-405 | marks exactly the stretch of the path from the callee on |
| `CycleMarking.DfsKeeps` | src/contexts/codeimpact/hexagon/src/analysis/file_consumption_graph.rs:378-414 | one visit keeps: grey is the path, marked files lie on marked cycles, a black file's edges go to black files unless it is marked, and no all-black cycle is unmarked |
| `CycleMarking.BackEdge` | src/contexts/codeimpact/hexagon/src/analysis/file_consumption_graph.rs:395-406 | a back edge closes a real cycle made of exactly the files it marks |
| `CycleMarking.MarkingSoundAndHitting` | src/contexts/codeimpact/hexagon/src/analysis/file_consumption_graph.rs:354-376 | for every order of keys and callees: what is marked is a union of real cycles, and every cycle holds a marked file |
| `CycleMarking.DetectCycles` | src/contexts/codeimpact/hexagon/src/analysis/file_consumption_graph.rs:354-376 | the search over all keys in the map's unknown order has both properties |
| `CycleMarking.VisitExactly` | src/contexts/codeimpact/hexagon/src/analysis/file_consumption_graph.rs:378-414 | what one visit sees and marks, exactly: it sees what is reachable through unvisited files, and marks a file of the path iff some edge from there leads back to the path at or above it |
| `CycleMarking.MarkedIffLeadsBack` | src/contexts/codeimpact/hexagon/src/analysis/file_consumption_graph.rs:378-414 | a visit marks the file it is for if and only if, at the moment it is entered, that file leads back to itself or the current path through unvisited files |
| `CycleMarking.ExactInEveryOrderIff` | src/contexts/codeimpact/hexagon/src/analysis/file_consumption_graph.rs:354-414 | the marked files are exactly the files on a cycle, for every order of the roots, if and only if every trail that ends on a cycle leads back at its end; a trail is a walk each of whose files is still new after the dependencies listed before it were followed, and the condition speaks of walks in the adjacency map only |
| `CycleMarking.ExactWithoutBranching` | src/contexts/codeimpact/hexagon/src/analysis/file_consumption_graph.rs:255-260 | a simple sufficient test: graphs whose cycles never branch are marked exactly in every order |
| `CycleMarking.ConfluenceMissesC` | src/contexts/codeimpact/hexagon/src/analysis/call_graph.rs:144-159 | the confluence a→b, a→c, b→d, c→d, d→a visited through b first: c is on a cycle and stays unmarked |
| `CycleMarking.ConfluenceHasBadTrail` | src/contexts/codeimpact/hexagon/src/analysis/call_graph.rs:144-159 | so the confluence fails the exact condition |
| `ConsumptionChain.ConsumptionChain` | src/contexts/codeimpact/hexagon/src/analysis/file_consumption_graph.rs:237-253 | the chain starts with the file, lists exactly the files it reaches and is the listing of the one whole walk from the file |
| `ConsumptionChain.WalkUnique` | src/contexts/codeimpact/hexagon/src/analysis/file_consumption_graph.rs:421-453 | from each file there is exactly one whole walk, which follows every dependency once in the order it is listed, so the chain is settled: each file where it is first met, each closure where it is met |
| `ConsumptionChain.ChainWalk.DfsChain` | src/contexts/codeimpact/hexagon/src/analysis/file_consumption_graph.rs:421-453 | ends on any graph; keeps the walk legal, restores the path but for one more dependency followed, sees only what is reachable |
| `ConsumptionChain.EnteredOnce` | src/contexts/codeimpact/hexagon/src/analysis/file_consumption_graph.rs:421-453 | no file is entered twice |
| `ConsumptionChain.ClosureIsCycle` | src/contexts/codeimpact/hexagon/src/analysis/file_consumption_graph.rs:432-436 | every further occurrence is met while the file is on the current path, whose last file depends on it: it closes a cycle |
| `ConsumptionChain.LeftBehindClosed` | src/contexts/codeimpact/hexagon/src/analysis/file_consumption_graph.rs:438-452 | what is left behind depends only on what is left behind or on the path |
| `ConsumptionChain.ListedCount` | src/contexts/codeimpact/hexagon/src/analysis/file_consumption_graph.rs:421-453 | a reachable file is listed once for being entered and once more per cycle closed on it |
| `FileConsumptionGraphs.Build` | src/contexts/codeimpact/hexagon/src/analysis/file_consumption_graph.rs:79-149 | succeeds exactly when every dependency links two listed files, otherwise names the first missing endpoint; on success adjacency, cycle marks and maximal depth mean what they claim |
| `FileConsumptionGraphs.MaxDepth` | src/contexts/codeimpact/hexagon/src/analysis/file_consumption_graph.rs:118-133 | the maximum of the per-file chain depths cut at marked files |
| `FileConsumptionGraphs.FileConsumptionGraph.ChainOf` | src/contexts/codeimpact/hexagon/src/analysis/file_consumption_graph.rs:237-253 | the chain of an unknown file is empty, of a known one exactly what it reaches, as the one whole walk lists it |
| `FileConsumptionGraphs.FileConsumptionGraph.AggregatedTotals` | src/contexts/codeimpact/hexagon/src/analysis/file_consumption_graph.rs:268-335 | the project's totals, maxima and counts as order-free sums over the files, clamped where the program saturates |
| `FileConsumptionGraphs.FileConsumptionGraph.AggregatedEcological` | src/contexts/codeimpact/hexagon/src/analysis/file_consumption_graph.rs:268-335 | absent when no file has an impact, otherwise the sums over the files that have one |
| `FileConsumptionGraphs.FileConsumptionGraph.MedianCyclomatic` | src/contexts/codeimpact/hexagon/src/analysis/file_consumption_graph.rs:596-613 | the median of exactly the files' cyclomatic complexities: twice it lies between the sum of the two middle values and one more |
| `FileConsumptionGraphs.FileConsumptionGraph.AggregatedSupport` | src/contexts/codeimpact/hexagon/src/analysis/language_capabilities.rs:148-186 | the verdict on an axis is the order-free one |
| `FileConsumptionGraphs.TargetsExactly` | src/contexts/codeimpact/hexagon/src/analysis/file_consumption_graph.rs:104-114 | a file's adjacency holds exactly the targets of its dependencies |
| `FileConsumptionGraphs.TargetsInOrder` | src/contexts/codeimpact/hexagon/src/analysis/file_consumption_graph.rs:104-114 | in the order the dependencies were given |
| `Median.MedianOf` | src/contexts/codeimpact/hexagon/src/analysis/file_consumption_graph.rs:596-613 | zero for no files; otherwise, with l and u the lower and upper middle of the sorted complexities, `l + u <= 2r <= l + u + 1` |
| `Median.MedianUnique` | src/contexts/codeimpact/hexagon/src/analysis/file_consumption_graph.rs:596-613 | a multiset has one median, so iteration order cannot matter |
| `Median.MiddleSplits` | src/contexts/codeimpact/hexagon/src/analysis/file_consumption_graph.rs:596-613 | at least half of the values lie on either side of the median |
| `MetricSupports.FoldAxis` | src/contexts/codeimpact/hexagon/src/analysis/language_capabilities.rs:148-186 | unsupported iff there is a file and all are unsupported, supported iff all are, otherwise degraded with the right counts and reasons |
| `MetricSupports.VerdictUnique` | src/contexts/codeimpact/hexagon/src/analysis/language_capabilities.rs:148-186 | the verdict depends on the contents only, not on the order of the fold |
| `MetricSupports.AxisTally.Record` | src/contexts/codeimpact/hexagon/src/analysis/language_capabilities.rs:243-253 | what one file adds to the tally |
| `MetricSupports.ResolveIsVerdict` | src/contexts/codeimpact/hexagon/src/analysis/language_capabilities.rs:255-277 | resolving a right tally gives the order-free verdict |
| `Metrics.ProjectTotalsAdd` | src/contexts/codeimpact/hexagon/src/analysis/file_consumption_graph.rs:279-295 | taking one more file into the running totals gives the totals of the larger set |
| `Metrics.ProjectTotalsRenamed` | src/contexts/codeimpact/hexagon/src/analysis/file_consumption_graph.rs:268-335 | the totals do not depend on the names the files are keyed by |
| `Metrics.CriticalCounted` | src/contexts/codeimpact/hexagon/src/analysis/file_consumption_graph.rs:268-335 | the critical warnings of a file are the places in its list with a critical one |
| `Saturating.SatAddClamps` | src/contexts/codeimpact/hexagon/src/analysis/call_graph.rs:56-68 | saturating early or late makes no difference |
| `CaptureSweep.OwningFunctionIndices` | src/contexts/codeimpact/secondaries/src/gateways/code_parsers/tree_sitter/tree_sitter_code_parser.rs:1276-1343 | the stack sweep gives every capture the owner a plain scan over all functions gives it, in order of position and as often as it was captured, the functions themselves left out; a capture ends with the innermost function containing it, or nowhere if there is none, exactly when it is not an empty one where some function ends |
| `CaptureSweep.NonFunctionsCount` | src/contexts/codeimpact/secondaries/src/gateways/code_parsers/tree_sitter/tree_sitter_code_parser.rs:1280-1284 | every capture is kept as often as it occurs, except those of functions |
| `CaptureSweep.OwnedAsOften` | src/contexts/codeimpact/secondaries/src/gateways/code_parsers/tree_sitter/tree_sitter_code_parser.rs:1297-1343 | a capture is listed with its owner and with no other function, as often as it was captured |
| `CaptureSweep.OwnerIsInnermostIff` | src/contexts/codeimpact/secondaries/src/gateways/code_parsers/tree_sitter/tree_sitter_code_parser.rs:1228-1275 | on well-nested functions the owner is the innermost function containing the capture, none if no function contains it, if and only if the capture is not an empty one at the end of a function |
| `CaptureSweep.EmptyCapturesMisplaced` | src/contexts/codeimpact/secondaries/src/gateways/code_parsers/tree_sitter/tree_sitter_code_parser.rs:1322-1339 | two functions side by side: an empty capture at the end of the last is dropped, one in between goes to the second although the first contains it too |
| `CaptureSweep.StackAgrees` | src/contexts/codeimpact/secondaries/src/gateways/code_parsers/tree_sitter/tree_sitter_code_parser.rs:1322-1339 | what the open stack answers for one capture is what the scan answers |
| `CaptureSweep.OpenUpTo` | src/contexts/codeimpact/secondaries/src/gateways/code_parsers/tree_sitter/tree_sitter_code_parser.rs:1304-1320 | opening every function that starts by then keeps the stack a nested chain and forgets none that is still open |
| `CaptureSweep.InnermostOpen` | src/contexts/codeimpact/secondaries/src/gateways/code_parsers/tree_sitter/tree_sitter_code_parser.rs:1333-1339 | the topmost open function that lasts at least as long as the capture, skipping inner ones that end before it |
| `CaptureFolding.FoldCaptures` | src/contexts/codeimpact/secondaries/src/gateways/code_parsers/tree_sitter/tree_sitter_code_parser.rs:1058-1141 | each function's tally, updated in place, counts the decisions among the captures the function owns and holds each node as often as it is owned: loops, nesting nodes, switch sections, calls |
| `CaptureFolding.TallyCounts` | src/contexts/codeimpact/secondaries/src/gateways/code_parsers/tree_sitter/tree_sitter_code_parser.rs:1094-1141 | folding one capture after the other puts every owned loop among the loops and the nesting nodes, every `if` and every switch label with a body among the nesting nodes, every such label among the sections, every call among the calls, as often as each is owned, and has a loop iff one is owned |
| `CaptureFolding.TalliedUnique` | src/contexts/codeimpact/secondaries/src/gateways/code_parsers/tree_sitter/tree_sitter_code_parser.rs:1094-1141 | two tallies of the same captures differ in the order of their nodes only |
| `CaptureFolding.CountsConserved` | src/contexts/codeimpact/secondaries/src/gateways/code_parsers/tree_sitter/tree_sitter_code_parser.rs:1058-1141 | decision points and calls summed over the functions are those counted over the owned captures |
| `CaptureFolding.DepthIsLongestChain` | src/contexts/codeimpact/secondaries/src/gateways/code_parsers/tree_sitter/tree_sitter_code_parser.rs:1361-1375 | on syntax nodes the nesting depth is the size of the longest containment chain |
| `CaptureFolding.CapUnreached` | src/contexts/codeimpact/secondaries/src/gateways/code_parsers/tree_sitter/tree_sitter_code_parser.rs:53-67 | the depth cap changes nothing for inputs that were not refused before |
| `CaptureFolding.NestedIffDepthTwo` | src/contexts/codeimpact/secondaries/src/gateways/code_parsers/tree_sitter/tree_sitter_code_parser.rs:1348-1355 | a nested loop is reported exactly when the loops nest two deep |
| `CaptureFolding.MaxSwitchSectionCount` | src/contexts/codeimpact/secondaries/src/gateways/code_parsers/tree_sitter/tree_sitter_code_parser.rs:1381-1398 | the section count of the largest single switch |
| `CaptureFolding.MeasureFunction` | src/contexts/codeimpact/secondaries/src/gateways/code_parsers/tree_sitter/tree_sitter_code_parser.rs:1157-1190 | refused exactly when a function has too many captures of a kind; otherwise nested loops, the longest containment chain of laminar captures, the widest switch, calls and calls in loops, each stated without the loop that computes it |
| `CaptureFolding.CallsInOrder` | src/contexts/codeimpact/secondaries/src/gateways/code_parsers/tree_sitter/tree_sitter_code_parser.rs:1169-1171 | the calls of a function come in source order already, so sorting them changes nothing |
| `CaptureFolding.AssignCaptures` | src/contexts/codeimpact/secondaries/src/gateways/code_parsers/tree_sitter/tree_sitter_code_parser.rs:1058-1194 | the whole file: refused iff one function owns too many captures of a kind; otherwise each function's measures are those of the captures it owns, a call is told as a call in a loop, as often as it is owned, iff an owned loop of the same function contains it, calls come out by start, and decisions and calls add up to those of all owned captures |
| `CaptureFolding.CallsToldApart` | src/contexts/codeimpact/secondaries/src/gateways/code_parsers/tree_sitter/tree_sitter_code_parser.rs:1168-1190 | of the calls a function owns exactly those contained in a loop it owns are calls in loops, each as often as it is owned |
| `DepsIndexing.TreeSitterParser.DepsIndexFor` | src/contexts/codeimpact/secondaries/src/gateways/code_parsers/tree_sitter/tree_sitter_code_parser.rs:312-340 | the cache answers with the index of the very sources it is asked for, under the roots of the call that built it; that is the index for the roots asked about exactly when the same files lie under both |
| `DepsIndexing.TreeSitterParser.ResolveDependencies` | src/contexts/codeimpact/secondaries/src/gateways/code_parsers/tree_sitter/tree_sitter_code_parser.rs:406-472 | the answer is the one computed from scratch from that index; an inadmissible source is refused and leaves the cache alone |
| `DepsIndexing.ResolveAll` | src/contexts/codeimpact/secondaries/src/gateways/code_parsers/tree_sitter/tree_sitter_code_parser.rs:406-472 | over any sequence of calls in which contexts sharing a sources object agree on which of its files lie under their roots, every answer is the one computed from scratch for its own context |
| `DepsIndexing.BuildDepsIndex` | src/contexts/codeimpact/secondaries/src/gateways/code_parsers/tree_sitter/tree_sitter_code_parser.rs:526-560 | the loop over the files builds the index the specification describes |
| `DepsIndexing.DeclarersExact` | src/contexts/codeimpact/secondaries/src/gateways/code_parsers/tree_sitter/tree_sitter_code_parser.rs:526-560 | the index lists as declarers of a name exactly the in-root files that declare it |
| `DepsIndexing.DeclarersInOrder` | src/contexts/codeimpact/secondaries/src/gateways/code_parsers/tree_sitter/tree_sitter_code_parser.rs:526-560 | file by file, each as often as it declares the name |
| `DepsIndexing.UnderAnyRootMeans` | src/contexts/codeimpact/secondaries/src/gateways/code_parsers/tree_sitter/tree_sitter_code_parser.rs:494-496 | a path lies under a root when it goes on from it; without roots every path counts |
| `DepsIndexing.Targets` | src/contexts/codeimpact/secondaries/src/gateways/code_parsers/tree_sitter/tree_sitter_code_parser.rs:526-560 | a relative import may resolve to exactly the scanned files under a root |
| `DepsIndexing.ReferencesExact` | src/contexts/codeimpact/secondaries/src/gateways/code_parsers/tree_sitter/tree_sitter_code_parser.rs:539-543 | the references looked up are those of the last readable copy of a file |
| `DepsIndexing.NamespaceResolutionExact` | src/contexts/codeimpact/secondaries/src/gateways/code_parsers/tree_sitter/tree_sitter_code_parser.rs:430-448 | under the namespace strategy: without repetition, exactly the other in-root files that declare a namespace the file references |
| `DepsIndexing.AnswerExact` | src/contexts/codeimpact/secondaries/src/gateways/code_parsers/tree_sitter/tree_sitter_code_parser.rs:406-448 | the whole answer under the namespace strategy: refused for its size or an unreadable text, otherwise without repetition exactly the other in-root files that declare a namespace the last readable copy of the file references |
| `DepsIndexing.RelativeAnswerExact` | src/contexts/codeimpact/secondaries/src/gateways/code_parsers/tree_sitter/tree_sitter_code_parser.rs:406-470 | the whole answer under the relative strategy: refused for the same two reasons, otherwise without repetition exactly what the relative imports of the last readable copy resolve to |
| `DepsIndexing.RelativeResolutionExact` | src/contexts/codeimpact/secondaries/src/gateways/code_parsers/tree_sitter/tree_sitter_code_parser.rs:449-470 | under the relative strategy: without repetition, for each import that starts with `./` or `../`, the first present candidate of the path it names from the file's directory, never the file itself |
| `DepsIndexing.FirstUsesInOrder` | src/contexts/codeimpact/secondaries/src/gateways/code_parsers/tree_sitter/tree_sitter_code_parser.rs:430-470 | results come in the order of their first use |
| `DepsIndexing.MentionsInOrder` | src/contexts/codeimpact/secondaries/src/gateways/code_parsers/tree_sitter/tree_sitter_code_parser.rs:430-470 | references are followed in the order they stand in |
| `DepsIndexing.SameIndexIff` | src/contexts/codeimpact/secondaries/src/gateways/code_parsers/tree_sitter/tree_sitter_code_parser.rs:526-560 | two lists of source roots give the same index exactly when the same files lie under them |
| `DepsIndexing.StaleRoots` | src/contexts/codeimpact/secondaries/src/gateways/code_parsers/tree_sitter/tree_sitter_code_parser.rs:312-340 | one parser asked twice about the same sources under different roots answers the second time for the first roots, unlike a parser asked only under the second |
| `LexicalPath.NormalizeLexically` | src/contexts/codeimpact/secondaries/src/gateways/code_parsers/tree_sitter/tree_sitter_code_parser.rs:599-615 | the stack machine computes the normal form, or fails; the laws below fix that form |
| `LexicalPath.ParentUndoesName` | src/contexts/codeimpact/secondaries/src/gateways/code_parsers/tree_sitter/tree_sitter_code_parser.rs:604-610 | `norm(a + [name, ..] + b) = norm(a + b)`: a parent step undoes the named segment right before it, wherever the two stand |
| `LexicalPath.CurrentChangesNothing` | src/contexts/codeimpact/secondaries/src/gateways/code_parsers/tree_sitter/tree_sitter_code_parser.rs:603-603 | `norm(a + [.] + b) = norm(a + b)` |
| `LexicalPath.PlainUnchanged` | src/contexts/codeimpact/secondaries/src/gateways/code_parsers/tree_sitter/tree_sitter_code_parser.rs:599-615 | a path without `.` and `..` is its own normal form |
| `LexicalPath.NormalizedIsPlain` | src/contexts/codeimpact/secondaries/src/gateways/code_parsers/tree_sitter/tree_sitter_code_parser.rs:599-615 | no `.` and no `..` is left |
| `LexicalPath.FailsIffClimbsOut` | src/contexts/codeimpact/secondaries/src/gateways/code_parsers/tree_sitter/tree_sitter_code_parser.rs:592-615 | it fails exactly on paths that climb past their start, and otherwise keeps as many segments as names outnumber parents |
| `LexicalPath.Idempotent` | src/contexts/codeimpact/secondaries/src/gateways/code_parsers/tree_sitter/tree_sitter_code_parser.rs:599-615 | normalising twice changes nothing |
| `LexicalPath.NormalizePrefixFirst` | src/contexts/codeimpact/secondaries/src/gateways/code_parsers/tree_sitter/tree_sitter_code_parser.rs:599-615 | `norm(a + b) = norm(norm(a) + b)` |
| `LexicalPath.CandidateCount` | src/contexts/codeimpact/secondaries/src/gateways/code_parsers/tree_sitter/tree_sitter_code_parser.rs:642-680 | one or two candidates for a known extension, fourteen otherwise, seven when there is no file name |
| `LexicalPath.ScriptCandidates` | src/contexts/codeimpact/secondaries/src/gateways/code_parsers/tree_sitter/tree_sitter_code_parser.rs:644-651 | `stem.js` means itself, then `stem.ts`; likewise `mjs`, `mts` and `cjs`, `cts`; the other known extensions mean themselves only |
| `LexicalPath.DirectoryCandidates` | src/contexts/codeimpact/secondaries/src/gateways/code_parsers/tree_sitter/tree_sitter_code_parser.rs:652-680 | without a known extension: the seven files of the name, then the seven index files of the directory, in the order ts, mts, cts, js, jsx, mjs, cjs; only the index files when there is no file name |
| `LexicalPath.KnownExtensionMeans` | src/contexts/codeimpact/secondaries/src/gateways/code_parsers/tree_sitter/tree_sitter_code_parser.rs:643-645 | a name has a known extension exactly when it is a non-empty stem, a dot and one of the seven |
| `LexicalPath.FirstPresentExact` | src/contexts/codeimpact/secondaries/src/gateways/code_parsers/tree_sitter/tree_sitter_code_parser.rs:581-590 | the first candidate that is present, and none only if none is |
| `LexicalPath.ResolvesWithinTargets` | src/contexts/codeimpact/secondaries/src/gateways/code_parsers/tree_sitter/tree_sitter_code_parser.rs:581-590 | an import that climbs out resolves to nothing, any other to the first of its candidates that was scanned, or to nothing if none was; differently spelt base directories that mean the same give the same answer |
| `FunctionVisiting.MeasureBody` | src/contexts/codeimpact/secondaries/src/gateways/code_parsers/syn_code_parser.rs:287-308 | a fresh visitor's counters are what a reader counts from above: decisions, deepest nesting, widest match, any loop; a nested loop iff some loop of a function has another loop of that function around it. The call log is what the places of the body tell, in order: each call's name, position, class and whether a loop of its own function is around it, from what is written there and the places before it |
| `FunctionVisiting.FunctionVisitor.VisitExpr` | src/contexts/codeimpact/secondaries/src/gateways/code_parsers/syn_code_parser.rs:946-1190 | visiting an expression changes the counters by the compositional facts of the expression and extends the logs by its trace; both depths come back as they were |
| `FunctionVisiting.FunctionVisitor.VisitFor` | src/contexts/codeimpact/secondaries/src/gateways/code_parsers/syn_code_parser.rs:978-1002 | the iterated expression is visited outside the loop, the body inside |
| `FunctionVisiting.FunctionVisitor.VisitWhile` | src/contexts/codeimpact/secondaries/src/gateways/code_parsers/syn_code_parser.rs:962-977 | the condition is visited inside the loop |
| `FunctionVisiting.FunctionVisitor.VisitIf` | src/contexts/codeimpact/secondaries/src/gateways/code_parsers/syn_code_parser.rs:948-961 | one decision and one level around condition and branches |
| `FunctionVisiting.FunctionVisitor.VisitElseBranch` | src/contexts/codeimpact/secondaries/src/gateways/code_parsers/syn_code_parser.rs:1192-1212 | an `else if` is visited as the `if` it is |
| `FunctionVisiting.FunctionVisitor.VisitMatch` | src/contexts/codeimpact/secondaries/src/gateways/code_parsers/syn_code_parser.rs:1018-1036 | a decision per arm, one level, the widest match remembered |
| `FunctionVisiting.FunctionVisitor.VisitCall` | src/contexts/codeimpact/secondaries/src/gateways/code_parsers/syn_code_parser.rs:1044-1071 | a path call is recorded before its arguments are visited; nothing is recorded for a callee that is no path |
| `FunctionVisiting.FunctionVisitor.VisitMethodCall` | src/contexts/codeimpact/secondaries/src/gateways/code_parsers/syn_code_parser.rs:1072-1096 | a method call is recorded and classified by the bindings in force before its receiver is visited |
| `FunctionVisiting.FunctionVisitor.VisitBlock` | src/contexts/codeimpact/secondaries/src/gateways/code_parsers/syn_code_parser.rs:902-906 | statements in order, bindings carried along |
| `FunctionVisiting.FunctionVisitor.VisitStmt` | src/contexts/codeimpact/secondaries/src/gateways/code_parsers/syn_code_parser.rs:908-944 | an expression, a `let` that binds after its value is visited, or a nested function |
| `FunctionVisiting.FunctionVisitor.VisitNestedFn` | src/contexts/codeimpact/secondaries/src/gateways/code_parsers/syn_code_parser.rs:919-940 | a nested function restarts all counters; its decisions, loops and calls are taken over, its depth and matches are not, its loops are not loops of the outer function, and its bindings do not leak |
| `FunctionVisiting.FunctionVisitor.RecordCall` | src/contexts/codeimpact/secondaries/src/gateways/code_parsers/syn_code_parser.rs:858-869 | logs the name always and the classified call only inside a loop |
| `FunctionVisiting.FunctionVisitor.BindName` | src/contexts/codeimpact/secondaries/src/gateways/code_parsers/syn_code_parser.rs:877-900 | a binding of unknown type erases what the name meant |
| `FunctionVisiting.BlockDescribed` | src/contexts/codeimpact/secondaries/src/gateways/code_parsers/syn_code_parser.rs:902-1212 | the compositional facts agree with the list of every counted place, each with the loops and constructs around it in its own function |
| `FunctionVisiting.BlockRecorded` | src/contexts/codeimpact/secondaries/src/gateways/code_parsers/syn_code_parser.rs:858-1212 | the calls recorded of a block are those its places tell: a path call under its path, a leading `Self` replaced by the type around the function it stands in, none for a nested one; a method call under its name, qualified on a bare `self`; its class from the last `let` of the receiver's name before it in the same function, or the parameters |
| `FunctionVisiting.LastSpeakerDecides` | src/contexts/codeimpact/secondaries/src/gateways/code_parsers/syn_code_parser.rs:877-900 | the type of a receiver is what the last `let` of its name in the same function gives it, a `let` of unknown type giving none |
| `FunctionVisiting.ConstructedIs` | src/contexts/codeimpact/secondaries/src/gateways/code_parsers/syn_code_parser.rs:586-615 | the type a `let` infers is that of the constructor call under any number of `?`, `.await`, `.unwrap()`, `.expect()` |
| `FunctionVisiting.NestedCalls` | src/contexts/codeimpact/secondaries/src/gateways/code_parsers/syn_code_parser.rs:919-940 | the calls of a nested function are told from its own places, parameters and no enclosing type |
| `FunctionVisiting.PathJoined` | src/contexts/codeimpact/secondaries/src/gateways/code_parsers/syn_code_parser.rs:1064-1064 | a recorded path is its segments with `::` between them |
| `HtmlTree.BuildTree` | src/contexts/codeimpact/secondaries/src/gateways/report_writers/html/view_model.rs:578-667 | the trie is a rooted tree whose nodes are exactly the prefixes of the files, children in display order, and every visible folder carries the totals of the files it accounts for and its children's warnings in display order |
| `HtmlTree.Tree.PlaceFile` | src/contexts/codeimpact/secondaries/src/gateways/report_writers/html/view_model.rs:604-661 | placing a file creates the missing folders on its way, once, and keeps the tree |
| `HtmlTree.Tree.SortChildren` | src/contexts/codeimpact/secondaries/src/gateways/report_writers/html/view_model.rs:550-568 | reorders children only: folders before files, folders by name, files by falling score then name |
| `HtmlTree.Tree.Aggregate` | src/contexts/codeimpact/secondaries/src/gateways/report_writers/html/view_model.rs:450-518 | the postorder recursion ends, changes only numbers of folders under the node, and settles every folder there |
| `HtmlTree.AbsorbSums` | src/contexts/codeimpact/secondaries/src/gateways/report_writers/html/view_model.rs:480-495 | taking in one child's numbers gives the numbers of both file sets together, although every folder saturates on its own |
| `HtmlTree.AllSeenIffPrefixFree` | src/contexts/codeimpact/secondaries/src/gateways/report_writers/html/view_model.rs:604-667 | the project accounts for every file exactly when no file's path is a prefix of another's |
| `HtmlTree.FilesAreLeaves` | src/contexts/codeimpact/secondaries/src/gateways/report_writers/html/view_model.rs:604-661 | each file is a leaf and stands exactly once, among its parent's children |
| `HtmlTree.RootIsProject` | src/contexts/codeimpact/secondaries/src/gateways/report_writers/html/view_model.rs:450-518 | the project node's direct, transitive and hidden totals, warnings, depth and I/O count equal those `aggregated_metrics` computes from the same files under their full paths |
| `HtmlTree.OrderUnique` | src/contexts/codeimpact/secondaries/src/gateways/report_writers/html/view_model.rs:548-568 | siblings have different names, so their display order does not depend on how the map was iterated |
| `HtmlTree.OrderedIsDisplayed` | src/contexts/codeimpact/secondaries/src/gateways/report_writers/html/view_model.rs:548-568 | no file stands above a folder, folders go by name, files by falling score and those of one score by name |
| `HtmlTree.LexLeMeans` | src/contexts/codeimpact/secondaries/src/gateways/report_writers/html/view_model.rs:562-563 | names compare by the first character they differ in, and a prefix comes first |
| `HtmlTree.HiddenFileIsLost` | src/contexts/codeimpact/secondaries/src/gateways/report_writers/html/view_model.rs:607-620 | a file is not accounted for exactly when another file's path is a proper prefix of its own |
| `ProjectRun.HandleProject` | src/contexts/codeimpact/hexagon/src/analysis/run_analysis.rs:84-232 | strict exit 0 under a threshold means every listed file was analysed, no subtree unexplored and the impacts the analyses gave, added up, within every limit; 3 exactly for a strict run in which those impacts exceed a limit, 4 exactly for a strict gate on an incomplete view, 1 exactly for a failed run |
| `ProjectRun.RunProject` | src/contexts/codeimpact/hexagon/src/analysis/run_analysis.rs:495-582 | fails only for too much source or nothing analysed, never for a dangling dependency; otherwise the graph holds the listed files that are readable, dispatched and analysed, as listed, each with what its analysis gave, and the dependencies the parsers resolved between two of them; every other file is named with its reason, and both together are, as a multiset, the listed and the dropped ones |
| `ProjectRun.GraphHoldsAnalysed` | src/contexts/codeimpact/hexagon/src/analysis/run_analysis.rs:150-153 | the metrics in the graph are those the analyses gave, file by file |
| `ProjectRun.MeasuredInOrder` | src/contexts/codeimpact/hexagon/src/analysis/run_analysis.rs:132-153 | the files of the graph stand in the order they are listed in |
| `ProjectRun.KeptDependencies` | src/contexts/codeimpact/hexagon/src/analysis/run_analysis.rs:181-218 | the dependencies are those between two analysed files that the parser of the first resolves, from the importing file to the imported one |
| `ProjectRun.AllRefusalsExactly` | src/contexts/codeimpact/hexagon/src/analysis/run_analysis.rs:101-170 | the unmeasurable files are those the walk dropped and each listed file without metrics, for the reason it has none |
| `ProjectRun.ReadAllSources` | src/contexts/codeimpact/hexagon/src/analysis/run_analysis.rs:245-276 | aborts exactly when the readable sources together exceed the cap; otherwise keeps the readable ones in order and names the others |
| `ProjectRun.BytesOfReadable` | src/contexts/codeimpact/hexagon/src/analysis/run_analysis.rs:256-257 | the bytes held against the cap are those of the sources that could be read |
| `ProjectRun.MeasureAll` | src/contexts/codeimpact/hexagon/src/analysis/run_analysis.rs:132-200 | each source ends in the graph or among the unmeasurable with the reason the failure gives; dependencies are resolved even where the analysis failed |
| `ProjectRun.DropDanglingEdges` | src/contexts/codeimpact/hexagon/src/analysis/run_analysis.rs:370-380 | keeps exactly the dependencies between two measured files |
| `ProjectRun.KeptInOrder` | src/contexts/codeimpact/hexagon/src/analysis/run_analysis.rs:376-379 | in order and as often as they were given |
| `ProjectRun.ReadingConserves` | src/contexts/codeimpact/hexagon/src/analysis/run_analysis.rs:245-276 | reading loses no file and invents none |
| `ProjectRun.MeasuringConserves` | src/contexts/codeimpact/hexagon/src/analysis/run_analysis.rs:132-200 | neither does measuring |
| `ProjectRun.Evaluate` | src/contexts/codeimpact/hexagon/src/analysis/alert_thresholds.rs:99-112 | breaches exactly when a measured impact is above a configured limit; an unmeasured impact never breaches |
| `ProjectRun.FullyMeasuredIff` | src/contexts/codeimpact/hexagon/src/analysis/run_analysis.rs:324-339 | there is nothing unmeasurable and no unexplored subtree exactly when every listed file is analysed and the walk dropped and skipped nothing |
| `ProjectRun.WithinLimitsIff` | src/contexts/codeimpact/hexagon/src/analysis/run_analysis.rs:287-298 | the one total the gate evaluates decides for every order of the fold |
| `Base64.Encode` | src/contexts/codeimpact/secondaries/src/gateways/report_writers/html/base64.rs:9-40 | the chunk loop, with its shifts and its alphabet, writes the encoding of section 4 of RFC 4648, stated on groups of six bits and the table of the standard |
| `Base64.RoundTrip` | src/contexts/codeimpact/secondaries/src/gateways/report_writers/html/base64.rs:9-40 | a strict decoder inverts it on every byte sequence |
| `Base64.Shape` | src/contexts/codeimpact/secondaries/src/gateways/report_writers/html/base64.rs:9-40 | length 4·ceil(n/3), alphabet symbols first, padding only at the end and in the right number |
| `Base64.AlphabetIsTable` | src/contexts/codeimpact/secondaries/src/gateways/report_writers/html/base64.rs:42-44 | the alphabet agrees with the standard's table |
| `Base64.EncodedInjective` | src/contexts/codeimpact/secondaries/src/gateways/report_writers/html/base64.rs:9-40 | different inputs give different texts |
| `ConsoleSanitize.SanitizeConsoleText` | src/contexts/codeimpact/hexagon/src/analysis/console_sanitize.rs:70-82 | the push loop writes the escaped text |
| `ConsoleSanitize.RoundTrip` | src/contexts/codeimpact/hexagon/src/analysis/console_sanitize.rs:47-82 | an unescaper recovers every input |
| `ConsoleSanitize.SanitizedInjective` | src/contexts/codeimpact/hexagon/src/analysis/console_sanitize.rs:47-82 | so no two inputs look the same |
| `ConsoleSanitize.NothingNeutralizedLeft` | src/contexts/codeimpact/hexagon/src/analysis/console_sanitize.rs:70-138 | no neutralised character is left in the output |
| `ConsoleSanitize.NeutralizedExactly` | src/contexts/codeimpact/hexagon/src/analysis/console_sanitize.rs:89-138 | the characters neutralised, range by range |
| `ConsoleSanitize.TagBlockExactly` | src/contexts/codeimpact/hexagon/src/analysis/console_sanitize.rs:104-138 | of the tag block U+E0000 to U+E007F all are escaped but U+E0000 and U+E0002 to U+E001F |
| `ConsoleSanitize.UnchangedIffPlain` | src/contexts/codeimpact/hexagon/src/analysis/console_sanitize.rs:70-91 | text is unchanged exactly when it has no backslash and no neutralised character |
| `CivilDate.DaysToDate` | src/contexts/codeimpact/secondaries/src/gateways/report_writers/json_report_writer.rs:597-626 | for every day count: both loops end, the month loop always breaks, the date is valid and counting days to it (RFC 3339 section 5.7 and Appendix C) gives the count back |
| `CivilDate.CountOrdersDates` | src/contexts/codeimpact/secondaries/src/gateways/report_writers/json_report_writer.rs:597-626 | the day count orders valid dates, so later days give later dates and no two days one date |
| `CivilDate.FormatTimestamp` | src/contexts/codeimpact/secondaries/src/gateways/report_writers/json_report_writer.rs:575-594 | date and time of day put together give the seconds back |
| `CivilDate.NextYear` | src/contexts/codeimpact/secondaries/src/gateways/report_writers/json_report_writer.rs:628-630 | the leap rule and the closed Gregorian count agree year by year |

## Left out

- File walking, glob and ignore rules, configuration, canonical paths: a listing is input data.
- `syn`, tree-sitter and the `.scm` queries: the model starts from a syntax tree, or from captures as `(id, start, end)` with the parent and child lookups as data.
- The probe process, timeouts, threads and mutex poisoning: a refusal is an outcome of the parser or the reader.
- Report text, HTML, CSS and scripts, serialisation, percentages and number formatting.
- Rounding of `f64`: costs are `real`, so the order of additions does not matter here as it can in floating point.
- The economic impact and its fold, which has the same form as the ecological one; cost levels and efficiency classes, which are derived from the numbers.
- The constant tables of I/O types, prefixes and suspicious names: parameters of the visitor's scope.
- `u32` overflow of plain `+=` counters in the visitor and the capture fold: they are natural numbers here; `usize` totals likewise.
- The library sorts: written out as insertion sorts with the contract the program relies on.
- Splitting of path text into components: a `Path` arrives as components, an import text through the profile's `components`.
- The text of a degraded support verdict: modelled as its counts and its set of reasons.
- The Rust adapter's own dependency resolution and the collection of functions from items and `impl` blocks: string cases that one reading settles.
- Single-file runs, JSON output and the stress test: the project run is the one that can lose files.
- HtmlTree.BuildTree: requires every id to be non-empty, which holds because a project's target is a directory; ids arrive in sorted order, of which only "a prefix precedes what extends it" is used.
- HtmlTree.Tree.Aggregate: the I/O list of a node is its length, and warnings keep severity and line only.
- CaptureSweep.OwningFunctionIndices: requires the function spans to be non-empty, nested or apart and sorted by start, as a syntax tree gives them.
- CycleMarking.ExactWithoutBranching: one direction only, as a simple test; the exact condition is `CycleMarking.ExactInEveryOrderIff`.
- DepsIndexing.TreeSitterParser.DepsIndexFor: promises the roots of the call that built the index, because the program does not compare roots; the same contract says when that makes no difference.
- ProjectRun.HandleProject: stands for the console handler; the JSON and HTML handlers make the same run through `ProjectRun.RunProject` and the same gate. Reading one path twice is assumed to give one answer.
