# Verified model of the graph analyses and the id-indexed stores

This project models the hard part of the library in Dafny and proves what it is for, for every graph, every root and
every run of operations.

- **Dominators** (`LengauerTarjan.dfy` with `DfsNumbering.dfy`, `PredTally.dfy`, `LinkEvalForest.dfy` and
  `DominatorSteps.dfy`; `NumberingTransfer.dfy`, `Dominators.dfy`, `Dominance.dfy`, `SearchOrder.dfy`,
  `DominatorTree.dfy`; on top of `Walks.dfy`, `Search.dfy`, `PreorderTree.dfy`, `Semidominators.dfy`, `Cfg.dfy`). The specification is one line: `d` dominates `w`
  when every walk from the root to `w` meets `d`. The algorithm is the code's own: recursive numbering, a
  path-compressed link-eval forest, semidominators, buckets and a final fix-up pass over a class with those tables.
  The immediate dominators, dominator sets, tree children and frontiers it yields are proved to be the path-defined
  ones.
- **Post-dominators** (`PostDominators.dfy`). Chaotic in-place iteration terminates at the greatest fixed point, and
  that fixed point is a meet over all complete runs.
- **Program-structure tree** (`EdgeRoutes.dfy`, `UnionFind.dfy`, `CycleClasses.dfy`, `SeseRegions.dfy`, `Sorting.dfy`,
  `SeseSelection.dfy`, `RegionNesting.dfy`, `SeseTree.dfy`, `FlowGraphs.dfy`, `TreeShapes.dfy`, `ComputeSese.dfy`,
  `TreeContents.dfy`, `TreeUnique.dfy`, `ChildOrder.dfy`, `ProperGraphs.dfy`; concrete graphs in `SmallGraphs.dfy`,
  `ImproperFlowGraph.dfy`, `TwinRegions.dfy`, `LateLoop.dfy`; the undirected numbering in `UndirectedNumbering.dfy` and
  `UndirectedDfs.dfy`). Edge dominance, cycle classes, candidate regions, canonical selection and the nested tree,
  over arbitrary multigraphs. A flowgraph is *proper* when every node reaches the synthetic exit; theorems that need
  this say so, and `ProperIffTerminating` says what it means for the input graph.
- **Stores** (`RecyclingArena.dfy` with `RecyclingModel.dfy`, `StableArena.dfy` with `StableArenaState.dfy` and
  `StableArenaWire.dfy`, `Registry.dfy` with `DoublingLayout.dfy`, `OwningGraph.dfy` with `GraphTables.dfy`,
  `GraphViews.dfy`, `GraphTraversal.dfy` and `DepthFirstOrder.dfy`). Each is a class whose fields are the source's fields and whose every run refines a plain
  model: options and a stack of ids, a map and a cursor, a sequence, a node set and an edge table.

`Counting.dfy` holds three facts about set sizes. A method that the source runs in place is a method here, proved
against functions and predicates on values; the laws are then lemmas about those values. Where the source iterates
over a hash container, the model takes the elements in an arbitrary order, so the results hold for every order.
In a contract, `true == P(...)` is just `P(...)`; it only keeps the verifier from taking the predicate apart there.

## Where the code and its documentation differ

The model follows the code; each difference is stated as a theorem.

- "The root dominates only itself" holds exactly when no edge leads from the root to another node
  (`RootDominatesOnlyItselfIff`, `RootDominatesSuccessor`); what holds always is that only the root dominates the root
  (`RootDominators`).
- "Exit nodes post-dominate only themselves" holds of an exit exactly when from every other node control can get to
  another exit or dead end without coming to it (`ExitPostDominatesOnlyItselfIff`, `ExitPostDominatesOther`); what holds
  always is that an exit is post-dominated by itself only (`ExitPostDominators`).
- The documented dominance frontier contains the root whenever control flows back to it; the code passes the root over.
  The map it returns is the documented one exactly when no reachable edge enters the root (`FrontierAsDocumentedIff`,
  `FrontierOmitsRoot`).
- The documentation of post-dominance speaks of paths to an exit; the code also stops at dead ends. The notions agree
  exactly when every dead end is an exit, or there is only one node (`AsDocumentedIff`, `DeadEndDiffers`).
- `merge_nodes` takes the direct edge out of both incidence sets but leaves its record in the edge table
  (`MergeLeavesDirectEdge`). Afterwards the successors and the edge list still show the same edges exactly when the graph
  had another edge from the kept node to the removed one or a self-loop of the removed node, and the two were different
  (`MergedViewsAgreeIff`; `OneEdgeSplitsViews` is the smallest graph on which they do not). The other edges keep agreeing
  with the incidence sets exactly when none of them is a self-loop of the removed node (`MergeAgreesIff`,
  `SelfLoopLosesEnd`), and under the same condition removing the stale record repairs the tables (`RepairIff`).
- The classes of the bracket pass never survive their validation in `compute_sese` and `compute_sese_candidates`: the
  check includes the diagonal, and the back edge from the synthetic exit lies on a cycle (`BackEdgeOnCycle`,
  `JppCycleClasses`).
- The exit law of candidates can fail: a candidate has exactly one way out if and only if no other edge leads from its
  region into a part from which the exit is out of reach (`ExitLawIff`), so always in a proper flowgraph. `CandidateLeaks`
  gives a graph whose flowgraph has a candidate with a second way out.
- That each region is the disjoint union of its own nodes and its children's contained nodes can fail: it holds if and
  only if no two of the canonical candidates that cross nothing have the same nodes (`SplitsUpIffChosenDiffer`, in the
  contract of `ComputeSese`), so always in a proper flowgraph. `TwinTree` gives a graph whose tree does not split up.
- The children of a region are documented to be in entry-edge order. They are in order of size, largest first, and by
  entry edge only among those of one size (`ChildrenBySize`). The two orders are the same exactly when of two siblings of
  different size the larger one always has the smaller entry edge (`EntryOrderIff`); `LoopTree` gives a graph, with a
  proper flowgraph, on which they are not.

## Model

| member | source | states |
|---|---|---|
| `Dominance.ImmediateDominatorUnique` | src/graph/analysis/dominator.rs:67-71 | a reachable node has at most one immediate dominator, so the `idom` map is determined by the graph |
| `Dominance.DominatorsFormChain` | src/graph/analysis/dominator.rs:190-193 | any two dominators of a reachable node are ordered by dominance, by splicing two detours at the last visit |
| `Dominance.DominatorsOfIdom` | src/graph/analysis/dominator.rs:203-210 | the dominators of a node are the node itself and those of its immediate dominator, the step of the idom chain walk |
| `Dominance.DominatesTrans` | src/graph/analysis/dominator.rs:3-6 | dominance is transitive |
| `Dominance.DominatesAntisym` | src/graph/analysis/dominator.rs:3-6 | two reachable nodes that dominate each other are equal |
| `Dominance.RootDominators` | src/graph/analysis/dominator.rs:3-6 | only the root dominates the root, the reading of the documentation that holds |
| `Dominance.RootDominatesOnlyItselfIff` | src/graph/analysis/dominator.rs:6-6 | the root dominates no other reachable node exactly when no edge leads from it to another node |
| `Dominance.RootDominatesSuccessor` | src/graph/analysis/dominator.rs:6-6 | on the graph with the one edge 0 to 1 the root 0 dominates 1 |
| `Semidominators.DominatesIffTree` | src/graph/analysis/dominator.rs:246-276 | dominance in the numbered graph, both ways: a tree ancestor whose descendants on the path all have semidominators at or above it |
| `Semidominators.SemiIsAncestor` | src/graph/analysis/dominator.rs:246-257 | every vertex with a walk to `w` through higher numbers only that is numbered below `w` is a tree ancestor of `w` |
| `Semidominators.SemiAtMostParent` | src/graph/analysis/dominator.rs:246-257 | the semidominator is an ancestor of the vertex and no closer than its parent |
| `Semidominators.SemiThroughSubtree` | src/graph/analysis/dominator.rs:249-254 | a semidominator walk to `u`, the tree path down to `v` and the edge `v -> w` make a semidominator walk to `w` |
| `Semidominators.SemiSplit` | src/graph/analysis/dominator.rs:249-254 | every semidominator walk to `w` is offered by some predecessor: directly, or through an ancestor of the predecessor above `w` |
| `DfsNumbering.PushedOk` | src/graph/analysis/dominator.rs:340-352 | pushing a vertex below the open vertex keeps number and vertex inverse, the parents a preorder tree along edges, and the predecessor facts |
| `DfsNumbering.RecordedOk` | src/graph/analysis/dominator.rs:365-373 | recording an edge out of the open vertex keeps the fact that an edge to a higher number comes from an ancestor |
| `DfsNumbering.VisitEnd` | src/graph/analysis/dominator.rs:354-375 | when the successor loop ends, every edge out of the visited vertex and out of everything numbered after it is recorded |
| `PredTally.RecordTallied` | src/graph/analysis/dominator.rs:368-373 | recording an edge of the open vertex counts it once more and touches no other count |
| `PredTally.ChildTallied` | src/graph/analysis/dominator.rs:363-366 | the visit of a child changes no count of the vertices numbered before it |
| `LengauerTarjan.LtState.constructor` | src/graph/analysis/dominator.rs:320-334 | the initial tables are an empty numbering |
| `LengauerTarjan.LtState.PushVertex` | src/graph/analysis/dominator.rs:340-352 | the new vertex gets the next number and every table grows by its initial entry |
| `LengauerTarjan.LtState.Dfs` | src/graph/analysis/dominator.rs:354-375 | the call numbers the node and everything newly reachable from it, closes their edges, keeps all older entries and puts the new vertices below the parent |
| `LinkEvalForest.PointerCompose` | src/graph/analysis/dominator.rs:381-395 | one compression step: two stacked pointers make one whose label is as good as every linked vertex it skips |
| `LinkEvalForest.ForestRootUnique` | src/graph/analysis/dominator.rs:381-395 | the forest root a compressed pointer ends at is determined by the tree and the linked vertices, not by the compressions done |
| `DominatorSteps.ForestLinked` | src/graph/analysis/dominator.rs:377-379 | linking the next lower vertex to its parent keeps the forest invariant |
| `LengauerTarjan.LtState.Compress` | src/graph/analysis/dominator.rs:381-395 | compression keeps the forest, leaves the pointer of a linked vertex at its forest root, touches nothing above the vertex, and terminates |
| `LengauerTarjan.LtState.Eval` | src/graph/analysis/dominator.rs:397-409 | the result has least `semi` on the tree path from `v` up to and including its forest root, whatever compressions went before |
| `DominatorSteps.EvalIsCandidate` | src/graph/analysis/dominator.rs:249-254 | what `eval` offers for a predecessor is a genuine semidominator walk, the folded-in forest root included |
| `DominatorSteps.EvalSettles` | src/graph/analysis/dominator.rs:260-269 | for a bucket vertex the folded-in root never wins: the entry written is its semidominator or the vertex of least semidominator below it |
| `DominatorSteps.SemiExact` | src/graph/analysis/dominator.rs:246-254 | once every predecessor has been seen, `semi[w]` is the least vertex with a walk to `w` through higher numbers |
| `LengauerTarjan.LtState.Consider` | src/graph/analysis/dominator.rs:249-254 | one predecessor: `semi[w]` stays a candidate and is at most everything that predecessor offers |
| `LengauerTarjan.LtState.ComputeSemi` | src/graph/analysis/dominator.rs:246-254 | after the predecessor loop `semi[w]` is the true semidominator and no other `semi` entry has changed |
| `LengauerTarjan.LtState.SettleVertex` | src/graph/analysis/dominator.rs:260-269 | the entry written for a bucket vertex is its relative dominator, and final |
| `DominatorSteps.BucketEmptied` | src/graph/analysis/dominator.rs:260-269 | after the bucket is emptied every processed vertex waits in the bucket of its semidominator or is settled |
| `LengauerTarjan.LtState.EmptyBucket` | src/graph/analysis/dominator.rs:260-269 | emptying the parent's bucket restores the main loop's bucket invariant for the next vertex |
| `LengauerTarjan.LtState.Round` | src/graph/analysis/dominator.rs:246-270 | one round moves all three invariants (forest, semidominators, buckets) one vertex down |
| `LengauerTarjan.LtState.MainLoop` | src/graph/analysis/dominator.rs:246-270 | after the reverse loop every `semi` entry is the true semidominator and every `idom` entry a relative dominator |
| `DominatorSteps.SettledBelowSemi` | src/graph/analysis/dominator.rs:272-276 | the vertex of least semidominator on the path has the same closest strict dominator |
| `DominatorSteps.TreeIdomIsImmediate` | src/graph/analysis/dominator.rs:272-276 | the closest strict dominator in tree terms is the immediate dominator in walk terms |
| `LengauerTarjan.LtState.FixUpEntry` | src/graph/analysis/dominator.rs:272-276 | one entry becomes the closest strict dominator in tree terms, the others stay |
| `LengauerTarjan.LtState.FixUp` | src/graph/analysis/dominator.rs:272-276 | after the pass every entry is the immediate dominator of its vertex in the numbered graph |
| `NumberingTransfer.NumberingIsDfsTree` | src/graph/analysis/dominator.rs:354-375 | the finished numbering is a depth-first spanning tree: an edge to a higher number is an ancestor edge |
| `NumberingTransfer.NumberedIffReachable` | src/graph/analysis/dominator.rs:239-244 | exactly the nodes reachable from the root are numbered |
| `NumberingTransfer.DominanceAgrees` | src/graph/analysis/dominator.rs:278-295 | dominance between numbers is dominance between the nodes they stand for |
| `Dominators.ToNodes` | src/graph/analysis/dominator.rs:278-295 | the converted maps are the correct immediate dominators and reachable predecessors, each as often as its edge was recorded; the root's predecessor list is empty |
| `Dominators.RunLengauerTarjan` | src/graph/analysis/dominator.rs:233-298 | for every graph, node set and root: `idom` is defined on exactly the reachable nodes other than the root and holds the immediate dominator of each; `preds` lists each reachable predecessor exactly as often as its iterator yields the node; a root outside the set gives empty maps |
| `SearchOrder.ReachableFromRoot` | src/graph/analysis/dominator.rs:18-34 | the result lists exactly the reachable nodes, each once, the root first, in the preorder of a depth-first spanning tree in which each node is, of its parent's successors in iterator order, the last one not visited before it |
| `SearchOrder.OrderUnique` | src/graph/analysis/dominator.rs:18-34 | the graph and the root determine the list: there is only one order with these properties |
| `SearchOrder.VisitedInLine` | src/graph/analysis/dominator.rs:22-31 | visiting a node and pushing its unvisited successors keeps every stack entry behind exactly the visited and the higher ones of its parent's later successors |
| `DominatorTrees.InducedAgrees` | src/graph/analysis/dominator.rs:167-184 | restricting the graph to the reachable nodes changes neither reachability from the root nor dominance |
| `DominatorTrees.ComputeDominators` | src/graph/analysis/dominator.rs:167-184 | the tree is correct for the whole graph, its predecessor lists with multiplicities |
| `DominatorTrees.ComputeDominatorSets` | src/graph/analysis/dominator.rs:194-215 | the chain walks terminate and yield for every reachable node exactly its path-defined dominators |
| `DominatorTrees.DecidesDominance` | src/graph/analysis/dominator.rs:82-98 | the query answers true exactly when the node is reachable and every walk to it meets the dominator |
| `DominatorTrees.ChildrenMap` | src/graph/analysis/dominator.rs:73-80 | a node is listed under another, once, exactly when that is its immediate dominator; nodes without children have no entry |
| `DominatorTrees.FrontierCut` | src/graph/analysis/dominator.rs:135-144 | a predecessor contributes to the frontiers of exactly those of its dominators that do not dominate `idom(y)`: where the climb stops |
| `DominatorTrees.ShortcutSound` | src/graph/analysis/dominator.rs:131-133 | a node with fewer than two recorded predecessors is in no frontier, so the shortcut skips nothing |
| `DominatorTrees.Climb` | src/graph/analysis/dominator.rs:135-144 | the inner loop adds `y` to exactly the frontiers this predecessor contributes to |
| `DominatorTrees.DominatorFrontier` | src/graph/analysis/dominator.rs:117-149 | for every reachable `n`: `y` is listed exactly when `y` is not the root, `n` dominates a predecessor of `y` and does not strictly dominate `y` |
| `DominatorTrees.FrontierAsDocumentedIff` | src/graph/analysis/dominator.rs:110-129 | the map that the frontier pass returns is the documented one, at every node, exactly when no reachable edge enters the root |
| `DominatorTrees.FrontierOmitsRoot` | src/graph/analysis/dominator.rs:122-129 | a root that jumps to itself is in its documented frontier, which the code leaves out |
| `PostDominators.IntersectSets` | src/graph/analysis/post_dominator.rs:68-85 | no sets give the empty set, otherwise exactly the common elements |
| `PostDominators.Updated` | src/graph/analysis/post_dominator.rs:44-57 | the new entry holds exactly what the node's equation says: the node, and what all its successors in the region agree on |
| `PostDominators.UpdateKeepsDescending` | src/graph/analysis/post_dominator.rs:44-62 | overwriting one entry shrinks it and keeps the table above post-dominance |
| `PostDominators.Sweep` | src/graph/analysis/post_dominator.rs:38-63 | one pass makes the total size of the table fall, or changes nothing and every equation holds |
| `PostDominators.ComputePostdominators` | src/graph/analysis/post_dominator.rs:19-66 | the iteration terminates with exactly post-dominance: `p` is on every run from `n` inside the region that ends at its first exit or dead end |
| `PostDominators.GreatestSolution` | src/graph/analysis/post_dominator.rs:8-9 | every other solution of the equations is below the result, entry by entry |
| `PostDominators.PostDominanceIsSolution` | src/graph/analysis/post_dominator.rs:8-9 | the result itself solves the equations, so that with the row above it is their greatest solution |
| `PostDominators.PostDominatesUnfolds` | src/graph/analysis/post_dominator.rs:44-57 | post-dominance over runs satisfies the data-flow equation at every node |
| `PostDominators.AsDocumentedIff` | src/graph/analysis/post_dominator.rs:3-6 | the documented notion (every path to an exit) is the computed one exactly when every dead end is an exit, or there is one node |
| `PostDominators.DeadEndDiffers` | src/graph/analysis/post_dominator.rs:50-57 | two isolated nodes without exits on which the notions differ |
| `PostDominators.ExitPostDominators` | src/graph/analysis/post_dominator.rs:6-6 | an exit is post-dominated by itself only, the reading of the documentation that holds |
| `PostDominators.PostDominatesIffNoEscape` | src/graph/analysis/post_dominator.rs:4-5 | a node post-dominates another exactly when, with it taken out, no exit or dead end can be reached from the other one |
| `PostDominators.ExitPostDominatesOnlyItselfIff` | src/graph/analysis/post_dominator.rs:6-6 | an exit post-dominates only itself exactly when control can escape it from every other node |
| `PostDominators.ExitPostDominatesOther` | src/graph/analysis/post_dominator.rs:6-6 | with nodes 0 and 1, the edge 1 to 0 and the exit 0, the exit post-dominates 1 |
| `EdgeRoutes.Reachable` | src/graph/analysis/sese.rs:646-675 | the array marks exactly the nodes joined to the start, forwards or backwards, by a route that does not use the skipped edge |
| `EdgeRoutes.CutAt` | src/graph/analysis/sese.rs:677-695 | walk surgery: an edge can be avoided altogether, or its ends are joined to the route's ends by routes without it |
| `UnionFind.HalvingKeepsRoots` | src/graph/analysis/sese.rs:616-622 | path halving changes no representative |
| `UnionFind.Find` | src/graph/analysis/sese.rs:616-622 | the representative is returned and the forest stands for the same partition |
| `UnionFind.UnionRoots` | src/graph/analysis/sese.rs:626-628 | hanging one root below a smaller one redirects exactly the members of its tree |
| `CycleClasses.ComputeCycleEquivalent` | src/graph/analysis/sese.rs:691-695 | true exactly when neither edge lies on a directed cycle that avoids the other |
| `CycleClasses.CycleEquivalentTrans` | src/graph/analysis/sese.rs:691-695 | cycle equivalence is transitive on three different edges |
| `CycleClasses.NotSelfEquivalent` | src/graph/analysis/sese.rs:691-695 | an edge is equivalent to itself exactly when it lies on no directed cycle |
| `CycleClasses.MergePair` | src/graph/analysis/sese.rs:623-630 | merging the next pair keeps each representative the least member of its class among the pairs handled |
| `CycleClasses.LabelRoots` | src/graph/analysis/sese.rs:631-643 | two edges get the same positive label exactly when they have the same representative, and labels are handed out as 1, 2, 3 in the order of the edges |
| `CycleClasses.DirectCycleClasses` | src/graph/analysis/sese.rs:614-644 | two different edges have the same class exactly when they are cycle equivalent; all classes are positive |
| `CycleClasses.Validate` | src/graph/analysis/sese.rs:604-606 | the check accepts a table exactly when it decides cycle equivalence on all pairs, the diagonal included |
| `CycleClasses.JppCycleClasses` | src/graph/analysis/sese.rs:598-612 | the classes are exact off the diagonal; the bracket pass's table is handed on unchanged if it decides cycle equivalence on all pairs, the diagonal included, and is replaced otherwise, so whenever some edge lies on a cycle |
| `ComputeSese.BackEdgeOnCycle` | src/graph/analysis/sese.rs:269-275 | the synthetic back edge lies on a cycle, so in both entry points the table is always replaced |
| `UndirectedDfs.Traversal.Visit` | src/graph/analysis/sese.rs:413-454 | a visit keeps the numbering in order, finishes the node and everything numbered meanwhile, marks exactly their tree edges, and takes edges in order of their ids |
| `UndirectedDfs.Traverse` | src/graph/analysis/sese.rs:396-465 | the traversal from the root ends with every numbered node finished, and what the edges of a node before a tree edge lead to is numbered before the node found by that edge |
| `UndirectedDfs.NoCrossEdges` | src/graph/analysis/sese.rs:404-465 | both ends of every edge met are numbered, and one is an ancestor of the other |
| `UndirectedDfs.IntervalTestDecides` | src/graph/analysis/sese.rs:466-468 | the interval test holds exactly when the parent chain leads from the one node properly up to the other |
| `UndirectedDfs.MarkedIffParentEdge` | src/graph/analysis/sese.rs:437-451 | the marked edges are exactly those through which a node was found |
| `UndirectedDfs.NumberedIsComponent` | src/graph/analysis/sese.rs:413-465 | exactly the connected component of the root is numbered |
| `FlowGraphs.ReachableIds` | src/graph/analysis/sese.rs:201-218 | the ids are exactly the nodes reachable from the root along the successors that the incidence sets show, in ascending order |
| `FlowGraphs.OriginalEdges` | src/graph/analysis/sese.rs:222-241 | every edge of the edge list between different reachable nodes is listed once, translated, in order of its id; self-loops and others are not |
| `FlowGraphs.ExitEdges` | src/graph/analysis/sese.rs:243-268 | one edge into the synthetic exit from each node without outgoing edges, or one from the last node when there is none |
| `FlowGraphs.BuildFlowGraph` | src/graph/analysis/sese.rs:201-278 | the working graph has the nodes that the successors lead to and the listed edges between them, whether or not the two agree, and every node of it is reachable from the entry |
| `FlowGraphs.DescribesUnique` | src/graph/analysis/sese.rs:201-278 | the input graph and the root determine the working graph, edge order included |
| `ProperGraphs.ProperIffTerminating` | src/graph/analysis/sese.rs:249-268 | the working graph is proper exactly when every reachable node can go on along listed edges between reachable nodes to a node that none of them leaves, or to the last node if there is none |
| `SeseSelection.ComputeEdgeDominates` | src/graph/analysis/sese.rs:677-679 | true exactly when every route from the entry to the tail of `b` uses `a` |
| `SeseSelection.ComputeEdgePostdominates` | src/graph/analysis/sese.rs:681-689 | true exactly when every route from the head of `a` to the exit uses `b` |
| `SeseSelection.ComputeRegionNodes` | src/graph/analysis/sese.rs:697-708 | exactly the nodes between the two edges: reached from the entry edge without the exit edge and leading to the exit edge without the entry edge |
| `SeseRegions.OnlyEntryEnters` | src/graph/analysis/sese.rs:161-188 | on every graph, the entry edge is the only edge into a candidate's nodes from outside |
| `SeseRegions.EntryOutside` | src/graph/analysis/sese.rs:697-708 | on every graph, neither the entry node nor the synthetic exit is inside a candidate |
| `SeseRegions.ExitLawIff` | src/graph/analysis/sese.rs:161-188 | on every graph, a candidate's nodes have exactly one edge in and one edge out if and only if no edge but the exit edge leads from them to a node outside that cannot reach the synthetic exit |
| `SeseRegions.CandidateIsSese` | src/graph/analysis/sese.rs:161-188 | in a proper flowgraph a candidate's nodes have exactly one edge in and exactly one edge out |
| `SeseRegions.SeseIsCandidate` | src/graph/analysis/sese.rs:161-188 | in a proper flowgraph every nonempty set with one edge in and one out passes the candidate test and is its region |
| `SeseRegions.CandidatesAreExactlySese` | src/graph/analysis/sese.rs:297-315 | in a proper flowgraph the candidates are exactly the nonempty single-entry single-exit node sets |
| `SeseRegions.CrossingSplits` | src/graph/analysis/sese.rs:331-336 | two crossing single-entry single-exit sets are a chain of three such sets |
| `ImproperFlowGraph.CandidateLeaks` | src/graph/analysis/sese.rs:600-603 | the flowgraph made of the edges 0 to 1, 1 to 2, 1 to 3, 3 to 4 and 4 to 3 has a candidate that a second edge leaves, so that its nodes are not single-entry single-exit |
| `SeseSelection.EnumerateCandidates` | src/graph/analysis/sese.rs:296-315 | the list holds exactly the genuine candidates, each once |
| `SeseSelection.SmallestForBoundary` | src/graph/analysis/sese.rs:322-326 | each edge maps to the first candidate in the list that has it as entry or exit, edges of no candidate to nothing |
| `SeseSelection.SelectCanonical` | src/graph/analysis/sese.rs:322-343 | selected are exactly the candidates that are first for their entry or exit; kept are those of them that cross no candidate |
| `SeseSelection.CanonicalNeverCrosses` | src/graph/analysis/sese.rs:317-321 | in a proper flowgraph a canonical candidate crosses no candidate at all: a crossing would give both its boundaries smaller candidates |
| `SeseSelection.FilterRemovesNothing` | src/graph/analysis/sese.rs:334-342 | the defensive laminarity filter removes nothing from a proper flowgraph |
| `SeseSelection.SameNodesSameEntry` | src/graph/analysis/sese.rs:296-315 | on every graph, candidates with the same nodes have the same entry edge; only the exit edge may differ |
| `ComputeSese.SelectionMeaning` | src/graph/analysis/sese.rs:317-343 | the kept candidates without reference to the list: smallest for a boundary and crossing nothing; in a proper flowgraph simply smallest for a boundary |
| `ComputeSese.ChosenMeans` | src/graph/analysis/sese.rs:317-342 | a kept candidate in full: the least by number of nodes, then entry edge, then exit edge among all candidates that share its entry edge as a boundary, or its exit edge, and nested in or apart from every other candidate |
| `ComputeSese.SelectRegions` | src/graph/analysis/sese.rs:279-343 | the regions from which the tree is built, each once, largest first |
| `RegionNesting.ChildOnChain` | src/graph/analysis/sese.rs:354-360 | for nested sets, below each set that contains a smaller one lies a child that contains it too |
| `RegionNesting.PartitionedIffDistinct` | src/graph/analysis/sese.rs:354-391 | the nested sets split up into own elements and children exactly when they are pairwise different |
| `SeseTrees.AddRegion` | src/graph/analysis/sese.rs:353-373 | appending a region below its smallest container keeps child lists inverse to parents, the nesting and the boundary edges |
| `SeseTrees.BuildRegions` | src/graph/analysis/sese.rs:344-373 | the region list mirrors the selected candidates, nested |
| `SeseTrees.AssignOwners` | src/graph/analysis/sese.rs:378-389 | each node is appended to the region of the smallest set that contains it and to no other |
| `TreeShapes.ShapeHolds` | src/graph/analysis/sese.rs:336-391 | on every graph: regions pairwise laminar, parents before children and containing them, child lists inverse to parents, each reachable node owned once by a region that contains it |
| `TreeContents.ContentsHold` | src/graph/analysis/sese.rs:344-391 | each region shows its candidate's boundary edges and nodes, hangs below the smallest earlier region that contains it, the first of its size, and each node is owned by the smallest region that contains it, the first of its size |
| `TreeShapes.SplitsUpIffDistinct` | src/graph/analysis/sese.rs:336-391 | on every graph: each region is the disjoint union of its own nodes and its children's exactly when no two regions contain the same nodes, the step from the tree to the sets behind it |
| `TreeShapes.ProperDistinct` | src/graph/analysis/sese.rs:336-391 | in a proper flowgraph no two regions contain the same nodes |
| `ComputeSese.SplitsUpIffChosenDiffer` | src/graph/analysis/sese.rs:317-391 | on every graph: each region is the disjoint union of its own nodes and its children's if and only if no two different canonical candidates that cross nothing have the same nodes, a condition on the flowgraph before the tree is built |
| `TwinRegions.TwinsChosen` | src/graph/analysis/sese.rs:317-343 | in one improper flowgraph the edge pairs 0, 1 and 0, 2 are both canonical, cross nothing and have the region {1} |
| `TwinRegions.TwinTree` | src/graph/analysis/sese.rs:336-391 | the tree computed for the graph with edges 0 to 1, 1 to 2, 1 to 4, 2 to 3 and back, 4 to 5 and back, 0 to 6 has a region that does not split up, whatever the bracket pass answers |
| `ComputeSese.ComputeSese` | src/graph/analysis/sese.rs:195-392 | for every graph and root the tree has that shape and those contents, its regions are the canonical non-crossing candidates by falling size, then entry, then exit edge, and it splits up disjointly if and only if no two of these have the same nodes; in a proper flowgraph the regions are all canonical candidates and it does split up |
| `TreeUnique.TreeDetermined` | src/graph/analysis/sese.rs:195-392 | two trees that answer to that contract for the same graph and root are equal in every field, so nothing of the bracket pass shows |
| `TreeUnique.AnyTwoPasses` | src/graph/analysis/sese.rs:195-392 | two calls whose bracket passes answer differently return the same tree |
| `ChildOrder.ChildrenBySize` | src/graph/analysis/sese.rs:343-376 | the children of every region are listed by falling number of nodes, those of one size by entry and then exit edge |
| `ChildOrder.InEntryOrderMeans` | src/graph/analysis/sese.rs:25-26 | the documented order, said of the child lists |
| `ChildOrder.SiblingsIff` | src/graph/analysis/sese.rs:354-360 | two regions have the same parent exactly when they have the same innermost enclosing chosen candidate, or both none |
| `ChildOrder.EntryOrderIff` | src/graph/analysis/sese.rs:25-26 | on every graph the children are in entry-edge order if and only if of two sibling candidates of different size the larger one has the smaller entry edge |
| `LateLoop.LoopTree` | src/graph/analysis/sese.rs:25-26 | the tree of the graph with edges 0 to 1, 1 to 2, 2 to 3, 3 to 2, 3 to 4 is not in entry-edge order |
| `ComputeSese.ComputeSeseCandidates` | src/graph/analysis/sese.rs:75-190 | every genuine candidate is presented, nothing else is, none twice; the number of contained nodes falls along the list, and at equal numbers entry and then exit edge ids rise |
| `ComputeSese.PresentsMeans` | src/graph/analysis/sese.rs:173-181 | a presented candidate carries the ids of its own entry and exit edge and, ascending, the names of its nodes |
| `TreeUnique.CandidatesDetermined` | src/graph/analysis/sese.rs:75-190 | the list of candidates is determined by the graph and the root, order included |
| `Sorting.SortBy` | src/graph/analysis/sese.rs:321-321 | a sorted permutation, for any total order |
| `RecyclingModel.PushAfterRemove` | src/recycling_arena.rs:38-80 | the id vacated last is reused first, and the push undoes the removal but for the payload |
| `RecyclingModel.RemoveAfterPush` | src/recycling_arena.rs:38-80 | a removal undoes a push that reused an id; after a push that grew the arena it leaves one more vacant id |
| `RecyclingModel.PushKeepsOk` | src/recycling_arena.rs:38-63 | a push keeps the vacant ids exactly the ids without payload, each once |
| `RecyclingModel.RemoveKeepsOk` | src/recycling_arena.rs:69-80 | a removal keeps the vacant ids exactly the ids without payload, each once |
| `RecyclingModel.PushStores` | src/recycling_arena.rs:38-63 | a push stores its own payload under the id it hands out, the one vacated last or the next fresh one, and leaves every other payload; it hands out none exactly when no id is vacant and all are used |
| `RecyclingModel.RemoveVacates` | src/recycling_arena.rs:69-80 | a removal empties its own id only and puts it on top of the vacant ones |
| `RecyclingArenas.ThreadsUnique` | src/recycling_arena.rs:17-27 | the free chain is determined by the slots and its head |
| `RecyclingArenas.ThreadsFreed` | src/recycling_arena.rs:69-80 | vacating a live slot puts it at the head of the chain and leaves the rest in place |
| `RecyclingArenas.RecyclingArena.Push` | src/recycling_arena.rs:38-63 | stores the payload in the slot vacated last, else in a new last slot, leaving the other slots alone, else panics with nothing changed; the chain stays acyclic and complete, so a live slot is never met on it |
| `RecyclingArenas.RecyclingArena.Reuse` | src/recycling_arena.rs:40-48 | the slot at the head of the free chain is live again and the rest of the chain is still exactly the vacant ids |
| `RecyclingArenas.RecyclingArena.Remove` | src/recycling_arena.rs:69-80 | returns the payload, links the slot in front of the chain and leaves the others alone, or panics with nothing changed |
| `RecyclingArenas.RecyclingArena.Clear` | src/recycling_arena.rs:125-129 | leaves the empty arena |
| `RecyclingArenas.RecyclingArena.Len` | src/recycling_arena.rs:83-85 | the number of live slots, which with the free chain accounts for every slot |
| `RecyclingArenas.RecyclingArena.Get` | src/recycling_arena.rs:98-103 | the payload of a live id, nothing for any other |
| `RecyclingArenas.RecyclingArena.Iter` | src/recycling_arena.rs:114-122 | exactly the live payloads with their ids, ids ascending |
| `RecyclingArenas.Step` | src/recycling_arena.rs:36-130 | each single operation takes the arena to the next state of the model |
| `RecyclingArenas.Run` | src/recycling_arena.rs:36-130 | every run of push, remove and clear refines an option sequence with a last-in first-out stack of vacant ids |
| `StableArenaState.PushedOk` | src/stable_arena.rs:31-47 | a push keeps ids and slots inverse and adds exactly one entry to the map |
| `StableArenaState.RemovedIsOk` | src/stable_arena.rs:123-143 | swap-removal with location repair keeps ids and slots inverse and issues no id |
| `StableArenaState.RemovedOk` | src/stable_arena.rs:123-143 | a removal takes exactly one entry out of the map |
| `StableArenaState.RemovedMovesLast` | src/stable_arena.rs:123-143 | a removal leaves every other payload in its slot except the one in the last slot, which always moves |
| `StableArenas.StableArena.Push` | src/stable_arena.rs:31-47 | the next id in turn is issued for the payload, which comes last in dense order, or the push panics with nothing changed |
| `StableArenas.StableArena.Get` | src/stable_arena.rs:107-110 | the payload of a live id, nothing for dead and unknown ids |
| `StableArenas.StableArena.Remove` | src/stable_arena.rs:123-143 | returns the payload, takes its entry out of the map and puts the last payload and id in its slot, or panics with nothing changed |
| `StableArenas.StableArena.Clear` | src/stable_arena.rs:152-156 | leaves the empty arena with the cursor back at zero |
| `StableArenas.StableArena.TruncateIssued` | src/stable_arena.rs:165-173 | exactly the entries below the given id survive and the cursor is cut back to it |
| `StableArenas.StableArena.LiveSlot` | src/stable_arena.rs:190-193 | a slot is returned exactly for the ids that are in the map, and it is the one dense slot that holds this id and the payload the map gives it |
| `StableArenaState.TruncateUndoesPushes` | src/stable_arena.rs:158-173 | any batch of pushes followed by a truncation at the old cursor restores the identical physical state, order included |
| `StableArenaState.TruncateInTwo` | src/stable_arena.rs:158-173 | newest first: truncating to one cursor and then to a lower one leaves the identical physical state as truncating to the lower one at once |
| `StableArenaWire.Serialize` | src/stable_arena.rs:360-377 | the wire holds the cursor and, in dense order, each live id with its payload |
| `StableArenaWire.Deserialize` | src/stable_arena.rs:379-427 | accepts exactly the wires with a usable cursor and different ids below it; what it accepts satisfies the arena invariant and represents the wire; what it rejects it rejects for the first fault |
| `StableArenaWire.RepresentsUnique` | src/stable_arena.rs:360-427 | the wire form determines the arena, holes and order included |
| `StableArenaWire.RoundTrip` | src/stable_arena.rs:360-427 | reading back what was written gives the identical arena, unless the cursor has reached the sentinel |
| `StableArenas.Run` | src/stable_arena.rs:29-173 | every run of push, remove, truncate and clear refines a map with a cursor that only truncation and clearing take back |
| `DoublingLayout.Locate` | src/registry.rs:126-132 | the offset is below the chunk's capacity and the index is the sum of all smaller chunks and the offset |
| `DoublingLayout.LocateOnto` | src/registry.rs:126-132 | every offset below 2^k in chunk k is the place of an index |
| `DoublingLayout.LocateInjective` | src/registry.rs:126-132 | different indices have different places |
| `DoublingLayout.LocateOrder` | src/registry.rs:357-388 | the places, compared by chunk and then by offset, are in the order of the indices, in both directions |
| `Registries.FlattenIsContents` | src/registry.rs:305-311 | the chunks read one after the other are the sequence, emptied chunks included |
| `Registries.ChunksFit` | src/registry.rs:192-204 | no chunk outgrows the capacity it is allocated with, so no element is moved by growth |
| `Registries.GrownContents` | src/registry.rs:192-204 | appending to the located chunk appends to the sequence and leaves every other element in its place |
| `Registries.ShrunkContents` | src/registry.rs:218-224 | cutting the located chunk drops the last element of the sequence only |
| `Registries.Registry.Push` | src/registry.rs:192-204 | the new element gets the next id and is appended; a chunk is added only when the place asks for it |
| `Registries.Registry.Truncate` | src/registry.rs:218-224 | the sequence is cut, the chunks stay |
| `Registries.Registry.At` | src/registry.rs:233-241 | the element of the sequence at the id |
| `Registries.Registry.Replace` | src/registry.rs:263-265 | returns the old element and updates the sequence at that id only |
| `Registries.Registry.Iter` | src/registry.rs:305-311 | every element with its id, in id order |
| `Registries.Registry.SelectMut` | src/registry.rs:357-388 | answers exactly when the ids are in bounds and different; the places come in request order, are different and hold the requested elements |
| `Registries.FromSeq` | src/registry.rs:489-497 | rebuilding from a sequence of elements gives that sequence |
| `Registries.Run` | src/registry.rs:190-224 | any mix of pushes and truncations refines a plain sequence, read by index or by flattening |
| `GraphTables.RemoveUndoesAdd` | src/graph/owning.rs:415-436 | removing a new edge restores both tables |
| `GraphTables.AddedAgrees` | src/graph/owning.rs:415-423 | adding an edge between existing nodes keeps incidence sets and edge table in agreement |
| `GraphTables.RemovedAgrees` | src/graph/owning.rs:429-436 | removing an edge keeps incidence sets and edge table in agreement |
| `GraphTables.NodeDropped` | src/graph/owning.rs:459-468 | dropping a node no edge touches keeps them in agreement |
| `GraphTables.AddedMeans` | src/graph/owning.rs:415-423 | an added edge is in the table and in the sets of its ends, and nothing else changes |
| `GraphTables.RemovedMeans` | src/graph/owning.rs:429-436 | a removed edge is out of the table and of every set, and nothing else changes |
| `GraphTables.EditMeans` | src/graph/owning.rs:439-453 | an edited edge has its new ends in the table and is in the sets of these nodes only; if an end is missing it is in the set of the new source at most |
| `OwningGraphs.OwningGraph.MakeNode` | src/graph/owning.rs:398-409 | a fresh id with an empty incidence set |
| `OwningGraphs.OwningGraph.MakeEdge` | src/graph/owning.rs:415-423 | adds the edge in table and sets, or panics exactly when an end is missing, and what is then left behind |
| `OwningGraphs.OwningGraph.RemoveEdge` | src/graph/owning.rs:429-436 | takes the edge out of table and sets, or panics with nothing changed |
| `OwningGraphs.OwningGraph.EditEdge` | src/graph/owning.rs:439-453 | moves the edge as a removal followed by an addition would; when a new end is missing it panics and leaves table and sets in disagreement |
| `OwningGraphs.OwningGraph.RemoveNode` | src/graph/owning.rs:459-468 | removes the node and exactly the edges that touch it, every other node and edge keeping its payload, or panics with nothing changed |
| `OwningGraphs.Run` | src/graph/owning.rs:398-468 | after any run of edits the incidence sets agree with the edge table and the graph is what the edits say; it panics exactly when some edit names something missing |
| `OwningGraphs.OwningGraph.MergeNodes` | src/graph.rs:125-149 | every edge out of the removed node other than the direct one starts at the kept node afterwards, is in its set and no longer in the removed node's, and no other edge changes; when the result agrees |
| `GraphTables.MergedEdges` | src/graph.rs:134-148 | the edge table after a merge, edge by edge: exactly the edges that left the removed node, except the direct one, have a new source |
| `GraphTables.MergedSets` | src/graph.rs:128-148 | the incidence sets after a merge, node by node and edge by edge |
| `GraphTables.MergeAgreesIff` | src/graph.rs:125-149 | all edges but the direct one agree after a merge exactly when no other edge out of the removed node still ends at it |
| `GraphTables.MergeLeavesDirectEdge` | src/graph.rs:125-133 | the direct edge's record stays in the table while no incidence set mentions it |
| `GraphTables.SelfLoopLosesEnd` | src/graph.rs:134-148 | merging 0 and 1 of a graph with a self-loop at 1 takes the loop out of the set of a node it still ends at |
| `GraphTables.RepairIff` | src/graph.rs:125-149 | removing the direct edge after the merge makes the tables agree exactly when no other edge out of the removed node ends at it |
| `GraphTables.MergedSound` | src/graph.rs:125-149 | after a merge the incidence sets still name only edges of the table whose ends exist |
| `GraphViews.Successors` | src/graph.rs:176-187 | the successors of a node are the targets of the edges in its incidence set that start at it, one for each such edge |
| `GraphViews.ViewsAgreeIff` | src/graph.rs:160-187 | the successor relation and the edge list show the same edges exactly when the successors show every edge of the table |
| `GraphViews.AgreeingViews` | src/graph.rs:160-187 | as long as incidence sets and edge table agree, the successor relation and the edge list show one graph |
| `GraphViews.MergedSucc` | src/graph.rs:125-149 | what the successors show after a merge: every listed edge, the one from the kept to the removed node only if an edge parallel to the direct one or a self-loop of the removed node was there before |
| `GraphViews.MergedViewsAgreeIff` | src/graph.rs:125-149 | after a merge both readers see the same edges if and only if two different nodes were merged and such a parallel edge or self-loop was there before |
| `GraphViews.MergeSplitsViews` | src/graph.rs:125-149 | after a merge of two different nodes the edge list shows an edge between them; the successors show it exactly when both readers see the same edges |
| `GraphViews.OneEdgeSplitsViews` | src/graph.rs:125-149 | two nodes and one edge, merged: the edge list shows the edge, the successors show none |
| `DepthFirstOrder.PoppedOk` | src/graph.rs:216-219 | dropping a stack entry whose node has been visited keeps the search depth-first: the sources of the stack entries lie on one tree path down to the last visited node, and no unvisited successor is lost |
| `DepthFirstOrder.VisitedOk` | src/graph.rs:221-230 | visiting the node on top of the stack, below the node that pushed it, and pushing its unvisited neighbours keeps the search depth-first |
| `DepthFirstOrder.VisitsAreDfsTree` | src/graph.rs:209-255 | the nodes in order of visit are a preorder of a depth-first spanning tree: an edge to a later node comes from one of its ancestors |
| `GraphTraversal.DfsIter.Next` | src/graph.rs:209-255 | yields an unvisited reachable node with an edge from a visited one on the tree path to the node yielded before, or ends exactly when all reachable nodes are visited; the visits stay depth-first; panics exactly at a root that does not exist, having marked it |
| `GraphTraversal.Drain` | src/graph.rs:189-255 | both modes yield every node reachable along the incidence sets once, the root first, each other one with an edge from its parent, and the parents make the order of the nodes a depth-first spanning tree; a missing root panics at once; tables that disagree on some edge are walked as well |
| `GraphTraversal.DirectedSteps` | src/graph.rs:216-230 | the directed traversal follows exactly the successors that the dominator analyses read |
| `GraphTraversal.UndirectedSteps` | src/graph.rs:240-254 | as long as the tables agree the undirected traversal follows exactly the listed edges, both ways |

## Left out

- The bracket-list body of the cycle-class algorithm (`src/graph/analysis/sese.rs:470-597`): an arbitrary answer stands in for it, since its table is checked and replaced.
- StableArenaWire.RoundTrip: an arena whose cursor has reached the sentinel value would not be read back; a vector of locations never gets that long, so this is a boundary of the model's unbounded sequences.
- Hashers and the iteration order of hash containers: the order is arbitrary in the model.
- Real addresses, allocation, `capacity`, `structural_bytes` and `shrink_to_fit`: an element's place in the registry is its chunk and offset.
- Incidence sets that name an edge or a node that does not exist: reading them panics, so `ComputeSese` assumes that the edges exist and the traversals that their ends do too; both hold after any run of edits and after a merge (`AgreeIsSound`, `MergedSound`).
- Dominators.RunLengauerTarjan: fixes how often each predecessor is listed but not the order of the list, which no query depends on.
- Registries.Registry.SelectMut: returns places instead of mutable references, because the model has no references into a sequence.
- OwningGraphs.OwningGraph.MergeNodes: assumes that both nodes exist, as the source's two `unwrap` calls demand.
- PostDominators.ComputePostdominators: assumes that the node list covers the node set, as the source's table lookups demand.
- The sentinel number in the undirected traversal is an absent value, so a graph with as many nodes as the largest machine integer is not distinguished.
- Fixed-width identifiers of graphs and registries: unbounded; the two arenas carry the number of values their identifier type can hold, because they check it.
- The deserializer's check of each entry's id against the backing type: unreachable after the check of the cursor.
- serde and bincode encoding, `Debug`, `Display`, equality and cloning: the wire form is data.
- The mutable views `get_mut`, `iter_mut`, the typed node and edge references, `reinterpret`: they hand out payloads without touching the structure.
- The caches of `DominatorTree`: each query is a function of `idom` and `preds`.
- `children.sort_unstable()` in `compute_sese`: the lists are proved ascending as built, so the call changes nothing.
- The debug-only assertions of `compute_sese` (`src/graph/analysis/sese.rs:284-295`).
- `parse.rs`, `intern.rs`, `log.rs`, the derive macro, benches and scripts: no property that relates several functions.
- Recursion depth and running time.
