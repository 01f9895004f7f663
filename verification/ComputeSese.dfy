/** The two entry points. */
module ComputeSese {
  import opened Walks
  import opened Cfgs
  import opened GraphTables
  import opened EdgeRoutes
  import opened CycleClasses
  import opened SeseRegions
  import opened Sorting
  import opened SeseSelection
  import opened RegionNesting
  import opened SeseTrees
  import opened TreeShapes
  import opened TreeContents
  import opened FlowGraphs

  /** Every flowgraph has a cycle through its back edge, so the bracket pass's table never survives validation. */
  lemma BackEdgeOnCycle(g: FlowGraph)
    requires g.Ok()
    ensures !CycleEquivalent(g.edges, |g.edges| - 1, |g.edges| - 1)
  {
    var back: nat := |g.edges| - 1;
    assert Reach(g.edges, g.entry, g.n - 1, {});
    NotSelfEquivalent(g.edges, back);
  }

  /**
   * Of the genuine candidates with the boundary `e` none has fewer nodes than `c`, and none of the same size has a
   * smaller entry edge, or the same entry edge and a smaller exit edge.
   */
  ghost predicate SmallestFor(g: FlowGraph, c: Cand, e: nat)
    requires g.n >= 1
  {
    forall d :: Genuine(g, d) && (d.entry == e || d.exit == e) ==>
                  |c.nodes| < |d.nodes|
                  || (|c.nodes| == |d.nodes| && (c.entry < d.entry || (c.entry == d.entry && c.exit <= d.exit)))
  }

  /** A canonical region: the smallest one that has its entry, or its exit, as a boundary. */
  ghost predicate CanonicalRegion(g: FlowGraph, c: Cand)
    requires g.n >= 1
  {
    Genuine(g, c) && (SmallestFor(g, c, c.entry) || SmallestFor(g, c, c.exit))
  }

  ghost predicate CrossesCandidate(g: FlowGraph, c: Cand)
    requires g.n >= 1
  {
    exists d :: Genuine(g, d) && Crossing(c.nodes, d.nodes)
  }

  /** What the tree is built from: the canonical regions that cross no candidate. */
  ghost predicate Chosen(g: FlowGraph, c: Cand)
    requires g.n >= 1
  {
    CanonicalRegion(g, c) && !CrossesCandidate(g, c)
  }

  /** Each chosen region is told from the others by its nodes. */
  ghost predicate ChosenDiffer(g: FlowGraph)
    requires g.n >= 1
  {
    forall c, d :: Chosen(g, c) && Chosen(g, d) && c.nodes == d.nodes ==> c == d
  }

  /** In full: the least for one of its two boundary edges, nested in or apart from every other candidate. */
  lemma ChosenMeans(g: FlowGraph, c: Cand)
    requires g.n >= 1
    ensures Chosen(g, c) <==>
            && Genuine(g, c)
            && ((forall d :: Genuine(g, d) && (d.entry == c.entry || d.exit == c.entry) ==>
                               |c.nodes| < |d.nodes|
                               || (|c.nodes| == |d.nodes|
                                   && (c.entry < d.entry || (c.entry == d.entry && c.exit <= d.exit))))
                || (forall d :: Genuine(g, d) && (d.entry == c.exit || d.exit == c.exit) ==>
                                  |c.nodes| < |d.nodes|
                                  || (|c.nodes| == |d.nodes|
                                      && (c.entry < d.entry || (c.entry == d.entry && c.exit <= d.exit)))))
            && (forall d :: Genuine(g, d) ==> c.nodes * d.nodes == {} || c.nodes <= d.nodes || d.nodes <= c.nodes)
  {
  }

  lemma FirstIsSmallest(g: FlowGraph, list: seq<Cand>, i: nat, e: nat)
    requires g.n >= 1 && Complete(g, list) && Sorted(BySize, list) && i < |list| && Touches(list[i], e)
    ensures FirstFor(list, e, i) <==> SmallestFor(g, list[i], e)
  {
    if FirstFor(list, e, i) {
      forall d | Genuine(g, d) && Touches(d, e)
        ensures BySize(list[i], d)
      {
        assert d in list;
        var j :| 0 <= j < |list| && list[j] == d;
      }
    }
    if SmallestFor(g, list[i], e) {
      forall j | 0 <= j < i
        ensures !Touches(list[j], e)
      {
        assert list[j] in list && list[i] in list;
        assert BySize(list[j], list[i]) && list[j] != list[i];
        EqualBoundaries(g, list[i], list[j]);
      }
    }
  }

  lemma EqualBoundaries(g: FlowGraph, c: Cand, d: Cand)
    requires g.n >= 1 && Genuine(g, c) && Genuine(g, d)
    ensures BySize(c, d) && BySize(d, c) ==> c == d
  {
  }

  lemma CanonicalMeaning(g: FlowGraph, list: seq<Cand>, c: Cand)
    requires g.n >= 1 && Complete(g, list) && Sorted(BySize, list)
    ensures (exists i: nat :: Canonical(list, i) && list[i] == c) <==> CanonicalRegion(g, c)
  {
    if c in list {
      var i :| 0 <= i < |list| && list[i] == c;
      FirstIsSmallest(g, list, i, c.entry);
      FirstIsSmallest(g, list, i, c.exit);
      if CanonicalRegion(g, c) {
        assert Canonical(list, i);
      }
      if j: nat :| Canonical(list, j) && list[j] == c {
        assert j == i;
      }
    } else {
      forall j: nat
        ensures !(Canonical(list, j) && list[j] == c)
      {
        if j < |list| {
          assert list[j] in list;
        }
      }
    }
  }

  /** Selection in terms of the flowgraph alone, for every graph and, more simply, for proper ones. */
  lemma SelectionMeaning(g: FlowGraph, list: seq<Cand>, selected: seq<Cand>, kept: seq<Cand>, c: Cand)
    requires g.Ok() && Complete(g, list) && Sorted(BySize, list)
    requires forall x :: x in selected <==> exists i: nat :: Canonical(list, i) && list[i] == x
    requires forall x :: x in kept <==> x in selected && !CrossesAny(list, x)
    ensures c in kept <==> Chosen(g, c)
    ensures g.Proper() ==> (c in kept <==> CanonicalRegion(g, c))
  {
    CanonicalMeaning(g, list, c);
    if g.Proper() {
      FilterRemovesNothing(g, list, selected);
    }
  }

  /** The selected candidates in the order in which the tree is built, and what they are. */
  method SelectRegions(g: FlowGraph, pass: BracketPass) returns (kept: seq<Cand>)
    requires g.Ok()
    ensures Sorted(BySizeDown, kept)
    ensures NoRepeats(kept)
    ensures forall c :: c in kept <==> Chosen(g, c)
    ensures g.Proper() ==> forall c :: c in kept <==> CanonicalRegion(g, c)
  {
    var classes; ghost var replaced;
    classes, replaced := JppCycleClasses(g.edges, g.n, pass);
    BackEdgeOnCycle(g);
    SizeOrders();
    var found := EnumerateCandidates(g, classes);
    var candidates := SortBy(found, BySize);
    PermutationKeeps(found, candidates);
    var selected, retained := SelectCanonical(candidates);
    kept := SortBy(retained, BySizeDown);
    PermutationKeeps(retained, kept);
    forall c
      ensures c in kept <==> Chosen(g, c)
      ensures g.Proper() ==> (c in kept <==> CanonicalRegion(g, c))
    {
      SelectionMeaning(g, candidates, selected, retained, c);
    }
  }

  /** A tree for the reachable part of `graph`: the flowgraph, the regions it is built from and their order. */
  ghost predicate Computed(graph: Tables, root: Node, g: FlowGraph, ids: seq<Node>, kept: seq<Cand>,
                           sets: seq<set<nat>>, tree: seq<SeseRegion>)
  {
    && g.Ok() && Describes(graph, root, g, ids)
    && Sorted(BySizeDown, kept) && NoRepeats(kept) && (forall c :: c in kept <==> Chosen(g, c))
    && Finished(g, ids, kept, sets, tree)
  }

  /**
   * The program-structure tree of the part of `graph` reachable from `root`, whatever the bracket pass answers.
   */
  method ComputeSese(graph: Tables, root: Node, pass: BracketPass)
    returns (tree: seq<SeseRegion>, ghost g: FlowGraph, ghost ids: seq<Node>, ghost kept: seq<Cand>,
             ghost sets: seq<set<nat>>)
    requires graph.Known()
    ensures Computed(graph, root, g, ids, kept, sets, tree)
    ensures forall i, j :: 0 <= i < j < |kept| ==>
                             |kept[i].nodes| > |kept[j].nodes|
                             || (|kept[i].nodes| == |kept[j].nodes|
                                 && (kept[i].entry < kept[j].entry
                                     || (kept[i].entry == kept[j].entry && kept[i].exit < kept[j].exit)))
    ensures |tree| == |kept| + 1
    ensures forall i :: 1 <= i < |tree| ==> ShowsCandidate(g, ids, kept[i - 1], tree[i]) && BelowTightest(tree, i)
    ensures forall i, v :: 0 <= i < |tree| && v in ids ==> OwnedByTightest(tree, i, v)
    ensures TreeShape(ids, tree)
    ensures (forall i :: 0 <= i < |tree| ==> SplitsUp(tree, i)) <==> ChosenDiffer(g)
    ensures (forall i :: 0 <= i < |tree| ==> SplitsUp(tree, i)) <==> DistinctRegions(tree)
    ensures g.Proper() ==> forall c :: c in kept <==> CanonicalRegion(g, c)
    ensures g.Proper() ==> forall i :: 0 <= i < |tree| ==> SplitsUp(tree, i)
  {
    var flow, names := BuildFlowGraph(graph, root);
    var chosen := SelectRegions(flow, pass);
    BuildableSelection(flow, names, chosen);
    var family, regions := BuildRegions(flow, names, chosen);
    tree := AssignOwners(names, family, regions);
    g, ids, kept, sets := flow, names, chosen, family;
    OwnersKeepMirror(g, ids, kept, sets, regions, tree);
    TreeLaws(g, ids, kept, sets, tree);
    ContentsHold(g, ids, kept, sets, tree);
    LargestComeFirst(g, kept);
    SplitsUpIffChosenDiffer(g, ids, kept, sets, tree);
  }

  /** The order of the regions, strictly: two chosen candidates differ in size or in a boundary edge. */
  lemma LargestComeFirst(g: FlowGraph, kept: seq<Cand>)
    requires g.Ok() && Sorted(BySizeDown, kept) && NoRepeats(kept) && forall c :: c in kept ==> Genuine(g, c)
    ensures forall i, j :: 0 <= i < j < |kept| ==>
                             |kept[i].nodes| > |kept[j].nodes|
                             || (|kept[i].nodes| == |kept[j].nodes|
                                 && (kept[i].entry < kept[j].entry
                                     || (kept[i].entry == kept[j].entry && kept[i].exit < kept[j].exit)))
  {
    forall i, j | 0 <= i < j < |kept|
      ensures kept[i] in kept && kept[j] in kept && BySizeDown(kept[i], kept[j]) && kept[i] != kept[j]
    {
    }
  }

  lemma DistinctIffChosenDiffer(g: FlowGraph, ids: seq<Node>, kept: seq<Cand>, sets: seq<set<nat>>,
                                tree: seq<SeseRegion>)
    requires g.Ok() && g.n == |ids| + 1 && Fields(g, ids, kept, sets, tree)
    requires NoRepeats(kept)
    requires forall c :: c in kept <==> Chosen(g, c)
    ensures Distinct(sets) <==> ChosenDiffer(g)
  {
    forall i | 1 <= i < |sets|
      ensures sets[i] == kept[i - 1].nodes && sets[i] != sets[0]
    {
      var c := kept[i - 1];
      assert Drawn(g, c, sets[i], tree[i]) && c in kept;
      EntryOutside(g, c.entry, c.exit);
      assert g.entry in sets[0];
    }
    if Distinct(sets) {
      DistinctToDiffer(g, kept, sets);
    }
    if ChosenDiffer(g) {
      DifferToDistinct(g, kept, sets);
    }
  }

  lemma DistinctToDiffer(g: FlowGraph, kept: seq<Cand>, sets: seq<set<nat>>)
    requires g.Ok() && |sets| == |kept| + 1 && Distinct(sets)
    requires forall i :: 0 <= i < |kept| ==> sets[i + 1] == kept[i].nodes
    requires forall c :: c in kept <==> Chosen(g, c)
    ensures ChosenDiffer(g)
  {
    forall c, d | Chosen(g, c) && Chosen(g, d) && c.nodes == d.nodes
      ensures c == d
    {
      assert c in kept && d in kept;
      SameSetSamePlace(kept, sets, c, d);
    }
  }

  lemma SameSetSamePlace(kept: seq<Cand>, sets: seq<set<nat>>, c: Cand, d: Cand)
    requires |sets| == |kept| + 1 && Distinct(sets) && c in kept && d in kept && c.nodes == d.nodes
    requires forall i :: 0 <= i < |kept| ==> sets[i + 1] == kept[i].nodes
    ensures c == d
  {
    var i, j :| 0 <= i < |kept| && kept[i] == c && 0 <= j < |kept| && kept[j] == d;
    assert sets[i + 1] == sets[j + 1];
  }

  lemma DifferToDistinct(g: FlowGraph, kept: seq<Cand>, sets: seq<set<nat>>)
    requires g.Ok() && |sets| == |kept| + 1 && ChosenDiffer(g)
    requires forall i :: 1 <= i < |sets| ==> sets[i] == kept[i - 1].nodes && sets[i] != sets[0]
    requires NoRepeats(kept)
    requires forall c :: c in kept <==> Chosen(g, c)
    ensures Distinct(sets)
  {
    forall i, j | 1 <= i < j < |sets|
      ensures sets[i] != sets[j]
    {
      assert kept[i - 1] in kept && kept[j - 1] in kept;
    }
  }

  /**
   * On every graph: each region is the disjoint union of its own nodes and its children's contained nodes if and only
   * if no two of the chosen regions have the same nodes, a question about the flowgraph alone.
   */
  lemma SplitsUpIffChosenDiffer(g: FlowGraph, ids: seq<Node>, kept: seq<Cand>, sets: seq<set<nat>>,
                                tree: seq<SeseRegion>)
    requires g.Ok() && Ascending(ids) && g.n == |ids| + 1 && Finished(g, ids, kept, sets, tree)
    requires NoRepeats(kept)
    requires forall c :: c in kept <==> Chosen(g, c)
    ensures (forall i :: 0 <= i < |tree| ==> SplitsUp(tree, i)) <==> ChosenDiffer(g)
  {
    SplitsUpIffDistinct(g, ids, kept, sets, tree);
    ListsAgree(g, ids, kept, sets, tree);
    assert forall i, k :: 0 <= i < |sets| && k in sets[i] ==> k in sets[0];
    DistinctAgree(ids, sets, tree);
    DistinctIffChosenDiffer(g, ids, kept, sets, tree);
  }

  lemma BuildableSelection(g: FlowGraph, ids: seq<Node>, kept: seq<Cand>)
    requires g.Ok() && g.n == |ids| + 1 && Sorted(BySizeDown, kept)
    requires NoRepeats(kept)
    requires forall c :: c in kept <==> Chosen(g, c)
    ensures Buildable(g, ids, kept)
  {
  }

  /** A candidate as the layout sees it. */
  datatype SeseCandidate = SeseCandidate(entryEdge: nat, exitEdge: nat, containedNodes: seq<Node>)

  predicate LargestFirst(x: SeseCandidate, y: SeseCandidate) {
    |x.containedNodes| > |y.containedNodes|
    || (|x.containedNodes| == |y.containedNodes|
        && (x.entryEdge < y.entryEdge || (x.entryEdge == y.entryEdge && x.exitEdge <= y.exitEdge)))
  }

  ghost predicate Presents(g: FlowGraph, ids: seq<Node>, c: Cand, out: SeseCandidate)
    requires g.n == |ids| + 1
  {
    && Genuine(g, c) && c.entry < |g.edges| && c.exit < |g.edges|
    && g.edges[c.entry].original == Some(out.entryEdge) && g.edges[c.exit].original == Some(out.exitEdge)
    && out.containedNodes == Names(ids, c.nodes, |ids|)
  }

  /** The layout's view in full: the ids of the boundary edges and, ascending, the names of the nodes. */
  lemma PresentsMeans(g: FlowGraph, ids: seq<Node>, c: Cand, out: SeseCandidate)
    requires g.Ok() && g.n == |ids| + 1 && Ascending(ids) && Presents(g, ids, c, out)
    ensures Genuine(g, c) && g.edges[c.entry].original == Some(out.entryEdge)
    ensures g.edges[c.exit].original == Some(out.exitEdge)
    ensures Ascending(out.containedNodes) && |out.containedNodes| == |c.nodes|
    ensures forall k :: 0 <= k < |ids| ==> (ids[k] in out.containedNodes <==> k in c.nodes)
    ensures forall v :: v in out.containedNodes ==> v in ids
  {
    NamesMembers(ids, c.nodes, |ids|);
    NamesLength(ids, c.nodes, |ids|);
    assert ids[..|ids|] == ids;
    assert (set j: nat | j < |ids| && j in c.nodes) == c.nodes;
  }

  /** Different candidates look different: edge ids do not repeat. */
  lemma PresentedDistinct(graph: Tables, root: Node, g: FlowGraph, ids: seq<Node>, found: seq<Cand>,
                          listed: seq<SeseCandidate>)
    requires g.Ok() && Describes(graph, root, g, ids) && Complete(g, found) && |listed| == |found|
    requires forall j :: 0 <= j < |found| ==> Presents(g, ids, found[j], listed[j])
    ensures forall i, j :: 0 <= i < j < |listed| ==> listed[i] != listed[j]
  {
    forall i, j | 0 <= i < j < |listed| && listed[i] == listed[j]
      ensures false
    {
      assert Presents(g, ids, found[i], listed[i]) && Presents(g, ids, found[j], listed[j]);
      SameEdgeIds(graph, root, g, ids, found[i].entry, found[j].entry);
      SameEdgeIds(graph, root, g, ids, found[i].exit, found[j].exit);
    }
  }

  lemma SameEdgeIds(graph: Tables, root: Node, g: FlowGraph, ids: seq<Node>, a: nat, b: nat)
    requires g.Ok() && Describes(graph, root, g, ids) && a < g.count && b < g.count
    requires g.edges[a].original == g.edges[b].original
    ensures a == b
  {
    var original := g.edges[..g.count];
    assert original[a] == g.edges[a] && original[b] == g.edges[b];
  }

  method PresentAll(g: FlowGraph, ids: seq<Node>, found: seq<Cand>) returns (listed: seq<SeseCandidate>)
    requires g.Ok() && g.n == |ids| + 1 && forall c :: c in found ==> Genuine(g, c)
    ensures |listed| == |found| && forall j :: 0 <= j < |found| ==> Presents(g, ids, found[j], listed[j])
  {
    listed := [];
    for k := 0 to |found|
      invariant |listed| == k
      invariant forall j :: 0 <= j < k ==> Presents(g, ids, found[j], listed[j])
    {
      var c := found[k];
      assert c in found;
      var contained := NamesOf(ids, c.nodes);
      listed := listed + [SeseCandidate(g.edges[c.entry].original.value, g.edges[c.exit].original.value, contained)];
    }
  }

  lemma PresentedExactly(g: FlowGraph, ids: seq<Node>, found: seq<Cand>, listed: seq<SeseCandidate>,
                         out: seq<SeseCandidate>)
    requires g.n == |ids| + 1 && Complete(g, found) && |listed| == |found| && multiset(out) == multiset(listed)
    requires forall j :: 0 <= j < |found| ==> Presents(g, ids, found[j], listed[j])
    ensures forall c :: Genuine(g, c) ==> exists o :: o in out && Presents(g, ids, c, o)
    ensures forall o :: o in out ==> exists c :: Presents(g, ids, c, o)
  {
    SameMembers(out, listed);
    forall c | Genuine(g, c)
      ensures exists o :: o in out && Presents(g, ids, c, o)
    {
      assert c in found;
      var j :| 0 <= j < |found| && found[j] == c;
      assert listed[j] in out;
    }
    forall o | o in out
      ensures exists c :: Presents(g, ids, c, o)
    {
      var j :| 0 <= j < |listed| && listed[j] == o;
      assert Presents(g, ids, found[j], o);
    }
  }

  lemma SameMembers<T>(s: seq<T>, t: seq<T>)
    requires multiset(s) == multiset(t)
    ensures forall x :: x in s <==> x in t
  {
    forall x
      ensures x in s <==> x in t
    {
      assert x in multiset(s) <==> x in multiset(t);
    }
  }

  /** The list presents the genuine candidates, each once. */
  ghost predicate ListsCandidates(g: FlowGraph, ids: seq<Node>, candidates: seq<SeseCandidate>)
    requires g.n == |ids| + 1
  {
    && NoRepeats(candidates)
    && (forall c :: Genuine(g, c) ==> exists o :: o in candidates && Presents(g, ids, c, o))
    && (forall o :: o in candidates ==> exists c :: Presents(g, ids, c, o))
  }

  /** Every genuine candidate of the flowgraph, largest first. */
  method ComputeSeseCandidates(graph: Tables, root: Node, pass: BracketPass)
    returns (candidates: seq<SeseCandidate>, ghost g: FlowGraph, ghost ids: seq<Node>)
    requires graph.Known()
    ensures g.Ok() && Describes(graph, root, g, ids)
    ensures Sorted(LargestFirst, candidates) && ListsCandidates(g, ids, candidates)
    ensures forall i, j :: 0 <= i < j < |candidates| ==>
                             |candidates[i].containedNodes| > |candidates[j].containedNodes|
                             || (|candidates[i].containedNodes| == |candidates[j].containedNodes|
                                 && (candidates[i].entryEdge < candidates[j].entryEdge
                                     || (candidates[i].entryEdge == candidates[j].entryEdge
                                         && candidates[i].exitEdge <= candidates[j].exitEdge)))
  {
    var flow, names := BuildFlowGraph(graph, root);
    g, ids := flow, names;
    var classes; ghost var replaced;
    classes, replaced := JppCycleClasses(flow.edges, flow.n, pass);
    BackEdgeOnCycle(flow);
    var found := EnumerateCandidates(flow, classes);
    var listed := PresentAll(flow, names, found);
    PresentedDistinct(graph, root, flow, names, found, listed);
    candidates := SortBy(listed, LargestFirst);
    PermutationKeeps(listed, candidates);
    PresentedExactly(flow, names, found, listed, candidates);
  }
}
