/** The program-structure tree is a function of the graph and the root: nothing the bracket pass does shows in it. */
module TreeUnique {
  import opened Walks
  import opened Cfgs
  import opened GraphTables
  import opened CycleClasses
  import opened SeseRegions
  import opened Sorting
  import opened SeseSelection
  import opened RegionNesting
  import opened SeseTrees
  import opened TreeShapes
  import opened FlowGraphs
  import opened ComputeSese

  /** The flowgraph determines the regions and their order. */
  lemma KeptUnique(g: FlowGraph, kept: seq<Cand>, kept': seq<Cand>)
    requires g.Ok() && Sorted(BySizeDown, kept) && Sorted(BySizeDown, kept') && NoRepeats(kept) && NoRepeats(kept')
    requires forall c :: c in kept <==> Chosen(g, c)
    requires forall c :: c in kept' <==> Chosen(g, c)
    ensures kept == kept'
  {
    forall x, y | x in kept && y in kept && BySizeDown(x, y) && BySizeDown(y, x)
      ensures x == y
    {
      assert Genuine(g, x) && Genuine(g, y);
    }
    SortedUnique(BySizeDown, kept, kept');
  }

  lemma SetsUnique(g: FlowGraph, ids: seq<Node>, kept: seq<Cand>, sets: seq<set<nat>>, tree: seq<SeseRegion>,
                   sets': seq<set<nat>>, tree': seq<SeseRegion>)
    requires g.Ok() && Fields(g, ids, kept, sets, tree) && Fields(g, ids, kept, sets', tree')
    ensures sets == sets'
  {
    forall i | 0 <= i < |sets|
      ensures sets[i] == sets'[i]
    {
      if i > 0 {
        assert Drawn(g, kept[i - 1], sets[i], tree[i]) && Drawn(g, kept[i - 1], sets'[i], tree'[i]);
      }
    }
  }

  lemma ParentsUnique(sets: seq<set<nat>>, parents: seq<nat>, parents': seq<nat>, i: nat)
    requires Nested(sets, parents) && Nested(sets, parents') && 1 <= i < |sets|
    ensures parents[i] == parents'[i]
  {
    assert ParentOk(sets, parents, i) && ParentOk(sets, parents', i);
    assert sets[..i][parents[i]] == sets[parents[i]] && sets[..i][parents'[i]] == sets[parents'[i]];
  }

  /** Two finished trees of one flowgraph and one list of regions differ in no field. */
  lemma RegionUnique(g: FlowGraph, ids: seq<Node>, kept: seq<Cand>, sets: seq<set<nat>>, tree: seq<SeseRegion>,
                     tree': seq<SeseRegion>, i: nat)
    requires g.Ok() && Finished(g, ids, kept, sets, tree) && Finished(g, ids, kept, sets, tree') && i < |tree|
    requires forall j :: 1 <= j < |tree| ==> tree[j].parent == tree'[j].parent
    ensures tree[i] == tree'[i]
  {
    assert ChildrenOk(tree, i) && ChildrenOk(tree', i);
    AscendingUnique(tree[i].children, tree'[i].children);
    if i > 0 {
      assert Drawn(g, kept[i - 1], sets[i], tree[i]) && Drawn(g, kept[i - 1], sets[i], tree'[i]);
    }
  }

  lemma RegionsUnique(g: FlowGraph, ids: seq<Node>, kept: seq<Cand>, sets: seq<set<nat>>, tree: seq<SeseRegion>,
                      tree': seq<SeseRegion>)
    requires g.Ok() && Finished(g, ids, kept, sets, tree) && Finished(g, ids, kept, sets, tree')
    ensures tree == tree'
  {
    forall j | 1 <= j < |tree|
      ensures tree[j].parent == tree'[j].parent
    {
      ParentsUnique(sets, Parents(tree), Parents(tree'), j);
      assert Drawn(g, kept[j - 1], sets[j], tree[j]) && Drawn(g, kept[j - 1], sets[j], tree'[j]);
    }
    forall i | 0 <= i < |tree|
      ensures tree[i] == tree'[i]
    {
      RegionUnique(g, ids, kept, sets, tree, tree', i);
    }
  }

  /** Whatever a call of `ComputeSese` may return, it returns the same tree. */
  lemma TreeDetermined(graph: Tables, root: Node,
                       g: FlowGraph, ids: seq<Node>, kept: seq<Cand>, sets: seq<set<nat>>, tree: seq<SeseRegion>,
                       g': FlowGraph, ids': seq<Node>, kept': seq<Cand>, sets': seq<set<nat>>, tree': seq<SeseRegion>)
    requires Computed(graph, root, g, ids, kept, sets, tree) && Computed(graph, root, g', ids', kept', sets', tree')
    ensures tree == tree'
  {
    DescribesUnique(graph, root, g, ids, g', ids');
    KeptUnique(g, kept, kept');
    SetsUnique(g, ids, kept, sets, tree, sets', tree');
    RegionsUnique(g, ids, kept, sets, tree, tree');
  }

  /** Two calls that differ in the bracket pass's answer. */
  method AnyTwoPasses(graph: Tables, root: Node, pass: BracketPass, pass': BracketPass)
    returns (tree: seq<SeseRegion>, tree': seq<SeseRegion>)
    requires graph.Known()
    ensures tree == tree'
  {
    ghost var g, ids, kept, sets, g', ids', kept', sets';
    tree, g, ids, kept, sets := ComputeSese.ComputeSese(graph, root, pass);
    tree', g', ids', kept', sets' := ComputeSese.ComputeSese(graph, root, pass');
    TreeDetermined(graph, root, g, ids, kept, sets, tree, g', ids', kept', sets', tree');
  }

  /** A candidate is presented in one way only. */
  lemma PresentedOnce(graph: Tables, root: Node, g: FlowGraph, ids: seq<Node>, c: Cand, x: SeseCandidate, d: Cand,
                      y: SeseCandidate)
    requires g.Ok() && Describes(graph, root, g, ids) && Presents(g, ids, c, x) && Presents(g, ids, d, y)
    ensures c == d ==> x == y
    ensures x.entryEdge == y.entryEdge && x.exitEdge == y.exitEdge ==> x == y
  {
    if x.entryEdge == y.entryEdge && x.exitEdge == y.exitEdge {
      SameEdgeIds(graph, root, g, ids, c.entry, d.entry);
      SameEdgeIds(graph, root, g, ids, c.exit, d.exit);
    }
  }

  lemma CandidateListed(graph: Tables, root: Node, g: FlowGraph, ids: seq<Node>, s: seq<SeseCandidate>,
                        t: seq<SeseCandidate>, o: SeseCandidate)
    requires g.Ok() && Describes(graph, root, g, ids) && o in s
    requires ListsCandidates(g, ids, s) && ListsCandidates(g, ids, t)
    ensures o in t
  {
    var c :| Presents(g, ids, c, o);
    var o' :| o' in t && Presents(g, ids, c, o');
    PresentedOnce(graph, root, g, ids, c, o, c, o');
  }

  lemma ListedOrder(graph: Tables, root: Node, g: FlowGraph, ids: seq<Node>, x: SeseCandidate, y: SeseCandidate)
    requires g.Ok() && Describes(graph, root, g, ids)
    requires (exists c :: Presents(g, ids, c, x)) && exists d :: Presents(g, ids, d, y)
    ensures LargestFirst(x, y) && LargestFirst(y, x) ==> x == y
  {
    var c :| Presents(g, ids, c, x);
    var d :| Presents(g, ids, d, y);
    PresentedOnce(graph, root, g, ids, c, x, d, y);
  }

  lemma SameCandidates(graph: Tables, root: Node, g: FlowGraph, ids: seq<Node>, s: seq<SeseCandidate>,
                       t: seq<SeseCandidate>)
    requires g.Ok() && Describes(graph, root, g, ids) && Sorted(LargestFirst, s) && Sorted(LargestFirst, t)
    requires true == ListsCandidates(g, ids, s) && true == ListsCandidates(g, ids, t)
    ensures s == t
  {
    forall o
      ensures o in s ==> o in t
      ensures o in t ==> o in s
    {
      if o in s {
        CandidateListed(graph, root, g, ids, s, t, o);
      }
      if o in t {
        CandidateListed(graph, root, g, ids, t, s, o);
      }
    }
    forall x, y | x in s && y in s && LargestFirst(x, y) && LargestFirst(y, x)
      ensures x == y
    {
      ListedOrder(graph, root, g, ids, x, y);
    }
    SortedUnique(LargestFirst, s, t);
  }

  /** The list of candidates is a function of the graph and the root as well. */
  lemma CandidatesDetermined(graph: Tables, root: Node, g: FlowGraph, ids: seq<Node>, s: seq<SeseCandidate>,
                             g': FlowGraph, ids': seq<Node>, t: seq<SeseCandidate>)
    requires g.Ok() && Describes(graph, root, g, ids) && g'.Ok() && Describes(graph, root, g', ids')
    requires Sorted(LargestFirst, s) && true == ListsCandidates(g, ids, s)
    requires Sorted(LargestFirst, t) && true == ListsCandidates(g', ids', t)
    ensures s == t
  {
    DescribesUnique(graph, root, g, ids, g', ids');
    SameCandidates(graph, root, g, ids, s, t);
  }
}
