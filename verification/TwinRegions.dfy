/** An improper flowgraph in which two selected regions have the same nodes, so that its tree does not split up. */
module TwinRegions {
  import opened Cfgs
  import opened GraphTables
  import opened EdgeRoutes
  import opened CycleClasses
  import opened SeseRegions
  import opened SeseSelection
  import opened RegionNesting
  import opened SeseTrees
  import opened TreeShapes
  import opened FlowGraphs
  import opened SmallGraphs
  import opened ComputeSese

  /** 0 -> 1, from 1 into the traps 2 <-> 3 and 4 <-> 5, and 0 -> 6, the only sink. */
  function TwinEdges(): seq<(nat, nat)> {
    [(0, 1), (1, 2), (1, 4), (2, 3), (3, 2), (4, 5), (5, 4), (0, 6)]
  }

  ghost function Twin(): FlowGraph {
    FlowGraph([IEdge(0, 1, Some(0)), IEdge(1, 2, Some(1)), IEdge(1, 4, Some(2)), IEdge(2, 3, Some(3)),
               IEdge(3, 2, Some(4)), IEdge(4, 5, Some(5)), IEdge(5, 4, Some(6)), IEdge(0, 6, Some(7)),
               IEdge(6, 7, None), IEdge(7, 0, None)], 8, 0, 8)
  }

  lemma TwinReaches(v: nat)
    requires v < 8
    ensures Reach(Twin().edges, 0, v, {})
  {
    var es := Twin().edges;
    ReachSelf(es, 0, {});
    if v >= 6 {
      ReachStep(es, 0, 7, {});
      ReachStep(es, 0, 8, {});
    } else if v >= 1 {
      ReachStep(es, 0, 0, {});
      if v == 2 || v == 3 {
        ReachStep(es, 0, 1, {});
        ReachStep(es, 0, 3, {});
      } else if v >= 4 {
        ReachStep(es, 0, 2, {});
        ReachStep(es, 0, 5, {});
      }
    }
  }

  lemma TwinOneSink()
    ensures OneSink(7, TwinEdges(), 6)
  {
    var es := TwinEdges();
    assert es[0].0 == 0 && es[1].0 == 1 && es[3].0 == 2 && es[4].0 == 3 && es[5].0 == 4 && es[6].0 == 5;
  }

  lemma TwinDescribes()
    ensures Twin().Ok() && Describes(GraphOf(TwinEdges()), 0, Twin(), Upto(7))
  {
    assert Twin() == Flow(7, TwinEdges(), 6);
    TwinOneSink();
    forall v | 0 <= v <= 7
      ensures Reach(Twin().edges, 0, v, {})
    {
      TwinReaches(v);
    }
    FlowDescribes(7, TwinEdges(), 6);
  }

  /** Without the edge 0 -> 1 node 1 cannot be reached, not even from its own successors. */
  lemma OnlyEntry(v: nat)
    requires v != 1 && v < 8
    ensures !Reach(Twin().edges, v, 1, {0})
  {
    NoWayOut(Twin().edges, {0, 2, 3, 4, 5, 6, 7}, v, 1, {0});
  }

  /** Without one of the edges out of it node 1 leads into the other trap only. */
  lemma StuckInSecond()
    ensures !Reach(Twin().edges, 1, 7, {1}) && !Reach(Twin().edges, 1, 0, {1})
  {
    var s: set<nat> := {1, 4, 5};
    assert ClosedAvoiding(Twin().edges, s, {1});
    NoWayOut(Twin().edges, s, 1, 7, {1});
    NoWayOut(Twin().edges, s, 1, 0, {1});
  }

  lemma StuckInFirst()
    ensures !Reach(Twin().edges, 1, 7, {2}) && !Reach(Twin().edges, 1, 0, {2})
  {
    var s: set<nat> := {1, 2, 3};
    assert ClosedAvoiding(Twin().edges, s, {2});
    NoWayOut(Twin().edges, s, 1, 7, {2});
    NoWayOut(Twin().edges, s, 1, 0, {2});
  }

  lemma TwinCandidates()
    ensures Twin().Candidate(0, 1) && Twin().Candidate(0, 2)
  {
    OnlyEntry(0);
    OnlyEntry(2);
    OnlyEntry(4);
    StuckInSecond();
    StuckInFirst();
  }

  lemma TwinRegion(v: nat)
    ensures Twin().InRegion(0, 1, v) <==> v == 1
    ensures Twin().InRegion(0, 2, v) <==> v == 1
  {
    ReachSelf(Twin().edges, 1, {0});
    ReachSelf(Twin().edges, 1, {1});
    ReachSelf(Twin().edges, 1, {2});
    if v != 1 && v < 7 {
      OnlyEntry(v);
    }
  }

  ghost function First(): Cand {
    Cand(0, 1, {1})
  }

  ghost function Second(): Cand {
    Cand(0, 2, {1})
  }

  lemma TwinGenuine()
    ensures Twin().Ok() && Genuine(Twin(), First()) && Genuine(Twin(), Second())
  {
    TwinDescribes();
    TwinCandidates();
    forall v
      ensures v in Twin().Region(0, 1) <==> v == 1
      ensures v in Twin().Region(0, 2) <==> v == 1
    {
      TwinRegion(v);
    }
    assert Twin().Region(0, 1) == {1};
    assert Twin().Region(0, 2) == {1};
  }

  /** A genuine candidate with one node is chosen if it comes first among those with one of its boundary edges. */
  lemma OneNodeChosen(g: FlowGraph, c: Cand, v: nat, e: nat)
    requires g.n >= 1 && Genuine(g, c) && c.nodes == {v} && (e == c.entry || e == c.exit)
    requires forall d :: Genuine(g, d) && Touches(d, e) ==> Comes(c, d)
    ensures Chosen(g, c)
  {
    forall d | Genuine(g, d) && Touches(d, e)
      ensures BySize(c, d)
    {
      assert Comes(c, d) && |c.nodes| == 1;
      assert |d.nodes| >= 1;
    }
    assert SmallestFor(g, c, e);
    forall d: Cand
      ensures !Crossing(c.nodes, d.nodes)
    {
    }
  }

  predicate Comes(c: Cand, d: Cand) {
    c.entry < d.entry || (c.entry == d.entry && c.exit <= d.exit)
  }

  /** Both are genuine, the first the smallest one for its entry, the second for its exit; one node crosses nothing. */
  lemma TwinsChosen()
    ensures Twin().Ok() && Chosen(Twin(), First()) && Chosen(Twin(), Second())
  {
    TwinGenuine();
    OneNodeChosen(Twin(), First(), 1, 0);
    OneNodeChosen(Twin(), Second(), 1, 2);
  }

  lemma TwinFails(g: FlowGraph, ids: seq<nat>)
    requires g.Ok() && Describes(GraphOf(TwinEdges()), 0, g, ids)
    ensures ids == Upto(7) && !ChosenDiffer(g)
  {
    TwinDescribes();
    TwinsChosen();
    DescribesUnique(GraphOf(TwinEdges()), 0, g, ids, Twin(), Upto(7));
    assert First() != Second() && First().nodes == Second().nodes;
  }

  /**
   * Whatever the bracket pass answers, the tree of this graph does not split up: for some region, its own nodes and its
   * children's contained nodes overlap or leave a node out.
   */
  method TwinTree(pass: BracketPass) returns (tree: seq<SeseRegion>)
    ensures TreeShape(Upto(7), tree)
    ensures exists i :: 0 <= i < |tree| && !SplitsUp(tree, i)
  {
    GraphOfAgrees(TwinEdges());
    ghost var g, ids, kept, sets;
    tree, g, ids, kept, sets := ComputeSese.ComputeSese(GraphOf(TwinEdges()), 0, pass);
    TwinFails(g, ids);
  }
}
