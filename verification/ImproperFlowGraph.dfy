/** Improper flowgraphs: a part that never terminates beside a real sink. */
module ImproperFlowGraph {
  import opened Cfgs
  import opened GraphTables
  import opened EdgeRoutes
  import opened SeseRegions
  import opened FlowGraphs
  import opened SmallGraphs

  /** 0 -> 1 -> 2 with a trap 3 <-> 4 below 1; 2 is the only sink. */
  ghost function TrapEdges(): seq<(nat, nat)> {
    [(0, 1), (1, 2), (1, 3), (3, 4), (4, 3)]
  }

  ghost function Trap(): FlowGraph {
    FlowGraph([IEdge(0, 1, Some(0)), IEdge(1, 2, Some(1)), IEdge(1, 3, Some(2)), IEdge(3, 4, Some(3)),
               IEdge(4, 3, Some(4)), IEdge(2, 5, None), IEdge(5, 0, None)], 6, 0, 5)
  }

  lemma TrapReaches(v: nat)
    requires v < 6
    ensures Reach(Trap().edges, 0, v, {})
  {
    var es := Trap().edges;
    ReachSelf(es, 0, {});
    ReachStep(es, 0, 0, {});
    if v == 2 || v == 5 {
      ReachStep(es, 0, 1, {});
      ReachStep(es, 0, 5, {});
    } else if v >= 3 {
      ReachStep(es, 0, 2, {});
      ReachStep(es, 0, 3, {});
    }
  }

  lemma TrapOneSink()
    ensures OneSink(5, TrapEdges(), 2)
  {
    var es := TrapEdges();
    assert es[0].0 == 0 && es[1].0 == 1 && es[3].0 == 3 && es[4].0 == 4;
  }

  /** The trap is the flowgraph of a graph. */
  lemma TrapDescribes()
    ensures Trap().Ok() && Describes(GraphOf(TrapEdges()), 0, Trap(), Upto(5))
  {
    assert Trap() == Flow(5, TrapEdges(), 2);
    TrapOneSink();
    forall v | 0 <= v <= 5
      ensures Reach(Trap().edges, 0, v, {})
    {
      TrapReaches(v);
    }
    FlowDescribes(5, TrapEdges(), 2);
  }

  lemma TrapDominance()
    ensures !Reach(Trap().edges, 0, 1, {0}) && !Reach(Trap().edges, 1, 5, {1})
  {
    NoWayOut(Trap().edges, {0}, 0, 1, {0});
    NoWayOut(Trap().edges, {1, 3, 4}, 1, 5, {1});
  }

  lemma TrapCycles()
    ensures !Reach(Trap().edges, 1, 0, {1}) && !Reach(Trap().edges, 2, 1, {0})
  {
    NoWayOut(Trap().edges, {1, 3, 4}, 1, 0, {1});
    NoWayOut(Trap().edges, {2, 5, 0}, 2, 1, {0});
  }

  lemma TrapCandidate()
    ensures Trap().Ok() && Trap().Candidate(0, 1) && Trap().InRegion(0, 1, 1)
  {
    TrapDescribes();
    TrapDominance();
    TrapCycles();
    ReachSelf(Trap().edges, 1, {0});
    ReachSelf(Trap().edges, 1, {1});
  }

  lemma TrapLeaks()
    ensures Trap().InRegion(0, 1, 1) ==> Leaks(Trap(), 0, 1, 2)
    ensures !Trap().Proper()
  {
    NoWayOut(Trap().edges, {3, 4}, 3, 5, {});
    NoWayOut(Trap().edges, {3, 4}, 3, 1, {0});
    assert !Trap().ReachesExit(3);
  }

  /**
   * Outside proper flowgraphs a candidate can have a second way out: 1 -> 3 leaves the region {1} of the edges 0 -> 1
   * and 1 -> 2.
   */
  lemma CandidateLeaks()
    ensures Trap().Ok() && Describes(GraphOf(TrapEdges()), 0, Trap(), Upto(5)) && !Trap().Proper()
    ensures Trap().Candidate(0, 1) && 1 in Trap().Region(0, 1) && Leaks(Trap(), 0, 1, 2)
    ensures !Trap().Sese(Trap().Region(0, 1), 0, 1)
  {
    TrapDescribes();
    TrapCandidate();
    TrapLeaks();
    ExitLawIff(Trap(), 0, 1, 1);
  }
}
