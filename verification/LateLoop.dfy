/** A proper flowgraph whose largest region is entered last, so that the root's children are not in entry-edge order. */
module LateLoop {
  import opened Cfgs
  import opened GraphTables
  import opened EdgeRoutes
  import opened CycleClasses
  import opened SeseRegions
  import opened SeseSelection
  import opened SeseTrees
  import opened FlowGraphs
  import opened SmallGraphs
  import opened ComputeSese
  import opened ChildOrder

  /** 0 -> 1, then the loop 2 <-> 3, then 4, the only sink. */
  function LoopEdges(): seq<(nat, nat)> {
    [(0, 1), (1, 2), (2, 3), (3, 2), (3, 4)]
  }

  ghost function Late(): FlowGraph {
    FlowGraph([IEdge(0, 1, Some(0)), IEdge(1, 2, Some(1)), IEdge(2, 3, Some(2)), IEdge(3, 2, Some(3)),
               IEdge(3, 4, Some(4)), IEdge(4, 5, None), IEdge(5, 0, None)], 6, 0, 5)
  }

  lemma LateReaches(v: nat)
    requires v < 6
    ensures Reach(Late().edges, 0, v, {})
  {
    var es := Late().edges;
    ReachSelf(es, 0, {});
    if v >= 1 {
      ReachStep(es, 0, 0, {});
    }
    if v >= 2 {
      ReachStep(es, 0, 1, {});
    }
    if v >= 3 {
      ReachStep(es, 0, 2, {});
    }
    if v >= 4 {
      ReachStep(es, 0, 4, {});
    }
    if v >= 5 {
      ReachStep(es, 0, 5, {});
    }
  }

  lemma LateProper()
    ensures Late().Proper()
  {
    var es := Late().edges;
    ReachSelf(es, 5, {});
    ReachBack(es, 5, 5, {});
    ReachBack(es, 4, 5, {});
    ReachBack(es, 2, 5, {});
    ReachBack(es, 1, 5, {});
    ReachBack(es, 0, 5, {});
  }

  lemma LoopOneSink()
    ensures OneSink(5, LoopEdges(), 4)
  {
    var es := LoopEdges();
    assert es[0].0 == 0 && es[1].0 == 1 && es[2].0 == 2 && es[3].0 == 3;
  }

  lemma LateDescribes()
    ensures Late().Ok() && Describes(GraphOf(LoopEdges()), 0, Late(), Upto(5))
  {
    assert Late() == Flow(5, LoopEdges(), 4);
    LoopOneSink();
    forall v | 0 <= v <= 5
      ensures Reach(Late().edges, 0, v, {})
    {
      LateReaches(v);
    }
    FlowDescribes(5, LoopEdges(), 4);
  }

  ghost function Single(): Cand {
    Cand(0, 1, {1})
  }

  ghost function Loop(): Cand {
    Cand(1, 4, {2, 3})
  }

  ghost function Both(): Cand {
    Cand(0, 4, {1, 2, 3})
  }

  /** What one edge says of such a node set. */
  lemma EdgeSays(s: set<nat>, a: nat, b: nat, e: nat)
    requires Late().Sese(s, a, b) && e < 7
    ensures Late().edges[e].from !in s && Late().edges[e].to in s <==> e == a
    ensures Late().edges[e].from in s && Late().edges[e].to !in s <==> e == b
    ensures a < 5 && b < 5 && 0 !in s && 5 !in s && forall v :: v in s ==> v < 6
  {
    assert Late().Enters(s, e) <==> e == a;
    assert Late().Leaves(s, e) <==> e == b;
  }

  /** The three node sets with one edge in and one edge out. */
  lemma LateSese(s: set<nat>, a: nat, b: nat)
    requires s != {} && Late().Sese(s, a, b)
    ensures Cand(a, b, s) == Single() || Cand(a, b, s) == Loop() || Cand(a, b, s) == Both()
  {
    EdgeSays(s, a, b, 0);
    EdgeSays(s, a, b, 1);
    EdgeSays(s, a, b, 2);
    EdgeSays(s, a, b, 3);
    EdgeSays(s, a, b, 4);
    EdgeSays(s, a, b, 5);
    assert 2 in s <==> 3 in s;
    assert s == if 1 in s then if 2 in s then {1, 2, 3} else {1} else {2, 3};
  }

  lemma IsSese(c: Cand)
    requires c == Single() || c == Loop() || c == Both()
    ensures Late().Sese(c.nodes, c.entry, c.exit)
  {
  }

  lemma LateGenuine(c: Cand)
    ensures Genuine(Late(), c) <==> c == Single() || c == Loop() || c == Both()
  {
    LateDescribes();
    LateProper();
    if Genuine(Late(), c) {
      var v :| v in c.nodes;
      CandidateIsSese(Late(), c.entry, c.exit, v);
      LateSese(c.nodes, c.entry, c.exit);
    }
    if c == Single() || c == Loop() || c == Both() {
      IsSese(c);
      SeseIsCandidate(Late(), c.nodes, c.entry, c.exit);
    }
  }

  /** The two small ones are the smallest for one of their boundaries; the third is not for either. */
  lemma TwoOfThree(g: FlowGraph, c: Cand)
    requires g.n >= 1 && forall d :: Genuine(g, d) <==> d == Single() || d == Loop() || d == Both()
    ensures Chosen(g, c) <==> c == Single() || c == Loop()
  {
    assert SmallestFor(g, Single(), 0) && SmallestFor(g, Loop(), 4);
    assert !BySize(Both(), Single()) && !BySize(Both(), Loop());
  }

  lemma LateChosen(c: Cand)
    ensures Chosen(Late(), c) <==> c == Single() || c == Loop()
  {
    forall d
      ensures Genuine(Late(), d) <==> d == Single() || d == Loop() || d == Both()
    {
      LateGenuine(d);
    }
    TwoOfThree(Late(), c);
  }

  lemma NotEnclosed(g: FlowGraph, x: Cand, c: Cand)
    requires g.n >= 1 && (Chosen(g, x) ==> x == Single() || x == Loop()) && (c == Single() || c == Loop())
    ensures !Encloses(g, x, c)
  {
  }

  lemma SiblingsOutside(g: FlowGraph, c: Cand, d: Cand)
    requires g.n >= 1 && Chosen(g, c) && Chosen(g, d) && Outermost(g, c) && Outermost(g, d)
    ensures Siblings(g, c, d)
    ensures |c.nodes| > |d.nodes| && c.entry > d.entry ==> !LargerFirst(g)
  {
  }

  /** Neither encloses the other, and the larger one has the later entry edge. */
  lemma LoopEntersLate()
    ensures Siblings(Late(), Loop(), Single()) && !LargerFirst(Late())
  {
    LateChosen(Loop());
    LateChosen(Single());
    forall x
      ensures !Encloses(Late(), x, Loop()) && !Encloses(Late(), x, Single())
    {
      LateChosen(x);
      NotEnclosed(Late(), x, Loop());
      NotEnclosed(Late(), x, Single());
    }
    SiblingsOutside(Late(), Loop(), Single());
  }

  /** The tree of this graph lists the loop before the node that comes first. */
  method LoopTree(pass: BracketPass) returns (tree: seq<SeseRegion>)
    ensures !InEntryOrder(tree)
  {
    GraphOfAgrees(LoopEdges());
    ghost var g, ids, kept, sets;
    tree, g, ids, kept, sets := ComputeSese.ComputeSese(GraphOf(LoopEdges()), 0, pass);
    LateDescribes();
    DescribesUnique(GraphOf(LoopEdges()), 0, g, ids, Late(), Upto(5));
    LoopEntersLate();
    EntryOrderIff(GraphOf(LoopEdges()), 0, g, ids, kept, sets, tree);
  }
}
