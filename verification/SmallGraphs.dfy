/** Concrete inputs: graphs on the nodes 0, 1, ..., given by their list of edges, and the flowgraphs made of them. */
module SmallGraphs {
  import opened Cfgs
  import opened GraphTables
  import opened EdgeRoutes
  import opened SeseRegions
  import opened Sorting
  import opened FlowGraphs

  /** The graph whose edge ids are the positions in the list and whose nodes are the ends of the edges. */
  function GraphOf(es: seq<(nat, nat)>): Tables {
    var ends := (set i | 0 <= i < |es| :: es[i].0) + (set i | 0 <= i < |es| :: es[i].1);
    Tables(map v | v in ends :: set id: nat | id < |es| && (es[id].0 == v || es[id].1 == v),
           map id: nat | id < |es| :: Ends(es[id].0, es[id].1))
  }

  lemma GraphOfAgrees(es: seq<(nat, nat)>)
    ensures GraphOf(es).Agree() && GraphOf(es).Known() && GraphOf(es).Listed() == GraphOf(es).Succ()
  {
    var t := GraphOf(es);
    assert forall id :: id in t.edges ==> t.edges[id].from in t.nodes && t.edges[id].to in t.nodes;
    AgreeIsSound(t);
    AgreeingRelations(t);
  }

  ghost function Upto(m: nat): (ids: seq<nat>)
    ensures |ids| == m && forall i :: 0 <= i < m ==> ids[i] == i
  {
    seq(m, i => i)
  }

  ghost function Internal(es: seq<(nat, nat)>): (r: seq<IEdge>)
    ensures |r| == |es| && forall i :: 0 <= i < |r| ==> r[i] == IEdge(es[i].0, es[i].1, Some(i))
  {
    seq(|es|, i requires 0 <= i < |es| => IEdge(es[i].0, es[i].1, Some(i)))
  }

  /** The flowgraph with one exit edge, from the node `sink`. */
  ghost function Flow(m: nat, es: seq<(nat, nat)>, sink: nat): FlowGraph {
    FlowGraph(Internal(es) + [IEdge(sink, m, None), IEdge(m, 0, None)], m + 1, 0, |es|)
  }

  /** Edges join different nodes below `m`, and `sink` is the one node no edge leaves. */
  ghost predicate OneSink(m: nat, es: seq<(nat, nat)>, sink: nat) {
    && sink < m && es != []
    && (forall i :: 0 <= i < |es| ==> es[i].0 < m && es[i].1 < m && es[i].0 != es[i].1 && es[i].0 != sink)
    && forall v: nat :: v < m && v != sink ==> Leaves(es, v)
  }

  ghost predicate Leaves(es: seq<(nat, nat)>, v: nat) {
    exists i :: 0 <= i < |es| && es[i].0 == v
  }

  lemma InternalOriginals(m: nat, es: seq<(nat, nat)>, sink: nat)
    requires OneSink(m, es, sink)
    ensures Originals(GraphOf(es), Upto(m), Internal(es))
  {
    var edges := Internal(es);
    forall i | 0 <= i < |edges|
      ensures StandsFor(GraphOf(es), Upto(m), edges[i])
    {
    }
    forall id: nat | Keeps(GraphOf(es), Upto(m), id)
      ensures Carried(edges, id)
    {
      assert edges[id].original == Some(id);
    }
  }

  lemma FlowSinks(m: nat, es: seq<(nat, nat)>, sink: nat)
    requires OneSink(m, es, sink)
    ensures SinkEdges(m, Internal(es), [IEdge(sink, m, None)])
  {
    forall v: nat | v < m && v != sink
      ensures HasOut(Internal(es), v)
    {
      assert Leaves(es, v);
      var i :| 0 <= i < |es| && es[i].0 == v;
      assert Internal(es)[i].from == v;
    }
    assert !HasOut(Internal(es), sink);
    assert [IEdge(sink, m, None)][0].from == sink;
  }

  lemma FlowOk(m: nat, es: seq<(nat, nat)>, sink: nat)
    requires OneSink(m, es, sink)
    requires forall v :: 0 <= v <= m ==> Reach(Flow(m, es, sink).edges, 0, v, {})
    ensures Flow(m, es, sink).Ok()
    ensures Flow(m, es, sink).edges[..|es|] == Internal(es)
    ensures Flow(m, es, sink).edges[|es|..|es| + 1] == [IEdge(sink, m, None)]
  {
  }

  lemma EdgesStayBelow(m: nat, es: seq<(nat, nat)>, sink: nat)
    requires OneSink(m, es, sink)
    ensures forall id :: id in GraphOf(es).edges ==> GraphOf(es).edges[id].to in Upto(m)
  {
    forall id | id in GraphOf(es).edges
      ensures GraphOf(es).edges[id].to in Upto(m)
    {
      assert Upto(m)[es[id].1] == es[id].1;
    }
  }

  lemma PartsDescribe(m: nat, es: seq<(nat, nat)>, sink: nat, g: FlowGraph)
    requires OneSink(m, es, sink) && g.Ok() && g.n == m + 1 && g.entry == 0
    requires g.edges[..g.count] == Internal(es) && g.edges[g.count..|g.edges| - 1] == [IEdge(sink, m, None)]
    ensures Describes(GraphOf(es), 0, g, Upto(m))
  {
    InternalOriginals(m, es, sink);
    FlowSinks(m, es, sink);
    EdgesStayBelow(m, es, sink);
    GraphOfAgrees(es);
    ClosedDescribes(GraphOf(es), 0, g, Upto(m));
  }

  /** Such a flowgraph is what the construction makes of the graph, provided every node is reachable from 0. */
  lemma FlowDescribes(m: nat, es: seq<(nat, nat)>, sink: nat)
    requires OneSink(m, es, sink)
    requires forall v :: 0 <= v <= m ==> Reach(Flow(m, es, sink).edges, 0, v, {})
    ensures Flow(m, es, sink).Ok() && Describes(GraphOf(es), 0, Flow(m, es, sink), Upto(m))
  {
    FlowOk(m, es, sink);
    PartsDescribe(m, es, sink, Flow(m, es, sink));
  }
}
