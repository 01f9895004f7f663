/** One owning graph, two ways to read it: successors off the incidence sets, the edge list off the edge table. */
module GraphViews {
  import opened Walks
  import opened Cfgs
  import opened GraphTables

  /** The targets of the edges in a node's set that leave it, in whatever order they come, one for each edge. */
  method Successors(t: Tables, v: Node) returns (targets: seq<Node>, ghost via: seq<nat>)
    requires t.Known()
    ensures |via| == |targets| && forall i :: 0 <= i < |targets| ==> t.Leads(v, via[i], targets[i])
    ensures forall i, j :: 0 <= i < j < |via| ==> via[i] != via[j]
    ensures forall e: nat, w: Node :: t.Leads(v, e, w) ==> e in via
    ensures forall w: Node :: w in targets <==> (v, w) in t.Succ()
  {
    targets, via := [], [];
    if v in t.nodes {
      var rest := t.nodes[v];
      while rest != {}
        invariant rest <= t.nodes[v]
        invariant |via| == |targets| && forall i :: 0 <= i < |targets| ==> t.Leads(v, via[i], targets[i])
        invariant forall i :: 0 <= i < |via| ==> via[i] !in rest
        invariant forall i, j :: 0 <= i < j < |via| ==> via[i] != via[j]
        invariant forall e: nat, w: Node :: t.Leads(v, e, w) && e !in rest ==> e in via
        decreases |rest|
      {
        var e :| e in rest;
        rest := rest - {e};
        if t.edges[e].from == v {
          targets, via := targets + [t.edges[e].to], via + [e];
        }
      }
    }
    forall w: Node | (v, w) in t.Succ()
      ensures w in targets
    {
      var e: nat :| t.Leads(v, e, w);
      var i :| 0 <= i < |via| && via[i] == e;
    }
  }

  /** The control-flow graph that a graph is for the dominator analyses: the successors of each node. */
  ghost predicate ReadOff(t: Tables, cfg: Cfg) {
    forall v: Node, w: Node :: w in cfg.Successors(v) <==> (v, w) in t.Succ()
  }

  lemma ReadOffEdges(t: Tables, cfg: Cfg)
    requires ReadOff(t, cfg)
    ensures cfg.Edges() == t.Succ()
  {
  }

  /** The successors and the edge list show the same edges. */
  ghost predicate SameEdges(t: Tables, cfg: Cfg) {
    cfg.Edges() == t.Listed()
  }

  /** Some edge with the same ends as `e`, itself or a parallel one, is in the incidence set of its source. */
  ghost predicate Shown(t: Tables, e: nat)
    requires e in t.edges
  {
    (t.edges[e].from, t.edges[e].to) in t.Succ()
  }

  /** The two readers see the same edges exactly when the incidence sets show every edge of the table. */
  lemma ViewsAgreeIff(t: Tables, cfg: Cfg)
    requires ReadOff(t, cfg)
    ensures SameEdges(t, cfg) <==> forall e :: e in t.edges ==> Shown(t, e)
  {
    ReadOffEdges(t, cfg);
    if SameEdges(t, cfg) {
      forall e | e in t.edges
        ensures Shown(t, e)
      {
        assert t.Joins(e, t.edges[e].from, t.edges[e].to);
      }
    }
    if forall e :: e in t.edges ==> Shown(t, e) {
      forall v: Node, w: Node
        ensures (v, w) in t.Succ() <==> (v, w) in t.Listed()
      {
        if (v, w) in t.Succ() {
          SuccIsListed(t, v, w);
        }
        if (v, w) in t.Listed() {
          var e: nat :| t.Joins(e, v, w);
          assert Shown(t, e);
        }
      }
    }
  }

  /** As long as the tables agree both readers see one graph. */
  lemma AgreeingViews(t: Tables, cfg: Cfg)
    requires t.Agree() && ReadOff(t, cfg)
    ensures SameEdges(t, cfg)
  {
    AgreeingRelations(t);
    ReadOffEdges(t, cfg);
  }

  /** Before the merge: an edge other than the direct one that the merge turns into one from `keep` to `remove`. */
  ghost predicate Parallel(t: Tables, keep: Node, remove: Node, direct: nat, e: nat) {
    e in t.edges && e != direct && t.edges[e].to == remove && (t.edges[e].from == keep || t.edges[e].from == remove)
  }

  /** Every edge but the direct one is still found in the incidence set of the node it now starts at. */
  lemma MergedLeads(t: Tables, keep: Node, remove: Node, direct: nat, v: Node, e: nat, w: Node)
    requires t.Agree() && keep in t.nodes && remove in t.nodes && keep != remove
    requires direct in t.edges && t.edges[direct] == Ends(keep, remove)
    ensures var m := Merged(t, keep, remove, direct);
            m.Leads(v, e, w) <==> m.Joins(e, v, w) && e != direct
  {
    var m := Merged(t, keep, remove, direct);
    MergeLeavesDirectEdge(t, keep, remove, direct);
    if m.Joins(e, v, w) && e != direct {
      assert e in t.nodes[t.edges[e].from] <==> t.Touches(e, t.edges[e].from);
    }
  }

  lemma ParallelJoins(t: Tables, keep: Node, remove: Node, direct: nat, e: nat)
    requires t.Agree() && keep in t.nodes && remove in t.nodes
    ensures e != direct && Merged(t, keep, remove, direct).Joins(e, keep, remove)
            <==> Parallel(t, keep, remove, direct, e)
  {
    if e in t.edges {
      assert e in t.nodes[remove] <==> t.Touches(e, remove);
    }
  }

  /** After a merge the successors show the listed edges, the one from `keep` to `remove` only if it has a parallel. */
  lemma MergedSucc(t: Tables, keep: Node, remove: Node, direct: nat, v: Node, w: Node)
    requires t.Agree() && keep in t.nodes && remove in t.nodes && keep != remove
    requires direct in t.edges && t.edges[direct] == Ends(keep, remove)
    ensures (keep, remove) in Merged(t, keep, remove, direct).Listed()
    ensures (v, w) in Merged(t, keep, remove, direct).Succ()
            <==> (v, w) in Merged(t, keep, remove, direct).Listed()
                 && ((v, w) == (keep, remove) ==> exists e :: Parallel(t, keep, remove, direct, e))
  {
    var m := Merged(t, keep, remove, direct);
    MergeLeavesDirectEdge(t, keep, remove, direct);
    assert m.Joins(direct, keep, remove);
    if (v, w) in m.Succ() {
      var e: nat :| m.Leads(v, e, w);
      MergedLeads(t, keep, remove, direct, v, e, w);
      ParallelJoins(t, keep, remove, direct, e);
    }
    if e: nat :| (v, w) == (keep, remove) && Parallel(t, keep, remove, direct, e) {
      ParallelJoins(t, keep, remove, direct, e);
      MergedLeads(t, keep, remove, direct, v, e, w);
    }
    if (v, w) != (keep, remove) && (v, w) in m.Listed() {
      var e: nat :| m.Joins(e, v, w);
      MergedLeads(t, keep, remove, direct, v, e, w);
    }
  }

  /** A node merged into itself: nothing that leaves it is left in its incidence set. */
  lemma SelfMergeHides(t: Tables, v: Node, direct: nat, w: Node)
    requires t.Agree() && v in t.nodes
    ensures (v, w) !in Merged(t, v, v, direct).Succ()
  {
    var m := Merged(t, v, v, direct);
    forall e: nat
      ensures !m.Leads(v, e, w)
    {
      assert e in t.nodes[v] <==> t.Touches(e, v);
    }
  }

  /**
   * After a merge the successors and the edge list still show the same edges exactly when the graph had another edge
   * from `keep` to `remove`, or a self-loop at `remove`, which the merge makes one (the two being different nodes).
   */
  lemma MergedViewsAgreeIff(t: Tables, keep: Node, remove: Node, direct: nat, cfg: Cfg)
    requires t.Agree() && keep in t.nodes && remove in t.nodes
    requires direct in t.edges && t.edges[direct] == Ends(keep, remove)
    requires ReadOff(Merged(t, keep, remove, direct), cfg)
    ensures SameEdges(Merged(t, keep, remove, direct), cfg)
            <==> keep != remove && exists e :: Parallel(t, keep, remove, direct, e)
  {
    var m := Merged(t, keep, remove, direct);
    ReadOffEdges(m, cfg);
    if keep == remove {
      MergeLeavesDirectEdge(t, keep, remove, direct);
      assert m.Joins(direct, keep, remove);
      SelfMergeHides(t, keep, direct, remove);
    } else {
      MergedSucc(t, keep, remove, direct, keep, remove);
      forall v: Node, w: Node | (v, w) != (keep, remove)
        ensures (v, w) in m.Succ() <==> (v, w) in m.Listed()
      {
        MergedSucc(t, keep, remove, direct, v, w);
      }
    }
  }

  /** Otherwise the edge list shows an edge from `keep` to `remove` that the successors do not. */
  lemma MergeSplitsViews(t: Tables, keep: Node, remove: Node, direct: nat, cfg: Cfg)
    requires t.Agree() && keep in t.nodes && remove in t.nodes && keep != remove
    requires direct in t.edges && t.edges[direct] == Ends(keep, remove)
    requires ReadOff(Merged(t, keep, remove, direct), cfg)
    ensures (keep, remove) in Merged(t, keep, remove, direct).Listed()
    ensures (keep, remove) in cfg.Edges() <==> SameEdges(Merged(t, keep, remove, direct), cfg)
  {
    MergedSucc(t, keep, remove, direct, keep, remove);
    MergedViewsAgreeIff(t, keep, remove, direct, cfg);
  }

  /** Two nodes and the edge between them, merged: the edge list shows an edge, the successors none. */
  lemma OneEdgeSplitsViews()
    ensures var t := Tables(map[0 := {0}, 1 := {0}], map[0 := Ends(0, 1)]);
            t.Agree() && ReadOff(Merged(t, 0, 1, 0), Cfg(map[])) && !SameEdges(Merged(t, 0, 1, 0), Cfg(map[]))
  {
    var t := Tables(map[0 := {0}, 1 := {0}], map[0 := Ends(0, 1)]);
    forall v: Node, w: Node
      ensures (v, w) !in Merged(t, 0, 1, 0).Succ()
    {
    }
    MergedViewsAgreeIff(t, 0, 1, 0, Cfg(map[]));
  }
}
