/** The tables of a graph that owns its storage, as pure data. */
module GraphTables {
  import opened Walks

  datatype Ends = Ends(from: Node, to: Node)

  /** Each node's incident edge ids, and each edge's ends. */
  datatype Tables = Tables(nodes: map<Node, set<nat>>, edges: map<nat, Ends>) {

    ghost predicate Touches(e: nat, v: Node) {
      e in edges && (edges[e].from == v || edges[e].to == v)
    }

    /** Outside `except`: a node's set holds exactly the edges it is an end of, and both ends of each edge exist. */
    ghost predicate AgreeExcept(except: set<nat>) {
      && (forall v, e :: v in nodes && e !in except ==> (e in nodes[v] <==> Touches(e, v)))
      && (forall e :: e in edges && e !in except ==> edges[e].from in nodes && edges[e].to in nodes)
    }

    ghost predicate Agree() {
      AgreeExcept({})
    }

    /** What reading the incidence sets relies on: they name only edges of the table. */
    ghost predicate Known() {
      forall v, e :: v in nodes && e in nodes[v] ==> e in edges
    }

    /** What walking along them relies on: the ends of those edges exist. */
    ghost predicate Sound() {
      forall v, e :: v in nodes && e in nodes[v] ==> e in edges && edges[e].from in nodes && edges[e].to in nodes
    }

    /** Edge `e` is in the incidence set of `v` and leads from there to `w`. */
    ghost predicate Leads(v: Node, e: nat, w: Node) {
      v in nodes && e in nodes[v] && e in edges && edges[e] == Ends(v, w)
    }

    /** The successor relation: what the incidence sets show. */
    ghost function Succ(): (r: Rel)
      ensures forall v: Node, w: Node :: (v, w) in r <==> exists e: nat :: Leads(v, e, w)
    {
      var r := set v, e | v in nodes && e in nodes[v] && e in edges && Leads(v, e, edges[e].to) :: (v, edges[e].to);
      assert forall v: Node, e: nat, w: Node :: Leads(v, e, w) ==> (v, w) in r;
      r
    }

    /** Edge `e` of the table leads from `v` to `w`. */
    ghost predicate Joins(e: nat, v: Node, w: Node) {
      e in edges && edges[e] == Ends(v, w)
    }

    /** The edge relation: what the edge list shows. */
    ghost function Listed(): (r: Rel)
      ensures forall v: Node, w: Node :: (v, w) in r <==> exists e: nat :: Joins(e, v, w)
    {
      var r := set e | e in edges && Joins(e, edges[e].from, edges[e].to) :: (edges[e].from, edges[e].to);
      assert forall e: nat, v: Node, w: Node :: Joins(e, v, w) ==> (v, w) in r;
      r
    }

    /** The successors of `n` as a set. */
    function Children(n: Node): (c: set<Node>)
      requires Known()
      ensures forall w: Node :: w in c <==> (n, w) in Succ()
    {
      if n in nodes then
        var c := set e | e in nodes[n] && edges[e].from == n :: edges[e].to;
        assert forall e: nat, w: Node :: Leads(n, e, w) ==> w in c;
        c
      else {}
    }
  }

  lemma AgreeIsSound(t: Tables)
    requires t.Agree()
    ensures t.Sound() && t.Known()
  {
    forall v, e | v in t.nodes && e in t.nodes[v]
      ensures e in t.edges
    {
      assert t.Touches(e, v);
    }
  }

  /** As long as the tables agree both relations are the same. */
  lemma AgreeingRelations(t: Tables)
    requires t.Agree()
    ensures t.Succ() == t.Listed()
  {
    forall v: Node, e: nat, w: Node
      ensures t.Leads(v, e, w) <==> t.Joins(e, v, w)
    {
      if t.Joins(e, v, w) {
        assert t.Touches(e, v);
      }
    }
  }

  /** An edge in the incidence set of its source shows in the successor relation, and the other way round. */
  lemma SuccIsListed(t: Tables, v: Node, w: Node)
    requires (v, w) in t.Succ()
    ensures (v, w) in t.Listed()
  {
    var e: nat :| t.Leads(v, e, w);
    assert t.Joins(e, v, w);
  }

  ghost function AddTo(nodes: map<Node, set<nat>>, v: Node, e: nat): map<Node, set<nat>> {
    if v in nodes then nodes[v := nodes[v] + {e}] else nodes
  }

  ghost function DropFrom(nodes: map<Node, set<nat>>, v: Node, e: nat): map<Node, set<nat>> {
    if v in nodes then nodes[v := nodes[v] - {e}] else nodes
  }

  ghost function EdgeRemoved(t: Tables, e: nat): Tables
    requires e in t.edges
  {
    Tables(DropFrom(DropFrom(t.nodes, t.edges[e].from, e), t.edges[e].to, e), t.edges - {e})
  }

  ghost function EdgeAdded(t: Tables, e: nat, ends: Ends): Tables {
    Tables(AddTo(AddTo(t.nodes, ends.from, e), ends.to, e), t.edges[e := ends])
  }

  lemma AddedAgrees(t: Tables, e: nat, ends: Ends)
    requires t.Agree() && e !in t.edges && ends.from in t.nodes && ends.to in t.nodes
    ensures EdgeAdded(t, e, ends).Agree() && EdgeAdded(t, e, ends).nodes.Keys == t.nodes.Keys
  {
    var r := EdgeAdded(t, e, ends);
    forall v, f | v in r.nodes
      ensures f in r.nodes[v] <==> r.Touches(f, v)
    {
      assert f in t.nodes[v] <==> t.Touches(f, v);
    }
  }

  /** The new edge is in the table and in the sets of its ends, and nothing else changes. */
  lemma AddedMeans(t: Tables, e: nat, ends: Ends)
    requires ends.from in t.nodes && ends.to in t.nodes
    ensures EdgeAdded(t, e, ends).edges == t.edges[e := ends] && EdgeAdded(t, e, ends).nodes.Keys == t.nodes.Keys
    ensures forall v :: v in t.nodes ==>
                          EdgeAdded(t, e, ends).nodes[v]
                          == t.nodes[v] + if v == ends.from || v == ends.to then {e} else {}
  {
  }

  /** The edge is out of the table and of every set, and nothing else changes. */
  lemma RemovedMeans(t: Tables, e: nat)
    requires t.Agree() && e in t.edges
    ensures EdgeRemoved(t, e).edges == t.edges - {e} && EdgeRemoved(t, e).nodes.Keys == t.nodes.Keys
    ensures forall v :: v in t.nodes ==> EdgeRemoved(t, e).nodes[v] == t.nodes[v] - {e}
  {
    forall v | v in t.nodes
      ensures EdgeRemoved(t, e).nodes[v] == t.nodes[v] - {e}
    {
      assert e in t.nodes[v] <==> t.Touches(e, v);
    }
  }

  lemma EndMissing(t: Tables, e: nat)
    requires e in t.edges && (t.edges[e].from !in t.nodes || t.edges[e].to !in t.nodes)
    ensures !t.Agree()
  {
  }

  lemma RemovedAgrees(t: Tables, e: nat)
    requires t.Agree() && e in t.edges
    ensures EdgeRemoved(t, e).Agree() && EdgeRemoved(t, e).nodes.Keys == t.nodes.Keys
  {
    var r := EdgeRemoved(t, e);
    forall v, f | v in r.nodes
      ensures f in r.nodes[v] <==> r.Touches(f, v)
    {
      assert f in t.nodes[v] <==> t.Touches(f, v);
    }
  }

  /**
   * Edge `e` has the ends `ends` in the table and is in the sets of these nodes only, of the target's if the move was
   * completed; nothing else has changed.
   */
  ghost predicate Moved(t: Tables, e: nat, ends: Ends, now: Tables, completed: bool) {
    && now.edges == t.edges[e := ends] && now.nodes.Keys == t.nodes.Keys
    && forall v :: v in t.nodes ==>
                     now.nodes[v]
                     == t.nodes[v] - {e} + if v == ends.from || (v == ends.to && completed) then {e} else {}
  }

  /** An edge unhooked, rewritten and hooked to its new ends, as far as these exist, the source first. */
  lemma EditMeans(t: Tables, e: nat, ends: Ends, now: Tables)
    requires t.Agree() && e in t.edges && now.edges == t.edges[e := ends]
    requires var cut := AddTo(EdgeRemoved(t, e).nodes, ends.from, e);
             now.nodes == if ends.from in t.nodes then AddTo(cut, ends.to, e) else cut
    ensures true == Moved(t, e, ends, now, ends.from in t.nodes && ends.to in t.nodes)
  {
    RemovedMeans(t, e);
  }

  lemma EditAgrees(t: Tables, e: nat, ends: Ends, now: Tables)
    requires t.Agree() && e in t.edges && now.edges == t.edges[e := ends]
    requires var cut := AddTo(EdgeRemoved(t, e).nodes, ends.from, e);
             now.nodes == if ends.from in t.nodes then AddTo(cut, ends.to, e) else cut
    ensures true == now.Agree() <==> ends.from in t.nodes && ends.to in t.nodes
    ensures ends.from in t.nodes && ends.to in t.nodes ==> now == EdgeAdded(EdgeRemoved(t, e), e, ends)
  {
    RemovedAgrees(t, e);
    if ends.from in t.nodes && ends.to in t.nodes {
      AddedAgrees(EdgeRemoved(t, e), e, ends);
      assert EdgeRemoved(t, e).edges[e := ends] == now.edges;
    } else {
      EndMissing(now, e);
    }
  }

  /** Taking a new edge out again restores the tables. */
  lemma RemoveUndoesAdd(t: Tables, e: nat, ends: Ends)
    requires t.Agree() && e !in t.edges && ends.from in t.nodes && ends.to in t.nodes
    ensures EdgeRemoved(EdgeAdded(t, e, ends), e) == t
  {
    var r := EdgeRemoved(EdgeAdded(t, e, ends), e);
    assert r.edges == t.edges;
    forall v | v in t.nodes
      ensures r.nodes[v] == t.nodes[v]
    {
      assert e in t.nodes[v] <==> t.Touches(e, v);
    }
    assert r.nodes == t.nodes;
  }

  lemma MapMinus<T>(m: map<nat, T>, gone: set<nat>, e: nat)
    ensures m - gone - {e} == m - (gone + {e})
  {
  }

  /** A node no edge touches can go. */
  lemma NodeDropped(t: Tables, v: Node)
    requires t.Agree() && forall e :: e in t.edges ==> !t.Touches(e, v)
    ensures Tables(t.nodes - {v}, t.edges).Agree()
  {
  }

  /** Every edge at `v` taken out. */
  lemma AllEdgesGone(t: Tables, v: Node, now: Tables)
    requires t.Agree() && v in t.nodes && now.edges == t.edges - t.nodes[v]
    ensures now.edges == EdgesOff(t, {v})
    ensures forall e :: e in now.edges ==> !now.Touches(e, v)
  {
    forall e
      ensures e in now.edges <==> e in t.edges && !t.Touches(e, v)
    {
      assert e in t.nodes[v] <==> t.Touches(e, v);
    }
  }

  lemma KeptPayloads<T>(t: Tables, v: Node, payloads: map<nat, T>, now: Tables, left: map<nat, T>)
    requires v in t.nodes && payloads.Keys == t.edges.Keys
    requires now.edges == t.edges - t.nodes[v] && left == payloads - t.nodes[v]
    ensures left == map e | e in payloads && e in now.edges :: payloads[e]
  {
  }

  /** The edges that touch none of the nodes `vs`. */
  ghost function EdgesOff(t: Tables, vs: set<Node>): map<nat, Ends> {
    map e | e in t.edges && t.edges[e].from !in vs && t.edges[e].to !in vs :: t.edges[e]
  }

  /**
   * The merge of `remove` into `keep`: the direct edge leaves both sets, and every other edge out of `remove` is made
   * to start at `keep`. The direct edge's own record stays in the table.
   */
  ghost function Rehomed(t: Tables, keep: Node, remove: Node, direct: nat): set<nat>
    requires remove in t.nodes
  {
    set e | e in t.nodes[remove] && e != direct && e in t.edges && t.edges[e].from == remove
  }

  ghost function MergedNodes(t: Tables, keep: Node, remove: Node, direct: nat): map<Node, set<nat>>
    requires remove in t.nodes
  {
    var out := Rehomed(t, keep, remove, direct);
    map v | v in t.nodes ::
      if v == remove then t.nodes[v] - {direct} - out
      else if v == keep then t.nodes[v] - {direct} + out
      else t.nodes[v]
  }

  ghost function Merged(t: Tables, keep: Node, remove: Node, direct: nat): Tables
    requires remove in t.nodes
  {
    Tables(MergedNodes(t, keep, remove, direct),
           map e | e in t.edges ::
             if e in Rehomed(t, keep, remove, direct) then Ends(keep, t.edges[e].to) else t.edges[e])
  }

  /** The incidence sets once the edges `moved` have changed over from `remove` to `keep`. */
  ghost function NodesAfter(nodes: map<Node, set<nat>>, keep: Node, remove: Node, moved: set<nat>)
    : map<Node, set<nat>>
  {
    map v | v in nodes ::
      if v == remove then nodes[v] - moved else if v == keep then nodes[v] + moved else nodes[v]
  }

  ghost function EdgesAfter(edges: map<nat, Ends>, keep: Node, moved: set<nat>): map<nat, Ends> {
    map e | e in edges :: if e in moved then Ends(keep, edges[e].to) else edges[e]
  }

  lemma NothingMoved(nodes: map<Node, set<nat>>, edges: map<nat, Ends>, keep: Node, remove: Node)
    ensures NodesAfter(nodes, keep, remove, {}) == nodes && EdgesAfter(edges, keep, {}) == edges
  {
    forall v | v in nodes
      ensures NodesAfter(nodes, keep, remove, {})[v] == nodes[v]
    {
    }
  }

  lemma RehomeStep(nodes: map<Node, set<nat>>, edges: map<nat, Ends>, keep: Node, remove: Node, moved: set<nat>, e: nat)
    requires keep in nodes && remove in nodes && e in edges && e !in moved
    ensures var n := NodesAfter(nodes, keep, remove, moved);
            var linked := n[keep := n[keep] + {e}];
            linked[remove := linked[remove] - {e}] == NodesAfter(nodes, keep, remove, moved + {e})
    ensures var m := EdgesAfter(edges, keep, moved);
            m[e := m[e].(from := keep)] == EdgesAfter(edges, keep, moved + {e})
  {
    var n := NodesAfter(nodes, keep, remove, moved);
    var linked := n[keep := n[keep] + {e}];
    var after := linked[remove := linked[remove] - {e}];
    forall v | v in nodes
      ensures after[v] == NodesAfter(nodes, keep, remove, moved + {e})[v]
    {
    }
    assert after.Keys == nodes.Keys;
  }

  /** Unhooking the direct edge and rehoming the rest is the merge. */
  lemma MergeTables(t: Tables, keep: Node, remove: Node, direct: nat, unhooked: map<Node, set<nat>>)
    requires keep in t.nodes && remove in t.nodes
    requires unhooked == DropFrom(DropFrom(t.nodes, keep, direct), remove, direct)
    ensures NodesAfter(unhooked, keep, remove, Rehomed(t, keep, remove, direct)) == MergedNodes(t, keep, remove, direct)
    ensures EdgesAfter(t.edges, keep, Rehomed(t, keep, remove, direct)) == Merged(t, keep, remove, direct).edges
  {
    var out := Rehomed(t, keep, remove, direct);
    forall v | v in t.nodes
      ensures NodesAfter(unhooked, keep, remove, out)[v] == MergedNodes(t, keep, remove, direct)[v]
    {
    }
  }

  /** Every edge that left `remove`, the direct one excepted, starts at `keep` afterwards; no other edge changes. */
  lemma MergedEdges(t: Tables, keep: Node, remove: Node, direct: nat)
    requires t.Agree() && keep in t.nodes && remove in t.nodes
    ensures Merged(t, keep, remove, direct).edges.Keys == t.edges.Keys
    ensures forall e :: e in t.edges ==>
                          Merged(t, keep, remove, direct).edges[e]
                          == if e != direct && t.edges[e].from == remove then Ends(keep, t.edges[e].to) else t.edges[e]
  {
    forall e | e in t.edges
      ensures e in Rehomed(t, keep, remove, direct) <==> e != direct && t.edges[e].from == remove
    {
      assert e in t.nodes[remove] <==> t.Touches(e, remove);
    }
  }

  /** Those edges change over from the set of `remove` to the set of `keep`; the direct one leaves both. */
  lemma MergedSets(t: Tables, keep: Node, remove: Node, direct: nat)
    requires t.Agree() && keep in t.nodes && remove in t.nodes
    ensures Merged(t, keep, remove, direct).nodes.Keys == t.nodes.Keys
    ensures forall v, e :: v in t.nodes ==>
                             (e in Merged(t, keep, remove, direct).nodes[v]
                              <==> if v != keep && v != remove then e in t.nodes[v]
                                   else if e in t.edges && t.edges[e].from == remove then e != direct && v != remove
                                   else e != direct && e in t.nodes[v])
  {
    forall e
      ensures e in Rehomed(t, keep, remove, direct) <==> e in t.edges && e != direct && t.edges[e].from == remove
    {
      assert e in t.nodes[remove] <==> t.Touches(e, remove);
    }
  }

  /** An edge the merge disconnects from a node it still ends at. */
  ghost predicate LosesEnd(t: Tables, keep: Node, remove: Node, direct: nat, e: nat) {
    e in t.edges && e != direct && t.edges[e].from == remove && (t.edges[e].to == remove || keep == remove)
  }

  /**
   * After a merge the incidence sets agree with the table, the direct edge aside, exactly when no other edge out of
   * `remove` is a self-loop (and `keep` is a different node, unless nothing else leaves it).
   */
  lemma MergeAgreesIff(t: Tables, keep: Node, remove: Node, direct: nat)
    requires t.Agree() && keep in t.nodes && remove in t.nodes
    ensures Merged(t, keep, remove, direct).AgreeExcept({direct})
            <==> forall e :: e in t.edges ==> !LosesEnd(t, keep, remove, direct, e)
  {
    var m := Merged(t, keep, remove, direct);
    if forall e :: e in t.edges ==> !LosesEnd(t, keep, remove, direct, e) {
      forall v, e | v in m.nodes && e !in {direct}
        ensures e in m.nodes[v] <==> m.Touches(e, v)
      {
        MergeEntry(t, keep, remove, direct, v, e);
      }
    }
    forall e | e in t.edges && LosesEnd(t, keep, remove, direct, e)
      ensures !m.AgreeExcept({direct})
    {
      assert t.Touches(e, remove);
      assert e in Rehomed(t, keep, remove, direct);
      assert m.Touches(e, remove) && e !in m.nodes[remove];
    }
  }

  lemma MergeEntry(t: Tables, keep: Node, remove: Node, direct: nat, v: Node, e: nat)
    requires t.Agree() && keep in t.nodes && remove in t.nodes && v in t.nodes && e != direct
    requires !LosesEnd(t, keep, remove, direct, e)
    ensures e in Merged(t, keep, remove, direct).nodes[v] <==> Merged(t, keep, remove, direct).Touches(e, v)
  {
    assert e in t.nodes[v] <==> t.Touches(e, v);
    assert e in t.nodes[remove] <==> t.Touches(e, remove);
  }

  /** The direct edge stays behind as a record that no incidence set mentions. */
  lemma MergeLeavesDirectEdge(t: Tables, keep: Node, remove: Node, direct: nat)
    requires t.Agree() && keep in t.nodes && remove in t.nodes && direct in t.edges
             && t.edges[direct] == Ends(keep, remove)
    ensures Merged(t, keep, remove, direct).edges[direct] == Ends(keep, remove)
    ensures forall v :: v in t.nodes ==> direct !in Merged(t, keep, remove, direct).nodes[v]
    ensures !Merged(t, keep, remove, direct).Agree()
  {
    var m := Merged(t, keep, remove, direct);
    forall v | v in t.nodes
      ensures direct !in m.nodes[v]
    {
      assert direct in t.nodes[v] <==> t.Touches(direct, v);
    }
    assert m.Touches(direct, keep);
  }

  /** The merge leaves tables that can still be walked along. */
  lemma MergedSound(t: Tables, keep: Node, remove: Node, direct: nat)
    requires t.Agree() && keep in t.nodes && remove in t.nodes
    ensures Merged(t, keep, remove, direct).Sound()
  {
    var m := Merged(t, keep, remove, direct);
    forall v, e | v in m.nodes && e in m.nodes[v]
      ensures e in m.edges && m.edges[e].from in m.nodes && m.edges[e].to in m.nodes
    {
      if v == keep && e in Rehomed(t, keep, remove, direct) {
        assert e in t.edges;
      } else {
        assert e in t.nodes[v] <==> t.Touches(e, v);
      }
    }
  }

  /** Taking the stale record out as well repairs the tables, under the same condition on the other edges. */
  lemma RepairIff(t: Tables, keep: Node, remove: Node, direct: nat)
    requires t.Agree() && keep in t.nodes && remove in t.nodes && direct in t.edges
             && t.edges[direct] == Ends(keep, remove)
    ensures EdgeRemoved(Merged(t, keep, remove, direct), direct).Agree()
            <==> forall e :: e in t.edges ==> !LosesEnd(t, keep, remove, direct, e)
  {
    MergeAgreesIff(t, keep, remove, direct);
    MergeLeavesDirectEdge(t, keep, remove, direct);
    RemovedTouches(Merged(t, keep, remove, direct), direct);
  }

  /** Removing an edge that no incidence set names takes just its record out. */
  lemma RemovedTouches(m: Tables, direct: nat)
    requires direct in m.edges && forall v :: v in m.nodes ==> direct !in m.nodes[v]
    ensures EdgeRemoved(m, direct).Agree() <==> m.AgreeExcept({direct})
  {
    var r := EdgeRemoved(m, direct);
    forall v, e | v in m.nodes && e != direct
      ensures e in r.nodes[v] <==> e in m.nodes[v]
      ensures r.Touches(e, v) <==> m.Touches(e, v)
    {
    }
    forall v | v in m.nodes
      ensures direct !in r.nodes[v] && !r.Touches(direct, v)
    {
    }
    assert r.nodes.Keys == m.nodes.Keys;
  }

  /** A self-loop of the removed node is rehomed out of the incidence set of the node it still ends at. */
  lemma SelfLoopLosesEnd()
    ensures var t := Tables(map[0 := {0}, 1 := {0, 1}], map[0 := Ends(0, 1), 1 := Ends(1, 1)]);
            t.Agree() && LosesEnd(t, 0, 1, 0, 1) && !Merged(t, 0, 1, 0).AgreeExcept({0})
  {
    var t := Tables(map[0 := {0}, 1 := {0, 1}], map[0 := Ends(0, 1), 1 := Ends(1, 1)]);
    assert LosesEnd(t, 0, 1, 0, 1);
    MergeAgreesIff(t, 0, 1, 0);
  }
}
