/** What the program-structure tree looks like from outside, and why. */
module TreeShapes {
  import opened Walks
  import opened Cfgs
  import opened SeseRegions
  import opened Sorting
  import opened SeseSelection
  import opened RegionNesting
  import opened SeseTrees

  /** The shape every program-structure tree over the nodes `ids` has. */
  ghost predicate TreeShape(ids: seq<Node>, tree: seq<SeseRegion>) {
    && |tree| >= 1
    && LinksOk(ids, tree)
    && OwnershipOk(ids, tree)
    && forall i, j :: 1 <= i < |tree| && 1 <= j < |tree| ==> LaminarPair(tree[i], tree[j])
  }

  /** One synthetic root over everything; below it parents precede children and contain them. */
  ghost predicate LinksOk(ids: seq<Node>, tree: seq<SeseRegion>)
    requires |tree| >= 1
  {
    && tree[0].parent == None && tree[0].entryEdge == None && tree[0].exitEdge == None
    && (forall v :: v in tree[0].containedNodes <==> v in ids)
    && (forall i :: 1 <= i < |tree| ==>
          && tree[i].parent.Some? && tree[i].parent.value < i && tree[i].entryEdge.Some? && tree[i].exitEdge.Some?
          && Inside(tree[i], tree[tree[i].parent.value]))
    && (forall i :: 0 <= i < |tree| ==> ChildrenOk(tree, i))
  }

  ghost predicate Inside(r: SeseRegion, s: SeseRegion) {
    forall v :: v in r.containedNodes ==> v in s.containedNodes
  }

  /** Every node is owned once, by a region that contains it. */
  ghost predicate OwnershipOk(ids: seq<Node>, tree: seq<SeseRegion>) {
    && (forall i :: 0 <= i < |tree| ==> Ascending(tree[i].nodes) && Ascending(tree[i].containedNodes))
    && (forall i, v :: 0 <= i < |tree| && v in tree[i].nodes ==> v in tree[i].containedNodes)
    && (forall v :: v in ids ==> exists i :: 0 <= i < |tree| && v in tree[i].nodes)
    && (forall v, i, j :: 0 <= i < |tree| && 0 <= j < |tree| && v in tree[i].nodes && v in tree[j].nodes ==> i == j)
  }

  ghost predicate LaminarPair(r: SeseRegion, s: SeseRegion) {
    || (forall v :: v in r.containedNodes ==> v !in s.containedNodes)
    || (forall v :: v in r.containedNodes ==> v in s.containedNodes)
    || (forall v :: v in s.containedNodes ==> v in r.containedNodes)
  }

  /** A region's contained nodes are its own nodes and, disjointly, those of each of its children. */
  ghost predicate SplitsUp(tree: seq<SeseRegion>, i: nat)
    requires i < |tree| && ChildrenOk(tree, i)
  {
    && (forall v :: v in tree[i].containedNodes ==>
          v in tree[i].nodes || exists c :: c in tree[i].children && v in tree[c].containedNodes)
    && (forall v, c :: c in tree[i].children && v in tree[c].containedNodes ==>
          v in tree[i].containedNodes && v !in tree[i].nodes)
    && (forall v, c, d ::
          c in tree[i].children && d in tree[i].children && v in tree[c].containedNodes && v in tree[d].containedNodes
          ==> c == d)
  }

  /** The finished tree, tied to the nested sets it was built from. */
  ghost predicate Finished(g: FlowGraph, ids: seq<Node>, kept: seq<Cand>, sets: seq<set<nat>>, tree: seq<SeseRegion>)
    requires g.Ok()
  {
    && Mirrors(g, ids, kept, sets, tree) && Nested(sets, Parents(tree))
    && forall i :: 0 <= i < |tree| ==> tree[i].nodes == Names(ids, Owned(sets, i, |ids|), |ids|)
  }

  /** Membership in the lists of region `i`, in terms of its set. */
  lemma RegionMembers(g: FlowGraph, ids: seq<Node>, kept: seq<Cand>, sets: seq<set<nat>>, tree: seq<SeseRegion>, i: nat)
    requires g.Ok() && Ascending(ids) && Finished(g, ids, kept, sets, tree) && i < |tree|
    ensures forall j :: 0 <= j < |ids| ==> (ids[j] in tree[i].containedNodes <==> j in sets[i])
    ensures forall j :: 0 <= j < |ids| ==> (ids[j] in tree[i].nodes <==> Owns(sets, i, j))
    ensures forall v :: v in tree[i].containedNodes || v in tree[i].nodes ==> v in ids
    ensures Ascending(tree[i].nodes) && Ascending(tree[i].containedNodes)
  {
    NamesMembers(ids, sets[i], |ids|);
    NamesMembers(ids, Owned(sets, i, |ids|), |ids|);
    assert ids[..|ids|] == ids;
  }

  /** Region `i`'s lists hold exactly the names of the indices its set contains and owns. */
  ghost predicate Agrees(ids: seq<Node>, sets: seq<set<nat>>, tree: seq<SeseRegion>, i: nat)
    requires i < |tree| == |sets|
  {
    && (forall k :: 0 <= k < |ids| ==> (ids[k] in tree[i].containedNodes <==> k in sets[i]))
    && (forall k :: 0 <= k < |ids| ==> (ids[k] in tree[i].nodes <==> Owns(sets, i, k)))
    && (forall v :: v in tree[i].containedNodes ==> v in ids)
    && (forall v :: v in tree[i].nodes ==> v in ids)
  }

  ghost predicate AllAgree(ids: seq<Node>, sets: seq<set<nat>>, tree: seq<SeseRegion>) {
    |tree| == |sets| && forall i :: 0 <= i < |tree| ==> Agrees(ids, sets, tree, i)
  }

  /** The index behind a name that region `i` lists. */
  lemma IndexOf(ids: seq<Node>, sets: seq<set<nat>>, tree: seq<SeseRegion>, i: nat, v: Node) returns (k: nat)
    requires AllAgree(ids, sets, tree) && i < |tree| && (v in tree[i].containedNodes || v in tree[i].nodes)
    ensures k < |ids| && ids[k] == v
    ensures v in tree[i].containedNodes <==> k in sets[i]
    ensures v in tree[i].nodes <==> Owns(sets, i, k)
  {
    assert Agrees(ids, sets, tree, i);
    assert v in ids;
    k :| 0 <= k < |ids| && ids[k] == v;
  }

  lemma OwnedByOne(ids: seq<Node>, sets: seq<set<nat>>, tree: seq<SeseRegion>, v: Node) returns (i: nat)
    requires AllAgree(ids, sets, tree) && |sets| > 0 && sets[0] == Below(|ids|) && v in ids
    ensures i < |tree| && v in tree[i].nodes
  {
    var k :| 0 <= k < |ids| && ids[k] == v;
    i := SmallestExists(sets, {k}, 0);
    assert Agrees(ids, sets, tree, i) && Owns(sets, i, k);
  }

  lemma OwnerIsUnique(ids: seq<Node>, sets: seq<set<nat>>, tree: seq<SeseRegion>, v: Node, i: nat, j: nat)
    requires AllAgree(ids, sets, tree) && i < |tree| && j < |tree| && v in tree[i].nodes && v in tree[j].nodes
    ensures i == j
  {
    var k := IndexOf(ids, sets, tree, i, v);
    assert Agrees(ids, sets, tree, j);
  }

  lemma OwnedIsContained(ids: seq<Node>, sets: seq<set<nat>>, tree: seq<SeseRegion>, v: Node, i: nat)
    requires AllAgree(ids, sets, tree) && i < |tree| && v in tree[i].nodes
    ensures v in tree[i].containedNodes
  {
    var k := IndexOf(ids, sets, tree, i, v);
    assert k in {k};
  }

  lemma LaminarRegions(ids: seq<Node>, sets: seq<set<nat>>, tree: seq<SeseRegion>, i: nat, j: nat)
    requires AllAgree(ids, sets, tree) && i < |tree| && j < |tree| && !Crossing(sets[i], sets[j])
    ensures LaminarPair(tree[i], tree[j])
  {
    assert Agrees(ids, sets, tree, i) && Agrees(ids, sets, tree, j);
    forall v | v in tree[i].containedNodes
      ensures sets[i] * sets[j] == {} ==> v !in tree[j].containedNodes
      ensures sets[i] <= sets[j] ==> v in tree[j].containedNodes
    {
      var k := IndexOf(ids, sets, tree, i, v);
      if k in sets[j] {
        assert k in sets[i] * sets[j];
      }
    }
    forall v | v in tree[j].containedNodes
      ensures sets[j] <= sets[i] ==> v in tree[i].containedNodes
    {
      var k := IndexOf(ids, sets, tree, j, v);
    }
  }

  lemma ContainedInParent(ids: seq<Node>, sets: seq<set<nat>>, tree: seq<SeseRegion>, i: nat, v: Node)
    requires AllAgree(ids, sets, tree) && Nested(sets, Parents(tree))
    requires 1 <= i < |tree| && tree[i].parent.Some? && v in tree[i].containedNodes
    ensures tree[i].parent.value < i && v in tree[tree[i].parent.value].containedNodes
  {
    ParentFacts(sets, Parents(tree), i);
    var k := IndexOf(ids, sets, tree, i, v);
    assert Agrees(ids, sets, tree, tree[i].parent.value);
  }

  lemma ListsAgree(g: FlowGraph, ids: seq<Node>, kept: seq<Cand>, sets: seq<set<nat>>, tree: seq<SeseRegion>)
    requires g.Ok() && Ascending(ids) && Finished(g, ids, kept, sets, tree)
    ensures AllAgree(ids, sets, tree)
    ensures forall i :: 0 <= i < |tree| ==> Ascending(tree[i].nodes) && Ascending(tree[i].containedNodes)
  {
    forall i | 0 <= i < |tree|
      ensures Agrees(ids, sets, tree, i) && Ascending(tree[i].nodes) && Ascending(tree[i].containedNodes)
    {
      RegionMembers(g, ids, kept, sets, tree, i);
    }
  }

  lemma OwnershipHolds(ids: seq<Node>, sets: seq<set<nat>>, tree: seq<SeseRegion>)
    requires AllAgree(ids, sets, tree) && |sets| > 0 && sets[0] == Below(|ids|)
    requires forall i :: 0 <= i < |tree| ==> Ascending(tree[i].nodes) && Ascending(tree[i].containedNodes)
    ensures OwnershipOk(ids, tree)
  {
    forall v | v in ids
      ensures exists i :: 0 <= i < |tree| && v in tree[i].nodes
    {
      var o := OwnedByOne(ids, sets, tree, v);
    }
    forall v, i, j | 0 <= i < |tree| && 0 <= j < |tree| && v in tree[i].nodes && v in tree[j].nodes
      ensures i == j
    {
      OwnerIsUnique(ids, sets, tree, v, i, j);
    }
    forall i, v | 0 <= i < |tree| && v in tree[i].nodes
      ensures v in tree[i].containedNodes
    {
      OwnedIsContained(ids, sets, tree, v, i);
    }
  }

  lemma RootContainsAll(ids: seq<Node>, sets: seq<set<nat>>, tree: seq<SeseRegion>, v: Node)
    requires AllAgree(ids, sets, tree) && |sets| > 0 && sets[0] == Below(|ids|)
    ensures v in tree[0].containedNodes <==> v in ids
  {
    assert Agrees(ids, sets, tree, 0);
    if v in ids {
      var k :| 0 <= k < |ids| && ids[k] == v;
    }
  }

  lemma LinksHold(g: FlowGraph, ids: seq<Node>, kept: seq<Cand>, sets: seq<set<nat>>, tree: seq<SeseRegion>)
    requires g.Ok() && Finished(g, ids, kept, sets, tree) && AllAgree(ids, sets, tree)
    requires forall c :: c in kept ==> Genuine(g, c)
    ensures LinksOk(ids, tree)
  {
    ParentsBelow(sets, tree);
    forall v
      ensures v in tree[0].containedNodes <==> v in ids
    {
      RootContainsAll(ids, sets, tree, v);
    }
    forall i | 1 <= i < |tree|
      ensures tree[i].entryEdge.Some? && tree[i].exitEdge.Some?
      ensures Inside(tree[i], tree[tree[i].parent.value])
    {
      assert kept[i - 1] in kept;
      forall v | v in tree[i].containedNodes
        ensures v in tree[tree[i].parent.value].containedNodes
      {
        ContainedInParent(ids, sets, tree, i, v);
      }
    }
  }

  /** The tree is well formed on every graph, proper or not. */
  lemma ShapeHolds(g: FlowGraph, ids: seq<Node>, kept: seq<Cand>, sets: seq<set<nat>>, tree: seq<SeseRegion>)
    requires g.Ok() && Ascending(ids) && Finished(g, ids, kept, sets, tree)
    requires forall c :: c in kept ==> Genuine(g, c)
    ensures TreeShape(ids, tree)
  {
    ListsAgree(g, ids, kept, sets, tree);
    OwnershipHolds(ids, sets, tree);
    LinksHold(g, ids, kept, sets, tree);
    forall i, j | 1 <= i < |tree| && 1 <= j < |tree|
      ensures LaminarPair(tree[i], tree[j])
    {
      assert !Crossing(sets[i], sets[j]);
      LaminarRegions(ids, sets, tree, i, j);
    }
  }

  lemma ChildIs(tree: seq<SeseRegion>, i: nat, c: nat)
    requires i < |tree| && ChildrenOk(tree, i) && forall j :: 1 <= j < |tree| ==> tree[j].parent.Some?
    ensures c in tree[i].children <==> IsChild(Parents(tree), c, i)
  {
  }

  /** A child region that lists `v` contains the index of `v`, in the parent as well. */
  lemma ChildLists(ids: seq<Node>, sets: seq<set<nat>>, tree: seq<SeseRegion>, i: nat, c: nat, v: Node) returns (k: nat)
    requires AllAgree(ids, sets, tree) && i < |tree| && ChildrenOk(tree, i)
    requires forall j :: 1 <= j < |tree| ==> tree[j].parent.Some?
    requires c in tree[i].children && v in tree[c].containedNodes
    ensures k < |ids| && ids[k] == v && InChild(sets, Parents(tree), i, c, k)
    ensures v in tree[i].containedNodes <==> k in sets[i]
    ensures v in tree[i].nodes <==> Owns(sets, i, k)
  {
    ChildIs(tree, i, c);
    k := IndexOf(ids, sets, tree, c, v);
    assert Agrees(ids, sets, tree, i);
  }

  lemma SplitFromPartition(ids: seq<Node>, sets: seq<set<nat>>, tree: seq<SeseRegion>, i: nat)
    requires AllAgree(ids, sets, tree) && Partitioned(sets, Parents(tree)) && i < |tree|
    requires ChildrenOk(tree, i) && forall j :: 1 <= j < |tree| ==> tree[j].parent.Some?
    ensures SplitsUp(tree, i)
  {
    forall v | v in tree[i].containedNodes && v !in tree[i].nodes
      ensures exists c :: c in tree[i].children && v in tree[c].containedNodes
    {
      var k := IndexOf(ids, sets, tree, i, v);
      assert Placed(sets, Parents(tree), i, k);
      var c: nat :| InChild(sets, Parents(tree), i, c, k);
      ChildIs(tree, i, c);
      assert Agrees(ids, sets, tree, c);
    }
    forall v, c | c in tree[i].children && v in tree[c].containedNodes
      ensures v in tree[i].containedNodes && v !in tree[i].nodes
    {
      var k := ChildLists(ids, sets, tree, i, c, v);
    }
    forall v, c, d | c in tree[i].children && d in tree[i].children
                     && v in tree[c].containedNodes && v in tree[d].containedNodes
      ensures c == d
    {
      var k := ChildLists(ids, sets, tree, i, c, v);
      ChildIs(tree, i, d);
      assert Agrees(ids, sets, tree, d) && InChild(sets, Parents(tree), i, d, k);
    }
  }

  /** The parts of a partition, for one region read back from its lists. */
  lemma SplitPlaces(ids: seq<Node>, sets: seq<set<nat>>, tree: seq<SeseRegion>, i: nat, k: nat)
    requires AllAgree(ids, sets, tree) && i < |tree| && ChildrenOk(tree, i) && SplitsUp(tree, i)
    requires forall j :: 1 <= j < |tree| ==> tree[j].parent.Some?
    requires k in sets[i] && k < |ids|
    ensures Placed(sets, Parents(tree), i, k)
  {
    assert Agrees(ids, sets, tree, i);
    if !Owns(sets, i, k) {
      var c :| c in tree[i].children && ids[k] in tree[c].containedNodes;
      ChildIs(tree, i, c);
      assert Agrees(ids, sets, tree, c);
      assert InChild(sets, Parents(tree), i, c, k);
    }
  }

  lemma SplitSeparates(ids: seq<Node>, sets: seq<set<nat>>, tree: seq<SeseRegion>, i: nat, k: nat, c: nat, d: nat)
    requires AllAgree(ids, sets, tree) && i < |tree| && ChildrenOk(tree, i) && SplitsUp(tree, i)
    requires forall j :: 1 <= j < |tree| ==> tree[j].parent.Some?
    requires k < |ids| && InChild(sets, Parents(tree), i, c, k) && InChild(sets, Parents(tree), i, d, k)
    ensures k in sets[i] && !Owns(sets, i, k) && c == d
  {
    ChildIs(tree, i, c);
    ChildIs(tree, i, d);
    assert Agrees(ids, sets, tree, i) && Agrees(ids, sets, tree, c) && Agrees(ids, sets, tree, d);
    assert ids[k] in tree[c].containedNodes && ids[k] in tree[d].containedNodes;
  }

  lemma PartitionFromSplit(ids: seq<Node>, sets: seq<set<nat>>, tree: seq<SeseRegion>)
    requires AllAgree(ids, sets, tree) && (forall i, k :: 0 <= i < |sets| && k in sets[i] ==> k < |ids|)
    requires forall j :: 1 <= j < |tree| ==> tree[j].parent.Some?
    requires forall i :: 0 <= i < |tree| ==> ChildrenOk(tree, i) && SplitsUp(tree, i)
    ensures true == Partitioned(sets, Parents(tree))
  {
    forall i: nat, k | i < |sets| && k in sets[i]
      ensures Placed(sets, Parents(tree), i, k)
    {
      SplitPlaces(ids, sets, tree, i, k);
    }
    forall i: nat, k, c: nat | i < |sets| && InChild(sets, Parents(tree), i, c, k)
      ensures k in sets[i] && !Owns(sets, i, k)
    {
      SplitSeparates(ids, sets, tree, i, k, c, c);
    }
    forall i: nat, k, c: nat, d: nat | i < |sets|
                                       && InChild(sets, Parents(tree), i, c, k) && InChild(sets, Parents(tree), i, d, k)
      ensures c == d
    {
      SplitSeparates(ids, sets, tree, i, k, c, d);
    }
  }

  ghost predicate SameNodes(r: SeseRegion, s: SeseRegion) {
    forall v :: v in r.containedNodes <==> v in s.containedNodes
  }

  /** No two regions contain the same nodes. */
  ghost predicate DistinctRegions(tree: seq<SeseRegion>) {
    forall i, j :: 0 <= i < j < |tree| ==> !SameNodes(tree[i], tree[j])
  }

  lemma SameNodesIffSameSet(ids: seq<Node>, sets: seq<set<nat>>, tree: seq<SeseRegion>, i: nat, j: nat)
    requires AllAgree(ids, sets, tree) && i < |tree| && j < |tree|
    requires forall k :: k in sets[i] || k in sets[j] ==> k < |ids|
    ensures SameNodes(tree[i], tree[j]) <==> sets[i] == sets[j]
  {
    assert Agrees(ids, sets, tree, i) && Agrees(ids, sets, tree, j);
    if SameNodes(tree[i], tree[j]) {
      forall k
        ensures k in sets[i] <==> k in sets[j]
      {
        if k in sets[i] || k in sets[j] {
          assert ids[k] in tree[i].containedNodes <==> ids[k] in tree[j].containedNodes;
        }
      }
    }
    if sets[i] == sets[j] {
      forall v
        ensures v in tree[i].containedNodes <==> v in tree[j].containedNodes
      {
        if v in ids {
          var k :| 0 <= k < |ids| && ids[k] == v;
        }
      }
    }
  }

  lemma DistinctAgree(ids: seq<Node>, sets: seq<set<nat>>, tree: seq<SeseRegion>)
    requires AllAgree(ids, sets, tree) && (forall i, k :: 0 <= i < |sets| && k in sets[i] ==> k < |ids|)
    ensures DistinctRegions(tree) <==> Distinct(sets)
  {
    forall i, j | 0 <= i < j < |tree|
      ensures SameNodes(tree[i], tree[j]) <==> sets[i] == sets[j]
    {
      SameNodesIffSameSet(ids, sets, tree, i, j);
    }
  }

  /**
   * On every graph: each region is the disjoint union of its own nodes and its children's contained nodes exactly
   * when no two regions contain the same nodes.
   */
  lemma SplitsUpIffDistinct(g: FlowGraph, ids: seq<Node>, kept: seq<Cand>, sets: seq<set<nat>>, tree: seq<SeseRegion>)
    requires g.Ok() && Ascending(ids) && g.n == |ids| + 1 && Finished(g, ids, kept, sets, tree)
    ensures (forall i :: 0 <= i < |tree| ==> SplitsUp(tree, i)) <==> DistinctRegions(tree)
  {
    ListsAgree(g, ids, kept, sets, tree);
    assert 0 in sets[0];
    assert forall i, k :: 0 <= i < |sets| && k in sets[i] ==> k in sets[0];
    PartitionedIffDistinct(sets, Parents(tree));
    DistinctAgree(ids, sets, tree);
    if Partitioned(sets, Parents(tree)) {
      forall i | 0 <= i < |tree|
        ensures SplitsUp(tree, i)
      {
        SplitFromPartition(ids, sets, tree, i);
      }
    }
    if forall i :: 0 <= i < |tree| ==> SplitsUp(tree, i) {
      PartitionFromSplit(ids, sets, tree);
    }
  }

  /** In a proper flowgraph the boundary edges can be read off a region, so no two regions coincide. */
  lemma ProperDistinct(g: FlowGraph, ids: seq<Node>, kept: seq<Cand>, sets: seq<set<nat>>, tree: seq<SeseRegion>)
    requires g.Ok() && g.Proper() && Ascending(ids) && Finished(g, ids, kept, sets, tree) && g.n == |ids| + 1
    requires (forall c :: c in kept ==> Genuine(g, c)) && forall i, j :: 0 <= i < j < |kept| ==> kept[i] != kept[j]
    ensures Distinct(sets)
  {
    forall i, j | 0 <= i < j < |sets|
      ensures sets[i] != sets[j]
    {
      var d := kept[j - 1];
      assert d in kept;
      EntryOutside(g, d.entry, d.exit);
      assert g.entry in sets[0];
      if i > 0 {
        var c := kept[i - 1];
        assert c in kept;
        if c.nodes == d.nodes {
          SameNodesSameEdges(g, c, d);
        }
      }
    }
  }

  lemma SameNodesSameEdges(g: FlowGraph, c: Cand, d: Cand)
    requires g.Ok() && g.Proper() && Genuine(g, c) && Genuine(g, d) && c.nodes == d.nodes
    ensures c == d
  {
    var v :| v in c.nodes;
    CandidateIsSese(g, c.entry, c.exit, v);
    CandidateIsSese(g, d.entry, d.exit, v);
    assert g.Enters(c.nodes, c.entry) && g.Leaves(c.nodes, c.exit);
  }

  /** Filling in the owned nodes leaves everything else about the regions alone. */
  lemma FieldsKept(g: FlowGraph, ids: seq<Node>, kept: seq<Cand>, sets: seq<set<nat>>,
                   before: seq<SeseRegion>, after: seq<SeseRegion>)
    requires g.Ok() && Fields(g, ids, kept, sets, before) && |after| == |before|
    requires forall i :: 0 <= i < |after| ==> after[i] == before[i].(nodes := after[i].nodes)
    ensures Fields(g, ids, kept, sets, after) && Parents(after) == Parents(before)
  {
  }

  lemma ChildrenKept(before: seq<SeseRegion>, after: seq<SeseRegion>, i: nat)
    requires |after| == |before| && i < |after| && ChildrenOk(before, i)
    requires forall j :: 0 <= j < |after| ==> after[j] == before[j].(nodes := after[j].nodes)
    ensures ChildrenOk(after, i)
  {
  }

  lemma OwnersKeepMirror(g: FlowGraph, ids: seq<Node>, kept: seq<Cand>, sets: seq<set<nat>>,
                         before: seq<SeseRegion>, after: seq<SeseRegion>)
    requires g.Ok() && Mirrors(g, ids, kept, sets, before) && Nested(sets, Parents(before)) && |after| == |before|
    requires forall i :: 0 <= i < |after| ==> after[i] == before[i].(nodes := Names(ids, Owned(sets, i, |ids|), |ids|))
    ensures Finished(g, ids, kept, sets, after)
  {
    FieldsKept(g, ids, kept, sets, before, after);
    forall i | 0 <= i < |after|
      ensures ChildrenOk(after, i)
    {
      ChildrenKept(before, after, i);
    }
  }

  lemma TreeLaws(g: FlowGraph, ids: seq<Node>, kept: seq<Cand>, sets: seq<set<nat>>, tree: seq<SeseRegion>)
    requires g.Ok() && g.n == |ids| + 1 && Ascending(ids) && Finished(g, ids, kept, sets, tree)
    requires Buildable(g, ids, kept)
    ensures TreeShape(ids, tree)
    ensures (forall i :: 0 <= i < |tree| ==> SplitsUp(tree, i)) <==> DistinctRegions(tree)
    ensures g.Proper() ==> forall i :: 0 <= i < |tree| ==> SplitsUp(tree, i)
  {
    ShapeHolds(g, ids, kept, sets, tree);
    SplitsUpIffDistinct(g, ids, kept, sets, tree);
    if g.Proper() {
      ProperDistinctRegions(g, ids, kept, sets, tree);
    }
  }

  lemma ProperDistinctRegions(g: FlowGraph, ids: seq<Node>, kept: seq<Cand>, sets: seq<set<nat>>, tree: seq<SeseRegion>)
    requires g.Ok() && g.Proper() && g.n == |ids| + 1 && Ascending(ids) && Finished(g, ids, kept, sets, tree)
    requires Buildable(g, ids, kept)
    ensures DistinctRegions(tree)
  {
    ProperDistinct(g, ids, kept, sets, tree);
    ListsAgree(g, ids, kept, sets, tree);
    forall i, k | 0 <= i < |sets| && k in sets[i]
      ensures k < |ids|
    {
      assert sets[i] <= sets[0];
    }
    DistinctAgree(ids, sets, tree);
  }
}
