/** What a finished tree shows of its candidates, its nesting and its nodes, in terms of the lists in its regions. */
module TreeContents {
  import opened Walks
  import opened Cfgs
  import opened SeseRegions
  import opened Sorting
  import opened SeseSelection
  import opened RegionNesting
  import opened SeseTrees
  import opened TreeShapes

  /** The region has the boundary edges and the nodes of the candidate. */
  ghost predicate ShowsCandidate(g: FlowGraph, ids: seq<Node>, c: Cand, region: SeseRegion) {
    && c.entry < |g.edges| && region.entryEdge == g.edges[c.entry].original
    && c.exit < |g.edges| && region.exitEdge == g.edges[c.exit].original
    && (forall k :: 0 <= k < |ids| ==> (ids[k] in region.containedNodes <==> k in c.nodes))
    && (forall v :: v in region.containedNodes ==> v in ids)
  }

  /** Region `i` has fewer nodes than region `j`, or as many and is listed no later. */
  ghost predicate Tighter(tree: seq<SeseRegion>, i: nat, j: nat)
    requires i < |tree| && j < |tree|
  {
    |tree[i].containedNodes| < |tree[j].containedNodes|
    || (|tree[i].containedNodes| == |tree[j].containedNodes| && i <= j)
  }

  /** The parent is the tightest of the earlier regions that contain region `i`. */
  ghost predicate BelowTightest(tree: seq<SeseRegion>, i: nat)
    requires i < |tree|
  {
    && tree[i].parent.Some? && tree[i].parent.value < i && Inside(tree[i], tree[tree[i].parent.value])
    && forall j: nat :: j < i && Inside(tree[i], tree[j]) ==> Tighter(tree, tree[i].parent.value, j)
  }

  /** A node is owned by the tightest region that contains it. */
  ghost predicate OwnedByTightest(tree: seq<SeseRegion>, i: nat, v: Node)
    requires i < |tree|
  {
    v in tree[i].nodes <==>
    v in tree[i].containedNodes && forall j: nat :: j < |tree| && v in tree[j].containedNodes ==> Tighter(tree, i, j)
  }

  lemma {:induction false} NamesLength(ids: seq<Node>, s: set<nat>, k: nat)
    requires k <= |ids|
    ensures |Names(ids, s, k)| == |set j: nat | j < k && j in s|
    decreases k
  {
    if k > 0 {
      NamesLength(ids, s, k - 1);
      var before := set j: nat | j < k - 1 && j in s;
      assert (set j: nat | j < k && j in s) == before + if k - 1 in s then {k - 1} else {};
    }
  }

  /** Sizes and inclusions of the sets are those of the lists. */
  lemma ListSize(g: FlowGraph, ids: seq<Node>, kept: seq<Cand>, sets: seq<set<nat>>, tree: seq<SeseRegion>, i: nat)
    requires g.Ok() && Fields(g, ids, kept, sets, tree) && i < |tree| && sets[i] <= sets[0]
    ensures |tree[i].containedNodes| == |sets[i]|
  {
    NamesLength(ids, sets[i], |ids|);
    assert (set j: nat | j < |ids| && j in sets[i]) == sets[i];
  }

  lemma InsideIff(ids: seq<Node>, sets: seq<set<nat>>, tree: seq<SeseRegion>, i: nat, j: nat)
    requires i < |tree| == |sets| && j < |tree| && Agrees(ids, sets, tree, i) && Agrees(ids, sets, tree, j)
    requires forall k :: k in sets[i] ==> k < |ids|
    ensures Inside(tree[i], tree[j]) <==> sets[i] <= sets[j]
  {
    if Inside(tree[i], tree[j]) {
      forall k | k in sets[i]
        ensures k in sets[j]
      {
        assert ids[k] in tree[i].containedNodes;
      }
    }
    if sets[i] <= sets[j] {
      forall v | v in tree[i].containedNodes
        ensures v in tree[j].containedNodes
      {
        var k :| 0 <= k < |ids| && ids[k] == v;
      }
    }
  }

  /** The facts about the sets that the laws below read off the lists. */
  ghost predicate Sized(ids: seq<Node>, sets: seq<set<nat>>, tree: seq<SeseRegion>) {
    && AllAgree(ids, sets, tree)
    && (forall i :: 0 <= i < |tree| ==> |tree[i].containedNodes| == |sets[i]|)
    && (forall i, k :: 0 <= i < |tree| && k in sets[i] ==> k < |ids|)
  }

  lemma TreeSized(g: FlowGraph, ids: seq<Node>, kept: seq<Cand>, sets: seq<set<nat>>, tree: seq<SeseRegion>)
    requires g.Ok() && Ascending(ids) && Finished(g, ids, kept, sets, tree)
    ensures Sized(ids, sets, tree)
  {
    ListsAgree(g, ids, kept, sets, tree);
    forall i | 0 <= i < |tree|
      ensures |tree[i].containedNodes| == |sets[i]| && forall k :: k in sets[i] ==> k < |ids|
    {
      assert sets[i] <= sets[0];
      ListSize(g, ids, kept, sets, tree, i);
    }
  }

  lemma ParentTightest(ids: seq<Node>, sets: seq<set<nat>>, tree: seq<SeseRegion>, i: nat)
    requires Sized(ids, sets, tree) && Nested(sets, Parents(tree)) && 1 <= i < |tree| && tree[i].parent.Some?
    ensures BelowTightest(tree, i)
  {
    ParentFacts(sets, Parents(tree), i);
    var p := tree[i].parent.value;
    assert Agrees(ids, sets, tree, i) && Agrees(ids, sets, tree, p);
    InsideIff(ids, sets, tree, i, p);
    forall j: nat | j < i && Inside(tree[i], tree[j])
      ensures Tighter(tree, p, j)
    {
      assert Agrees(ids, sets, tree, j);
      InsideIff(ids, sets, tree, i, j);
    }
  }

  lemma OwnerTightest(ids: seq<Node>, sets: seq<set<nat>>, tree: seq<SeseRegion>, i: nat, k: nat)
    requires Sized(ids, sets, tree) && i < |tree| && k < |ids|
    ensures OwnedByTightest(tree, i, ids[k])
  {
    forall j: nat | j < |tree|
      ensures ids[k] in tree[j].containedNodes <==> {k} <= sets[j]
      ensures ids[k] in tree[j].nodes <==> Owns(sets, j, k)
    {
      assert Agrees(ids, sets, tree, j);
    }
  }

  /** The three laws, for a tree over any flowgraph. */
  lemma ContentsHold(g: FlowGraph, ids: seq<Node>, kept: seq<Cand>, sets: seq<set<nat>>, tree: seq<SeseRegion>)
    requires g.Ok() && Ascending(ids) && Finished(g, ids, kept, sets, tree)
    ensures |tree| == |kept| + 1
    ensures forall i :: 1 <= i < |tree| ==> ShowsCandidate(g, ids, kept[i - 1], tree[i]) && BelowTightest(tree, i)
    ensures forall i, v :: 0 <= i < |tree| && v in ids ==> OwnedByTightest(tree, i, v)
  {
    TreeSized(g, ids, kept, sets, tree);
    forall i | 1 <= i < |tree|
      ensures ShowsCandidate(g, ids, kept[i - 1], tree[i]) && BelowTightest(tree, i)
    {
      assert Drawn(g, kept[i - 1], sets[i], tree[i]) && Agrees(ids, sets, tree, i);
      ParentTightest(ids, sets, tree, i);
    }
    forall i, v | 0 <= i < |tree| && v in ids
      ensures OwnedByTightest(tree, i, v)
    {
      var k :| 0 <= k < |ids| && ids[k] == v;
      OwnerTightest(ids, sets, tree, i, k);
    }
  }
}
