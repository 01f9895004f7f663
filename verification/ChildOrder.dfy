/**
 * The order of a region's children: by size, not by entry edge. When the two orders coincide, and a graph on which they
 * do not.
 */
module ChildOrder {
  import opened Walks
  import opened Cfgs
  import opened Counting
  import opened GraphTables
  import opened EdgeRoutes
  import opened CycleClasses
  import opened SeseRegions
  import opened Sorting
  import opened SeseSelection
  import opened RegionNesting
  import opened SeseTrees
  import opened TreeShapes
  import opened FlowGraphs
  import opened ComputeSese

  /** Children are listed from the largest to the smallest, those of one size by their boundary edges. */
  lemma ChildrenBySize(g: FlowGraph, ids: seq<Node>, kept: seq<Cand>, sets: seq<set<nat>>, tree: seq<SeseRegion>,
                       i: nat, x: nat, y: nat)
    requires g.Ok() && Mirrors(g, ids, kept, sets, tree) && Sorted(BySizeDown, kept)
    requires i < |tree| && x < y < |tree[i].children|
    ensures 1 <= tree[i].children[x] < tree[i].children[y] <= |kept|
    ensures var c, d := kept[tree[i].children[x] - 1], kept[tree[i].children[y] - 1];
            |c.nodes| > |d.nodes|
            || (|c.nodes| == |d.nodes| && (c.entry < d.entry || (c.entry == d.entry && c.exit <= d.exit)))
  {
    assert ChildrenOk(tree, i);
    assert tree[i].children[x] in tree[i].children && tree[i].children[y] in tree[i].children;
  }

  /** Region `c` is entered no later than region `d`. */
  ghost predicate EntersFirst(tree: seq<SeseRegion>, c: nat, d: nat) {
    c < |tree| && d < |tree| && tree[c].entryEdge.Some? && tree[d].entryEdge.Some?
    && tree[c].entryEdge.value <= tree[d].entryEdge.value
  }

  /** The documented order: each child list ascends by entry edge. */
  ghost predicate InEntryOrder(tree: seq<SeseRegion>) {
    forall c, d :: 1 <= c < d < |tree| && tree[c].parent == tree[d].parent ==> EntersFirst(tree, c, d)
  }

  /** That is what it says of the child lists. */
  lemma InEntryOrderMeans(tree: seq<SeseRegion>)
    requires forall i :: 0 <= i < |tree| ==> ChildrenOk(tree, i)
    requires forall c :: 1 <= c < |tree| ==> tree[c].parent.Some? && tree[c].parent.value < |tree|
    ensures InEntryOrder(tree) <==>
            forall i, x, y :: 0 <= i < |tree| && 0 <= x < y < |tree[i].children| ==>
              EntersFirst(tree, tree[i].children[x], tree[i].children[y])
  {
    forall i, x, y | 0 <= i < |tree| && 0 <= x < y < |tree[i].children|
      ensures 1 <= tree[i].children[x] < tree[i].children[y] < |tree|
      ensures tree[tree[i].children[x]].parent == tree[tree[i].children[y]].parent
    {
      assert ChildrenOk(tree, i);
      assert tree[i].children[x] in tree[i].children && tree[i].children[y] in tree[i].children;
    }
    if forall i, x, y :: 0 <= i < |tree| && 0 <= x < y < |tree[i].children| ==>
        EntersFirst(tree, tree[i].children[x], tree[i].children[y]) {
      forall c, d | 1 <= c < d < |tree| && tree[c].parent == tree[d].parent
        ensures EntersFirst(tree, c, d)
      {
        var i := tree[c].parent.value;
        assert ChildrenOk(tree, i);
        assert c in tree[i].children && d in tree[i].children;
        var x :| 0 <= x < |tree[i].children| && tree[i].children[x] == c;
        var y :| 0 <= y < |tree[i].children| && tree[i].children[y] == d;
        assert x < y;
      }
    }
  }

  /** `x` is chosen, comes before `c` and contains it. */
  ghost predicate Encloses(g: FlowGraph, x: Cand, c: Cand)
    requires g.n >= 1
  {
    && Chosen(g, x) && x != c && c.nodes <= x.nodes
    && (c.nodes == x.nodes ==> x.entry < c.entry || (x.entry == c.entry && x.exit <= c.exit))
  }

  /** Of those the smallest, and the first of its size. */
  ghost predicate Innermost(g: FlowGraph, x: Cand, c: Cand)
    requires g.n >= 1
  {
    && Encloses(g, x, c)
    && forall y :: Encloses(g, y, c) ==>
                     |x.nodes| < |y.nodes|
                     || (|x.nodes| == |y.nodes| && (x.entry < y.entry || (x.entry == y.entry && x.exit <= y.exit)))
  }

  ghost predicate Outermost(g: FlowGraph, c: Cand)
    requires g.n >= 1
  {
    forall x :: !Encloses(g, x, c)
  }

  /** Two chosen regions with the same innermost enclosing one, or with none. */
  ghost predicate Siblings(g: FlowGraph, c: Cand, d: Cand)
    requires g.n >= 1
  {
    && Chosen(g, c) && Chosen(g, d)
    && ((Outermost(g, c) && Outermost(g, d)) || exists x :: Innermost(g, x, c) && Innermost(g, x, d))
  }

  /** Of two siblings of different size the larger one is entered first. */
  ghost predicate LargerFirst(g: FlowGraph)
    requires g.n >= 1
  {
    forall c, d :: Siblings(g, c, d) && |c.nodes| > |d.nodes| ==> c.entry <= d.entry
  }

  /** What the tree is built from, in the terms used below. */
  ghost predicate Family(g: FlowGraph, kept: seq<Cand>, sets: seq<set<nat>>, parents: seq<nat>) {
    && g.Ok() && Sorted(BySizeDown, kept) && NoRepeats(kept) && (forall c :: c in kept <==> Chosen(g, c))
    && |sets| == |kept| + 1 && Nested(sets, parents)
    && (forall i :: 1 <= i < |sets| ==> sets[i] == kept[i - 1].nodes && sets[i] < sets[0])
  }

  lemma FamilyOf(graph: Tables, root: Node, g: FlowGraph, ids: seq<Node>, kept: seq<Cand>, sets: seq<set<nat>>,
                 tree: seq<SeseRegion>)
    requires Computed(graph, root, g, ids, kept, sets, tree)
    ensures Family(g, kept, sets, Parents(tree))
  {
    forall i | 1 <= i < |sets|
      ensures sets[i] == kept[i - 1].nodes && sets[i] < sets[0]
    {
      var c := kept[i - 1];
      assert Drawn(g, c, sets[i], tree[i]) && c in kept;
      EntryOutside(g, c.entry, c.exit);
      assert g.entry in sets[0];
    }
  }

  /** The order of the list is the order of its positions. */
  lemma OrderIff(g: FlowGraph, kept: seq<Cand>, sets: seq<set<nat>>, parents: seq<nat>, i: nat, j: nat)
    requires Family(g, kept, sets, parents) && 1 <= i < |sets| && 1 <= j < |sets|
    ensures BySizeDown(kept[i - 1], kept[j - 1]) <==> i <= j
    ensures kept[i - 1] == kept[j - 1] <==> i == j
  {
    var c, d := kept[i - 1], kept[j - 1];
    assert c in kept && d in kept;
    EqualBoundaries(g, c, d);
  }

  /** A region encloses another exactly when it is listed before it and contains it. */
  lemma EnclosesIff(g: FlowGraph, kept: seq<Cand>, sets: seq<set<nat>>, parents: seq<nat>, j: nat, i: nat)
    requires Family(g, kept, sets, parents) && 1 <= i < |sets| && 1 <= j < |sets|
    ensures Encloses(g, kept[j - 1], kept[i - 1]) <==> j < i && sets[i] <= sets[j]
  {
    OrderIff(g, kept, sets, parents, j, i);
    assert kept[j - 1] in kept;
    if sets[i] <= sets[j] {
      SubsetSize(sets[i], sets[j]);
    }
  }

  lemma Position(kept: seq<Cand>, x: Cand) returns (j: nat)
    requires x in kept
    ensures 1 <= j <= |kept| && kept[j - 1] == x
  {
    var k :| 0 <= k < |kept| && kept[k] == x;
    j := k + 1;
  }

  /** Set `p`, not the root's, is the smallest listed before `i` that contains set `i`, the first of its size. */
  ghost predicate SmallestBefore(sets: seq<set<nat>>, i: nat, p: nat)
    requires i < |sets|
  {
    && 1 <= p < i && sets[i] <= sets[p]
    && forall j :: 1 <= j < i && sets[i] <= sets[j] ==> |sets[p]| < |sets[j]| || (|sets[p]| == |sets[j]| && p <= j)
  }

  lemma SmallerSet(s: set<nat>, t: set<nat>)
    requires s < t
    ensures |s| < |t|
  {
    var v :| v in t && v !in s;
    SubsetSize(s, t - {v});
  }

  /** The parent is the smallest such set, the root if there is none. */
  lemma ParentIsSmallest(sets: seq<set<nat>>, parents: seq<nat>, i: nat, p: nat)
    requires Nested(sets, parents) && 1 <= i < |sets| && forall j :: 1 <= j < |sets| ==> sets[j] < sets[0]
    ensures parents[i] < i
    ensures p > 0 ==> (parents[i] == p <==> SmallestBefore(sets, i, p))
    ensures parents[i] == 0 <==> forall j :: 1 <= j < i ==> !(sets[i] <= sets[j])
  {
    assert ParentOk(sets, parents, i);
    forall j | 0 <= j < i
      ensures sets[..i][j] == sets[j]
      ensures j > 0 ==> |sets[j]| < |sets[0]|
    {
      if j > 0 {
        SmallerSet(sets[j], sets[0]);
      }
    }
  }

  /** In terms of the flowgraph it is the innermost enclosing region. */
  lemma InnermostIff(g: FlowGraph, kept: seq<Cand>, sets: seq<set<nat>>, parents: seq<nat>, p: nat, i: nat)
    requires Family(g, kept, sets, parents) && 1 <= i < |sets| && 1 <= p < |sets|
    ensures SmallestBefore(sets, i, p) <==> Innermost(g, kept[p - 1], kept[i - 1])
  {
    EnclosesIff(g, kept, sets, parents, p, i);
    if SmallestBefore(sets, i, p) {
      forall y | Encloses(g, y, kept[i - 1])
        ensures |sets[p]| < |y.nodes|
                || (|sets[p]| == |y.nodes|
                    && (kept[p - 1].entry < y.entry || (kept[p - 1].entry == y.entry && kept[p - 1].exit <= y.exit)))
      {
        var j := Position(kept, y);
        EnclosesIff(g, kept, sets, parents, j, i);
        OrderIff(g, kept, sets, parents, p, j);
      }
    }
    if Innermost(g, kept[p - 1], kept[i - 1]) {
      forall j | 1 <= j < i && sets[i] <= sets[j]
        ensures |sets[p]| < |sets[j]| || (|sets[p]| == |sets[j]| && p <= j)
      {
        EnclosesIff(g, kept, sets, parents, j, i);
        OrderIff(g, kept, sets, parents, p, j);
      }
    }
  }

  lemma OutermostIff(g: FlowGraph, kept: seq<Cand>, sets: seq<set<nat>>, parents: seq<nat>, i: nat)
    requires Family(g, kept, sets, parents) && 1 <= i < |sets|
    ensures parents[i] == 0 <==> Outermost(g, kept[i - 1])
  {
    ParentIsSmallest(sets, parents, i, 0);
    var c := kept[i - 1];
    if parents[i] == 0 {
      forall x
        ensures !Encloses(g, x, c)
      {
        if Encloses(g, x, c) {
          var j := Position(kept, x);
          EnclosesIff(g, kept, sets, parents, j, i);
        }
      }
    } else {
      ParentIsSmallest(sets, parents, i, parents[i]);
      EnclosesIff(g, kept, sets, parents, parents[i], i);
    }
  }

  lemma SiblingsIff(g: FlowGraph, kept: seq<Cand>, sets: seq<set<nat>>, parents: seq<nat>, i: nat, j: nat)
    requires Family(g, kept, sets, parents) && 1 <= i < |sets| && 1 <= j < |sets|
    ensures parents[i] == parents[j] <==> Siblings(g, kept[i - 1], kept[j - 1])
  {
    var c, d, p := kept[i - 1], kept[j - 1], parents[i];
    assert c in kept && d in kept;
    OutermostIff(g, kept, sets, parents, i);
    OutermostIff(g, kept, sets, parents, j);
    ParentIsSmallest(sets, parents, i, p);
    ParentIsSmallest(sets, parents, j, p);
    if p > 0 {
      InnermostIff(g, kept, sets, parents, p, i);
      InnermostIff(g, kept, sets, parents, p, j);
    }
    if Siblings(g, c, d) && p > 0 {
      var x :| Innermost(g, x, c) && Innermost(g, x, d);
      var q := Position(kept, x);
      InnermostIff(g, kept, sets, parents, q, i);
      InnermostIff(g, kept, sets, parents, q, j);
      ParentIsSmallest(sets, parents, i, q);
      ParentIsSmallest(sets, parents, j, q);
    }
  }

  /** Edge ids ascend with positions in the flowgraph. */
  lemma EnteredFirst(graph: Tables, root: Node, g: FlowGraph, ids: seq<Node>, kept: seq<Cand>, sets: seq<set<nat>>,
                     tree: seq<SeseRegion>, c: nat, d: nat)
    requires Computed(graph, root, g, ids, kept, sets, tree) && 1 <= c < |tree| && 1 <= d < |tree|
    ensures EntersFirst(tree, c, d) <==> kept[c - 1].entry <= kept[d - 1].entry
  {
    assert Drawn(g, kept[c - 1], sets[c], tree[c]) && Drawn(g, kept[d - 1], sets[d], tree[d]);
    assert kept[c - 1] in kept && kept[d - 1] in kept;
    var original := g.edges[..g.count];
    var a, b := kept[c - 1].entry, kept[d - 1].entry;
    assert original[a] == g.edges[a] && original[b] == g.edges[b];
    assert StandsFor(graph, ids, original[a]) && StandsFor(graph, ids, original[b]);
  }

  /** What two regions of the tree say of their candidates. */
  ghost predicate Mapped(g: FlowGraph, kept: seq<Cand>, tree: seq<SeseRegion>, i: nat, j: nat)
    requires g.n >= 1
  {
    && 1 <= i < j < |tree| == |kept| + 1
    && (tree[i].parent == tree[j].parent <==> Siblings(g, kept[i - 1], kept[j - 1]))
    && (EntersFirst(tree, i, j) <==> kept[i - 1].entry <= kept[j - 1].entry)
    && BySizeDown(kept[i - 1], kept[j - 1])
  }

  lemma PairMapped(graph: Tables, root: Node, g: FlowGraph, ids: seq<Node>, kept: seq<Cand>, sets: seq<set<nat>>,
                   tree: seq<SeseRegion>, i: nat, j: nat)
    requires Computed(graph, root, g, ids, kept, sets, tree) && 1 <= i < j < |tree|
    ensures true == Mapped(g, kept, tree, i, j)
  {
    FamilyOf(graph, root, g, ids, kept, sets, tree);
    assert Drawn(g, kept[i - 1], sets[i], tree[i]) && Drawn(g, kept[j - 1], sets[j], tree[j]);
    SiblingsIff(g, kept, sets, Parents(tree), i, j);
    EnteredFirst(graph, root, g, ids, kept, sets, tree, i, j);
  }

  lemma LargerEntersFirst(g: FlowGraph, kept: seq<Cand>, tree: seq<SeseRegion>, c: Cand, d: Cand)
    requires g.n >= 1 && c in kept && d in kept && |c.nodes| > |d.nodes| && Siblings(g, c, d) && InEntryOrder(tree)
    requires forall i, j :: 1 <= i < j <= |kept| ==> Mapped(g, kept, tree, i, j)
    ensures c.entry <= d.entry
  {
    var i := Position(kept, c);
    var j := Position(kept, d);
    assert i < j ==> Mapped(g, kept, tree, i, j);
    assert j < i ==> Mapped(g, kept, tree, j, i);
  }

  /** The documented order is the order of the tree exactly when larger siblings are entered first. */
  lemma EntryOrderIff(graph: Tables, root: Node, g: FlowGraph, ids: seq<Node>, kept: seq<Cand>, sets: seq<set<nat>>,
                      tree: seq<SeseRegion>)
    requires Computed(graph, root, g, ids, kept, sets, tree)
    ensures InEntryOrder(tree) <==> LargerFirst(g)
  {
    forall i, j | 1 <= i < j <= |kept|
      ensures Mapped(g, kept, tree, i, j)
    {
      PairMapped(graph, root, g, ids, kept, sets, tree, i, j);
    }
    if InEntryOrder(tree) {
      forall c, d | Siblings(g, c, d) && |c.nodes| > |d.nodes|
        ensures c.entry <= d.entry
      {
        LargerEntersFirst(g, kept, tree, c, d);
      }
    }
    if LargerFirst(g) {
      forall i, j | 1 <= i < j < |tree| && tree[i].parent == tree[j].parent
        ensures EntersFirst(tree, i, j)
      {
        assert Mapped(g, kept, tree, i, j);
      }
    }
  }
}
