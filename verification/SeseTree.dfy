/** The program-structure tree. */
module SeseTrees {
  import opened Cfgs
  import opened SeseRegions
  import opened Sorting
  import opened SeseSelection
  import opened RegionNesting

  datatype SeseRegion = SeseRegion(parent: Option<nat>, children: seq<nat>, entryEdge: Option<nat>,
                                   exitEdge: Option<nat>, nodes: seq<nat>, containedNodes: seq<nat>)

  /** The indices 0..n-1. */
  function Below(n: nat): (s: set<nat>)
    ensures forall i: nat :: i in s <==> i < n
  {
    if n == 0 then {} else Below(n - 1) + {n - 1}
  }

  /** The names of the members of `s` among the first `k` indices, in index order. */
  ghost function Names(ids: seq<nat>, s: set<nat>, k: nat): seq<nat>
    requires k <= |ids|
  {
    if k == 0 then [] else Names(ids, s, k - 1) + if k - 1 in s then [ids[k - 1]] else []
  }

  lemma {:induction false} NamesMembers(ids: seq<nat>, s: set<nat>, k: nat)
    requires k <= |ids| && Ascending(ids)
    ensures forall j :: 0 <= j < |ids| ==> (ids[j] in Names(ids, s, k) <==> j < k && j in s)
    ensures forall v :: v in Names(ids, s, k) ==> v in ids[..k]
    ensures Ascending(Names(ids, s, k))
    decreases k
  {
    if k > 0 {
      NamesMembers(ids, s, k - 1);
      var shorter := Names(ids, s, k - 1);
      assert forall v :: v in ids[..k - 1] ==> v in ids[..k] && v < ids[k - 1];
      assert ids[k - 1] in ids[..k];
      AscendingSnoc(shorter, ids[k - 1]);
    }
  }

  lemma AscendingSnoc(s: seq<nat>, x: nat)
    requires Ascending(s) && forall v :: v in s ==> v < x
    ensures Ascending(s + [x])
  {
    forall j | 0 <= j < |s|
      ensures s[j] < x
    {
      assert s[j] in s;
    }
  }

  lemma {:induction false} NamesExtend(ids: seq<nat>, s: set<nat>, t: set<nat>, k: nat)
    requires k <= |ids| && forall j :: 0 <= j < k ==> (j in s <==> j in t)
    ensures Names(ids, s, k) == Names(ids, t, k)
    decreases k
  {
    if k > 0 {
      NamesExtend(ids, s, t, k - 1);
    }
  }

  method NamesOf(ids: seq<nat>, s: set<nat>) returns (out: seq<nat>)
    ensures out == Names(ids, s, |ids|)
  {
    out := [];
    for j := 0 to |ids|
      invariant out == Names(ids, s, j)
    {
      if j in s {
        out := out + [ids[j]];
      }
    }
  }

  ghost function Parents(regions: seq<SeseRegion>): (p: seq<nat>)
    ensures |p| == |regions|
  {
    seq(|regions|, i requires 0 <= i < |regions| => if regions[i].parent.Some? then regions[i].parent.value else 0)
  }

  /** The regions mirror the nested sets; node ownership is described separately. */
  ghost predicate Mirrors(g: FlowGraph, ids: seq<nat>, kept: seq<Cand>, sets: seq<set<nat>>, regions: seq<SeseRegion>)
    requires g.Ok()
  {
    && Fields(g, ids, kept, sets, regions)
    && forall i :: 0 <= i < |regions| ==> ChildrenOk(regions, i)
  }

  /** Boundary edges, contained nodes and the presence of a parent. */
  ghost predicate Fields(g: FlowGraph, ids: seq<nat>, kept: seq<Cand>, sets: seq<set<nat>>, regions: seq<SeseRegion>)
    requires g.Ok()
  {
    && |regions| == |sets| == |kept| + 1
    && regions[0].parent == None && regions[0].entryEdge == None && regions[0].exitEdge == None
    && sets[0] == Below(|ids|)
    && (forall i :: 0 <= i < |regions| ==> regions[i].containedNodes == Names(ids, sets[i], |ids|))
    && (forall i :: 1 <= i < |regions| ==> Drawn(g, kept[i - 1], sets[i], regions[i]))
  }

  /** A region other than the first shows its candidate. */
  ghost predicate Drawn(g: FlowGraph, c: Cand, s: set<nat>, region: SeseRegion) {
    && s == c.nodes && region.parent.Some?
    && c.entry < |g.edges| && region.entryEdge == g.edges[c.entry].original
    && c.exit < |g.edges| && region.exitEdge == g.edges[c.exit].original
  }

  /** The child list inverts the parent pointers, in ascending order. */
  ghost predicate ChildrenOk(regions: seq<SeseRegion>, i: nat)
    requires i < |regions|
  {
    && Ascending(regions[i].children)
    && forall c :: c in regions[i].children <==> 1 <= c < |regions| && regions[c].parent == Some(i)
  }

  /** The selected candidates, as the tree builder receives them. */
  ghost predicate Buildable(g: FlowGraph, ids: seq<nat>, kept: seq<Cand>)
    requires g.Ok()
  {
    && g.n == |ids| + 1 && Sorted(BySizeDown, kept)
    && (forall c :: c in kept ==> Genuine(g, c))
    && (forall c, d :: c in kept && d in kept ==> !Crossing(c.nodes, d.nodes))
    && (forall i, j :: 0 <= i < j < |kept| ==> kept[i] != kept[j])
  }

  /** The regions after a new one has been hung below `parent`. */
  function Attached(regions: seq<SeseRegion>, region: SeseRegion, parent: nat): (r: seq<SeseRegion>)
    requires parent < |regions| && region.parent == Some(parent) && region.children == []
    ensures |r| == |regions| + 1 && r[|regions|] == region
    ensures forall i :: 0 <= i < |regions| ==>
              r[i] == if i == parent then regions[i].(children := regions[i].children + [|regions|]) else regions[i]
  {
    regions[parent := regions[parent].(children := regions[parent].children + [|regions|])] + [region]
  }

  lemma AttachedChildren(regions: seq<SeseRegion>, region: SeseRegion, parent: nat)
    requires parent < |regions| && region.parent == Some(parent) && region.children == []
    requires forall i :: 0 <= i < |regions| ==> ChildrenOk(regions, i)
    requires forall i :: 1 <= i < |regions| && regions[i].parent.Some? ==> regions[i].parent.value < i
    ensures forall i :: 0 <= i <= |regions| ==> ChildrenOk(Attached(regions, region, parent), i)
  {
    var after := Attached(regions, region, parent);
    forall i | 0 <= i <= |regions|
      ensures ChildrenOk(after, i)
    {
      if i < |regions| {
        assert ChildrenOk(regions, i);
        forall k | 0 <= k < |regions[i].children|
          ensures regions[i].children[k] < |regions|
        {
          assert regions[i].children[k] in regions[i].children;
        }
      }
    }
  }

  lemma AttachedParents(regions: seq<SeseRegion>, region: SeseRegion, parent: nat)
    requires parent < |regions| && region.parent == Some(parent) && region.children == []
    ensures Parents(Attached(regions, region, parent)) == Parents(regions) + [parent]
  {
  }

  lemma ParentsBelow(sets: seq<set<nat>>, regions: seq<SeseRegion>)
    requires Nested(sets, Parents(regions))
    ensures forall i :: 1 <= i < |regions| && regions[i].parent.Some? ==> regions[i].parent.value < i
  {
    forall i | 1 <= i < |regions| && regions[i].parent.Some?
      ensures regions[i].parent.value < i
    {
      ParentFacts(sets, Parents(regions), i);
    }
  }

  /** What may be appended: no larger than anything so far, and crossing nothing. */
  ghost predicate Fits(sets: seq<set<nat>>, s: set<nat>) {
    forall i :: 1 <= i < |sets| ==> |s| <= |sets[i]| && !Crossing(sets[i], s) && !Crossing(s, sets[i])
  }

  lemma AttachedFields(g: FlowGraph, ids: seq<nat>, kept: seq<Cand>, c: Cand, sets: seq<set<nat>>,
                       regions: seq<SeseRegion>, region: SeseRegion, parent: nat)
    requires g.Ok() && Fields(g, ids, kept, sets, regions) && parent < |regions|
    requires region.parent == Some(parent) && region.children == []
    requires c.entry < |g.edges| && region.entryEdge == g.edges[c.entry].original
    requires c.exit < |g.edges| && region.exitEdge == g.edges[c.exit].original
    requires region.containedNodes == Names(ids, c.nodes, |ids|)
    ensures Fields(g, ids, kept + [c], sets + [c.nodes], Attached(regions, region, parent))
  {
    var after := Attached(regions, region, parent);
    forall i | 1 <= i < |after|
      ensures Drawn(g, (kept + [c])[i - 1], (sets + [c.nodes])[i], after[i])
    {
      if i < |regions| {
        assert Drawn(g, kept[i - 1], sets[i], regions[i]);
      }
    }
  }

  /** The first half of the construction, as far as it has come: no node has an owner yet. */
  ghost predicate Built(g: FlowGraph, ids: seq<nat>, kept: seq<Cand>, sets: seq<set<nat>>, regions: seq<SeseRegion>)
    requires g.Ok()
  {
    && Mirrors(g, ids, kept, sets, regions) && Nested(sets, Parents(regions))
    && forall i :: 0 <= i < |regions| ==> regions[i].nodes == []
  }

  /** Appends one region below its parent. */
  method AddRegion(g: FlowGraph, ids: seq<nat>, ghost kept: seq<Cand>, c: Cand, sets: seq<set<nat>>,
                   regions: seq<SeseRegion>)
    returns (regions': seq<SeseRegion>)
    requires g.Ok() && Genuine(g, c) && g.n == |ids| + 1
    requires true == Built(g, ids, kept, sets, regions) && Fits(sets, c.nodes)
    ensures true == Built(g, ids, kept + [c], sets + [c.nodes], regions')
  {
    var parent := SmallestContaining(sets, c.nodes);
    var contained := NamesOf(ids, c.nodes);
    var region := SeseRegion(Some(parent), [], g.edges[c.entry].original, g.edges[c.exit].original, [], contained);
    regions' := Attached(regions, region, parent);
    NestedExtends(sets, Parents(regions), c.nodes, parent);
    AttachedParents(regions, region, parent);
    AttachedFields(g, ids, kept, c, sets, regions, region, parent);
    ParentsBelow(sets, regions);
    AttachedChildren(regions, region, parent);
  }

  lemma NestedExtends(sets: seq<set<nat>>, parents: seq<nat>, s: set<nat>, p: nat)
    requires Nested(sets, parents) && IsSmallest(sets, s, p) && s != {} && s <= sets[0]
    requires Fits(sets, s)
    ensures Nested(sets + [s], parents + [p])
  {
    var t := sets + [s];
    forall i | 1 <= i < |t|
      ensures ParentOk(t, parents + [p], i)
    {
      if i < |sets| {
        assert ParentOk(sets, parents, i);
        assert t[..i] == sets[..i];
      } else {
        assert t[..i] == sets;
      }
    }
  }

  lemma KeptFits(g: FlowGraph, ids: seq<nat>, kept: seq<Cand>, k: nat, sets: seq<set<nat>>, regions: seq<SeseRegion>)
    requires g.Ok() && Buildable(g, ids, kept) && k < |kept| && Built(g, ids, kept[..k], sets, regions)
    ensures Genuine(g, kept[k]) && Fits(sets, kept[k].nodes)
  {
    assert kept[k] in kept;
    forall i | 1 <= i < |sets|
      ensures sets[i] == kept[i - 1].nodes && kept[i - 1] in kept
    {
      assert Drawn(g, kept[..k][i - 1], sets[i], regions[i]);
    }
  }

  lemma RootMirrors(g: FlowGraph, ids: seq<nat>, all: set<nat>, region: SeseRegion)
    requires g.Ok() && all == Below(|ids|) && region == SeseRegion(None, [], None, None, [], Names(ids, all, |ids|))
    ensures Mirrors(g, ids, [], [all], [region])
  {
  }

  lemma RootNested(all: set<nat>, parents: seq<nat>)
    requires |parents| == 1
    ensures Nested([all], parents)
  {
  }

  lemma RootBuilt(g: FlowGraph, ids: seq<nat>, region: SeseRegion)
    requires g.Ok() && region == SeseRegion(None, [], None, None, [], Names(ids, Below(|ids|), |ids|))
    ensures true == Built(g, ids, [], [Below(|ids|)], [region])
  {
    RootMirrors(g, ids, Below(|ids|), region);
    RootNested(Below(|ids|), Parents([region]));
  }

  /** The first half of the construction: one region per selected candidate, largest first. */
  method BuildRegions(g: FlowGraph, ids: seq<nat>, kept: seq<Cand>)
    returns (sets: seq<set<nat>>, regions: seq<SeseRegion>)
    requires g.Ok() && Ascending(ids) && Buildable(g, ids, kept)
    ensures Mirrors(g, ids, kept, sets, regions) && Nested(sets, Parents(regions))
    ensures forall i :: 0 <= i < |regions| ==> regions[i].nodes == []
  {
    var all := Below(|ids|);
    var names := NamesOf(ids, all);
    regions := [SeseRegion(None, [], None, None, [], names)];
    sets := [all];
    RootBuilt(g, ids, regions[0]);
    for k := 0 to |kept|
      invariant true == Built(g, ids, kept[..k], sets, regions)
    {
      var c := kept[k];
      KeptFits(g, ids, kept, k, sets, regions);
      assert kept[..k + 1] == kept[..k] + [c];
      regions := AddRegion(g, ids, kept[..k], c, sets, regions);
      sets := sets + [c.nodes];
    }
    assert kept[..|kept|] == kept;
  }

  /** The indices below `k` that region `i` owns. */
  ghost function Owned(sets: seq<set<nat>>, i: nat, k: nat): set<nat> {
    set v: nat | v < k && Owns(sets, i, v)
  }

  ghost function WithOwned(ids: seq<nat>, sets: seq<set<nat>>, regions: seq<SeseRegion>, i: nat, k: nat): SeseRegion
    requires i < |regions| && k <= |ids|
  {
    regions[i].(nodes := Names(ids, Owned(sets, i, k), k))
  }

  function WithNode(region: SeseRegion, node: nat): SeseRegion {
    region.(nodes := region.nodes + [node])
  }

  /** The next node goes to the smallest set that contains it. */
  lemma OwnedStep(ids: seq<nat>, sets: seq<set<nat>>, regions: seq<SeseRegion>, i: nat, k: nat, owner: nat)
    requires i < |regions| == |sets| && k < |ids| && Owns(sets, owner, k)
    ensures WithOwned(ids, sets, regions, i, k + 1)
            == if i == owner then WithNode(WithOwned(ids, sets, regions, i, k), ids[k])
              else WithOwned(ids, sets, regions, i, k)
  {
    NamesExtend(ids, Owned(sets, i, k + 1), Owned(sets, i, k), k);
    assert k in Owned(sets, i, k + 1) <==> i == owner;
  }

  /** The second half: each node goes to the deepest region that contains it. */
  method AssignOwners(ids: seq<nat>, sets: seq<set<nat>>, regions: seq<SeseRegion>) returns (out: seq<SeseRegion>)
    requires |sets| == |regions| > 0 && sets[0] == Below(|ids|)
    requires forall i :: 0 <= i < |regions| ==> regions[i].nodes == []
    ensures |out| == |regions|
    ensures forall i :: 0 <= i < |out| ==> out[i] == regions[i].(nodes := Names(ids, Owned(sets, i, |ids|), |ids|))
  {
    out := regions;
    for v := 0 to |ids|
      invariant |out| == |regions|
      invariant forall i :: 0 <= i < |out| ==> out[i] == WithOwned(ids, sets, regions, i, v)
    {
      var owner := SmallestContaining(sets, {v});
      forall i | 0 <= i < |sets|
        ensures WithOwned(ids, sets, regions, i, v + 1)
                == if i == owner then WithNode(WithOwned(ids, sets, regions, i, v), ids[v])
                   else WithOwned(ids, sets, regions, i, v)
      {
        OwnedStep(ids, sets, regions, i, v, owner);
      }
      out := out[owner := WithNode(out[owner], ids[v])];
    }
  }
}
