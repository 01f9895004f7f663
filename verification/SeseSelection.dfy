/** Candidate enumeration and the choice of canonical regions. */
module SeseSelection {
  import opened Cfgs
  import opened EdgeRoutes
  import opened CycleClasses
  import opened SeseRegions
  import opened Sorting

  datatype Cand = Cand(entry: nat, exit: nat, nodes: set<nat>)

  /** A listed candidate is a genuine one with its region, and the region is not empty. */
  ghost predicate Genuine(g: FlowGraph, c: Cand)
    requires g.n >= 1
  {
    g.Candidate(c.entry, c.exit) && c.nodes == g.Region(c.entry, c.exit) && c.nodes != {}
  }

  /** The list holds the genuine candidates, each once. */
  ghost predicate Complete(g: FlowGraph, list: seq<Cand>)
    requires g.n >= 1
  {
    && (forall c :: c in list <==> Genuine(g, c))
    && (forall i, j :: 0 <= i < j < |list| ==> list[i] != list[j])
  }

  method ComputeRegionNodes(g: FlowGraph, entry: nat, exit: nat) returns (nodes: set<nat>)
    requires g.Ok() && entry < |g.edges| && exit < |g.edges|
    ensures nodes == g.Region(entry, exit)
  {
    var forward := Reachable(g.edges, g.n, g.edges[entry].to, Some(exit), false);
    var backward := Reachable(g.edges, g.n, g.edges[exit].from, Some(entry), true);
    nodes := {};
    for v := 0 to g.n - 1
      invariant nodes == set x: nat | x < v && g.InRegion(entry, exit, x)
    {
      if forward[v] && backward[v] {
        nodes := nodes + {v};
      }
    }
  }

  method ComputeEdgeDominates(g: FlowGraph, a: nat, b: nat) returns (r: bool)
    requires g.Ok() && a < |g.edges| && b < |g.edges|
    ensures r <==> g.EdgeDominates(a, b)
  {
    var seen := Reachable(g.edges, g.n, g.entry, Some(a), false);
    r := !seen[g.edges[b].from];
  }

  method ComputeEdgePostdominates(g: FlowGraph, b: nat, a: nat) returns (r: bool)
    requires g.Ok() && a < |g.edges| && b < |g.edges|
    ensures r <==> g.EdgePostdominates(b, a)
  {
    var seen := Reachable(g.edges, g.n, g.n - 1, Some(b), true);
    r := !seen[g.edges[a].to];
  }

  /** One pair of the enumeration. */
  method TryPair(g: FlowGraph, classes: seq<nat>, a: nat, b: nat) returns (found: Option<Cand>)
    requires g.Ok() && a < g.count && b < g.count && ExactClasses(g.edges, classes)
    requires forall e :: 0 <= e < |classes| ==> classes[e] >= 1
    ensures found.Some? ==> found.value.entry == a && found.value.exit == b && Genuine(g, found.value)
    ensures found.None? ==> !Genuine(g, Cand(a, b, g.Region(a, b)))
  {
    if a == b {
      return None;
    }
    var dominates := ComputeEdgeDominates(g, a, b);
    if !dominates {
      return None;
    }
    var postdominates := ComputeEdgePostdominates(g, b, a);
    if !postdominates {
      return None;
    }
    if classes[a] == 0 || classes[a] != classes[b] {
      return None;
    }
    var contained := ComputeRegionNodes(g, a, b);
    if contained == {} {
      return None;
    }
    return Some(Cand(a, b, contained));
  }

  /** All pairs of original edges. */
  method EnumerateCandidates(g: FlowGraph, classes: seq<nat>) returns (list: seq<Cand>)
    requires g.Ok() && ExactClasses(g.edges, classes)
    requires forall e :: 0 <= e < |classes| ==> classes[e] >= 1
    ensures Complete(g, list)
  {
    list := [];
    for a := 0 to g.count
      invariant forall c :: c in list <==> Genuine(g, c) && c.entry < a
      invariant forall i, j :: 0 <= i < j < |list| ==> list[i] != list[j]
    {
      for b := 0 to g.count
        invariant forall c :: c in list <==> Genuine(g, c) && (c.entry < a || (c.entry == a && c.exit < b))
        invariant forall i, j :: 0 <= i < j < |list| ==> list[i] != list[j]
      {
        var found := TryPair(g, classes, a, b);
        if found.Some? {
          assert found.value !in list;
          list := list + [found.value];
        }
      }
    }
  }

  predicate BySize(x: Cand, y: Cand) {
    |x.nodes| < |y.nodes|
    || (|x.nodes| == |y.nodes| && (x.entry < y.entry || (x.entry == y.entry && x.exit <= y.exit)))
  }

  predicate BySizeDown(x: Cand, y: Cand) {
    |x.nodes| > |y.nodes|
    || (|x.nodes| == |y.nodes| && (x.entry < y.entry || (x.entry == y.entry && x.exit <= y.exit)))
  }

  ghost predicate Touches(c: Cand, e: nat) {
    c.entry == e || c.exit == e
  }

  /** `i` is the first position whose candidate has the boundary `e`. */
  ghost predicate FirstFor(list: seq<Cand>, e: nat, i: nat) {
    i < |list| && Touches(list[i], e) && forall j :: 0 <= j < i ==> !Touches(list[j], e)
  }

  method SmallestForBoundary(list: seq<Cand>) returns (smallest: map<nat, nat>)
    ensures forall e, i :: (e in smallest && smallest[e] == i) <==> FirstFor(list, e, i)
  {
    smallest := map[];
    for index := 0 to |list|
      invariant forall e :: e in smallest ==> smallest[e] < index && FirstFor(list, e, smallest[e])
      invariant forall e, j :: 0 <= j < index && Touches(list[j], e) ==> e in smallest
    {
      if list[index].entry !in smallest {
        smallest := smallest[list[index].entry := index];
      }
      if list[index].exit !in smallest {
        smallest := smallest[list[index].exit := index];
      }
    }
  }

  /** The candidate at `i` is the smallest one for its entry or for its exit. */
  ghost predicate Canonical(list: seq<Cand>, i: nat) {
    i < |list| && (FirstFor(list, list[i].entry, i) || FirstFor(list, list[i].exit, i))
  }

  ghost predicate CrossesAny(list: seq<Cand>, c: Cand) {
    exists o :: o in list && Crossing(c.nodes, o.nodes)
  }

  method CrossesSome(list: seq<Cand>, c: Cand) returns (r: bool)
    ensures r <==> CrossesAny(list, c)
  {
    for k := 0 to |list|
      invariant forall j :: 0 <= j < k ==> !Crossing(c.nodes, list[j].nodes)
    {
      var intersects := c.nodes * list[k].nodes != {};
      if intersects && !(c.nodes <= list[k].nodes) && !(list[k].nodes <= c.nodes) {
        assert list[k] in list;
        return true;
      }
    }
    return false;
  }

  /** The canonical candidates of a sorted list, those that cross another candidate left out. */
  method SelectCanonical(list: seq<Cand>) returns (selected: seq<Cand>, kept: seq<Cand>)
    requires forall i, j :: 0 <= i < j < |list| ==> list[i] != list[j]
    ensures forall c :: c in selected <==> exists i: nat :: Canonical(list, i) && list[i] == c
    ensures forall c :: c in kept <==> c in selected && !CrossesAny(list, c)
    ensures forall i, j :: 0 <= i < j < |kept| ==> kept[i] != kept[j]
    ensures (forall c :: c in selected ==> !CrossesAny(list, c)) ==> kept == selected
  {
    var smallest := SmallestForBoundary(list);
    selected := [];
    for i := 0 to |list|
      invariant forall c :: c in selected <==> exists j: nat :: j < i && Canonical(list, j) && list[j] == c
      invariant forall j, k :: 0 <= j < k < |selected| ==> selected[j] != selected[k]
    {
      var c := list[i];
      if (c.entry in smallest && smallest[c.entry] == i) || (c.exit in smallest && smallest[c.exit] == i) {
        assert Canonical(list, i);
        assert c !in selected;
        selected := selected + [c];
      } else {
        assert !Canonical(list, i);
      }
    }
    kept := [];
    for i := 0 to |selected|
      invariant forall c :: c in kept <==> c in selected[..i] && !CrossesAny(list, c)
      invariant forall j, k :: 0 <= j < k < |kept| ==> kept[j] != kept[k]
      invariant (forall c :: c in selected ==> !CrossesAny(list, c)) ==> kept == selected[..i]
    {
      assert selected[..i + 1] == selected[..i] + [selected[i]];
      assert selected[i] in selected;
      var crosses := CrossesSome(list, selected[i]);
      if !crosses {
        kept := kept + [selected[i]];
      }
    }
    assert selected[..|selected|] == selected;
  }

  /** The piece of a chain that keeps one of the boundaries is a strictly smaller candidate. */
  lemma SmallerPiece(g: FlowGraph, list: seq<Cand>, s: set<nat>, piece: set<nat>, x: nat, y: nat) returns (c: Cand)
    requires g.Ok() && g.Proper() && Complete(g, list)
    requires g.Sese(piece, x, y) && piece < s
    ensures c in list && c.entry == x && c.exit == y && |c.nodes| < |s|
  {
    SeseIsCandidate(g, piece, x, y);
    c := Cand(x, y, piece);
    assert s == piece + (s - piece);
  }

  /** In a proper flowgraph no canonical candidate crosses any candidate. */
  lemma CanonicalNeverCrosses(g: FlowGraph, list: seq<Cand>, i: nat, o: Cand)
    requires g.Ok() && g.Proper() && Complete(g, list) && Sorted(BySize, list)
    requires Canonical(list, i) && o in list
    ensures !Crossing(list[i].nodes, o.nodes)
  {
    var c := list[i];
    assert c in list;
    if Crossing(c.nodes, o.nodes) {
      var v :| v in c.nodes;
      var w :| w in o.nodes;
      CandidateIsSese(g, c.entry, c.exit, v);
      CandidateIsSese(g, o.entry, o.exit, w);
      CrossingSplits(g, c.nodes, c.entry, c.exit, o.nodes, o.entry, o.exit);
      var s, t := c.nodes, o.nodes;
      var p, q;
      if Chained(g, s - t, s * t, t - s, c.entry, o.entry, c.exit, o.exit) {
        p := SmallerPiece(g, list, s, s - t, c.entry, o.entry);
        q := SmallerPiece(g, list, s, s * t, o.entry, c.exit);
      } else {
        p := SmallerPiece(g, list, s, s * t, c.entry, o.exit);
        q := SmallerPiece(g, list, s, s - t, o.exit, c.exit);
      }
      var j :| 0 <= j < |list| && list[j] == p;
      var k :| 0 <= k < |list| && list[k] == q;
      BeforeLarger(list, i, j);
      BeforeLarger(list, i, k);
    }
  }

  /** On every flowgraph the entry edge can be read off a candidate's nodes; only the exit edge may be ambiguous. */
  lemma SameNodesSameEntry(g: FlowGraph, c: Cand, d: Cand)
    requires g.Ok() && Genuine(g, c) && Genuine(g, d) && c.nodes == d.nodes
    ensures c.entry == d.entry
  {
    var v :| v in c.nodes;
    NonemptyConnects(g, c.entry, c.exit, v);
    CandidateEnds(g, c.entry, c.exit);
    OnlyEntryEnters(g, d.entry, d.exit, c.entry);
  }

  lemma BeforeLarger(list: seq<Cand>, i: nat, j: nat)
    requires Sorted(BySize, list) && i < |list| && j < |list| && |list[j].nodes| < |list[i].nodes|
    ensures j < i
  {
  }

  /** The defensive laminarity filter removes nothing from a proper flowgraph. */
  lemma FilterRemovesNothing(g: FlowGraph, list: seq<Cand>, selected: seq<Cand>)
    requires g.Ok() && g.Proper() && Complete(g, list) && Sorted(BySize, list)
    requires forall c :: c in selected ==> exists i: nat :: Canonical(list, i) && list[i] == c
    ensures forall c :: c in selected ==> !CrossesAny(list, c)
  {
    forall c, o | c in selected && o in list
      ensures !Crossing(c.nodes, o.nodes)
    {
      var i: nat :| Canonical(list, i) && list[i] == c;
      CanonicalNeverCrosses(g, list, i, o);
    }
  }

  lemma SizeOrders()
    ensures TotalOrder(BySize) && TotalOrder(BySizeDown)
  {
  }
}
