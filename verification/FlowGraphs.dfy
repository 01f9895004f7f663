/** Turning a graph into the working flowgraph: dense indices, no self-loops, one synthetic exit. */
module FlowGraphs {
  import opened Walks
  import opened Search
  import opened Cfgs
  import opened GraphTables
  import opened EdgeRoutes
  import opened SeseRegions
  import opened Sorting

  ghost predicate Reachable(graph: Tables, root: Node, v: Node) {
    Reaches(graph.Succ(), root, v)
  }

  /** Breadth-first search, then sorted. */
  method ReachableIds(graph: Tables, root: Node) returns (ids: seq<Node>)
    requires graph.Known()
    ensures Ascending(ids) && forall v :: v in ids <==> Reachable(graph, root, v)
  {
    ghost var e := graph.Succ();
    SearchStart(e, root);
    var seen: set<Node> := {};
    var queue := [root];
    while queue != []
      invariant Searching(e, root, seen, queue)
      decreases Universe(e, root) - seen, |queue|
    {
      var id := queue[0];
      var rest := queue[1..];
      assert queue == [id] + rest;
      if id in seen {
        SearchSkip(e, root, seen, queue, id, rest);
        queue := rest;
        continue;
      }
      var succ := Elements(graph.Children(id));
      SearchVisit(e, root, seen, queue, id, rest + succ);
      seen := seen + {id};
      queue := rest + succ;
    }
    forall v
      ensures v in seen <==> Reachable(graph, root, v)
    {
      SearchEnded(e, root, seen, v);
    }
    ids := Elements(seen);
  }

  /** Positions in an ascending list. */
  method IndexMap(ids: seq<Node>) returns (index: map<Node, nat>)
    requires Ascending(ids)
    ensures Indexes(ids, index)
  {
    index := map[];
    for i := 0 to |ids|
      invariant forall v :: v in index <==> v in ids[..i]
      invariant forall v :: v in index ==> index[v] < i && ids[index[v]] == v
    {
      assert ids[..i + 1] == ids[..i] + [ids[i]];
      index := index[ids[i] := i];
    }
    assert ids[..|ids|] == ids;
  }

  ghost predicate Indexes(ids: seq<Node>, index: map<Node, nat>) {
    && (forall v :: v in index <==> v in ids)
    && (forall v :: v in index ==> index[v] < |ids| && ids[index[v]] == v)
  }

  /** The edge of the graph an internal edge stands for. */
  ghost predicate StandsFor(graph: Tables, ids: seq<Node>, edge: IEdge) {
    && edge.original.Some? && edge.original.value in graph.edges
    && edge.from < |ids| && edge.to < |ids| && edge.from != edge.to
    && graph.edges[edge.original.value] == Ends(ids[edge.from], ids[edge.to])
  }

  /** An edge the working graph keeps: both ends reachable, not a self-loop. */
  ghost predicate Keeps(graph: Tables, ids: seq<Node>, id: nat) {
    && id in graph.edges && graph.edges[id].from != graph.edges[id].to
    && graph.edges[id].from in ids && graph.edges[id].to in ids
  }

  /** The original part of the edge list, in ascending order of edge id. */
  ghost predicate Originals(graph: Tables, ids: seq<Node>, edges: seq<IEdge>) {
    && (forall i :: 0 <= i < |edges| ==> StandsFor(graph, ids, edges[i]))
    && (forall i, j :: 0 <= i < j < |edges| ==> edges[i].original.value < edges[j].original.value)
    && (forall id: nat :: Keeps(graph, ids, id) ==> Carried(edges, id))
  }

  ghost predicate Carried(edges: seq<IEdge>, id: nat) {
    exists i :: 0 <= i < |edges| && edges[i].original == Some(id)
  }

  lemma CarriedOn(edges: seq<IEdge>, edge: IEdge, id: nat)
    ensures Carried(edges, id) ==> Carried(edges + [edge], id)
    ensures edge.original == Some(id) ==> Carried(edges + [edge], id)
  {
    var more := edges + [edge];
    assert more[|edges|] == edge;
    if Carried(edges, id) {
      var i :| 0 <= i < |edges| && edges[i].original == Some(id);
      assert more[i] == edges[i];
    }
  }

  /** The original part built from the first `k` edge ids. */
  ghost predicate OriginalsSoFar(graph: Tables, ids: seq<Node>, eids: seq<nat>, k: nat, edges: seq<IEdge>) {
    && k <= |eids|
    && (forall i :: 0 <= i < |edges| ==> StandsFor(graph, ids, edges[i]))
    && (forall i, j :: 0 <= i < j < |edges| ==> edges[i].original.value < edges[j].original.value)
    && (forall i :: 0 <= i < |edges| && k < |eids| ==> edges[i].original.value < eids[k])
    && (forall j :: 0 <= j < k && Keeps(graph, ids, eids[j]) ==> Carried(edges, eids[j]))
  }

  lemma SkipEdge(graph: Tables, ids: seq<Node>, eids: seq<nat>, k: nat, edges: seq<IEdge>)
    requires Ascending(eids) && k < |eids| && !Keeps(graph, ids, eids[k])
    requires OriginalsSoFar(graph, ids, eids, k, edges)
    ensures OriginalsSoFar(graph, ids, eids, k + 1, edges)
  {
  }

  lemma KeepEdge(graph: Tables, ids: seq<Node>, eids: seq<nat>, k: nat, edges: seq<IEdge>, edge: IEdge)
    requires Ascending(eids) && k < |eids| && edge.original == Some(eids[k]) && StandsFor(graph, ids, edge)
    requires OriginalsSoFar(graph, ids, eids, k, edges)
    ensures OriginalsSoFar(graph, ids, eids, k + 1, edges + [edge])
  {
    forall j | 0 <= j <= k && Keeps(graph, ids, eids[j])
      ensures Carried(edges + [edge], eids[j])
    {
      CarriedOn(edges, edge, eids[j]);
    }
  }

  lemma OriginalsEnd(graph: Tables, ids: seq<Node>, eids: seq<nat>, edges: seq<IEdge>)
    requires OriginalsSoFar(graph, ids, eids, |eids|, edges) && forall id :: id in graph.edges ==> id in eids
    ensures Originals(graph, ids, edges)
  {
    forall id: nat | Keeps(graph, ids, id)
      ensures Carried(edges, id)
    {
      assert id in eids;
    }
  }

  method OriginalEdges(graph: Tables, ids: seq<Node>, index: map<Node, nat>) returns (edges: seq<IEdge>)
    requires Ascending(ids) && Indexes(ids, index)
    ensures Originals(graph, ids, edges)
  {
    var eids := Elements(graph.edges.Keys);
    edges := [];
    for k := 0 to |eids|
      invariant true == OriginalsSoFar(graph, ids, eids, k, edges)
    {
      var id := eids[k];
      assert id in eids;
      var from, to := graph.edges[id].from, graph.edges[id].to;
      if from != to && from in index && to in index {
        var edge := IEdge(index[from], index[to], Some(id));
        KeepEdge(graph, ids, eids, k, edges, edge);
        edges := edges + [edge];
      } else {
        SkipEdge(graph, ids, eids, k, edges);
      }
    }
    OriginalsEnd(graph, ids, eids, edges);
  }

  ghost predicate HasOut(edges: seq<IEdge>, v: nat) {
    exists i :: 0 <= i < |edges| && edges[i].from == v
  }

  /** One edge into the synthetic exit `n` from each node without outgoing edges, else from the last node. */
  ghost predicate SinkEdges(n: nat, original: seq<IEdge>, edges: seq<IEdge>) {
    && n > 0 && |edges| > 0
    && (forall i :: 0 <= i < |edges| ==> edges[i].from < n && edges[i] == IEdge(edges[i].from, n, None))
    && (forall i, j :: 0 <= i < j < |edges| ==> edges[i].from < edges[j].from)
    && (forall v :: 0 <= v < n && !HasOut(original, v) ==> exists i :: 0 <= i < |edges| && edges[i].from == v)
    && ((exists v :: 0 <= v < n && !HasOut(original, v)) ==>
          forall i :: 0 <= i < |edges| ==> !HasOut(original, edges[i].from))
    && ((forall v :: 0 <= v < n ==> HasOut(original, v)) ==> |edges| == 1 && edges[0].from == n - 1)
  }

  method ExitEdges(n: nat, original: seq<IEdge>) returns (edges: seq<IEdge>)
    requires n > 0 && forall i :: 0 <= i < |original| ==> original[i].from < n
    ensures SinkEdges(n, original, edges)
  {
    var hasOut := new bool[n](_ => false);
    for i := 0 to |original|
      invariant forall v :: 0 <= v < n ==> (hasOut[v] <==> HasOut(original[..i], v))
    {
      HasOutStep(original, i);
      hasOut[original[i].from] := true;
    }
    assert original[..|original|] == original;
    edges := [];
    for v := 0 to n
      invariant forall i :: 0 <= i < |edges| ==>
                  edges[i].from < v && !HasOut(original, edges[i].from) && edges[i] == IEdge(edges[i].from, n, None)
      invariant forall i, j :: 0 <= i < j < |edges| ==> edges[i].from < edges[j].from
      invariant forall u :: 0 <= u < v && !HasOut(original, u) ==> exists i :: 0 <= i < |edges| && edges[i].from == u
    {
      if !hasOut[v] {
        ghost var before := edges;
        edges := edges + [IEdge(v, n, None)];
        assert edges[|before|].from == v;
        forall u | 0 <= u < v && !HasOut(original, u)
          ensures exists i :: 0 <= i < |edges| && edges[i].from == u
        {
          var i :| 0 <= i < |before| && before[i].from == u;
          assert edges[i].from == u;
        }
      }
    }
    if edges == [] {
      edges := [IEdge(n - 1, n, None)];
    }
  }

  lemma HasOutStep(edges: seq<IEdge>, i: nat)
    requires i < |edges|
    ensures forall v :: HasOut(edges[..i + 1], v) <==> HasOut(edges[..i], v) || edges[i].from == v
  {
  }

  /** The working graph describes the reachable part of the input. */
  ghost predicate Describes(graph: Tables, root: Node, g: FlowGraph, ids: seq<Node>)
    requires g.Ok()
  {
    && Ascending(ids) && (forall v :: v in ids <==> Reachable(graph, root, v))
    && g.n == |ids| + 1 && g.entry < |ids| && ids[g.entry] == root
    && Originals(graph, ids, g.edges[..g.count])
    && SinkEdges(|ids|, g.edges[..g.count], g.edges[g.count..|g.edges| - 1])
  }

  /** A walk of the graph carries over to the working graph, self-loops dropped. */
  lemma {:induction false} WalkToReach(graph: Tables, root: Node, ids: seq<Node>, index: map<Node, nat>,
                                       edges: seq<IEdge>, original: seq<IEdge>, p: seq<Node>, v: Node)
    requires Indexes(ids, index) && Ascending(ids) && (forall x :: x in ids <==> Reachable(graph, root, x))
    requires Originals(graph, ids, original) && original <= edges
    requires WalkFromTo(graph.Succ(), p, root, v)
    ensures root in index && v in index && Reach(edges, index[root], index[v], {})
    decreases |p|
  {
    assert Reachable(graph, root, v);
    ReachesSelf(graph.Succ(), root);
    assert Reachable(graph, root, root);
    if |p| == 1 {
      ReachSelf(edges, index[root], {});
    } else {
      var u := p[|p| - 2];
      SubWalk(graph.Succ(), p, 0, |p| - 1);
      WalkToReach(graph, root, ids, index, edges, original, p[0..|p| - 1], u);
      assert (p[|p| - 2], p[|p| - 1]) in graph.Succ();
      if u != v {
        var id: nat :| graph.Leads(u, id, v);
        assert Keeps(graph, ids, id);
        var i :| 0 <= i < |original| && original[i].original == Some(id);
        assert edges[i] == original[i] && StandsFor(graph, ids, original[i]);
        assert edges[i].from == index[u] && edges[i].to == index[v];
        ReachStep(edges, index[root], i, {});
      }
    }
  }

  method BuildFlowGraph(graph: Tables, root: Node) returns (g: FlowGraph, ids: seq<Node>)
    requires graph.Known()
    ensures g.Ok() && Describes(graph, root, g, ids)
  {
    ids := ReachableIds(graph, root);
    ReachesSelf(graph.Succ(), root);
    assert Reachable(graph, root, root);
    var index := IndexMap(ids);
    var original := OriginalEdges(graph, ids, index);
    assert forall i :: 0 <= i < |original| ==> StandsFor(graph, ids, original[i]);
    var exits := ExitEdges(|ids|, original);
    var edges := original + exits + [IEdge(|ids|, index[root], None)];
    g := FlowGraph(edges, |ids| + 1, index[root], |original|);
    AllReached(graph, root, ids, index, edges, original, exits);
    AssembledOk(graph, ids, index[root], original, exits);
  }

  /** The three parts of the edge list make a flowgraph. */
  lemma AssembledOk(graph: Tables, ids: seq<Node>, entry: nat, original: seq<IEdge>, exits: seq<IEdge>)
    requires entry < |ids| && Originals(graph, ids, original) && SinkEdges(|ids|, original, exits)
    ensures var g := FlowGraph(original + exits + [IEdge(|ids|, entry, None)], |ids| + 1, entry, |original|);
            && ((forall v :: 0 <= v < g.n ==> Reach(g.edges, entry, v, {})) ==> g.Ok())
            && g.edges[..g.count] == original && g.edges[g.count..|g.edges| - 1] == exits
  {
  }

  lemma AllReached(graph: Tables, root: Node, ids: seq<Node>, index: map<Node, nat>, edges: seq<IEdge>,
                   original: seq<IEdge>, exits: seq<IEdge>)
    requires Indexes(ids, index) && Ascending(ids) && (forall x :: x in ids <==> Reachable(graph, root, x))
    requires Originals(graph, ids, original) && root in index
    requires |exits| > 0 && forall i :: 0 <= i < |exits| ==> exits[i].from < |ids| && exits[i].to == |ids|
    requires original + exits <= edges
    ensures forall v :: 0 <= v < |ids| + 1 ==> Reach(edges, index[root], v, {})
  {
    forall v | 0 <= v < |ids|
      ensures Reach(edges, index[root], v, {})
    {
      assert ids[v] in ids;
      var p :| WalkFromTo(graph.Succ(), p, root, ids[v]);
      WalkToReach(graph, root, ids, index, edges, original, p, ids[v]);
      assert index[ids[v]] == v;
    }
    var e := |original|;
    assert (original + exits)[e] == exits[0] == edges[e];
    ReachStep(edges, index[root], e, {});
  }

  /** A flowgraph over a set of nodes that no edge leads out of describes the part of the graph that is reachable. */
  lemma ClosedDescribes(graph: Tables, root: Node, g: FlowGraph, ids: seq<Node>)
    requires g.Ok() && Ascending(ids) && g.n == |ids| + 1 && ids[g.entry] == root
    requires Originals(graph, ids, g.edges[..g.count])
    requires SinkEdges(|ids|, g.edges[..g.count], g.edges[g.count..|g.edges| - 1])
    requires graph.Listed() == graph.Succ()
    requires forall id :: id in graph.edges && graph.edges[id].from in ids ==> graph.edges[id].to in ids
    ensures Describes(graph, root, g, ids)
  {
    forall v
      ensures v in ids <==> Reachable(graph, root, v)
    {
      if v in ids {
        ListedReachable(graph, root, g, ids, v);
      }
      if Reachable(graph, root, v) {
        var p :| WalkFromTo(graph.Succ(), p, root, v);
        var nodes := set x | x in ids;
        ClosedUnderWalk(graph.Succ(), nodes, p);
        assert p[|p| - 1] in nodes;
      }
    }
  }

  /** Every node of the flowgraph but the synthetic exit stands for a reachable node. */
  lemma ListedReachable(graph: Tables, root: Node, g: FlowGraph, ids: seq<Node>, v: Node)
    requires graph.Listed() == graph.Succ()
    requires g.Ok() && g.n == |ids| + 1 && ids[g.entry] == root && Originals(graph, ids, g.edges[..g.count]) && v in ids
    ensures Reachable(graph, root, v)
  {
    var s := set k: nat | k < g.n && (k == g.n - 1 || Reachable(graph, root, ids[k]));
    ReachesSelf(graph.Succ(), root);
    forall e | 0 <= e < |g.edges| && g.edges[e].from in s
      ensures g.edges[e].to in s
    {
      if e < g.count {
        assert g.edges[..g.count][e] == g.edges[e] && StandsFor(graph, ids, g.edges[e]);
        assert graph.Joins(g.edges[e].original.value, ids[g.edges[e].from], ids[g.edges[e].to]);
        ReachesStep(graph.Succ(), root, ids[g.edges[e].from], ids[g.edges[e].to]);
      }
    }
    var k :| 0 <= k < |ids| && ids[k] == v;
    assert Reach(g.edges, g.entry, k, {});
    ReachStaysIn(g.edges, s, g.entry, k, {});
  }

  ghost function EdgeIds(edges: seq<IEdge>): (s: seq<nat>)
    requires forall i :: 0 <= i < |edges| ==> edges[i].original.Some?
    ensures |s| == |edges| && forall i :: 0 <= i < |s| ==> s[i] == edges[i].original.value
  {
    seq(|edges|, i requires 0 <= i < |edges| => edges[i].original.value)
  }

  lemma OriginalsList(graph: Tables, ids: seq<Node>, edges: seq<IEdge>)
    requires Ascending(ids) && Originals(graph, ids, edges)
    ensures Ascending(EdgeIds(edges)) && forall id: nat :: id in EdgeIds(edges) <==> Keeps(graph, ids, id)
  {
    forall id: nat
      ensures id in EdgeIds(edges) <==> Keeps(graph, ids, id)
    {
      if id in EdgeIds(edges) {
        var i :| 0 <= i < |edges| && EdgeIds(edges)[i] == id;
        assert StandsFor(graph, ids, edges[i]);
        assert ids[edges[i].from] in ids && ids[edges[i].to] in ids && ids[edges[i].from] != ids[edges[i].to];
      }
      if Keeps(graph, ids, id) {
        var i :| 0 <= i < |edges| && edges[i].original == Some(id);
        assert EdgeIds(edges)[i] == id;
      }
    }
  }

  lemma OriginalsUnique(graph: Tables, ids: seq<Node>, a: seq<IEdge>, b: seq<IEdge>)
    requires Ascending(ids) && Originals(graph, ids, a) && Originals(graph, ids, b)
    ensures a == b
  {
    OriginalsList(graph, ids, a);
    OriginalsList(graph, ids, b);
    AscendingUnique(EdgeIds(a), EdgeIds(b));
    forall i | 0 <= i < |a|
      ensures a[i] == b[i]
    {
      assert EdgeIds(a)[i] == EdgeIds(b)[i];
      assert StandsFor(graph, ids, a[i]) && StandsFor(graph, ids, b[i]);
    }
  }

  ghost function Tails(edges: seq<IEdge>): (s: seq<nat>)
    ensures |s| == |edges| && forall i :: 0 <= i < |s| ==> s[i] == edges[i].from
  {
    seq(|edges|, i requires 0 <= i < |edges| => edges[i].from)
  }

  lemma SinkTails(n: nat, original: seq<IEdge>, edges: seq<IEdge>, v: nat)
    requires SinkEdges(n, original, edges)
    ensures v in Tails(edges) <==>
            v < n && (!HasOut(original, v) || ((forall u :: 0 <= u < n ==> HasOut(original, u)) && v == n - 1))
  {
    if v in Tails(edges) {
      var i :| 0 <= i < |edges| && Tails(edges)[i] == v;
    }
    if v < n && !HasOut(original, v) {
      var i :| 0 <= i < |edges| && edges[i].from == v;
      assert Tails(edges)[i] == v;
    }
    if (forall u :: 0 <= u < n ==> HasOut(original, u)) && v == n - 1 {
      assert Tails(edges)[0] == v;
    }
  }

  lemma SinkEdgesUnique(n: nat, original: seq<IEdge>, a: seq<IEdge>, b: seq<IEdge>)
    requires SinkEdges(n, original, a) && SinkEdges(n, original, b)
    ensures a == b
  {
    forall v
      ensures v in Tails(a) <==> v in Tails(b)
    {
      SinkTails(n, original, a, v);
      SinkTails(n, original, b, v);
    }
    AscendingUnique(Tails(a), Tails(b));
    forall i | 0 <= i < |a|
      ensures a[i] == b[i]
    {
      assert Tails(a)[i] == Tails(b)[i];
    }
  }

  lemma SameParts(g: FlowGraph, g': FlowGraph)
    requires g.Ok() && g'.Ok() && g.n == g'.n && g.entry == g'.entry
    requires g.edges[..g.count] == g'.edges[..g'.count]
    requires g.edges[g.count..|g.edges| - 1] == g'.edges[g'.count..|g'.edges| - 1]
    ensures g == g'
  {
    assert g.count == |g.edges[..g.count]| && g'.count == |g'.edges[..g'.count]|;
    assert g.edges == g.edges[..g.count] + g.edges[g.count..|g.edges| - 1] + [g.edges[|g.edges| - 1]];
    assert g'.edges == g'.edges[..g'.count] + g'.edges[g'.count..|g'.edges| - 1] + [g'.edges[|g'.edges| - 1]];
  }

  lemma SameIds(graph: Tables, root: Node, g: FlowGraph, ids: seq<Node>, g': FlowGraph, ids': seq<Node>)
    requires g.Ok() && g'.Ok() && Describes(graph, root, g, ids) && Describes(graph, root, g', ids')
    ensures ids == ids' && g.n == g'.n && g.entry == g'.entry
  {
    AscendingUnique(ids, ids');
  }

  /** The input determines the flowgraph. */
  lemma DescribesUnique(graph: Tables, root: Node, g: FlowGraph, ids: seq<Node>, g': FlowGraph, ids': seq<Node>)
    requires g.Ok() && g'.Ok() && Describes(graph, root, g, ids) && Describes(graph, root, g', ids')
    ensures g == g' && ids == ids'
  {
    SameIds(graph, root, g, ids, g', ids');
    OriginalsUnique(graph, ids, g.edges[..g.count], g'.edges[..g'.count]);
    SinkEdgesUnique(|ids|, g.edges[..g.count], g.edges[g.count..|g.edges| - 1], g'.edges[g'.count..|g'.edges| - 1]);
    SameParts(g, g');
  }
}
