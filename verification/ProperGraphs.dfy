/** When the working flowgraph of a graph is proper, told from the graph itself. */
module ProperGraphs {
  import opened Walks
  import opened Cfgs
  import opened GraphTables
  import opened EdgeRoutes
  import opened SeseRegions
  import opened Sorting
  import opened FlowGraphs

  /** The listed edges between reachable nodes, which is all that the construction keeps. */
  ghost function Kept(graph: Tables, ids: seq<Node>): (r: Rel)
    ensures forall v: Node, w: Node :: (v, w) in r <==> (v, w) in graph.Listed() && v in ids && w in ids
  {
    set p | p in graph.Listed() && p.0 in ids && p.1 in ids
  }

  /** No such edge leads from `v` to another node. */
  ghost predicate Sink(graph: Tables, ids: seq<Node>, v: Node) {
    forall w :: (v, w) in Kept(graph, ids) ==> w == v
  }

  /** The nodes that the construction joins to the synthetic exit: the sinks, or the last node if there is no sink. */
  ghost predicate Final(graph: Tables, ids: seq<Node>, v: Node) {
    && v in ids
    && (Sink(graph, ids, v) || ((forall u :: u in ids ==> !Sink(graph, ids, u)) && v == ids[|ids| - 1]))
  }

  ghost predicate Terminates(graph: Tables, ids: seq<Node>, v: Node) {
    exists s :: Final(graph, ids, s) && Reaches(Kept(graph, ids), v, s)
  }

  /** An edge of the graph between different reachable nodes, as an edge of the flowgraph. */
  lemma KeptEdge(graph: Tables, root: Node, g: FlowGraph, ids: seq<Node>, k: nat, w: Node) returns (e: nat)
    requires g.Ok() && Describes(graph, root, g, ids) && k < |ids|
    requires (ids[k], w) in Kept(graph, ids) && w != ids[k]
    ensures e < g.count && g.edges[e].from == k && g.edges[e].to < |ids| && ids[g.edges[e].to] == w
  {
    var id: nat :| graph.Joins(id, ids[k], w);
    assert Keeps(graph, ids, id);
    var original := g.edges[..g.count];
    e :| 0 <= e < |original| && original[e].original == Some(id);
    assert StandsFor(graph, ids, original[e]) && original[e] == g.edges[e];
    SamePosition(ids, g.edges[e].from, k);
  }

  lemma SamePosition(ids: seq<Node>, i: nat, j: nat)
    requires Ascending(ids) && i < |ids| && j < |ids| && ids[i] == ids[j]
    ensures i == j
  {
  }

  lemma StandsForKept(graph: Tables, ids: seq<Node>, edge: IEdge)
    requires Ascending(ids) && StandsFor(graph, ids, edge)
    ensures (ids[edge.from], ids[edge.to]) in Kept(graph, ids) && ids[edge.from] != ids[edge.to]
    ensures !Sink(graph, ids, ids[edge.from])
  {
    assert graph.Joins(edge.original.value, ids[edge.from], ids[edge.to]);
    assert ids[edge.from] in ids && ids[edge.to] in ids;
  }

  /** A node has outgoing edges in the flowgraph exactly when it is not a sink. */
  lemma HasOutIff(graph: Tables, root: Node, g: FlowGraph, ids: seq<Node>, k: nat)
    requires g.Ok() && Describes(graph, root, g, ids) && k < |ids|
    ensures HasOut(g.edges[..g.count], k) <==> !Sink(graph, ids, ids[k])
  {
    var original := g.edges[..g.count];
    if HasOut(original, k) {
      var i :| 0 <= i < |original| && original[i].from == k;
      StandsForKept(graph, ids, original[i]);
    }
    if !Sink(graph, ids, ids[k]) {
      var w :| (ids[k], w) in Kept(graph, ids) && w != ids[k];
      var e := KeptEdge(graph, root, g, ids, k, w);
      assert original[e].from == k;
    }
  }

  ghost predicate JoinedToExit(g: FlowGraph, k: nat) {
    exists e :: g.count <= e < |g.edges| - 1 && g.edges[e].from == k
  }

  lemma JoinedIffInExits(g: FlowGraph, exits: seq<IEdge>, k: nat)
    requires g.count < |g.edges| && exits == g.edges[g.count..|g.edges| - 1]
    ensures JoinedToExit(g, k) <==> HasOut(exits, k)
  {
  }

  lemma SinkEdgesFrom(n: nat, original: seq<IEdge>, exits: seq<IEdge>, k: nat)
    requires SinkEdges(n, original, exits) && k < n
    ensures HasOut(exits, k) <==>
            !HasOut(original, k) || ((forall v :: 0 <= v < n ==> HasOut(original, v)) && k == n - 1)
  {
  }

  lemma FinalMeans(graph: Tables, ids: seq<Node>, original: seq<IEdge>, k: nat)
    requires Ascending(ids) && k < |ids|
    requires forall j :: 0 <= j < |ids| ==> (HasOut(original, j) <==> !Sink(graph, ids, ids[j]))
    ensures Final(graph, ids, ids[k]) <==>
            !HasOut(original, k) || ((forall v :: 0 <= v < |ids| ==> HasOut(original, v)) && k == |ids| - 1)
  {
  }

  /** Exactly the final nodes have an edge into the synthetic exit. */
  lemma FinalIff(graph: Tables, root: Node, g: FlowGraph, ids: seq<Node>, k: nat)
    requires g.Ok() && Describes(graph, root, g, ids) && k < |ids|
    ensures Final(graph, ids, ids[k]) <==> JoinedToExit(g, k)
  {
    var original, exits := g.edges[..g.count], g.edges[g.count..|g.edges| - 1];
    forall j | 0 <= j < |ids|
      ensures HasOut(original, j) <==> !Sink(graph, ids, ids[j])
    {
      HasOutIff(graph, root, g, ids, j);
    }
    FinalMeans(graph, ids, original, k);
    SinkEdgesFrom(|ids|, original, exits, k);
    JoinedIffInExits(g, exits, k);
  }

  /** Edge `e` of the flowgraph leads from position `k` to the node `w`. */
  ghost predicate Carries(g: FlowGraph, ids: seq<Node>, k: nat, w: Node, e: nat) {
    e < |g.edges| && g.edges[e].from == k && g.edges[e].to < |ids| && ids[g.edges[e].to] == w
  }

  /** A walk to a node that is joined to the exit goes on to the exit. */
  lemma {:induction false} WalkExits(rel: Rel, g: FlowGraph, ids: seq<Node>, p: seq<Node>, k: nat, last: nat)
    requires g.n >= 1 && k < |ids| && last < |ids| && Ascending(ids)
    requires forall e :: g.count <= e < |g.edges| - 1 ==> g.edges[e].to == g.n - 1
    requires forall j: nat, w :: j < |ids| && w != ids[j] && (ids[j], w) in rel ==>
                      exists e: nat :: Carries(g, ids, j, w, e)
    requires WalkFromTo(rel, p, ids[k], ids[last]) && JoinedToExit(g, last)
    ensures g.ReachesExit(k)
    decreases |p|
  {
    if |p| == 1 {
      SamePosition(ids, k, last);
      var e: nat :| g.count <= e < |g.edges| - 1 && g.edges[e].from == k;
      ReachEdge(g.edges, e, {});
    } else {
      SubWalk(rel, p, 1, |p|);
      assert p[1..|p|] == p[1..];
      assert (p[0], p[1]) in rel;
      if p[1] == p[0] {
        WalkExits(rel, g, ids, p[1..], k, last);
      } else {
        var e: nat :| Carries(g, ids, k, p[1], e);
        WalkExits(rel, g, ids, p[1..], g.edges[e].to, last);
        ReachBack(g.edges, e, g.n - 1, {});
      }
    }
  }

  lemma TerminatingExits(graph: Tables, root: Node, g: FlowGraph, ids: seq<Node>, k: nat)
    requires g.Ok() && Describes(graph, root, g, ids) && k < |ids| && Terminates(graph, ids, ids[k])
    ensures g.ReachesExit(k)
  {
    var s :| Final(graph, ids, s) && Reaches(Kept(graph, ids), ids[k], s);
    var last :| 0 <= last < |ids| && ids[last] == s;
    var p :| WalkFromTo(Kept(graph, ids), p, ids[k], s);
    FinalIff(graph, root, g, ids, last);
    forall j: nat, w | j < |ids| && w != ids[j] && (ids[j], w) in Kept(graph, ids)
      ensures exists e: nat :: Carries(g, ids, j, w, e)
    {
      var e := KeptEdge(graph, root, g, ids, j, w);
      assert Carries(g, ids, j, w, e);
    }
    WalkExits(Kept(graph, ids), g, ids, p, k, last);
  }

  /** The positions of the nodes that can be reached from `from`. */
  ghost function Onward(rel: Rel, ids: seq<Node>, from: Node): (s: set<nat>)
    ensures forall j: nat :: j in s <==> j < |ids| && Reaches(rel, from, ids[j])
  {
    set j: nat | j < |ids| && Reaches(rel, from, ids[j])
  }

  /** From a node that does not terminate every edge leads on to such nodes. */
  lemma StaysOnward(graph: Tables, root: Node, g: FlowGraph, ids: seq<Node>, k: nat, e: nat)
    requires g.Ok() && Describes(graph, root, g, ids) && k < |ids| && !Terminates(graph, ids, ids[k])
    requires e < |g.edges| && g.edges[e].from in Onward(Kept(graph, ids), ids, ids[k])
    ensures g.edges[e].to in Onward(Kept(graph, ids), ids, ids[k])
  {
    var i := g.edges[e].from;
    if e < g.count {
      assert g.edges[..g.count][e] == g.edges[e];
      assert StandsFor(graph, ids, g.edges[e]);
      ReachesStep(Kept(graph, ids), ids[k], ids[i], ids[g.edges[e].to]);
    } else {
      FinalIff(graph, root, g, ids, i);
    }
  }

  lemma OnwardStays(graph: Tables, root: Node, g: FlowGraph, ids: seq<Node>, k: nat) returns (s: set<nat>)
    requires g.Ok() && Describes(graph, root, g, ids) && k < |ids| && !Terminates(graph, ids, ids[k])
    ensures k in s && g.n - 1 !in s && true == ClosedAvoiding(g.edges, s, {})
  {
    s := Onward(Kept(graph, ids), ids, ids[k]);
    ReachesSelf(Kept(graph, ids), ids[k]);
    forall e | 0 <= e < |g.edges| && g.edges[e].from in s
      ensures g.edges[e].to in s
    {
      StaysOnward(graph, root, g, ids, k, e);
    }
  }

  /** A node from which no final node can be reached never gets to the synthetic exit. */
  lemma NoExit(graph: Tables, root: Node, g: FlowGraph, ids: seq<Node>, k: nat)
    requires g.Ok() && true == Describes(graph, root, g, ids) && k < |ids| && !Terminates(graph, ids, ids[k])
    ensures !g.ReachesExit(k)
  {
    var s := OnwardStays(graph, root, g, ids, k);
    NoWayOut(g.edges, s, k, g.n - 1, {});
  }

  /**
   * The flowgraph is proper exactly when every node reachable from the root can go on to a sink, or, in a graph
   * without sinks, to its last node.
   */
  lemma ProperIffTerminating(graph: Tables, root: Node, g: FlowGraph, ids: seq<Node>)
    requires g.Ok() && Describes(graph, root, g, ids)
    ensures g.Proper() <==> forall v :: v in ids ==> Terminates(graph, ids, v)
  {
    forall k | 0 <= k < |ids|
      ensures g.ReachesExit(k) <==> Terminates(graph, ids, ids[k])
    {
      if Terminates(graph, ids, ids[k]) {
        TerminatingExits(graph, root, g, ids, k);
      } else {
        NoExit(graph, root, g, ids, k);
      }
    }
    ProperIffIndices(graph, g, ids);
  }

  lemma ProperIffIndices(graph: Tables, g: FlowGraph, ids: seq<Node>)
    requires g.n == |ids| + 1
    requires forall k: nat :: k < |ids| ==> (g.ReachesExit(k) <==> Terminates(graph, ids, ids[k]))
    ensures g.Proper() <==> forall v :: v in ids ==> Terminates(graph, ids, v)
  {
    ReachSelf(g.edges, g.n - 1, {});
    if forall v :: v in ids ==> Terminates(graph, ids, v) {
      forall k: nat | k < g.n
        ensures g.ReachesExit(k)
      {
        if k < |ids| {
          assert ids[k] in ids;
        }
      }
    }
  }
}
