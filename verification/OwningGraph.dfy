/** The graph and its edits. */
module OwningGraphs {
  import opened Walks
  import opened GraphTables

  class OwningGraph<ND, ED> {
    var nodeData: map<Node, ND>
    var edgeData: map<nat, ED>
    var nodes: map<Node, set<nat>>
    var edges: map<nat, Ends>
    var nextNodeId: nat
    var nextEdgeId: nat

    ghost function State(): Tables
      reads this
    {
      Tables(nodes, edges)
    }

    /** The incidence index agrees with the edge table, payloads match, and fresh ids are unused. */
    ghost predicate Valid()
      reads this
    {
      && State().Agree() && Backed()
    }

    ghost predicate Backed()
      reads this
    {
      && nodeData.Keys == nodes.Keys && edgeData.Keys == edges.Keys
      && (forall v :: v in nodes ==> v < nextNodeId)
      && (forall e :: e in edges ==> e < nextEdgeId)
    }

    constructor ()
      ensures Valid() && nodes == map[] && edges == map[] && nextNodeId == nextEdgeId == 0
    {
      nodeData, edgeData, nodes, edges := map[], map[], map[], map[];
      nextNodeId, nextEdgeId := 0, 0;
    }

    method MakeNode(data: ND) returns (id: Node)
      requires Valid()
      modifies this
      ensures Valid() && id == old(nextNodeId) && id !in old(nodes)
      ensures State() == Tables(old(nodes)[id := {}], old(edges))
      ensures nodeData == old(nodeData)[id := data] && edgeData == old(edgeData)
      ensures nextNodeId == id + 1 && nextEdgeId == old(nextEdgeId)
    {
      id := nextNodeId;
      nextNodeId := nextNodeId + 1;
      nodes := nodes[id := {}];
      nodeData := nodeData[id := data];
    }

    /**
     * Panics when an end is missing. By then the edge has been entered in the table, and in the source's set if only
     * the target is missing.
     */
    method MakeEdge(from: Node, to: Node, data: ED) returns (id: nat, panicked: bool)
      requires Valid()
      modifies this
      ensures id == old(nextEdgeId) && id !in old(edges)
      ensures panicked <==> from !in old(nodes) || to !in old(nodes)
      ensures edges == old(edges)[id := Ends(from, to)] && edgeData == old(edgeData)[id := data]
      ensures !panicked ==> Valid() && State() == EdgeAdded(old(State()), id, Ends(from, to))
      ensures !panicked ==> nodes.Keys == old(nodes).Keys
      ensures !panicked ==> forall v :: v in nodes ==>
                                          nodes[v] == old(nodes)[v] + if v == from || v == to then {id} else {}
      ensures panicked && from in old(nodes) ==> nodes == old(nodes)[from := old(nodes)[from] + {id}]
      ensures from !in old(nodes) ==> nodes == old(nodes)
      ensures panicked ==> !State().Agree()
      ensures nodeData == old(nodeData) && nextNodeId == old(nextNodeId) && nextEdgeId == id + 1
    {
      id := nextEdgeId;
      nextEdgeId := nextEdgeId + 1;
      edges := edges[id := Ends(from, to)];
      edgeData := edgeData[id := data];
      panicked := Hook(from, id);
      if !panicked {
        panicked := Hook(to, id);
      }
      if panicked {
        EndMissing(State(), id);
      } else {
        AddedAgrees(old(State()), id, Ends(from, to));
        AddedMeans(old(State()), id, Ends(from, to));
      }
    }

    /** Panics, changing nothing, when there is no such edge. */
    method RemoveEdge(id: nat) returns (panicked: bool)
      requires Valid()
      modifies this
      ensures Valid() && (panicked <==> id !in old(edges))
      ensures State() == if panicked then old(State()) else EdgeRemoved(old(State()), id)
      ensures edges == old(edges) - {id} && nodes.Keys == old(nodes).Keys
      ensures !panicked ==> forall v :: v in nodes ==> nodes[v] == old(nodes)[v] - {id}
      ensures edgeData == old(edgeData) - {id} && nodeData == old(nodeData)
      ensures nextNodeId == old(nextNodeId) && nextEdgeId == old(nextEdgeId)
    {
      if id !in edges {
        return true;
      }
      RemovedAgrees(State(), id);
      RemovedMeans(State(), id);
      var edge := edges[id];
      edges := edges - {id};
      edgeData := edgeData - {id};
      nodes := nodes[edge.from := nodes[edge.from] - {id}];
      nodes := nodes[edge.to := nodes[edge.to] - {id}];
      panicked := false;
    }

    /**
     * Panics, changing nothing, when there is no such edge; when a new end is missing it panics after the edge has
     * been unhooked from its old ends and rewritten.
     */
    method EditEdge(id: nat, newFrom: Node, newTo: Node) returns (panicked: bool)
      requires Valid()
      modifies this
      ensures panicked <==> id !in old(edges) || newFrom !in old(nodes) || newTo !in old(nodes)
      ensures !panicked ==> Valid() && State() == EdgeAdded(EdgeRemoved(old(State()), id), id, Ends(newFrom, newTo))
      ensures id !in old(edges) ==> State() == old(State())
      ensures id in old(edges) ==> true == Moved(old(State()), id, Ends(newFrom, newTo), State(), !panicked)
      ensures panicked && id in old(edges) ==> !State().Agree()
      ensures edgeData == old(edgeData) && nodeData == old(nodeData)
      ensures nextNodeId == old(nextNodeId) && nextEdgeId == old(nextEdgeId)
    {
      if id !in edges {
        return true;
      }
      panicked := Rehook(id, newFrom, newTo);
    }

    /** The edit of an edge that exists. */
    method Rehook(id: nat, newFrom: Node, newTo: Node) returns (panicked: bool)
      requires State().Agree() && id in edges
      modifies this`nodes, this`edges
      ensures panicked <==> newFrom !in old(nodes) || newTo !in old(nodes)
      ensures nodes.Keys == old(nodes).Keys && edges.Keys == old(edges).Keys
      ensures true == Moved(old(State()), id, Ends(newFrom, newTo), State(), !panicked)
      ensures !panicked ==> State() == EdgeAdded(EdgeRemoved(old(State()), id), id, Ends(newFrom, newTo))
      ensures true == State().Agree() <==> !panicked
    {
      ghost var before := State();
      Rewrite(id, Ends(newFrom, newTo));
      panicked := Hook(newFrom, id);
      if !panicked {
        panicked := Hook(newTo, id);
      }
      EditMeans(before, id, Ends(newFrom, newTo), State());
      EditAgrees(before, id, Ends(newFrom, newTo), State());
    }

    /** Unhooks an edge from its ends and gives it new ones in the table. */
    method Rewrite(id: nat, ends: Ends)
      requires State().Agree() && id in edges
      modifies this`nodes, this`edges
      ensures nodes == EdgeRemoved(old(State()), id).nodes && edges == old(edges)[id := ends]
    {
      var edge := edges[id];
      nodes := nodes[edge.from := nodes[edge.from] - {id}];
      nodes := nodes[edge.to := nodes[edge.to] - {id}];
      edges := edges[id := ends];
    }

    /** Enters an edge in a node's set, if there is such a node. */
    method Hook(v: Node, id: nat) returns (missing: bool)
      modifies this`nodes
      ensures nodes == AddTo(old(nodes), v, id) && (missing <==> v !in old(nodes))
    {
      missing := v !in nodes;
      if !missing {
        nodes := nodes[v := nodes[v] + {id}];
      }
    }

    /** Removes the node and every edge at it; panics, changing nothing, when there is no such node. */
    method RemoveNode(id: Node) returns (panicked: bool)
      requires Valid()
      modifies this
      ensures Valid() && (panicked <==> id !in old(nodes))
      ensures panicked ==> State() == old(State()) && nodeData == old(nodeData) && edgeData == old(edgeData)
      ensures !panicked ==> nodes.Keys == old(nodes).Keys - {id} && nodeData == old(nodeData) - {id}
      ensures !panicked ==> edges == EdgesOff(old(State()), {id})
      ensures !panicked ==>
                forall e :: e in edges <==> e in old(edges) && old(edges)[e].from != id && old(edges)[e].to != id
      ensures !panicked ==> forall e :: e in edges ==> edges[e] == old(edges)[e]
      ensures !panicked ==> edgeData == map e | e in old(edgeData) && e in edges :: old(edgeData)[e]
      ensures nextNodeId == old(nextNodeId) && nextEdgeId == old(nextEdgeId)
    {
      if id !in nodes {
        return true;
      }
      ghost var before, payloads := State(), edgeData;
      RemoveEdgesAt(id);
      AllEdgesGone(before, id, State());
      KeptPayloads(before, id, payloads, State(), edgeData);
      NodeDropped(State(), id);
      nodes := nodes - {id};
      nodeData := nodeData - {id};
      panicked := false;
    }

    /** The loop that takes a node's edges out while the node is still there. */
    method RemoveEdgesAt(id: Node)
      requires Valid() && id in nodes
      modifies this
      ensures true == Valid()
      ensures nodes.Keys == old(nodes).Keys && edges == old(edges) - old(nodes)[id]
      ensures nodeData == old(nodeData) && edgeData == old(edgeData) - old(nodes)[id]
      ensures nextNodeId == old(nextNodeId) && nextEdgeId == old(nextEdgeId)
    {
      ghost var before := State();
      var all := nodes[id];
      var pending := all;
      assert edges - (all - pending) == edges && edgeData - (all - pending) == edgeData;
      while pending != {}
        invariant true == Valid()
        invariant pending <= all
        invariant nodes.Keys == before.nodes.Keys && edges == before.edges - (all - pending)
        invariant nodeData == old(nodeData) && edgeData == old(edgeData) - (all - pending)
        invariant nextNodeId == old(nextNodeId) && nextEdgeId == old(nextEdgeId)
        decreases |pending|
      {
        var edgeId :| edgeId in pending;
        DropOne(id, edgeId, before, all - pending);
        assert all - (pending - {edgeId}) == all - pending + {edgeId};
        MapMinus(old(edgeData), all - pending, edgeId);
        pending := pending - {edgeId};
      }
      assert all - pending == all;
    }

    /** The body of that loop. */
    method DropOne(id: Node, edgeId: nat, ghost before: Tables, ghost gone: set<nat>)
      requires Valid() && before.Agree() && id in before.nodes && edgeId in before.nodes[id] && edgeId !in gone
      requires nodes.Keys == before.nodes.Keys && edges == before.edges - gone
      modifies this
      ensures Valid() && nodes.Keys == before.nodes.Keys && edges == before.edges - (gone + {edgeId})
      ensures nodeData == old(nodeData) && edgeData == old(edgeData) - {edgeId}
      ensures nextNodeId == old(nextNodeId) && nextEdgeId == old(nextEdgeId)
    {
      assert before.Touches(edgeId, id);
      MapMinus(before.edges, gone, edgeId);
      var missing := RemoveEdge(edgeId);
    }

    /** Merges `remove` into `keep`, structure only. */
    method MergeNodes(keep: Node, remove: Node, direct: nat)
      requires Valid() && keep in nodes && remove in nodes
      modifies this
      ensures State() == Merged(old(State()), keep, remove, direct) && Backed()
      ensures edges.Keys == old(edges).Keys && nodes.Keys == old(nodes).Keys
      ensures forall e :: e in edges ==>
                            edges[e] == if e != direct && old(edges)[e].from == remove then Ends(keep, old(edges)[e].to)
                                        else old(edges)[e]
      ensures forall v, e :: v in nodes ==>
                               (e in nodes[v]
                                <==> if v != keep && v != remove then e in old(nodes)[v]
                                     else if e in edges && old(edges)[e].from == remove then e != direct && v != remove
                                     else e != direct && e in old(nodes)[v])
      ensures nodeData == old(nodeData) && edgeData == old(edgeData)
      ensures State().AgreeExcept({direct})
              <==> forall e :: e in old(edges) ==> !LosesEnd(old(State()), keep, remove, direct, e)
    {
      ghost var before := State();
      MergeTablesOnly(keep, remove, direct);
      MergedEdges(before, keep, remove, direct);
      MergedSets(before, keep, remove, direct);
      MergeAgreesIff(before, keep, remove, direct);
    }

    /** The direct edge leaves both sets, and everything that still leaves `remove` is made to leave `keep`. */
    method MergeTablesOnly(keep: Node, remove: Node, direct: nat)
      requires keep in nodes && remove in nodes
      modifies this`nodes, this`edges
      ensures State() == Merged(old(State()), keep, remove, direct)
      ensures nodes.Keys == old(nodes).Keys && edges.Keys == old(edges).Keys
    {
      ghost var before := State();
      nodes := nodes[keep := nodes[keep] - {direct}];
      nodes := nodes[remove := nodes[remove] - {direct}];
      ghost var unhooked := nodes;
      var outgoing := set e | e in nodes[remove] && e in edges && edges[e].from == remove;
      assert outgoing == Rehomed(before, keep, remove, direct);
      RehomeAll(keep, remove, outgoing);
      MergeTables(before, keep, remove, direct, unhooked);
    }

    /** The rehoming loop, in whatever order the edges come. */
    method RehomeAll(keep: Node, remove: Node, outgoing: set<nat>)
      requires keep in nodes && remove in nodes && outgoing <= edges.Keys
      modifies this`nodes, this`edges
      ensures nodes == NodesAfter(old(nodes), keep, remove, outgoing)
      ensures edges == EdgesAfter(old(edges), keep, outgoing)
    {
      var rest := outgoing;
      NothingMoved(nodes, edges, keep, remove);
      assert outgoing - rest == {};
      while rest != {}
        invariant rest <= outgoing
        invariant nodes == NodesAfter(old(nodes), keep, remove, outgoing - rest)
        invariant edges == EdgesAfter(old(edges), keep, outgoing - rest)
        decreases |rest|
      {
        var e :| e in rest;
        RehomeStep(old(nodes), old(edges), keep, remove, outgoing - rest, e);
        assert outgoing - (rest - {e}) == outgoing - rest + {e};
        rest := rest - {e};
        edges := edges[e := edges[e].(from := keep)];
        nodes := nodes[keep := nodes[keep] + {e}];
        nodes := nodes[remove := nodes[remove] - {e}];
      }
      assert outgoing - rest == outgoing;
    }
  }

  datatype Edit<ND, ED> =
    | AddNode(nodeData: ND)
    | AddEdge(from: Node, to: Node, edgeData: ED)
    | DropEdge(edge: nat)
    | MoveEdge(edge: nat, newFrom: Node, newTo: Node)
    | DropNode(node: Node)

  /** The graph without its incidence index: which nodes there are, where each edge goes, and the next ids. */
  datatype Model = Model(nodes: set<Node>, edges: map<nat, Ends>, nextNode: nat, nextEdge: nat)

  /** Whether an edit can be carried out. */
  ghost predicate Allowed<ND, ED>(m: Model, edit: Edit<ND, ED>) {
    match edit
    case AddNode(_) => true
    case AddEdge(from, to, _) => from in m.nodes && to in m.nodes
    case DropEdge(edge) => edge in m.edges
    case MoveEdge(edge, newFrom, newTo) => edge in m.edges && newFrom in m.nodes && newTo in m.nodes
    case DropNode(node) => node in m.nodes
  }

  ghost function After<ND, ED>(m: Model, edit: Edit<ND, ED>): Model {
    match edit
    case AddNode(_) => m.(nodes := m.nodes + {m.nextNode}, nextNode := m.nextNode + 1)
    case AddEdge(from, to, _) => m.(edges := m.edges[m.nextEdge := Ends(from, to)], nextEdge := m.nextEdge + 1)
    case DropEdge(edge) => m.(edges := m.edges - {edge})
    case MoveEdge(edge, newFrom, newTo) => m.(edges := m.edges[edge := Ends(newFrom, newTo)])
    case DropNode(node) => m.(nodes := m.nodes - {node}, edges := EdgesOff(Tables(map[], m.edges), {node}))
  }

  ghost predicate AllAllowed<ND, ED>(m: Model, edits: seq<Edit<ND, ED>>)
    decreases |edits|
  {
    edits == [] ||
    (AllAllowed(m, edits[..|edits| - 1]) && Allowed(AfterAll(m, edits[..|edits| - 1]), edits[|edits| - 1]))
  }

  ghost function AfterAll<ND, ED>(m: Model, edits: seq<Edit<ND, ED>>): Model
    decreases |edits|
  {
    if edits == [] then m else After(AfterAll(m, edits[..|edits| - 1]), edits[|edits| - 1])
  }

  ghost function ModelOf<ND, ED>(g: OwningGraph<ND, ED>): Model
    reads g
  {
    Model(g.nodes.Keys, g.edges, g.nextNodeId, g.nextEdgeId)
  }

  method Apply<ND, ED>(g: OwningGraph<ND, ED>, edit: Edit<ND, ED>) returns (panicked: bool)
    requires g.Valid()
    modifies g
    ensures panicked <==> !Allowed(old(ModelOf(g)), edit)
    ensures !panicked ==> g.Valid() && ModelOf(g) == After(old(ModelOf(g)), edit)
  {
    ghost var before := g.State();
    match edit
    case AddNode(data) =>
      var id := g.MakeNode(data);
      panicked := false;
    case AddEdge(from, to, data) =>
      var id;
      id, panicked := g.MakeEdge(from, to, data);
      if !panicked {
        AddedAgrees(before, id, Ends(from, to));
      }
    case DropEdge(edge) =>
      panicked := g.RemoveEdge(edge);
      if !panicked {
        RemovedAgrees(before, edge);
      }
    case MoveEdge(edge, newFrom, newTo) =>
      panicked := g.EditEdge(edge, newFrom, newTo);
      if !panicked {
        MovedModel(before, edge, Ends(newFrom, newTo));
      }
    case DropNode(node) =>
      panicked := g.RemoveNode(node);
  }

  lemma MovedModel(t: Tables, e: nat, ends: Ends)
    requires t.Agree() && e in t.edges && ends.from in t.nodes && ends.to in t.nodes
    ensures EdgeAdded(EdgeRemoved(t, e), e, ends).edges == t.edges[e := ends]
    ensures EdgeAdded(EdgeRemoved(t, e), e, ends).nodes.Keys == t.nodes.Keys
  {
  }

  /** Any run of edits: until one panics, the index agrees with the table and the graph is what the edits say. */
  method Run<ND, ED>(edits: seq<Edit<ND, ED>>) returns (g: OwningGraph<ND, ED>, panicked: bool)
    ensures panicked <==> !AllAllowed(Model({}, map[], 0, 0), edits)
    ensures !panicked ==> g.Valid() && ModelOf(g) == AfterAll(Model({}, map[], 0, 0), edits)
  {
    g := new OwningGraph<ND, ED>();
    for i := 0 to |edits|
      invariant fresh(g) && g.Valid() && ModelOf(g) == AfterAll(Model({}, map[], 0, 0), edits[..i])
      invariant AllAllowed(Model({}, map[], 0, 0), edits[..i])
    {
      assert edits[..i + 1][..i] == edits[..i];
      panicked := Apply(g, edits[i]);
      if panicked {
        NeverAllowed(Model({}, map[], 0, 0), edits, i + 1);
        return g, true;
      }
    }
    assert edits[..|edits|] == edits;
    panicked := false;
  }

  lemma {:induction false} NeverAllowed<ND, ED>(m: Model, edits: seq<Edit<ND, ED>>, k: nat)
    requires k <= |edits| && !AllAllowed(m, edits[..k])
    ensures !AllAllowed(m, edits)
    decreases |edits| - k
  {
    if k == |edits| {
      assert edits[..k] == edits;
    } else {
      assert edits[..k + 1][..k] == edits[..k];
      NeverAllowed(m, edits, k + 1);
    }
  }
}
