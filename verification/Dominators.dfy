/** The entry points of the dominator analysis. */
module Dominators {
  import opened Walks
  import opened Cfgs
  import opened DfsNumbering
  import opened PredTally
  import opened DominatorSteps
  import opened NumberingTransfer
  import opened LengauerTarjan

  datatype TarjanResult = TarjanResult(idom: map<Node, Node>, preds: map<Node, seq<Node>>)

  /** What the analysis of the graph `e` from `root` has to deliver. */
  ghost predicate CorrectIdom(e: Rel, root: Node, idom: map<Node, Node>) {
    && (forall w :: w in idom <==> w != root && Reaches(e, root, w))
    && (forall w :: w in idom ==> IsImmediateDominator(e, root, idom[w], w))
  }

  ghost predicate CorrectPreds(e: Rel, root: Node, preds: map<Node, seq<Node>>) {
    && (forall w :: w in preds <==> Reaches(e, root, w))
    && root in preds && preds[root] == []
    && (forall w: Node, v: Node :: w in preds && w != root ==> (v in preds[w] <==> Reaches(e, root, v) && (v, w) in e))
  }

  /** Each list holds a reachable predecessor once for each time its iterator yields the node. */
  ghost predicate CountedPreds(graph: Cfg, root: Node, preds: map<Node, seq<Node>>) {
    forall w, v :: w in preds && w != root ==>
                     multiset(preds[w])[v] == if v in preds then multiset(graph.Successors(v))[w] else 0
  }

  method RunLengauerTarjan(graph: Cfg, nodeSet: set<Node>, root: Node) returns (result: TarjanResult)
    ensures root !in nodeSet ==> result == TarjanResult(map[], map[])
    ensures root in nodeSet ==> CorrectIdom(graph.Induced(nodeSet), root, result.idom)
                                && CorrectPreds(graph.Induced(nodeSet), root, result.preds)
                                && CountedPreds(graph, root, result.preds)
  {
    ghost var e := graph.Induced(nodeSet);
    var state := new LtState(graph, nodeSet);
    state.Dfs(root, 0);

    var n := |state.vertex| - 1;
    if n == 0 {
      return TarjanResult(map[], map[]);
    }

    ghost var a := state.Numbering();
    assert root in nodeSet;
    assert a.vertex[a.number[root]] == Some(root);
    NumberingIsDfsTree(e, nodeSet, a, root);
    state.MainLoop();
    state.FixUp();

    result := ToNodes(state.vertex, state.idom, state.pred, graph, e, nodeSet, a, root);
  }

  /** The immediate dominators of the nodes numbered below `w`. */
  ghost predicate IdomsUpTo(e: Rel, root: Node, number: map<Node, nat>, idoms: map<Node, Node>, w: nat) {
    && (forall v :: v in idoms <==> v in number && 2 <= number[v] < w)
    && (forall v :: v in idoms ==> IsImmediateDominator(e, root, idoms[v], v))
  }

  /** The numbered predecessors of the nodes numbered below `w`. */
  ghost predicate PredsUpTo(e: Rel, root: Node, number: map<Node, nat>, preds: map<Node, seq<Node>>, w: nat) {
    && (forall v :: v in preds <==> v in number && 1 <= number[v] < w)
    && root in preds && preds[root] == []
    && (forall x, v :: x in preds && x != root ==> (v in preds[x] <==> v in number && (v, x) in e))
  }

  lemma ConvertStep(e: Rel, root: Node, nodes: set<Node>, a: Numbering, w: nat,
                    idoms: map<Node, Node>, preds: map<Node, seq<Node>>, idomNode: Node, predNodes: seq<Node>)
    requires Finished(e, nodes, a, root) && 2 <= w < |a.vertex|
    requires IdomsUpTo(e, root, a.number, idoms, w) && PredsUpTo(e, root, a.number, preds, w)
    requires IsImmediateDominator(e, root, idomNode, a.NodeAt(w))
    requires forall v :: v in predNodes <==> v in a.number && (v, a.NodeAt(w)) in e
    ensures IdomsUpTo(e, root, a.number, idoms[a.NodeAt(w) := idomNode], w + 1)
    ensures PredsUpTo(e, root, a.number, preds[a.NodeAt(w) := predNodes], w + 1)
  {
    assert forall v :: v in a.number && a.number[v] == w ==> v == a.NodeAt(w);
  }

  /** The conversion of index tables to node maps at the end of the run. */
  method ToNodes(vertex: seq<Option<Node>>, idom: seq<nat>, pred: seq<seq<nat>>,
                 ghost graph: Cfg, ghost e: Rel, ghost nodes: set<Node>, ghost a: Numbering, root: Node)
    returns (result: TarjanResult)
    requires forall v: nat :: 1 <= v < |a.vertex| ==> TalliedAt(graph, a, v)
    requires Finished(e, nodes, a, root) && vertex == a.vertex && pred == a.pred && |idom| == |vertex|
    requires forall v :: 2 <= v < |idom| ==> 1 <= idom[v] < v && IsImmediateDominator(IndexEdges(pred), 1, idom[v], v)
    ensures CorrectIdom(e, root, result.idom) && CorrectPreds(e, root, result.preds)
    ensures CountedPreds(graph, root, result.preds)
  {
    var idoms: map<Node, Node>, preds: map<Node, seq<Node>> := map[], map[root := []];
    for w := 2 to |vertex|
      invariant true == IdomsUpTo(e, root, a.number, idoms, w) && true == PredsUpTo(e, root, a.number, preds, w)
      invariant true == CountsUpTo(a, root, preds)
    {
      var node := vertex[w].value;
      var idomNode := vertex[idom[w]].value;
      ImmediateAgrees(e, nodes, a, root, idom[w], w);
      var predNodes := PredNodes(vertex, pred, w, e, nodes, a, root);
      ConvertStep(e, root, nodes, a, w, idoms, preds, idomNode, predNodes);
      CountStep(nodes, a, root, preds, w, predNodes);
      idoms := idoms[node := idomNode];
      preds := preds[node := predNodes];
    }
    forall w
      ensures w in a.number <==> Reaches(e, root, w)
    {
      NumberedIffReachable(e, nodes, a, root, w);
    }
    CountsEnd(graph, nodes, a, root, preds);
    result := TarjanResult(idoms, preds);
  }

  /** The counts in the node lists are those in the index lists. */
  ghost predicate CountsUpTo(a: Numbering, root: Node, preds: map<Node, seq<Node>>) {
    forall x :: x in preds && x != root ==> x in a.number && CountOk(a, a.number[x], preds[x])
  }

  ghost predicate CountOk(a: Numbering, w: nat, names: seq<Node>) {
    forall v :: multiset(names)[v] == if v in a.number then Times(a, a.number[v], w) else 0
  }

  lemma CountStep(nodes: set<Node>, a: Numbering, root: Node, preds: map<Node, seq<Node>>, w: nat, names: seq<Node>)
    requires a.Inverse(nodes) && 2 <= w < |a.vertex| && CountsUpTo(a, root, preds) && CountOk(a, w, names)
    ensures true == CountsUpTo(a, root, preds[a.NodeAt(w) := names])
  {
  }

  lemma CountsEnd(graph: Cfg, nodes: set<Node>, a: Numbering, root: Node, preds: map<Node, seq<Node>>)
    requires a.Inverse(nodes) && CountsUpTo(a, root, preds) && forall x :: x in preds <==> x in a.number
    requires forall v: nat :: 1 <= v < |a.vertex| ==> TalliedAt(graph, a, v)
    ensures CountedPreds(graph, root, preds)
  {
    forall w, v | w in preds && w != root
      ensures multiset(preds[w])[v] == if v in preds then multiset(graph.Successors(v))[w] else 0
    {
      assert CountOk(a, a.number[w], preds[w]);
      assert v in a.number ==> TalliedAt(graph, a, a.number[v]);
    }
  }

  method PredNodes(vertex: seq<Option<Node>>, pred: seq<seq<nat>>, w: nat,
                   ghost e: Rel, ghost nodes: set<Node>, ghost a: Numbering, ghost root: Node)
    returns (out: seq<Node>)
    requires Finished(e, nodes, a, root) && vertex == a.vertex && pred == a.pred && 2 <= w < |vertex|
    ensures forall v :: v in out <==> v in a.number && (v, a.NodeAt(w)) in e
    ensures true == CountOk(a, w, out)
  {
    out := [];
    for i := 0 to |pred[w]|
      invariant |out| == i
      invariant forall j :: 0 <= j < i ==> 1 <= pred[w][j] < |vertex| && out[j] == a.NodeAt(pred[w][j])
    {
      assert pred[w][i] in pred[w];
      out := out + [vertex[pred[w][i]].value];
    }
    forall v
      ensures v in out <==> v in a.number && (v, a.NodeAt(w)) in e
    {
      if v in out {
        var j :| 0 <= j < |out| && out[j] == v;
        EdgesAgree(e, nodes, a, root, pred[w][j], w);
        assert pred[w][j] in pred[w];
      }
      if v in a.number && (v, a.NodeAt(w)) in e {
        EdgesAgree(e, nodes, a, root, a.number[v], w);
        var j :| 0 <= j < |pred[w]| && pred[w][j] == a.number[v];
        assert out[j] == v;
      }
    }
    forall v
      ensures multiset(out)[v] == if v in a.number then Times(a, a.number[v], w) else 0
    {
      NamesCount(a, nodes, pred[w], out, v);
    }
  }
}
