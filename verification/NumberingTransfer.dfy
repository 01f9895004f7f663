/** From preorder numbers back to graph nodes. */
module NumberingTransfer {
  import opened Walks
  import opened Cfgs
  import opened PreorderTree
  import opened Semidominators
  import opened DfsNumbering
  import opened DominatorSteps

  /** A finished numbering: every edge between numbered nodes has been recorded. */
  ghost predicate Finished(e: Rel, nodes: set<Node>, a: Numbering, root: Node) {
    && a.Ok(e, nodes) && |a.vertex| >= 2 && a.vertex[1] == Some(root)
    && forall i :: 1 <= i < |a.vertex| ==> a.Closed(e, i)
  }

  lemma EdgesAgree(e: Rel, nodes: set<Node>, a: Numbering, root: Node, v: nat, w: nat)
    requires Finished(e, nodes, a, root) && 1 <= v < |a.vertex| && 1 <= w < |a.vertex|
    ensures (v, w) in IndexEdges(a.pred) <==> (a.NodeAt(v), a.NodeAt(w)) in e
  {
    assert a.Closed(e, v);
    assert a.number[a.NodeAt(w)] == w;
  }

  /** The numbering is a depth-first spanning tree of the recorded edges. */
  lemma NumberingIsDfsTree(e: Rel, nodes: set<Node>, a: Numbering, root: Node)
    requires Finished(e, nodes, a, root)
    ensures DfsTree(IndexEdges(a.pred), a.parent)
  {
    var ie := IndexEdges(a.pred);
    forall v: nat, w: nat | (v, w) in ie
      ensures 1 <= v < |a.parent| && 1 <= w < |a.parent| && (v < w ==> Anc(a.parent, v, w))
    {
      assert v in a.pred[w];
    }
    forall w | 2 <= w < |a.parent|
      ensures (a.parent[w], w) in ie
    {
      assert AlongEdge(e, a.vertex, a.parent, w);
      EdgesAgree(e, nodes, a, root, a.parent[w], w);
    }
  }

  ghost function NodeMap(nodes: set<Node>, a: Numbering): (f: map<Node, Node>)
    requires a.Inverse(nodes)
    ensures forall i: nat :: i in f <==> 1 <= i < |a.vertex|
    ensures forall i: nat :: i in f ==> f[i] == a.NodeAt(i)
  {
    map i: nat | 1 <= i < |a.vertex| :: a.NodeAt(i)
  }

  /** A walk from the root only meets numbered nodes, and its numbers are a walk of the recorded edges. */
  lemma WalkToNumbers(e: Rel, nodes: set<Node>, a: Numbering, root: Node, p: seq<Node>, w: Node) returns (q: seq<Node>)
    requires Finished(e, nodes, a, root) && WalkFromTo(e, p, root, w)
    ensures w in a.number && WalkFromTo(IndexEdges(a.pred), q, 1, a.number[w])
    ensures |q| == |p| && forall i :: 0 <= i < |p| ==> p[i] in a.number && q[i] == a.number[p[i]]
  {
    assert a.number[root] == 1;
    forall x, y | (x, y) in e && x in a.number.Keys
      ensures y in a.number.Keys
    {
      assert a.Closed(e, a.number[x]);
    }
    ClosedUnderWalk(e, a.number.Keys, p);
    forall x, y | (x, y) in e && x in a.number && y in a.number
      ensures (a.number[x], a.number[y]) in IndexEdges(a.pred)
    {
      EdgesAgree(e, nodes, a, root, a.number[x], a.number[y]);
    }
    q := MapWalk(e, IndexEdges(a.pred), a.number, p);
  }

  lemma WalkToNodes(e: Rel, nodes: set<Node>, a: Numbering, root: Node, q: seq<Node>, w: nat) returns (p: seq<Node>)
    requires Finished(e, nodes, a, root) && WalkFromTo(IndexEdges(a.pred), q, 1, w)
    ensures 1 <= w < |a.vertex| && WalkFromTo(e, p, root, a.NodeAt(w))
    ensures |p| == |q| && forall i :: 0 <= i < |q| ==> 1 <= q[i] < |a.vertex| && p[i] == a.NodeAt(q[i])
  {
    var f := NodeMap(nodes, a);
    forall i | 0 <= i < |q|
      ensures q[i] in f
    {
      if i > 0 {
        assert (q[i - 1], q[i]) in IndexEdges(a.pred);
      }
    }
    forall x, y | (x, y) in IndexEdges(a.pred) && x in f && y in f
      ensures (f[x], f[y]) in e
    {
      EdgesAgree(e, nodes, a, root, x, y);
    }
    p := MapWalk(IndexEdges(a.pred), e, f, q);
  }

  /** Exactly the nodes reachable from the root are numbered. */
  lemma NumberedIffReachable(e: Rel, nodes: set<Node>, a: Numbering, root: Node, w: Node)
    requires Finished(e, nodes, a, root)
    ensures w in a.number <==> Reaches(e, root, w)
  {
    if w in a.number {
      NumberingIsDfsTree(e, nodes, a, root);
      AncOfRoot(a.parent, a.number[w]);
      var t := TreeWalk(IndexEdges(a.pred), a.parent, 1, a.number[w]);
      var p := WalkToNodes(e, nodes, a, root, t, a.number[w]);
    }
    if Reaches(e, root, w) {
      var p :| WalkFromTo(e, p, root, w);
      var q := WalkToNumbers(e, nodes, a, root, p, w);
    }
  }

  lemma DominanceAgrees(e: Rel, nodes: set<Node>, a: Numbering, root: Node, d: nat, w: nat)
    requires Finished(e, nodes, a, root) && 1 <= d < |a.vertex| && 1 <= w < |a.vertex|
    ensures Dominates(IndexEdges(a.pred), 1, d, w) <==> Dominates(e, root, a.NodeAt(d), a.NodeAt(w))
  {
    if Dominates(IndexEdges(a.pred), 1, d, w) {
      forall p | WalkFromTo(e, p, root, a.NodeAt(w))
        ensures a.NodeAt(d) in p
      {
        var q := WalkToNumbers(e, nodes, a, root, p, a.NodeAt(w));
        assert d in q;
      }
    }
    if Dominates(e, root, a.NodeAt(d), a.NodeAt(w)) {
      forall q | WalkFromTo(IndexEdges(a.pred), q, 1, w)
        ensures d in q
      {
        var p := WalkToNodes(e, nodes, a, root, q, w);
        assert a.NodeAt(d) in p;
      }
    }
  }

  lemma ImmediateAgrees(e: Rel, nodes: set<Node>, a: Numbering, root: Node, i: nat, w: nat)
    requires Finished(e, nodes, a, root) && 1 <= i < |a.vertex| && 1 <= w < |a.vertex|
    requires IsImmediateDominator(IndexEdges(a.pred), 1, i, w)
    ensures IsImmediateDominator(e, root, a.NodeAt(i), a.NodeAt(w))
  {
    DominanceAgrees(e, nodes, a, root, i, w);
    NumberedIffReachable(e, nodes, a, root, a.NodeAt(w));
    var p :| WalkFromTo(e, p, root, a.NodeAt(w));
    var q := WalkToNumbers(e, nodes, a, root, p, a.NodeAt(w));
    forall d | StrictlyDominates(e, root, d, a.NodeAt(w))
      ensures Dominates(e, root, d, a.NodeAt(i))
    {
      assert d in p;
      var k := a.number[d];
      DominanceAgrees(e, nodes, a, root, k, w);
      assert StrictlyDominates(IndexEdges(a.pred), 1, k, w);
      DominanceAgrees(e, nodes, a, root, k, i);
    }
  }
}
