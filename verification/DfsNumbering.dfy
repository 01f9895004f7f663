/** Depth-first numbering as pure data: the tables the traversal fills, and what they mean. */
module DfsNumbering {
  import opened Walks
  import opened Cfgs
  import opened PreorderTree

  datatype Numbering = Numbering(number: map<Node, nat>, vertex: seq<Option<Node>>, parent: seq<nat>,
                                 pred: seq<seq<nat>>)
  {
    /** `number` and `vertex` are inverse to each other on the indices 1, 2, ... */
    ghost predicate Inverse(nodes: set<Node>) {
      && |vertex| >= 1 && |parent| == |pred| == |vertex|
      && vertex[0] == None
      && number.Keys <= nodes
      && (forall i :: 1 <= i < |vertex| ==> vertex[i].Some? && vertex[i].value in number
                                            && number[vertex[i].value] == i)
      && (forall v :: v in number ==> 1 <= number[v] < |vertex| && vertex[number[v]] == Some(v))
    }

    ghost function NodeAt(i: nat): Node
      requires i < |vertex| && vertex[i].Some?
    {
      vertex[i].value
    }

    /** The parent table is a preorder tree along graph edges. */
    ghost predicate TreeOk(e: Rel, nodes: set<Node>)
      requires Inverse(nodes)
    {
      && Preorder(parent)
      && (forall w: nat :: 2 <= w < |vertex| ==> AlongEdge(e, vertex, parent, w))
    }

    /** Every recorded predecessor is an edge, and an edge to a higher number comes from an ancestor. */
    ghost predicate PredOk(e: Rel, nodes: set<Node>)
      requires Inverse(nodes)
    {
      && pred[0] == []
      && forall w: nat, v: nat {:trigger v in pred[w]} :: 1 <= w < |pred| && v in pred[w] ==>
                          && 1 <= v < |vertex|
                          && (NodeAt(v), NodeAt(w)) in e
                          && (v < w ==> Anc(parent, v, w))
    }

    ghost predicate Ok(e: Rel, nodes: set<Node>) {
      Inverse(nodes) && TreeOk(e, nodes) && PredOk(e, nodes)
    }

    /** All edges out of the vertex numbered `i` have been recorded. */
    ghost predicate Closed(e: Rel, i: nat) {
      && 1 <= i < |vertex| == |pred| && vertex[i].Some?
      && forall w :: (vertex[i].value, w) in e ==> w in number && number[w] < |pred| && i in pred[number[w]]
    }

    ghost predicate AllBelow(p: nat) {
      forall j :: p <= j < |vertex| ==> Anc(parent, p, j)
    }
  }

  /** The vertex numbered `w` hangs below an earlier one along an edge. */
  ghost predicate AlongEdge(e: Rel, vertex: seq<Option<Node>>, parent: seq<nat>, w: nat)
    requires 2 <= w < |vertex| == |parent|
  {
    && 1 <= parent[w] < w && vertex[w].Some? && vertex[parent[w]].Some?
    && (vertex[parent[w]].value, vertex[w].value) in e
  }

  /** `b` holds everything `a` holds: numbers, tree and recorded edges only grow. */
  ghost predicate Grew(a: Numbering, b: Numbering) {
    && a.vertex <= b.vertex && a.parent <= b.parent
    && (forall v :: v in a.number ==> v in b.number && b.number[v] == a.number[v])
    && |a.pred| <= |b.pred|
    && (forall w: nat, v: nat :: w < |a.pred| && v in a.pred[w] ==> v in b.pred[w])
  }

  lemma GrewTrans(a: Numbering, b: Numbering, c: Numbering)
    requires Grew(a, b) && Grew(b, c)
    ensures Grew(a, c)
  {
  }

  lemma GrewClosed(e: Rel, a: Numbering, b: Numbering, i: nat)
    requires Grew(a, b) && a.Closed(e, i) && |b.pred| == |b.vertex|
    ensures b.Closed(e, i)
  {
  }

  /** The numbering after a new vertex below `p` has been pushed. */
  ghost function Pushed(a: Numbering, node: Node, p: nat): Numbering {
    Numbering(a.number[node := |a.vertex|], a.vertex + [Some(node)], a.parent + [p], a.pred + [[]])
  }

  lemma PushedInverse(nodes: set<Node>, a: Numbering, node: Node, p: nat)
    requires a.Inverse(nodes) && node in nodes && node !in a.number
    ensures Pushed(a, node, p).Inverse(nodes) && Grew(a, Pushed(a, node, p))
    ensures forall i :: 1 <= i < |a.vertex| ==> Pushed(a, node, p).NodeAt(i) == a.NodeAt(i)
    ensures Pushed(a, node, p).NodeAt(|a.vertex|) == node
  {
  }

  lemma PushedTree(e: Rel, nodes: set<Node>, a: Numbering, node: Node, p: nat)
    requires a.Inverse(nodes) && a.TreeOk(e, nodes) && node in nodes && node !in a.number
    requires p == 0 ==> |a.vertex| == 1
    requires p != 0 ==> p < |a.vertex| && a.AllBelow(p) && (a.NodeAt(p), node) in e
    ensures Pushed(a, node, p).Inverse(nodes) && Pushed(a, node, p).TreeOk(e, nodes)
  {
    var b := Pushed(a, node, p);
    var k := |a.vertex|;
    PushedInverse(nodes, a, node, p);
    PreorderGrows(a.parent, p);
    forall w: nat | 2 <= w < |b.vertex|
      ensures AlongEdge(e, b.vertex, b.parent, w)
    {
      if w < k {
        assert AlongEdge(e, a.vertex, a.parent, w);
      }
    }
  }

  lemma PushedPred(e: Rel, nodes: set<Node>, a: Numbering, node: Node, p: nat)
    requires a.Inverse(nodes) && a.PredOk(e, nodes) && node in nodes && node !in a.number
    ensures Pushed(a, node, p).Inverse(nodes) && Pushed(a, node, p).PredOk(e, nodes)
  {
    var b := Pushed(a, node, p);
    PushedInverse(nodes, a, node, p);
    forall w: nat, v: nat | 1 <= w < |b.pred| && v in b.pred[w]
      ensures 1 <= v < |b.vertex| && (b.NodeAt(v), b.NodeAt(w)) in e && (v < w ==> Anc(b.parent, v, w))
    {
      assert w < |a.pred| && v in a.pred[w];
      AncExtend(a.parent, p, v, w);
    }
  }

  lemma PushedOk(e: Rel, nodes: set<Node>, a: Numbering, node: Node, p: nat)
    requires a.Ok(e, nodes) && node in nodes && node !in a.number
    requires p == 0 ==> |a.vertex| == 1
    requires p != 0 ==> p < |a.vertex| && a.AllBelow(p) && (a.NodeAt(p), node) in e
    ensures Pushed(a, node, p).Ok(e, nodes) && Grew(a, Pushed(a, node, p))
    ensures p != 0 ==> Pushed(a, node, p).AllBelow(p)
  {
    PushedInverse(nodes, a, node, p);
    PushedTree(e, nodes, a, node, p);
    PushedPred(e, nodes, a, node, p);
    var b := Pushed(a, node, p);
    if p != 0 {
      forall j | p <= j < |b.vertex|
        ensures Anc(b.parent, p, j)
      {
        if j < |a.vertex| {
          AncExtend(a.parent, p, p, j);
          assert Anc(a.parent, p, j);
        }
      }
    }
  }

  /** The numbering after the edge `v -> w` has been recorded. */
  ghost function Recorded(a: Numbering, v: nat, w: nat): Numbering
    requires w < |a.pred|
  {
    a.(pred := a.pred[w := a.pred[w] + [v]])
  }

  lemma RecordedOk(e: Rel, nodes: set<Node>, a: Numbering, v: nat, w: nat)
    requires a.Ok(e, nodes) && 1 <= v < |a.vertex| && 1 <= w < |a.vertex|
    requires (a.NodeAt(v), a.NodeAt(w)) in e && a.AllBelow(v)
    ensures Recorded(a, v, w).Ok(e, nodes) && Grew(a, Recorded(a, v, w))
    ensures v in Recorded(a, v, w).pred[w]
  {
  }

  /**
   * The state of a visit in progress: vertex `idx` is open, everything numbered after it lies below it and is
   * closed, and its edges to the first `s` of `succs` have been recorded.
   */
  ghost predicate Visiting(e: Rel, nodes: set<Node>, a: Numbering, idx: nat, succs: seq<Node>, s: nat)
    requires s <= |succs|
  {
    && a.Ok(e, nodes) && 1 <= idx < |a.vertex| && a.AllBelow(idx)
    && (forall i :: idx < i < |a.vertex| ==> a.Closed(e, i))
    && (forall t :: 0 <= t < s && succs[t] in nodes ==> RecordedEdge(a, idx, succs[t]))
  }

  ghost predicate RecordedEdge(a: Numbering, v: nat, target: Node) {
    target in a.number && a.number[target] < |a.pred| && v in a.pred[a.number[target]]
  }

  lemma VisitStart(e: Rel, nodes: set<Node>, a: Numbering, node: Node, p: nat, succs: seq<Node>)
    requires a.Ok(e, nodes) && node in nodes && node !in a.number
    requires Pushed(a, node, p).Ok(e, nodes)
    ensures Visiting(e, nodes, Pushed(a, node, p), |a.vertex|, succs, 0)
  {
  }

  /** Visiting a successor keeps the visit in order. */
  lemma VisitGrew(e: Rel, nodes: set<Node>, a: Numbering, b: Numbering, idx: nat, succs: seq<Node>, s: nat)
    requires s <= |succs| && Visiting(e, nodes, a, idx, succs, s)
    requires Grew(a, b) && b.Ok(e, nodes) && b.AllBelow(idx)
    requires forall i :: |a.vertex| <= i < |b.vertex| ==> b.Closed(e, i)
    ensures Visiting(e, nodes, b, idx, succs, s)
  {
    forall i | idx < i < |b.vertex|
      ensures b.Closed(e, i)
    {
      if i < |a.vertex| {
        GrewClosed(e, a, b, i);
      }
    }
    forall t | 0 <= t < s && succs[t] in nodes
      ensures RecordedEdge(b, idx, succs[t])
    {
      assert RecordedEdge(a, idx, succs[t]);
    }
  }

  /** Recording the edge to the next successor advances the visit. */
  lemma VisitRecorded(e: Rel, nodes: set<Node>, a: Numbering, idx: nat, succs: seq<Node>, s: nat)
    requires s < |succs| && Visiting(e, nodes, a, idx, succs, s)
    requires succs[s] in a.number && (a.NodeAt(idx), succs[s]) in e
    ensures Visiting(e, nodes, Recorded(a, idx, a.number[succs[s]]), idx, succs, s + 1)
    ensures Grew(a, Recorded(a, idx, a.number[succs[s]]))
  {
    var b := Recorded(a, idx, a.number[succs[s]]);
    RecordedOk(e, nodes, a, idx, a.number[succs[s]]);
    VisitGrew(e, nodes, a, b, idx, succs, s);
    assert RecordedEdge(b, idx, succs[s]);
  }

  /** Once every successor has been handled the open vertex is closed too. */
  lemma VisitEnd(e: Rel, nodes: set<Node>, a: Numbering, idx: nat, succs: seq<Node>)
    requires Visiting(e, nodes, a, idx, succs, |succs|)
    requires forall w :: (a.NodeAt(idx), w) in e ==> w in succs && w in nodes
    ensures forall i :: idx <= i < |a.vertex| ==> a.Closed(e, i)
  {
  }

  /** A finished subtree of an open vertex's child lies below the open vertex. */
  lemma VisitBelow(e: Rel, nodes: set<Node>, a: Numbering, b: Numbering, node: Node, p: nat)
    requires a.Ok(e, nodes) && b.Ok(e, nodes) && Grew(Pushed(a, node, p), b) && b.AllBelow(|a.vertex|)
    requires p < |a.vertex| && Pushed(a, node, p).AllBelow(p) && |Pushed(a, node, p).vertex| <= |b.vertex|
    ensures b.AllBelow(p)
  {
    var c := Pushed(a, node, p);
    var k := |a.vertex|;
    forall j | p <= j <= k
      ensures Anc(b.parent, p, j)
    {
      assert Anc(c.parent, p, j);
      AncPrefix(c.parent, b.parent, p, j);
    }
    AllBelowTrans(b.parent, p, k, |b.vertex|);
  }
}
