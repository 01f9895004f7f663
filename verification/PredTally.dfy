/** How often the numbering records an edge: once for each time the successor iterator yields it. */
module PredTally {
  import opened Walks
  import opened Cfgs
  import opened DfsNumbering

  /** How often `v` is recorded as a predecessor of `w`. */
  ghost function Times(a: Numbering, v: nat, w: nat): nat {
    if w < |a.pred| then multiset(a.pred[w])[v] else 0
  }

  /** Vertex `v` is recorded as a predecessor of each numbered node as often as that node is in the list. */
  ghost predicate Tallied(a: Numbering, v: nat, succs: seq<Node>) {
    forall x :: x in a.number ==> Times(a, v, a.number[x]) == multiset(succs)[x]
  }

  ghost predicate TalliedAt(graph: Cfg, a: Numbering, v: nat) {
    v < |a.vertex| && a.vertex[v].Some? && Tallied(a, v, graph.Successors(a.vertex[v].value))
  }

  /** Nothing has been recorded of `v` in between. */
  ghost predicate Untouched(a: Numbering, b: Numbering, v: nat) {
    forall w: nat :: Times(b, v, w) == Times(a, v, w)
  }

  /** What a call of the numbering has recorded: the edges of the new vertices, and no others. */
  ghost predicate NewTallied(graph: Cfg, a: Numbering, b: Numbering) {
    && (forall v: nat :: |a.vertex| <= v < |b.vertex| ==> TalliedAt(graph, b, v))
    && (forall v: nat :: v < |a.vertex| ==> Untouched(a, b, v))
  }

  /** A visit in progress: the first `s` edges of the open vertex and all edges of the later ones. */
  ghost predicate LoopTallied(graph: Cfg, a: Numbering, idx: nat, succs: seq<Node>, s: nat) {
    && s <= |succs| && Tallied(a, idx, succs[..s])
    && (forall v: nat :: idx < v < |a.vertex| ==> TalliedAt(graph, a, v))
  }

  /** Of the earlier vertices only the open one has been touched. */
  ghost predicate Apart(a: Numbering, b: Numbering, idx: nat) {
    forall v: nat :: v < idx ==> Untouched(a, b, v)
  }

  /** The nodes of the analysed part in the list are numbered. */
  ghost predicate Known(nodes: set<Node>, a: Numbering, succs: seq<Node>) {
    forall x :: x in succs && x in nodes ==> x in a.number
  }

  /** A node numbered later has a later number. */
  lemma LaterNumber(nodes: set<Node>, a: Numbering, b: Numbering, x: Node)
    requires a.Inverse(nodes) && b.Inverse(nodes) && Grew(a, b) && x in b.number && x !in a.number
    ensures b.number[x] >= |a.pred|
  {
    var j := b.number[x];
    assert forall i :: 0 <= i < |a.vertex| ==> a.vertex[i] == b.vertex[i];
    assert b.vertex[j] == Some(x);
  }

  lemma TalliedStays(nodes: set<Node>, a: Numbering, b: Numbering, v: nat, succs: seq<Node>)
    requires a.Inverse(nodes) && b.Inverse(nodes) && Grew(a, b)
    requires Tallied(a, v, succs) && Untouched(a, b, v) && Known(nodes, a, succs)
    ensures true == Tallied(b, v, succs)
  {
    forall x | x in b.number
      ensures Times(b, v, b.number[x]) == multiset(succs)[x]
    {
      if x !in a.number {
        LaterNumber(nodes, a, b, x);
        assert x !in succs;
      }
    }
  }

  lemma PushedTimes(a: Numbering, node: Node, p: nat, v: nat)
    ensures true == Untouched(a, Pushed(a, node, p), v)
  {
  }

  /** A new vertex is in no list yet. */
  lemma FreshTallied(e: Rel, nodes: set<Node>, a: Numbering, node: Node, p: nat)
    requires a.Inverse(nodes) && a.PredOk(e, nodes) && node in nodes && node !in a.number
    ensures true == Tallied(Pushed(a, node, p), |a.vertex|, [])
  {
    var b := Pushed(a, node, p);
    forall w: nat
      ensures Times(b, |a.vertex|, w) == 0
    {
      assert w < |a.pred| ==> |a.vertex| !in a.pred[w];
    }
  }

  lemma VisitTallied(graph: Cfg, e: Rel, nodes: set<Node>, a: Numbering, node: Node, p: nat, succs: seq<Node>)
    requires a.Inverse(nodes) && a.PredOk(e, nodes) && node in nodes && node !in a.number
    ensures true == LoopTallied(graph, Pushed(a, node, p), |a.vertex|, succs, 0)
    ensures true == Apart(a, Pushed(a, node, p), |a.vertex|)
  {
    FreshTallied(e, nodes, a, node, p);
    assert succs[..0] == [];
    forall v: nat
      ensures Untouched(a, Pushed(a, node, p), v)
    {
      PushedTimes(a, node, p, v);
    }
  }

  /** The edges of a closed vertex lead to numbered nodes. */
  lemma ClosedKnown(graph: Cfg, nodes: set<Node>, a: Numbering, v: nat)
    requires a.Inverse(nodes) && a.Closed(graph.Induced(nodes), v)
    ensures Known(nodes, a, graph.Successors(a.vertex[v].value))
  {
    forall x | x in graph.Successors(a.vertex[v].value) && x in nodes
      ensures x in a.number
    {
      assert (a.vertex[v].value, x) in graph.Induced(nodes);
    }
  }

  /** The visit of a child leaves the open vertex's tally as it was. */
  lemma ChildTallied(graph: Cfg, nodes: set<Node>, a: Numbering, b: Numbering, idx: nat, succs: seq<Node>, s: nat)
    requires a.Inverse(nodes) && b.Inverse(nodes) && Grew(a, b) && idx < |a.vertex| && s <= |succs|
    requires true == LoopTallied(graph, a, idx, succs, s) && true == NewTallied(graph, a, b)
    requires Known(nodes, a, succs[..s]) && forall v :: idx < v < |a.vertex| ==> a.Closed(graph.Induced(nodes), v)
    ensures true == LoopTallied(graph, b, idx, succs, s)
    ensures true == Apart(a, b, idx)
  {
    TalliedStays(nodes, a, b, idx, succs[..s]);
    forall v: nat | idx < v < |b.vertex|
      ensures TalliedAt(graph, b, v)
    {
      if v < |a.vertex| {
        assert TalliedAt(graph, a, v) && b.vertex[v] == a.vertex[v];
        ClosedKnown(graph, nodes, a, v);
        TalliedStays(nodes, a, b, v, graph.Successors(a.vertex[v].value));
      }
    }
  }

  /** Recording an edge of the open vertex counts it once and leaves all other counts alone. */
  lemma RecordedTimes(a: Numbering, idx: nat, w: nat, v: nat, x: nat)
    requires w < |a.pred|
    ensures Times(Recorded(a, idx, w), v, x) == Times(a, v, x) + if v == idx && x == w then 1 else 0
  {
  }

  lemma RecordTallied(graph: Cfg, nodes: set<Node>, a: Numbering, idx: nat, succs: seq<Node>, s: nat)
    requires a.Inverse(nodes) && s < |succs| && succs[s] in a.number
    requires true == LoopTallied(graph, a, idx, succs, s)
    ensures true == LoopTallied(graph, Recorded(a, idx, a.number[succs[s]]), idx, succs, s + 1)
    ensures true == Apart(a, Recorded(a, idx, a.number[succs[s]]), idx)
  {
    var w := a.number[succs[s]];
    var b := Recorded(a, idx, w);
    assert succs[..s + 1] == succs[..s] + [succs[s]];
    forall v: nat, x: nat
      ensures Times(b, v, x) == Times(a, v, x) + if v == idx && x == w then 1 else 0
    {
      RecordedTimes(a, idx, w, v, x);
    }
    forall v: nat | idx < v < |b.vertex|
      ensures TalliedAt(graph, b, v)
    {
      assert TalliedAt(graph, a, v);
    }
  }

  lemma SkipTallied(graph: Cfg, a: Numbering, idx: nat, succs: seq<Node>, s: nat)
    requires s < |succs| && succs[s] !in a.number && true == LoopTallied(graph, a, idx, succs, s)
    ensures true == LoopTallied(graph, a, idx, succs, s + 1)
  {
    assert succs[..s + 1] == succs[..s] + [succs[s]];
  }

  lemma ApartTrans(a: Numbering, b: Numbering, c: Numbering, idx: nat)
    requires Apart(a, b, idx) && Apart(b, c, idx)
    ensures true == Apart(a, c, idx)
  {
    forall v: nat | v < idx
      ensures Untouched(a, c, v)
    {
      assert Untouched(a, b, v) && Untouched(b, c, v);
    }
  }

  lemma ApartRefl(a: Numbering, idx: nat)
    ensures true == Apart(a, a, idx) && true == Apart(a, a, |a.vertex|)
  {
  }

  lemma VisitTallies(graph: Cfg, a: Numbering, b: Numbering, node: Node, succs: seq<Node>)
    requires |a.vertex| < |b.vertex| && b.vertex[|a.vertex|] == Some(node) && succs == graph.Successors(node)
    requires LoopTallied(graph, b, |a.vertex|, succs, |succs|) && Apart(a, b, |a.vertex|)
    ensures true == NewTallied(graph, a, b)
  {
    assert succs[..|succs|] == succs;
    forall v: nat | |a.vertex| <= v < |b.vertex|
      ensures TalliedAt(graph, b, v)
    {
    }
  }

  lemma NameCount(a: Numbering, nodes: set<Node>, i: nat, v: Node)
    requires a.Inverse(nodes) && 1 <= i < |a.vertex|
    ensures a.vertex[i].value == v <==> v in a.number && a.number[v] == i
  {
  }

  /** In terms of nodes: each list holds a predecessor as often as its iterator yields the node. */
  lemma {:induction false} NamesCount(a: Numbering, nodes: set<Node>, list: seq<nat>, names: seq<Node>, v: Node)
    requires a.Inverse(nodes) && |names| == |list|
    requires forall j :: 0 <= j < |list| ==> 1 <= list[j] < |a.vertex| && names[j] == a.vertex[list[j]].value
    ensures multiset(names)[v] == if v in a.number then multiset(list)[a.number[v]] else 0
    decreases |list|
  {
    if list != [] {
      var last := |list| - 1;
      NamesCount(a, nodes, list[..last], names[..last], v);
      NameCount(a, nodes, list[last], v);
      assert list == list[..last] + [list[last]];
      assert names == names[..last] + [names[last]];
    }
  }
}
