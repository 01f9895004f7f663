/** The algorithm's tables and the operations on them. */
module LengauerTarjan {
  import opened Walks
  import opened Cfgs
  import opened PreorderTree
  import opened Semidominators
  import opened DfsNumbering
  import opened PredTally
  import opened LinkEvalForest
  import opened DominatorSteps

  class LtState {
    const graph: Cfg
    const nodeSet: set<Node>

    var number: map<Node, nat>
    var vertex: seq<Option<Node>>
    var parent: seq<nat>
    var semi: seq<nat>
    var idom: seq<nat>
    var ancestor: seq<nat>
    var labels: seq<nat>
    var bucket: seq<seq<nat>>
    var pred: seq<seq<nat>>

    constructor (graph: Cfg, nodeSet: set<Node>)
      ensures this.graph == graph && this.nodeSet == nodeSet
      ensures Numbering() == DfsNumbering.Numbering(map[], [None], [0], [[]])
      ensures Fresh() && Numbering().Ok(Edges(), nodeSet)
    {
      this.graph, this.nodeSet := graph, nodeSet;
      number, vertex, parent := map[], [None], [0];
      semi, idom, ancestor, labels := [0], [0], [0], [0];
      bucket, pred := [[]], [[]];
    }

    ghost function Edges(): Rel {
      graph.Induced(nodeSet)
    }

    ghost function Numbering(): Numbering
      reads this
    {
      DfsNumbering.Numbering(number, vertex, parent, pred)
    }

    /** The tables that only the main loop writes still hold their initial entries. */
    ghost predicate Fresh()
      reads this
    {
      && |semi| == |idom| == |ancestor| == |labels| == |bucket| == |vertex|
      && forall i :: 0 <= i < |vertex| ==>
                       semi[i] == i && idom[i] == 0 && ancestor[i] == 0 && labels[i] == i && bucket[i] == []
    }

    method PushVertex(node: Node, parent: nat) returns (idx: nat)
      requires Fresh() && Numbering().Ok(Edges(), nodeSet)
      requires node in nodeSet && node !in number
      modifies this
      ensures idx == |old(vertex)| && Fresh()
      ensures Numbering() == Pushed(old(Numbering()), node, parent)
    {
      idx := |vertex|;
      number := number[node := idx];
      vertex := vertex + [Some(node)];
      this.parent := this.parent + [parent];
      semi := semi + [idx];
      idom := idom + [0];
      ancestor := ancestor + [0];
      labels := labels + [idx];
      bucket := bucket + [[]];
      pred := pred + [[]];
    }

    /** What a call of `Dfs` may rely on: `parent` is 0 for the root, else an open vertex with an edge to `node`. */
    ghost predicate MayVisit(node: Node, parent: nat)
      reads this
    {
      && Fresh() && Numbering().Ok(Edges(), nodeSet)
      && (parent == 0 ==> |vertex| == 1)
      && (parent != 0 ==>
            && parent < |vertex| && Numbering().AllBelow(parent)
            && (node in nodeSet ==> (Numbering().NodeAt(parent), node) in Edges()))
    }

    method Dfs(node: Node, parent: nat)
      requires MayVisit(node, parent)
      modifies this
      ensures Fresh() && Numbering().Ok(Edges(), nodeSet) && Grew(old(Numbering()), Numbering())
      ensures node in nodeSet ==> node in number
      ensures node !in nodeSet || node in old(number) ==> Numbering() == old(Numbering())
      ensures node in nodeSet && node !in old(number) ==> number[node] == |old(vertex)|
      ensures forall i :: |old(vertex)| <= i < |vertex| ==> Numbering().Closed(Edges(), i)
      ensures parent != 0 ==> Numbering().AllBelow(parent)
      ensures true == NewTallied(graph, old(Numbering()), Numbering())
      decreases nodeSet - number.Keys, 1
    {
      if node in number || node !in nodeSet {
        ApartRefl(Numbering(), 0);
        return;
      }

      ghost var e := Edges();
      ghost var start := Numbering();
      PushedOk(e, nodeSet, start, node, parent);
      var nodeIdx := PushVertex(node, parent);
      ghost var pushed := Numbering();

      var succs := graph.Successors(node);
      VisitStart(e, nodeSet, start, node, parent, succs);
      VisitTallied(graph, e, nodeSet, start, node, parent, succs);
      VisitSuccessors(nodeIdx, succs);
      ApartTrans(start, pushed, Numbering(), nodeIdx);
      VisitTallies(graph, start, Numbering(), node, succs);
      VisitEnd(e, nodeSet, Numbering(), nodeIdx, succs);
      GrewTrans(start, pushed, Numbering());
      if parent != 0 {
        VisitBelow(e, nodeSet, start, Numbering(), node, parent);
      }
    }

    /** The successor loop of `Dfs`. */
    method VisitSuccessors(nodeIdx: nat, succs: seq<Node>)
      requires Fresh() && Visiting(Edges(), nodeSet, Numbering(), nodeIdx, succs, 0)
      requires succs == graph.Successors(Numbering().NodeAt(nodeIdx))
      requires true == LoopTallied(graph, Numbering(), nodeIdx, succs, 0)
      modifies this
      ensures Fresh() && Visiting(Edges(), nodeSet, Numbering(), nodeIdx, succs, |succs|)
      ensures Grew(old(Numbering()), Numbering())
      ensures true == LoopTallied(graph, Numbering(), nodeIdx, succs, |succs|)
      ensures true == Apart(old(Numbering()), Numbering(), nodeIdx)
      decreases nodeSet - number.Keys, 3
    {
      ghost var start := Numbering();
      ApartRefl(start, nodeIdx);
      for s := 0 to |succs|
        invariant true == Fresh() && true == Visiting(Edges(), nodeSet, Numbering(), nodeIdx, succs, s)
        invariant Grew(start, Numbering())
        invariant true == LoopTallied(graph, Numbering(), nodeIdx, succs, s)
        invariant true == Apart(start, Numbering(), nodeIdx)
      {
        ghost var before := Numbering();
        VisitSuccessor(nodeIdx, succs, succs[s], s);
        GrewTrans(start, before, Numbering());
        ApartTrans(start, before, Numbering(), nodeIdx);
      }
    }

    /** The body of the successor loop of `Dfs`. */
    method VisitSuccessor(nodeIdx: nat, ghost succs: seq<Node>, succ: Node, ghost s: nat)
      requires s < |succs| && succs[s] == succ
      requires Fresh() && Visiting(Edges(), nodeSet, Numbering(), nodeIdx, succs, s)
      requires (Numbering().NodeAt(nodeIdx), succ) in graph.Edges()
      requires true == LoopTallied(graph, Numbering(), nodeIdx, succs, s)
      modifies this
      ensures Fresh() && Visiting(Edges(), nodeSet, Numbering(), nodeIdx, succs, s + 1)
      ensures Grew(old(Numbering()), Numbering())
      ensures true == LoopTallied(graph, Numbering(), nodeIdx, succs, s + 1)
      ensures true == Apart(old(Numbering()), Numbering(), nodeIdx)
      decreases nodeSet - number.Keys, 2
    {
      ghost var e := Edges();
      ghost var before := Numbering();
      ApartRefl(before, nodeIdx);
      if succ !in nodeSet {
        SkipTallied(graph, before, nodeIdx, succs, s);
        return;
      }
      if succ !in number {
        Dfs(succ, nodeIdx);
        VisitGrew(e, nodeSet, before, Numbering(), nodeIdx, succs, s);
        ChildTallied(graph, nodeSet, before, Numbering(), nodeIdx, succs, s);
      }
      ghost var middle := Numbering();
      if succ in number {
        var succIdx := number[succ];
        VisitRecorded(e, nodeSet, middle, nodeIdx, succs, s);
        RecordTallied(graph, nodeSet, middle, nodeIdx, succs, s);
        ApartTrans(before, middle, Recorded(middle, nodeIdx, succIdx), nodeIdx);
        pred := pred[succIdx := pred[succIdx] + [nodeIdx]];
        assert Numbering() == Recorded(middle, nodeIdx, succIdx);
        GrewTrans(before, middle, Numbering());
      }
    }

    method Link(parent: nat, child: nat)
      requires child < |ancestor|
      modifies this`ancestor
      ensures ancestor == old(ancestor)[child := parent]
    {
      ancestor := ancestor[child := parent];
    }

    /** Shortcuts `v`'s pointer to its forest root; the forest it stands for is unchanged. */
    method Compress(v: nat, ghost top: nat)
      requires Forest(parent, semi, ancestor, labels, top) && 1 <= v < |parent|
      modifies this`ancestor, this`labels
      ensures Forest(parent, semi, ancestor, labels, top)
      ensures v > top ==> IsForestRoot(parent, top, ancestor[v], v)
      ensures forall x :: v < x < |parent| ==> ancestor[x] == old(ancestor[x]) && labels[x] == old(labels[x])
      decreases v
    {
      var a := ancestor[v];
      if a != 0 {
        assert Pointer(parent, semi, top, v, a, labels[v]);
        var aa := ancestor[a];
        if aa != 0 {
          Compress(a, top);
          ghost var l := labels[v];
          PointerCompose(parent, semi, top, v, a, l, ancestor[a], labels[a]);
          if semi[labels[a]] < semi[labels[v]] {
            labels := labels[v := labels[a]];
          }
          ancestor := ancestor[v := ancestor[a]];
        }
      }
    }

    /** A vertex of least `semi` on the tree path from `v` up to and including its forest root `r`. */
    method Eval(v: nat, ghost top: nat) returns (u: nat, ghost r: nat)
      requires Forest(parent, semi, ancestor, labels, top) && 1 <= v < |parent|
      modifies this`ancestor, this`labels
      ensures Forest(parent, semi, ancestor, labels, top)
      ensures IsEval(parent, semi, top, v, r, u)
    {
      if ancestor[v] == 0 {
        return labels[v], v;
      }

      Compress(v, top);
      var a := ancestor[v];
      r := a;
      assert Pointer(parent, semi, top, v, a, labels[v]);
      if a != 0 && semi[labels[a]] < semi[labels[v]] {
        PointerFold(parent, semi, top, v, a, labels[v]);
        labels := labels[v := labels[a]];
      }
      return labels[v], r;
    }

    /** One predecessor `v` of `w`. */
    method Consider(v: nat, w: nat)
      requires 2 <= w < |parent| && DfsTree(IndexEdges(pred), parent) && (v, w) in IndexEdges(pred)
      requires Forest(parent, semi, ancestor, labels, w) && SemiOpen(IndexEdges(pred), semi, w)
      modifies this`semi, this`ancestor, this`labels
      ensures Forest(parent, semi, ancestor, labels, w) && SemiOpen(IndexEdges(pred), semi, w)
      ensures semi[w] <= old(semi[w]) && semi == old(semi)[w := semi[w]]
      ensures Bound(parent, semi, w, v)
    {
      var u; ghost var r;
      u, r := Eval(v, w);
      ghost var before := semi;
      if semi[u] < semi[w] {
        EvalIsCandidate(IndexEdges(pred), parent, semi, w, v, r, u);
        ForestSemiLower(parent, semi, ancestor, labels, w, semi[u]);
        semi := semi[w := semi[u]];
      }
      EvalBound(parent, before, w, v, r, u, semi[w]);
      assert semi == before[w := semi[w]];
    }

    /** The first half of a main-loop round: the semidominator of `w` from its predecessors. */
    method ComputeSemi(w: nat)
      requires 2 <= w < |parent| && |pred| == |parent|
      requires DfsTree(IndexEdges(pred), parent)
      requires Forest(parent, semi, ancestor, labels, w) && SemiOk(IndexEdges(pred), semi, w)
      modifies this`semi, this`ancestor, this`labels
      ensures Forest(parent, semi, ancestor, labels, w) && SemiOk(IndexEdges(pred), semi, w - 1)
      ensures |semi| == |old(semi)| && forall x :: 0 <= x < |semi| && x != w ==> semi[x] == old(semi[x])
    {
      ghost var start := semi;
      var preds := pred[w];
      // `true ==` keeps the forest folded: the loop only hands it on.
      for i := 0 to |preds|
        invariant true == Forest(parent, semi, ancestor, labels, w)
        invariant SemiOpen(IndexEdges(pred), semi, w)
        invariant |semi| == |start| && semi == start[w := semi[w]]
        invariant forall j :: 0 <= j < i ==> Bound(parent, semi, w, preds[j])
      {
        assert (preds[i], w) in IndexEdges(pred);
        Consider(preds[i], w);
      }
      forall v | (v, w) in IndexEdges(pred)
        ensures Bound(parent, semi, w, v)
      {
        assert v in preds;
      }
      SemiExact(IndexEdges(pred), parent, semi, w);
    }

    /** One vertex `v` of the bucket of `w`'s parent. */
    method SettleVertex(v: nat, w: nat)
      requires 2 <= w <= v < |parent| && |idom| == |parent|
      requires Preorder(parent) && Forest(parent, semi, ancestor, labels, w - 1)
      requires forall x :: 0 <= x < w ==> semi[x] == x
      requires semi[v] == parent[w] && Anc(parent, parent[w], v)
      modifies this`idom, this`ancestor, this`labels
      ensures Forest(parent, semi, ancestor, labels, w - 1)
      ensures |idom| == |old(idom)| && Settled(parent, semi, idom[v], v, w - 1)
      ensures forall x :: 0 <= x < |idom| && x != v ==> idom[x] == old(idom[x])
    {
      var u; ghost var r;
      u, r := Eval(v, w - 1);
      EvalSettles(parent, semi, w, v, r, u);
      if semi[u] < semi[v] {
        idom := idom[v := u];
      } else {
        idom := idom[v := parent[w]];
      }
    }

    /** The bucket loop. */
    method SettleAll(waiting: seq<nat>, w: nat)
      requires 2 <= w < |parent| && |idom| == |parent|
      requires Preorder(parent) && Forest(parent, semi, ancestor, labels, w - 1)
      requires forall x :: 0 <= x < w ==> semi[x] == x
      requires forall v: nat :: v in waiting ==> w <= v < |parent| && semi[v] == parent[w] && Anc(parent, parent[w], v)
      modifies this`idom, this`ancestor, this`labels
      ensures Forest(parent, semi, ancestor, labels, w - 1) && |idom| == |old(idom)|
      ensures forall v: nat :: v in waiting ==> Settled(parent, semi, idom[v], v, w - 1)
      ensures forall v: nat :: v < |idom| && v !in waiting ==> idom[v] == old(idom[v])
    {
      for i := 0 to |waiting|
        invariant Forest(parent, semi, ancestor, labels, w - 1) && |idom| == |old(idom)|
        invariant forall v: nat :: v in waiting[..i] ==> v in waiting && Settled(parent, semi, idom[v], v, w - 1)
        invariant forall v: nat :: v < |idom| && v !in waiting ==> idom[v] == old(idom[v])
      {
        assert waiting[i] in waiting;
        SettleVertex(waiting[i], w);
        assert waiting[..i + 1] == waiting[..i] + [waiting[i]];
      }
      assert waiting[..|waiting|] == waiting;
    }

    /** The second half: after linking `w`, decide every vertex waiting in the bucket of its parent. */
    method EmptyBucket(w: nat)
      requires 2 <= w < |parent| && |pred| == |parent|
      requires DfsTree(IndexEdges(pred), parent)
      requires Forest(parent, semi, ancestor, labels, w - 1) && SemiOk(IndexEdges(pred), semi, w - 1)
      requires AlmostSettled(parent, semi, bucket, idom, w)
      modifies this`bucket, this`idom, this`ancestor, this`labels
      ensures Forest(parent, semi, ancestor, labels, w - 1)
      ensures BucketsOk(parent, semi, bucket, idom, w - 1)
    {
      var p := parent[w];
      var waiting := bucket[p];
      ghost var was, start := bucket, idom;
      WaitingBelow(IndexEdges(pred), parent, semi, bucket, idom, w);
      bucket := bucket[p := []];
      SettleAll(waiting, w);
      BucketEmptied(parent, semi, was, start, idom, w);
    }

    /** One round of the main loop. */
    method Round(w: nat)
      requires 2 <= w < |parent| && |pred| == |parent| && DfsTree(IndexEdges(pred), parent)
      requires Forest(parent, semi, ancestor, labels, w) && SemiOk(IndexEdges(pred), semi, w)
      requires BucketsOk(parent, semi, bucket, idom, w)
      modifies this`semi, this`idom, this`ancestor, this`labels, this`bucket
      ensures Forest(parent, semi, ancestor, labels, w - 1) && SemiOk(IndexEdges(pred), semi, w - 1)
      ensures BucketsOk(parent, semi, bucket, idom, w - 1)
    {
      ghost var before := semi;
      ComputeSemi(w);
      SemiAtMostParent(IndexEdges(pred), parent, semi[w], w);

      var semiW := semi[w];
      BucketPushed(parent, before, semi, bucket, idom, w);
      bucket := bucket[semiW := bucket[semiW] + [w]];

      var p := parent[w];
      ForestLinked(parent, semi, ancestor, labels, w);
      Link(p, w);

      EmptyBucket(w);
    }

    /** The reverse main loop. */
    method MainLoop()
      requires Fresh() && |parent| == |pred| == |vertex| && DfsTree(IndexEdges(pred), parent)
      modifies this`semi, this`idom, this`ancestor, this`labels, this`bucket
      ensures |semi| == |idom| == |parent| && SemiOk(IndexEdges(pred), semi, 1)
      ensures forall v :: 2 <= v < |parent| ==> RelativeDominator(parent, semi, idom[v], v)
    {
      var n := |vertex| - 1;
      for w := n + 1 downto 2
        invariant Forest(parent, semi, ancestor, labels, w - 1) && SemiOk(IndexEdges(pred), semi, w - 1)
        invariant BucketsOk(parent, semi, bucket, idom, w - 1)
      {
        Round(w);
      }
      AllSettled(IndexEdges(pred), parent, semi, bucket, idom);
    }

    /** One entry of the final pass. */
    method FixUpEntry(w: nat)
      requires |semi| == |idom| == |parent| && 2 <= w < |parent| && DfsTree(IndexEdges(pred), parent)
      requires IsSemi(IndexEdges(pred), semi[w], w) && RelativeDominator(parent, semi, idom[w], w)
      requires forall v :: 2 <= v < w ==> IsTreeIdom(parent, semi, idom[v], v)
      modifies this`idom
      ensures |idom| == |old(idom)| && idom == old(idom)[w := idom[w]] && IsTreeIdom(parent, semi, idom[w], w)
    {
      FixUpStep(IndexEdges(pred), parent, semi, idom, w);
      if idom[w] != semi[w] {
        idom := idom[w := idom[idom[w]]];
      }
    }

    /** The final pass: entries that name a vertex with the same strict dominators take over its answer. */
    method FixUp()
      requires |semi| == |idom| == |parent| == |pred| == |vertex| && DfsTree(IndexEdges(pred), parent)
      requires SemiOk(IndexEdges(pred), semi, 1)
      requires forall v :: 2 <= v < |parent| ==> RelativeDominator(parent, semi, idom[v], v)
      modifies this`idom
      ensures |idom| == |parent|
      ensures forall v :: 2 <= v < |parent| ==>
                       1 <= idom[v] < v && IsImmediateDominator(IndexEdges(pred), 1, idom[v], v)
    {
      ghost var e := IndexEdges(pred);
      ghost var start := idom;
      var n := |vertex| - 1;
      for w := 2 to n + 1
        invariant |idom| == |parent|
        invariant forall v :: 2 <= v < w ==> IsTreeIdom(parent, semi, idom[v], v)
        invariant forall v :: w <= v < |parent| ==> idom[v] == start[v]
      {
        FixUpEntry(w);
      }
      forall v | 2 <= v < |parent|
        ensures IsImmediateDominator(e, 1, idom[v], v)
      {
        TreeIdomIsImmediate(e, parent, semi, idom[v], v);
      }
    }
  }
}
