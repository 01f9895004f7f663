/** What makes a search with a stack depth-first: its visits number the nodes in preorder of a spanning tree. */
module DepthFirstOrder {
  import opened Walks
  import opened PreorderTree
  import opened Semidominators

  /**
   * The nodes visited so far, numbered from 1 in order of visit, with each one's parent in the tree; and the stack:
   * the target of each entry and the number of the node whose visit pushed it.
   */
  datatype Trace = Trace(order: seq<Node>, par: seq<nat>, targets: seq<Node>, source: seq<nat>)
  {
    /** An edge from the node numbered `v` to `w`. */
    ghost predicate Leads(rel: Rel, v: nat, w: Node) {
      1 <= v <= |order| && (order[v - 1], w) in rel
    }

    /** An edge between two visited nodes, by their numbers. */
    ghost predicate Hop(rel: Rel, v: nat, w: nat) {
      1 <= w <= |order| && Leads(rel, v, order[w - 1])
    }

    ghost predicate TreeHop(rel: Rel, w: nat)
      requires w < |par|
    {
      Hop(rel, par[w], w)
    }

    /** The visited nodes form a preorder tree along edges, and an edge to a later node comes from an ancestor. */
    ghost predicate TreeOk(rel: Rel) {
      && |par| == |order| + 1 && Preorder(par)
      && (forall i, j :: 0 <= i < j < |order| ==> order[i] != order[j])
      && (forall w: nat :: 2 <= w < |par| ==> TreeHop(rel, w))
      && (forall v: nat, w: nat :: v < w && Hop(rel, v, w) ==> Anc(par, v, w))
    }

    /** From the bottom of the stack to the top the sources go down one path of the tree, to the last visited node. */
    ghost predicate StackOk(rel: Rel, root: Node) {
      && |targets| == |source|
      && if order == [] then targets == [root]
         else
           && (forall i: nat :: i < |source| ==> EntryOk(rel, i))
           && (forall i, j :: 0 <= i <= j < |source| ==> Anc(par, source[i], source[j]))
    }

    /** Entry `i` leads along an edge from its source, and its source is on the path to the last visited node. */
    ghost predicate EntryOk(rel: Rel, i: nat)
      requires i < |source| == |targets|
    {
      Leads(rel, source[i], targets[i]) && Anc(par, source[i], |order|)
    }

    /** Entry `i` leads from the node numbered `v` to `w`. */
    ghost predicate Pending(v: nat, w: Node, i: nat) {
      i < |source| && i < |targets| && source[i] == v && targets[i] == w
    }

    /** An unvisited successor of a visited node is on the stack, pushed by that node. */
    ghost predicate NothingLost(rel: Rel) {
      forall v: nat, w :: Leads(rel, v, w) && w !in order ==> exists i: nat :: Pending(v, w, i)
    }

    ghost predicate Ok(rel: Rel, root: Node) {
      TreeOk(rel) && StackOk(rel, root) && NothingLost(rel)
    }

    /** Without the top entry. */
    ghost function Popped(): Trace
      requires |targets| == |source| > 0
    {
      Trace(order, par, targets[..|targets| - 1], source[..|source| - 1])
    }

    /** The top entry's target visited, with `pushed` on the stack in its place. */
    ghost function Visited(pushed: seq<Node>): Trace
      requires |targets| == |source| > 0
    {
      var top := |targets| - 1;
      Trace(order + [targets[top]], par + [source[top]],
            targets[..top] + pushed, source[..top] + seq(|pushed|, i => |order| + 1))
    }
  }

  lemma PoppedLosesNothing(rel: Rel, s: Trace)
    requires s.NothingLost(rel) && |s.targets| == |s.source| > 0 && s.targets[|s.targets| - 1] in s.order
    ensures s.Popped().NothingLost(rel)
  {
    forall v: nat, w | s.Popped().Leads(rel, v, w) && w !in s.order
      ensures exists i: nat :: s.Popped().Pending(v, w, i)
    {
      assert s.Leads(rel, v, w);
      var i: nat :| s.Pending(v, w, i);
      assert s.Popped().Pending(v, w, i);
    }
  }

  lemma PoppedStack(rel: Rel, root: Node, s: Trace)
    requires s.StackOk(rel, root) && s.order != [] && |s.targets| > 0
    ensures s.Popped().StackOk(rel, root)
  {
    forall i: nat | i < |s.source| - 1
      ensures s.Popped().EntryOk(rel, i)
    {
      assert s.EntryOk(rel, i);
    }
  }

  /** Dropping an entry whose target has been visited keeps the search depth-first. */
  lemma PoppedOk(rel: Rel, root: Node, s: Trace)
    requires s.Ok(rel, root) && |s.targets| > 0 && s.targets[|s.targets| - 1] in s.order
    ensures s.Popped().Ok(rel, root)
  {
    PoppedLosesNothing(rel, s);
    PoppedStack(rel, root, s);
    SameTree(rel, s, s.Popped());
  }

  lemma SameTree(rel: Rel, s: Trace, b: Trace)
    requires s.TreeOk(rel) && b.order == s.order && b.par == s.par
    ensures b.TreeOk(rel)
  {
    forall v: nat, w: nat
      ensures b.Hop(rel, v, w) <==> s.Hop(rel, v, w)
    {
    }
    forall w: nat | 2 <= w < |b.par|
      ensures b.TreeHop(rel, w)
    {
      assert s.TreeHop(rel, w);
    }
  }

  /** A visited node with an edge to the new one is an ancestor of the new one's source. */
  lemma VisitedEdge(rel: Rel, root: Node, s: Trace, v: nat)
    requires s.StackOk(rel, root) && s.NothingLost(rel) && |s.par| == |s.order| + 1
    requires |s.targets| > 0 && s.targets[|s.targets| - 1] !in s.order && s.Leads(rel, v, s.targets[|s.targets| - 1])
    ensures Anc(s.par + [s.source[|s.source| - 1]], v, |s.order| + 1)
  {
    var top := |s.source| - 1;
    var i: nat :| s.Pending(v, s.targets[top], i);
    assert Anc(s.par, s.source[i], s.source[top]);
    assert s.EntryOk(rel, top);
    AncExtend(s.par, s.source[top], v, s.source[top]);
    AncBelow(s.par, v, s.source[top]);
  }

  lemma VisitedPreorder(rel: Rel, root: Node, s: Trace)
    requires s.StackOk(rel, root) && |s.par| == |s.order| + 1 && |s.targets| > 0 && Preorder(s.par)
    ensures Preorder(s.par + [s.source[|s.source| - 1]])
  {
    var top := |s.source| - 1;
    assert s.order != [] ==> s.EntryOk(rel, top);
    PreorderGrows(s.par, s.source[top]);
  }

  /** Edges between visited nodes are what they were. */
  lemma VisitedHop(rel: Rel, s: Trace, pushed: seq<Node>, v: nat, w: nat)
    requires |s.targets| == |s.source| > 0 && v <= |s.order|
    ensures w <= |s.order| ==> (s.Visited(pushed).Hop(rel, v, w) <==> s.Hop(rel, v, w))
    ensures w == |s.order| + 1 ==>
              (s.Visited(pushed).Hop(rel, v, w) <==> s.Leads(rel, v, s.targets[|s.targets| - 1]))
  {
  }

  lemma VisitedForward(rel: Rel, root: Node, s: Trace, pushed: seq<Node>, v: nat, w: nat)
    requires s.Ok(rel, root) && |s.targets| > 0 && s.targets[|s.targets| - 1] !in s.order
    requires v < w && s.Visited(pushed).Hop(rel, v, w)
    ensures Anc(s.Visited(pushed).par, v, w)
  {
    VisitedHop(rel, s, pushed, v, w);
    if w <= |s.order| {
      assert s.Hop(rel, v, w);
      AncExtend(s.par, s.source[|s.source| - 1], v, w);
    } else {
      VisitedEdge(rel, root, s, v);
    }
  }

  lemma VisitedParent(rel: Rel, root: Node, s: Trace, pushed: seq<Node>, w: nat)
    requires s.Ok(rel, root) && |s.targets| > 0 && 2 <= w <= |s.order| + 1
    ensures s.Visited(pushed).TreeHop(rel, w)
  {
    var p := s.Visited(pushed).par[w];
    if w <= |s.order| {
      assert s.TreeHop(rel, w);
    } else {
      assert s.EntryOk(rel, |s.targets| - 1);
    }
    VisitedHop(rel, s, pushed, p, w);
  }

  /** The new node hangs below the source of its entry. */
  lemma VisitedTree(rel: Rel, root: Node, s: Trace, pushed: seq<Node>)
    requires s.Ok(rel, root) && |s.targets| > 0 && s.targets[|s.targets| - 1] !in s.order
    ensures true == s.Visited(pushed).TreeOk(rel)
  {
    var b := s.Visited(pushed);
    VisitedPreorder(rel, root, s);
    forall w: nat | 2 <= w < |b.par|
      ensures b.TreeHop(rel, w)
    {
      VisitedParent(rel, root, s, pushed, w);
    }
    forall v: nat, w: nat | v < w && b.Hop(rel, v, w)
      ensures Anc(b.par, v, w)
    {
      VisitedForward(rel, root, s, pushed, v, w);
    }
  }

  /** The entries that stay lead where they led, from sources on the path to the new node. */
  lemma VisitedSource(rel: Rel, root: Node, s: Trace, pushed: seq<Node>, i: nat)
    requires s.StackOk(rel, root) && |s.par| == |s.order| + 1 && s.order != [] && i < |s.targets| - 1
    ensures s.Visited(pushed).Leads(rel, s.source[i], s.targets[i])
    ensures Anc(s.Visited(pushed).par, s.source[i], |s.order| + 1)
  {
    var p := s.source[|s.source| - 1];
    assert s.EntryOk(rel, i) && s.EntryOk(rel, |s.targets| - 1);
    AncExtend(s.par, p, s.source[i], p);
    AncBelow(s.par, s.source[i], p);
  }

  lemma VisitedStack(rel: Rel, root: Node, s: Trace, pushed: seq<Node>)
    requires s.StackOk(rel, root) && |s.par| == |s.order| + 1 && |s.targets| > 0
    requires forall w :: w in pushed ==> (s.targets[|s.targets| - 1], w) in rel
    ensures s.Visited(pushed).StackOk(rel, root)
  {
    var top := |s.targets| - 1;
    var p, n := s.source[top], |s.order| + 1;
    var b := s.Visited(pushed);
    forall i: nat | i < |b.source|
      ensures b.EntryOk(rel, i)
    {
      if i < top {
        VisitedSource(rel, root, s, pushed, i);
      } else {
        assert b.targets[i] in pushed;
      }
    }
    forall i, j | 0 <= i <= j < |b.source|
      ensures Anc(b.par, b.source[i], b.source[j])
    {
      if j < top {
        assert s.EntryOk(rel, j);
        AncExtend(s.par, p, s.source[i], s.source[j]);
      } else {
        assert b.EntryOk(rel, i);
      }
    }
  }

  lemma VisitedLosesNothing(rel: Rel, s: Trace, pushed: seq<Node>)
    requires s.NothingLost(rel) && |s.targets| == |s.source| > 0
    requires forall w :: (s.targets[|s.targets| - 1], w) in rel ==> w in s.Visited(pushed).order || w in pushed
    ensures s.Visited(pushed).NothingLost(rel)
  {
    var top := |s.targets| - 1;
    var b := s.Visited(pushed);
    forall v: nat, w | b.Leads(rel, v, w) && w !in b.order
      ensures exists i: nat :: b.Pending(v, w, i)
    {
      if v <= |s.order| {
        StillPending(rel, s, pushed, v, w);
      } else {
        var j :| 0 <= j < |pushed| && pushed[j] == w;
        assert b.Pending(v, w, top + j);
      }
    }
  }

  lemma StillPending(rel: Rel, s: Trace, pushed: seq<Node>, v: nat, w: Node)
    requires s.NothingLost(rel) && |s.targets| == |s.source| > 0
    requires v <= |s.order| && s.Visited(pushed).Leads(rel, v, w) && w !in s.Visited(pushed).order
    ensures exists i: nat :: s.Visited(pushed).Pending(v, w, i)
  {
    assert s.Leads(rel, v, w);
    assert w !in s.order && w != s.targets[|s.targets| - 1];
    var i: nat :| s.Pending(v, w, i);
    assert s.Visited(pushed).Pending(v, w, i);
  }

  /** Visiting the top entry's target keeps the search depth-first. */
  lemma VisitedOk(rel: Rel, root: Node, s: Trace, pushed: seq<Node>)
    requires s.Ok(rel, root) && |s.targets| > 0 && s.targets[|s.targets| - 1] !in s.order
    requires forall w :: w in pushed ==> (s.targets[|s.targets| - 1], w) in rel
    requires forall w :: (s.targets[|s.targets| - 1], w) in rel ==> w in s.Visited(pushed).order || w in pushed
    ensures s.Visited(pushed).Ok(rel, root)
  {
    VisitedTree(rel, root, s, pushed);
    VisitedStack(rel, root, s, pushed);
    VisitedLosesNothing(rel, s, pushed);
  }

  /** The edges between the nodes of a list, in terms of their numbers. */
  ghost function Numbered(rel: Rel, order: seq<Node>): (e: Rel)
    ensures forall v: nat, w: nat {:trigger (v, w) in e} :: (v, w) in e <==>
              1 <= v <= |order| && 1 <= w <= |order| && (order[v - 1], order[w - 1]) in rel
  {
    var s := Trace(order, [], [], []);
    set v, w | 0 <= v <= |order| && 0 <= w <= |order| && s.Hop(rel, v, w) :: (v, w)
  }

  /** What has been visited is a depth-first spanning tree of the edges between the visited nodes. */
  lemma VisitsAreDfsTree(rel: Rel, s: Trace)
    requires s.TreeOk(rel) && s.order != []
    ensures DfsTree(Numbered(rel, s.order), s.par)
  {
    var e := Numbered(rel, s.order);
    forall v: nat, w: nat
      ensures (v, w) in e <==> s.Hop(rel, v, w)
    {
    }
    forall w: nat | 2 <= w < |s.par|
      ensures TreeEdge(e, s.par, w)
    {
      assert s.TreeHop(rel, w);
    }
  }
}
