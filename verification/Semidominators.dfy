/**
 * The graph theory behind the Lengauer-Tarjan algorithm, over preorder vertex numbers:
 * semidominators, and dominance read off the depth-first tree.
 */
module Semidominators {
  import opened Walks
  import opened PreorderTree

  /** `par` is a depth-first spanning tree of the graph `e` on the vertices 1..n. */
  ghost predicate DfsTree(e: Rel, par: seq<nat>) {
    && |par| >= 2
    && Preorder(par)
    && (forall v, w :: (v, w) in e ==> 1 <= v < |par| && 1 <= w < |par|)
    && (forall v, w :: (v, w) in e && v < w ==> Anc(par, v, w))
    && (forall w: nat :: 2 <= w < |par| ==> TreeEdge(e, par, w))
  }

  ghost predicate TreeEdge(e: Rel, par: seq<nat>, w: nat)
    requires w < |par|
  {
    (par[w], w) in e
  }

  /** A walk of at least one edge into `w` whose interior vertices are all numbered above `w`. */
  ghost predicate SemiWalk(e: Rel, p: seq<Node>, v: Node, w: Node) {
    && |p| >= 2
    && WalkFromTo(e, p, v, w)
    && forall i :: 0 < i < |p| - 1 ==> p[i] > w
  }

  ghost predicate SemiReaches(e: Rel, v: Node, w: Node) {
    exists p :: SemiWalk(e, p, v, w)
  }

  /** `s` is the semidominator of `w`: the least vertex with a semidominator walk to `w`. */
  ghost predicate IsSemi(e: Rel, s: Node, w: Node) {
    && SemiReaches(e, s, w)
    && forall v :: SemiReaches(e, v, w) ==> s <= v
  }

  /** Position of the first occurrence of the least element. */
  lemma {:induction false} FirstMinimum(q: seq<nat>) returns (i: nat)
    requires |q| > 0
    ensures i < |q|
    ensures forall j :: 0 <= j < |q| ==> q[i] <= q[j]
    ensures forall j :: 0 <= j < i ==> q[i] < q[j]
  {
    if |q| == 1 {
      i := 0;
    } else {
      var last := |q| - 1;
      i := FirstMinimum(q[..last]);
      forall j | 0 <= j < last
        ensures q[i] <= q[j] && (j < i ==> q[i] < q[j])
      {
        assert q[j] == q[..last][j];
      }
      if q[last] < q[i] {
        i := last;
      }
    }
  }

  /** A walk that never goes below its start stays inside the start's subtree. */
  lemma {:induction false} WalkStaysInSubtree(e: Rel, par: seq<nat>, p: seq<Node>)
    requires DfsTree(e, par) && Walk(e, p)
    requires forall i :: 0 <= i < |p| ==> p[0] <= p[i]
    ensures Anc(par, p[0], p[|p| - 1])
    decreases |p|
  {
    if |p| > 1 {
      var q := p[..|p| - 1];
      WalkStaysInSubtree(e, par, q);
      var x, y := p[|p| - 2], p[|p| - 1];
      assert q[|q| - 1] == x && q[0] == p[0];
      assert (x, y) in e;
      assert (p[0], p[1]) in e;
      if x < y {
        AncTrans(par, p[0], x, y);
      } else {
        AncContiguous(par, p[0], y, x);
      }
    }
  }

  /** The tree path between two vertices is a walk of the graph through tree ancestors only. */
  lemma {:induction false} TreeWalk(e: Rel, par: seq<nat>, u: Node, x: Node) returns (p: seq<Node>)
    requires DfsTree(e, par) && Anc(par, u, x) && 1 <= u
    ensures WalkFromTo(e, p, u, x)
    ensures forall y :: y in p ==> u <= y && Anc(par, y, x)
    decreases x
  {
    if u == x {
      p := [u];
    } else {
      assert Hangs(par, x) && TreeEdge(e, par, x);
      var q := TreeWalk(e, par, u, par[x]);
      Extend(e, q, u, par[x], x);
      p := q + [x];
    }
  }

  lemma SemiOfEdge(e: Rel, v: Node, w: Node)
    requires (v, w) in e
    ensures SemiReaches(e, v, w)
  {
    assert SemiWalk(e, [v, w], v, w);
  }

  /** The semidominator is a tree ancestor. */
  lemma SemiIsAncestor(e: Rel, par: seq<nat>, s: Node, w: Node)
    requires DfsTree(e, par) && SemiReaches(e, s, w) && s < w
    ensures 1 <= s && Anc(par, s, w)
  {
    var p :| SemiWalk(e, p, s, w);
    assert (p[0], p[1]) in e;
    WalkStaysInSubtree(e, par, p);
  }

  lemma SemiAtMostParent(e: Rel, par: seq<nat>, s: Node, w: Node)
    requires DfsTree(e, par) && IsSemi(e, s, w) && 2 <= w < |par|
    ensures 1 <= s <= par[w] < w && Anc(par, s, w)
  {
    assert Hangs(par, w) && TreeEdge(e, par, w);
    SemiOfEdge(e, par[w], w);
    SemiIsAncestor(e, par, s, w);
  }

  /** A semidominator walk to `u` continues down the tree and over an edge to any smaller `w`. */
  lemma SemiThroughSubtree(e: Rel, par: seq<nat>, s: Node, u: Node, v: Node, w: Node)
    requires DfsTree(e, par)
    requires SemiReaches(e, s, u) && w < u && Anc(par, u, v) && (v, w) in e
    ensures SemiReaches(e, s, w)
  {
    var p :| SemiWalk(e, p, s, u);
    var t := TreeWalk(e, par, u, v);
    var q := Join(e, p, t, s, u, v);
    Extend(e, q, s, v, w);
    var r := q + [w];
    forall i | 0 < i < |r| - 1
      ensures r[i] > w
    {
      if i < |p| {
        assert r[i] == p[i];
      } else {
        assert r[i] == t[i - |p| + 1] && t[i - |p| + 1] in t;
      }
    }
    assert SemiWalk(e, r, s, w);
  }

  /** Up to its first least interior vertex a semidominator walk is a semidominator walk. */
  lemma SemiHead(e: Rel, p: seq<Node>, x: Node, w: Node, m: nat)
    requires SemiWalk(e, p, x, w) && 0 < m < |p| - 1
    requires forall k :: 0 < k < m ==> p[m] < p[k]
    ensures SemiReaches(e, x, p[m])
  {
    SubWalk(e, p, 0, m + 1);
    assert SemiWalk(e, p[0..m + 1], x, p[m]);
  }

  /** From its first least interior vertex on, up to the end, it stays in that vertex's subtree. */
  lemma SemiTail(e: Rel, par: seq<nat>, p: seq<Node>, m: nat)
    requires DfsTree(e, par) && Walk(e, p) && m < |p| - 1
    requires forall k :: m <= k < |p| - 1 ==> p[m] <= p[k]
    ensures Anc(par, p[m], p[|p| - 2])
  {
    var tail := p[m..|p| - 1];
    SubWalk(e, p, m, |p| - 1);
    forall k | 0 <= k < |tail|
      ensures tail[0] <= tail[k]
    {
      assert tail[k] == p[m + k];
    }
    WalkStaysInSubtree(e, par, tail);
  }

  lemma LeastInterior(p: seq<nat>) returns (m: nat)
    requires |p| > 2
    ensures 0 < m < |p| - 1
    ensures forall k :: 0 < k < m ==> p[m] < p[k]
    ensures forall k :: m <= k < |p| - 1 ==> p[m] <= p[k]
  {
    var q := p[1..|p| - 1];
    var i := FirstMinimum(q);
    m := i + 1;
    forall k | 0 < k < |p| - 1
      ensures p[m] <= p[k] && (k < m ==> p[m] < p[k])
    {
      assert p[k] == q[k - 1] && p[m] == q[i];
    }
  }

  /**
   * Every semidominator walk to `w` is a single edge, or passes a vertex `u` above `w` that it
   * reaches by a shorter semidominator walk and whose subtree holds the last vertex before `w`.
   */
  lemma SemiSplit(e: Rel, par: seq<nat>, x: Node, w: Node) returns (u: Node, v: Node)
    requires DfsTree(e, par) && SemiReaches(e, x, w)
    ensures (v, w) in e
    ensures v != x ==> w < u && SemiReaches(e, x, u) && Anc(par, u, v)
  {
    var p :| SemiWalk(e, p, x, w);
    u, v := w, p[|p| - 2];
    assert (p[|p| - 2], p[|p| - 1]) in e;
    if |p| > 2 {
      var m := LeastInterior(p);
      u := p[m];
      SemiHead(e, p, x, w, m);
      SemiTail(e, par, p, m);
    }
  }

  /** The last position below `a` and the first position of the least element after it. */
  lemma {:induction false} LastDip(p: seq<nat>, a: nat) returns (k: nat, m: nat)
    requires |p| > 0 && p[0] < a <= p[|p| - 1]
    ensures k < m < |p| && p[k] < a <= p[m]
    ensures forall j :: k < j < m ==> p[j] > p[m]
    ensures forall j :: m <= j < |p| ==> p[j] >= p[m]
  {
    k := LastBelow(p, a);
    var q := p[k + 1..];
    var i := FirstMinimum(q);
    m := k + 1 + i;
    assert p[m] == q[i];
    forall j | k < j < |p|
      ensures p[j] >= p[m] && (j < m ==> p[j] > p[m])
    {
      assert p[j] == q[j - k - 1];
    }
  }

  /**
   * A walk that starts below `a`, ends at or above `a` and misses `a` splits at its last dip: a semidominator
   * walk from a vertex below `a` to a vertex `y` above `a`, then a walk `t` that never goes below `y`.
   */
  lemma SplitAtDip(e: Rel, p: seq<Node>, a: Node) returns (x: Node, y: Node, t: seq<Node>)
    requires Walk(e, p) && a !in p && p[0] < a <= p[|p| - 1]
    ensures x < a < y && SemiReaches(e, x, y)
    ensures WalkFromTo(e, t, y, p[|p| - 1])
    ensures forall i :: 0 <= i < |t| ==> t[0] <= t[i]
  {
    var k, m := LastDip(p, a);
    x, y, t := p[k], p[m], p[m..];
    var s := p[k..m + 1];
    SubWalk(e, p, k, m + 1);
    SubWalk(e, p, m, |p|);
    assert t == p[m..|p|];
    assert y in p;
    forall i | 0 < i < |s| - 1
      ensures s[i] > y
    {
      assert s[i] == p[k + i];
    }
    assert SemiWalk(e, s, x, y);
  }

  /**
   * A walk from the root to `w` that misses `a <= w` jumps over it: some stretch of it is a semidominator
   * walk from a vertex above `a` to a vertex `y` below `a` on the tree path to `w`.
   */
  lemma Bypass(e: Rel, par: seq<nat>, p: seq<Node>, a: Node, w: Node) returns (x: Node, y: Node)
    requires DfsTree(e, par)
    requires WalkFromTo(e, p, 1, w) && a !in p && 1 <= a <= w
    ensures x < a < y <= w && Anc(par, y, w) && SemiReaches(e, x, y)
  {
    assert p[0] in p;
    var t;
    x, y, t := SplitAtDip(e, p, a);
    WalkStaysInSubtree(e, par, t);
  }

  lemma {:induction false} LastBelow(p: seq<nat>, a: nat) returns (k: nat)
    requires |p| > 0 && p[0] < a <= p[|p| - 1]
    ensures k < |p| - 1 && p[k] < a
    ensures forall j :: k < j < |p| ==> p[j] >= a
    decreases |p|
  {
    if p[|p| - 2] < a {
      k := |p| - 2;
    } else {
      k := LastBelow(p[..|p| - 1], a);
      forall j | k < j < |p| - 1
        ensures p[j] >= a
      {
        assert p[j] == p[..|p| - 1][j];
      }
    }
  }

  /** Dominance from tree and semidominators alone. */
  ghost predicate TreeDominates(par: seq<nat>, semi: seq<nat>, a: nat, w: nat)
    requires |semi| == |par|
  {
    && Anc(par, a, w)
    && forall y :: a < y < |par| && Anc(par, y, w) ==> semi[y] >= a
  }

  /**
   * Dominance is decided by semidominators: `a` dominates `w` exactly when `a` is a tree ancestor of `w`
   * and no vertex on the tree path below `a` down to `w` has a semidominator above `a`.
   */
  lemma DominatesIffTree(e: Rel, par: seq<nat>, semi: seq<nat>, a: Node, w: Node)
    requires DfsTree(e, par) && |semi| == |par|
    requires forall x :: 2 <= x < |par| ==> IsSemi(e, semi[x], x)
    requires 1 <= a && 1 <= w < |par|
    ensures Dominates(e, 1, a, w) <==> TreeDominates(par, semi, a, w)
  {
    if Dominates(e, 1, a, w) {
      AncOfRoot(par, w);
      var t := TreeWalk(e, par, 1, w);
      assert a in t;
      forall y | a < y < |par| && Anc(par, y, w)
        ensures semi[y] >= a
      {
        if semi[y] < a {
          NotDominating(e, par, semi[y], y, a, w);
        }
      }
    }
    if TreeDominates(par, semi, a, w) {
      forall p | WalkFromTo(e, p, 1, w)
        ensures a in p
      {
        if a !in p {
          var x, y := Bypass(e, par, p, a, w);
        }
      }
    }
  }

  /** The walk around `a`: down the tree to `s`, over to `y`, down the tree to `w`. */
  lemma NotDominating(e: Rel, par: seq<nat>, s: Node, y: Node, a: Node, w: Node)
    requires DfsTree(e, par) && 1 <= w < |par|
    requires s < a < y && Anc(par, y, w) && SemiReaches(e, s, y)
    ensures !Dominates(e, 1, a, w)
  {
    SemiIsAncestor(e, par, s, y);
    AncOfRoot(par, s);
    var t1 := TreeWalk(e, par, 1, s);
    var p :| SemiWalk(e, p, s, y);
    var t2 := TreeWalk(e, par, y, w);
    var q := Join(e, t1, p, 1, s, y);
    var r := Join(e, q, t2, 1, y, w);
    forall i | 0 <= i < |p|
      ensures p[i] != a
    {
    }
    assert a !in r;
  }
}
