/** Directed graphs as finite relations on node ids, and the walks through them. */
module Walks {

  type Node = nat
  type Rel = set<(Node, Node)>

  /** `p` is a nonempty sequence of nodes, consecutive ones joined by an edge. */
  ghost predicate Walk(e: Rel, p: seq<Node>) {
    && |p| > 0
    && forall i, j {:trigger p[i], p[j]} :: 0 <= i && j == i + 1 && j < |p| ==> (p[i], p[j]) in e
  }

  ghost predicate WalkFromTo(e: Rel, p: seq<Node>, from: Node, to: Node) {
    Walk(e, p) && p[0] == from && p[|p| - 1] == to
  }

  ghost predicate Reaches(e: Rel, from: Node, to: Node) {
    exists p :: WalkFromTo(e, p, from, to)
  }

  /** `d` dominates `w`: every walk from the root to `w` meets `d`. */
  ghost predicate Dominates(e: Rel, root: Node, d: Node, w: Node) {
    forall p :: WalkFromTo(e, p, root, w) ==> d in p
  }

  ghost predicate StrictlyDominates(e: Rel, root: Node, d: Node, w: Node) {
    d != w && Dominates(e, root, d, w)
  }

  /** `i` is the closest strict dominator of `w`: every other strict dominator of `w` dominates `i`. */
  ghost predicate IsImmediateDominator(e: Rel, root: Node, i: Node, w: Node) {
    && StrictlyDominates(e, root, i, w)
    && forall d :: StrictlyDominates(e, root, d, w) ==> Dominates(e, root, d, i)
  }

  /** Two walks that meet can be run one after the other. */
  lemma Join(e: Rel, p: seq<Node>, q: seq<Node>, a: Node, b: Node, c: Node) returns (r: seq<Node>)
    requires WalkFromTo(e, p, a, b) && WalkFromTo(e, q, b, c)
    ensures r == p + q[1..]
    ensures WalkFromTo(e, r, a, c)
    ensures forall x :: x in r <==> x in p || x in q
  {
    r := p + q[1..];
    assert q == [b] + q[1..];
    forall i, j | 0 <= i && j == i + 1 && j < |r|
      ensures (r[i], r[j]) in e
    {
      if j < |p| {
        assert (p[i], p[j]) in e;
      } else {
        assert r[i] == q[i - |p| + 1] && r[j] == q[j - |p| + 1];
      }
    }
    forall x
      ensures x in r <==> x in p || x in q
    {
      if x in q && x == b {
        assert p[|p| - 1] == b;
      }
    }
  }

  lemma SubWalk(e: Rel, p: seq<Node>, i: nat, j: nat)
    requires Walk(e, p) && i < j <= |p|
    ensures WalkFromTo(e, p[i..j], p[i], p[j - 1])
  {
  }

  lemma Extend(e: Rel, p: seq<Node>, a: Node, b: Node, c: Node)
    requires WalkFromTo(e, p, a, b) && (b, c) in e
    ensures WalkFromTo(e, p + [c], a, c)
  {
  }

  lemma ReachesStep(e: Rel, a: Node, b: Node, c: Node)
    requires Reaches(e, a, b) && (b, c) in e
    ensures Reaches(e, a, c)
  {
    var p :| WalkFromTo(e, p, a, b);
    Extend(e, p, a, b, c);
  }

  lemma ReachesSelf(e: Rel, a: Node)
    ensures Reaches(e, a, a)
  {
    assert WalkFromTo(e, [a], a, a);
  }

  /** A set closed under edges holds every node reachable from its members. */
  lemma {:induction false} ClosedUnderWalk(e: Rel, s: set<Node>, p: seq<Node>)
    requires Walk(e, p) && p[0] in s
    requires forall x, y :: (x, y) in e && x in s ==> y in s
    ensures forall i :: 0 <= i < |p| ==> p[i] in s
  {
    if |p| > 1 {
      var q := p[..|p| - 1];
      ClosedUnderWalk(e, s, q);
      assert q[|p| - 2] == p[|p| - 2];
      assert (p[|p| - 2], p[|p| - 1]) in e;
    }
  }

  /** The image of a walk under a map that carries edges to edges. */
  lemma MapWalk(e: Rel, e': Rel, f: map<Node, Node>, p: seq<Node>) returns (q: seq<Node>)
    requires Walk(e, p)
    requires forall i :: 0 <= i < |p| ==> p[i] in f
    requires forall x, y :: (x, y) in e && x in f && y in f ==> (f[x], f[y]) in e'
    ensures |q| == |p| && Walk(e', q)
    ensures forall i :: 0 <= i < |p| ==> q[i] == f[p[i]]
  {
    q := seq(|p|, i requires 0 <= i < |p| => f[p[i]]);
  }
}
