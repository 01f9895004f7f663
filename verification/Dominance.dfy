/** Laws of dominance over an arbitrary graph, stated on walks. */
module Dominance {
  import opened Walks

  /** The part of a walk up to the first visit of `x`. */
  lemma {:induction false} FirstVisit(e: Rel, p: seq<Node>, x: Node) returns (q: seq<Node>)
    requires Walk(e, p) && x in p
    ensures WalkFromTo(e, q, p[0], x) && x !in q[..|q| - 1]
    ensures q <= p
    decreases |p|
  {
    if x in p[..|p| - 1] {
      SubWalk(e, p, 0, |p| - 1);
      assert p[0..|p| - 1] == p[..|p| - 1];
      q := FirstVisit(e, p[..|p| - 1], x);
    } else {
      q := p;
    }
  }

  lemma DominatesTrans(e: Rel, root: Node, a: Node, b: Node, c: Node)
    requires Dominates(e, root, a, b) && Dominates(e, root, b, c)
    ensures Dominates(e, root, a, c)
  {
    forall p | WalkFromTo(e, p, root, c)
      ensures a in p
    {
      var q := FirstVisit(e, p, b);
      assert a in q;
    }
  }

  lemma DominatesAntisym(e: Rel, root: Node, a: Node, b: Node)
    requires Dominates(e, root, a, b) && Dominates(e, root, b, a) && Reaches(e, root, b)
    ensures a == b
  {
    var p :| WalkFromTo(e, p, root, b);
    var q := FirstVisit(e, p, b);
    assert a in q;
    var r := FirstVisit(e, q, a);
  }

  lemma DominatesSelf(e: Rel, root: Node, w: Node)
    ensures Dominates(e, root, w, w)
  {
  }

  lemma RootDominators(e: Rel, root: Node, d: Node)
    ensures Dominates(e, root, d, root) <==> d == root
  {
    assert WalkFromTo(e, [root], root, root);
    DominatesSelf(e, root, root);
  }

  lemma RootDominatesAll(e: Rel, root: Node, w: Node)
    ensures Dominates(e, root, root, w)
  {
    forall p | WalkFromTo(e, p, root, w)
      ensures root in p
    {
      assert p[0] in p;
    }
  }

  /** The root dominates only itself exactly when no edge leads from it to another node. */
  lemma RootDominatesOnlyItselfIff(e: Rel, root: Node)
    ensures (forall w :: Reaches(e, root, w) && Dominates(e, root, root, w) ==> w == root)
            <==> (forall w :: (root, w) in e ==> w == root)
  {
    if forall w :: (root, w) in e ==> w == root {
      forall w | Reaches(e, root, w)
        ensures w == root
      {
        var p :| WalkFromTo(e, p, root, w);
        ClosedUnderWalk(e, {root}, p);
        assert p[|p| - 1] in {root};
      }
    }
    forall w | (root, w) in e
      ensures Reaches(e, root, w) && Dominates(e, root, root, w)
    {
      ReachesSelf(e, root);
      ReachesStep(e, root, root, w);
      RootDominatesAll(e, root, w);
    }
  }

  /** One edge is enough: the root 0 dominates its successor 1. */
  lemma RootDominatesSuccessor()
    ensures var e := {(0, 1)};
            Reaches(e, 0, 1) && Dominates(e, 0, 0, 1)
  {
    var e: Rel := {(0, 1)};
    ReachesSelf(e, 0);
    ReachesStep(e, 0, 0, 1);
    RootDominatesAll(e, 0, 1);
  }

  /** A dominator of a reachable node is itself reachable. */
  lemma DominatorReachable(e: Rel, root: Node, d: Node, w: Node)
    requires Dominates(e, root, d, w) && Reaches(e, root, w)
    ensures Reaches(e, root, d)
  {
    var p :| WalkFromTo(e, p, root, w);
    var q := FirstVisit(e, p, d);
  }

  /** A strict dominator of a node dominates each of its predecessors. */
  lemma DominatesPredecessor(e: Rel, root: Node, d: Node, p: Node, y: Node)
    requires StrictlyDominates(e, root, d, y) && (p, y) in e
    ensures Dominates(e, root, d, p)
  {
    forall q | WalkFromTo(e, q, root, p)
      ensures d in q
    {
      Extend(e, q, root, p, y);
      assert d in q + [y];
    }
  }

  /** The dominators of `w` are `w` and the dominators of its immediate dominator. */
  lemma DominatorsOfIdom(e: Rel, root: Node, i: Node, w: Node, d: Node)
    requires IsImmediateDominator(e, root, i, w) && Reaches(e, root, w)
    ensures Dominates(e, root, d, w) <==> d == w || Dominates(e, root, d, i)
    ensures !Dominates(e, root, w, i)
  {
    DominatesSelf(e, root, w);
    if Dominates(e, root, d, i) {
      DominatesTrans(e, root, d, i, w);
    }
    if Dominates(e, root, w, i) {
      DominatesAntisym(e, root, i, w);
    }
  }

  /** The immediate dominator is unique. */
  lemma ImmediateDominatorUnique(e: Rel, root: Node, i: Node, j: Node, w: Node)
    requires Reaches(e, root, w)
    requires IsImmediateDominator(e, root, i, w) && IsImmediateDominator(e, root, j, w)
    ensures i == j
  {
    DominatorReachable(e, root, i, w);
    DominatorReachable(e, root, j, w);
    DominatesAntisym(e, root, i, j);
  }

  /** The dominators of a node form a chain. */
  lemma DominatorsFormChain(e: Rel, root: Node, a: Node, b: Node, w: Node)
    requires Reaches(e, root, w) && Dominates(e, root, a, w) && Dominates(e, root, b, w)
    ensures Dominates(e, root, a, b) || Dominates(e, root, b, a)
  {
    if !Dominates(e, root, a, b) && !Dominates(e, root, b, a) {
      var p :| WalkFromTo(e, p, root, b) && a !in p;
      var q :| WalkFromTo(e, q, root, a) && b !in q;
      var t :| WalkFromTo(e, t, root, w);
      assert a in t;
      var r := Detour(e, root, a, b, w, p, q, t);
    }
  }

  /** From the last visit of either vertex on, one of the two detours gives a walk that misses the other vertex. */
  lemma {:induction false} Detour(e: Rel, root: Node, a: Node, b: Node, w: Node, p: seq<Node>, q: seq<Node>,
                                  t: seq<Node>)
    returns (r: seq<Node>)
    requires WalkFromTo(e, p, root, b) && a !in p && WalkFromTo(e, q, root, a) && b !in q
    requires Walk(e, t) && t[|t| - 1] == w && (a in t || b in t) && a != b
    ensures WalkFromTo(e, r, root, w) && (a !in r || b !in r)
    decreases |t|
  {
    if |t| > 1 && (a in t[1..] || b in t[1..]) {
      SubWalk(e, t, 1, |t|);
      assert t[1..|t|] == t[1..];
      r := Detour(e, root, a, b, w, p, q, t[1..]);
    } else if t[0] == b {
      r := Join(e, p, t, root, b, w);
    } else {
      r := Join(e, q, t, root, a, w);
    }
  }
}
