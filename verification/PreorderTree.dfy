/**
 * Trees given by a parent table whose vertices are numbered 1, 2, ... in depth-first preorder.
 * Entry 0 is the table's "no vertex" slot; vertex 1 is the root.
 */
module PreorderTree {

  /** `u` lies on the path from `x` up to the root, both ends included. */
  ghost predicate Anc(par: seq<nat>, u: nat, x: nat)
    decreases x
  {
    u == x || (u < x < |par| && par[x] < x && Anc(par, u, par[x]))
  }

  /** Each new vertex hangs below the path that leads to the vertex numbered just before it. */
  ghost predicate Preorder(par: seq<nat>) {
    forall w: nat :: 2 <= w < |par| ==> Hangs(par, w)
  }

  ghost predicate Hangs(par: seq<nat>, w: nat)
    requires 2 <= w < |par|
  {
    1 <= par[w] < w && Anc(par, par[w], w - 1)
  }

  lemma {:induction false} AncTrans(par: seq<nat>, a: nat, b: nat, c: nat)
    requires Anc(par, a, b) && Anc(par, b, c)
    ensures Anc(par, a, c)
    decreases c
  {
    if b != c {
      AncTrans(par, a, b, par[c]);
      AncBelow(par, a, par[c]);
    }
  }

  lemma {:induction false} AncBelow(par: seq<nat>, u: nat, x: nat)
    requires Anc(par, u, x)
    ensures u <= x
  {
  }

  /** The ancestors of a vertex form a chain. */
  lemma {:induction false} AncLinear(par: seq<nat>, a: nat, b: nat, x: nat)
    requires Anc(par, a, x) && Anc(par, b, x) && a <= b
    ensures Anc(par, a, b)
    decreases x
  {
    if b != x {
      AncLinear(par, a, b, par[x]);
    }
  }

  /** The subtree of `u` is an interval of numbers. */
  lemma {:induction false} AncContiguous(par: seq<nat>, u: nat, y: nat, x: nat)
    requires Preorder(par) && 1 <= u && Anc(par, u, x) && u <= y <= x
    ensures Anc(par, u, y)
    decreases x
  {
    if y != x {
      assert Hangs(par, x);
      AncTrans(par, u, par[x], x - 1);
      AncContiguous(par, u, y, x - 1);
    }
  }

  lemma {:induction false} AncOfRoot(par: seq<nat>, x: nat)
    requires Preorder(par) && 1 <= x < |par|
    ensures Anc(par, 1, x)
    decreases x
  {
    if x != 1 {
      assert Hangs(par, x);
      AncOfRoot(par, par[x]);
    }
  }

  /** The child of `u` on the path down to a proper descendant `x`. */
  lemma {:induction false} ChildTowards(par: seq<nat>, u: nat, x: nat) returns (c: nat)
    requires Anc(par, u, x) && u < x
    ensures u < c <= x < |par| && par[c] == u && Anc(par, c, x)
    decreases x
  {
    if par[x] == u {
      c := x;
    } else {
      c := ChildTowards(par, u, par[x]);
    }
  }

  /** Growing the table at the end changes nothing about the vertices already there. */
  lemma {:induction false} AncExtend(par: seq<nat>, p: nat, u: nat, x: nat)
    requires x < |par|
    ensures Anc(par + [p], u, x) <==> Anc(par, u, x)
    decreases x
  {
    if u < x && par[x] < x {
      AncExtend(par, p, u, par[x]);
    }
  }

  /** A new vertex may hang below any vertex on the path to the last one. */
  lemma PreorderGrows(par: seq<nat>, p: nat)
    requires Preorder(par) && |par| >= 1
    requires |par| >= 2 ==> 1 <= p && Anc(par, p, |par| - 1)
    ensures Preorder(par + [p])
  {
    var b := par + [p];
    forall w: nat | 2 <= w < |b|
      ensures Hangs(b, w)
    {
      if w < |par| {
        assert Hangs(par, w);
      } else {
        AncBelow(par, p, w - 1);
      }
      AncExtend(par, p, b[w], w - 1);
    }
  }

  lemma {:induction false} AncPrefix(par: seq<nat>, bigger: seq<nat>, u: nat, x: nat)
    requires par <= bigger && x < |par| && Anc(par, u, x)
    ensures Anc(bigger, u, x)
    decreases x
  {
    if u != x {
      AncPrefix(par, bigger, u, par[x]);
    }
  }

  lemma AllBelowTrans(par: seq<nat>, p: nat, c: nat, k: nat)
    requires Anc(par, p, c)
    requires forall j :: p <= j < c ==> Anc(par, p, j)
    requires forall j :: c <= j < k ==> Anc(par, c, j)
    ensures forall j :: p <= j < k ==> Anc(par, p, j)
  {
    forall j | p <= j < k
      ensures Anc(par, p, j)
    {
      if c <= j {
        AncTrans(par, p, c, j);
      }
    }
  }
}
