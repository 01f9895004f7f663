/** What one round of the Lengauer-Tarjan main loop establishes, as lemmas about the tables. */
module DominatorSteps {
  import opened Walks
  import opened PreorderTree
  import opened Semidominators
  import opened LinkEvalForest

  /** The edges recorded in a predecessor table. */
  ghost function IndexEdges(pred: seq<seq<nat>>): (e: Rel)
    ensures forall v: nat, w: nat {:trigger (v, w) in e} :: (v, w) in e <==> w < |pred| && v in pred[w]
  {
    set w, v | 0 <= w < |pred| && v in pred[w] :: (v, w)
  }

  /** Vertices above `top` hold their semidominator, the others still hold themselves. */
  ghost predicate SemiOk(e: Rel, semi: seq<nat>, top: nat) {
    && (forall x :: 0 <= x <= top && x < |semi| ==> semi[x] == x)
    && (forall x :: top < x < |semi| ==> IsSemi(e, semi[x], x))
  }

  /** `semi[w]` is no larger than what the edge `v -> w` has to offer. */
  ghost predicate Bound(par: seq<nat>, semi: seq<nat>, w: nat, v: nat)
    requires |semi| == |par| && w < |par|
  {
    && (v < w ==> semi[w] <= v)
    && forall u :: w < u < |par| && Anc(par, u, v) ==> semi[w] <= semi[u]
  }

  /** Lowering `semi` of an unlinked vertex leaves the forest in order. */
  lemma ForestSemiLower(par: seq<nat>, semi: seq<nat>, ancestor: seq<nat>, labels: seq<nat>, w: nat, s: nat)
    requires Forest(par, semi, ancestor, labels, w) && s <= semi[w]
    ensures Forest(par, semi[w := s], ancestor, labels, w)
  {
  }

  /** The tables while `w`'s predecessors are being examined: `semi[w]` is `w` or a candidate found so far. */
  ghost predicate SemiOpen(e: Rel, semi: seq<nat>, w: nat) {
    && w < |semi| && semi[w] <= w && (semi[w] == w || SemiReaches(e, semi[w], w))
    && (forall x :: 0 <= x < w ==> semi[x] == x)
    && (forall x :: w < x < |semi| ==> IsSemi(e, semi[x], x))
  }

  /** The forest root offers a walk when no vertex between it and `v` has a smaller semidominator. */
  lemma RootIsCandidate(e: Rel, par: seq<nat>, semi: seq<nat>, w: nat, v: nat, r: nat)
    requires DfsTree(e, par) && |semi| == |par| && v < |par|
    requires forall x :: w < x < |par| ==> IsSemi(e, semi[x], x)
    requires IsForestRoot(par, w, r, v) && r < v && (v, w) in e
    requires forall y :: r < y < |par| && Anc(par, y, v) ==> r <= semi[y]
    ensures SemiReaches(e, r, w)
  {
    var c := ChildTowards(par, r, v);
    assert c > w;
    SemiAtMostParent(e, par, semi[c], c);
    SemiThroughSubtree(e, par, r, c, v, w);
  }

  /** What `eval` finds for a predecessor is a genuine semidominator walk, the folded-in root included. */
  lemma EvalIsCandidate(e: Rel, par: seq<nat>, semi: seq<nat>, w: nat, v: nat, r: nat, u: nat)
    requires DfsTree(e, par) && |semi| == |par| && SemiOpen(e, semi, w)
    requires IsEval(par, semi, w, v, r, u) && (v, w) in e && semi[u] < semi[w]
    ensures SemiReaches(e, semi[u], w)
  {
    if u > w {
      SemiThroughSubtree(e, par, semi[u], u, v, w);
    } else if u == v {
      SemiOfEdge(e, v, w);
    } else {
      assert u == r;
      AncBelow(par, r, v);
      RootIsCandidate(e, par, semi, w, v, r);
    }
  }

  lemma EvalBound(par: seq<nat>, semi: seq<nat>, w: nat, v: nat, r: nat, u: nat, s: nat)
    requires |semi| == |par| && w < |par|
    requires forall x :: 0 <= x < w ==> semi[x] == x
    requires IsEval(par, semi, w, v, r, u) && s <= semi[u] && v < |par|
    ensures Bound(par, semi[w := s], w, v)
  {
  }

  /** Once every predecessor has been seen, `semi[w]` is the semidominator. */
  lemma SemiExact(e: Rel, par: seq<nat>, semi: seq<nat>, w: nat)
    requires DfsTree(e, par) && |semi| == |par| && 2 <= w < |par|
    requires forall x :: w < x < |par| ==> IsSemi(e, semi[x], x)
    requires semi[w] == w || SemiReaches(e, semi[w], w)
    requires forall v :: (v, w) in e ==> Bound(par, semi, w, v)
    ensures IsSemi(e, semi[w], w)
  {
    assert TreeEdge(e, par, w) && Hangs(par, w);
    assert Bound(par, semi, w, par[w]);
    forall x | SemiReaches(e, x, w)
      ensures semi[w] <= x
    {
      var u, v := SemiSplit(e, par, x, w);
      assert Bound(par, semi, w, v);
    }
  }

  /**
   * `i` is either the semidominator of `v`, no smaller semidominator being met on the way up to it, or the vertex
   * of least semidominator on that way.
   */
  ghost predicate RelativeDominator(par: seq<nat>, semi: seq<nat>, i: nat, v: nat)
    requires |semi| == |par| && v < |par|
  {
    if i == semi[v] then
      forall y :: semi[v] < y < |par| && Anc(par, y, v) ==> semi[y] >= semi[v]
    else
      && semi[v] < i < v && Anc(par, i, v) && semi[i] < semi[v]
      && forall y :: semi[v] < y < |par| && Anc(par, y, v) ==> semi[i] <= semi[y]
  }

  /** `v`'s entry is final, and so are the semidominators it was computed from. */
  ghost predicate Settled(par: seq<nat>, semi: seq<nat>, i: nat, v: nat, top: nat)
    requires |semi| == |par| && v < |par|
  {
    && RelativeDominator(par, semi, i, v)
    && forall y :: semi[v] < y < |par| && Anc(par, y, v) ==> y > top
  }

  /**
   * Every processed vertex waits in the bucket of its semidominator or is settled, and it is settled once the child
   * of its semidominator that leads to it has been processed.
   */
  ghost predicate BucketsOk(par: seq<nat>, semi: seq<nat>, bucket: seq<seq<nat>>, idom: seq<nat>, top: nat) {
    && |par| == |semi| == |bucket| == |idom|
    && (forall s: nat, v: nat {:trigger v in bucket[s]} ::
          s < |bucket| && v in bucket[s] ==> top < v < |par| && semi[v] == s)
    && (forall v :: top < v < |par| ==>
                      semi[v] < v && (v in bucket[semi[v]] || Settled(par, semi, idom[v], v, top)))
    && (forall c, v {:trigger Anc(par, c, v)} ::
          top < c < |par| && top < v < |par| && par[c] == semi[v] && Anc(par, c, v)
          ==> Settled(par, semi, idom[v], v, top))
  }

  /** A vertex of the bucket has only linked vertices between itself and its semidominator. */
  lemma BucketPath(par: seq<nat>, w: nat, v: nat)
    requires Preorder(par) && 2 <= w <= v && w < |par| && Anc(par, par[w], v)
    ensures forall y :: par[w] < y < |par| && Anc(par, y, v) ==> y >= w
  {
    forall y | par[w] < y < |par| && Anc(par, y, v)
      ensures y >= w
    {
      if y < w {
        AncContiguous(par, y, w, v);
      }
    }
  }

  /** What `eval` finds for a bucket vertex decides its entry; the folded-in root never wins. */
  lemma EvalSettles(par: seq<nat>, semi: seq<nat>, w: nat, v: nat, r: nat, u: nat)
    requires Preorder(par) && |semi| == |par| && 2 <= w <= v < |par|
    requires forall x :: 0 <= x < w ==> semi[x] == x
    requires semi[v] == par[w] && Anc(par, par[w], v)
    requires IsEval(par, semi, w - 1, v, r, u)
    ensures Settled(par, semi, if semi[u] < semi[v] then u else par[w], v, w - 1)
  {
    var p := par[w];
    assert Hangs(par, w);
    BucketPath(par, w, v);
    assert r == p;
    if semi[u] < semi[v] {
      assert u != p && u != v;
      AncBelow(par, u, v);
    }
  }

  /** Strict dominators of `v` in terms of tree and semidominators: the closest of them is `i`. */
  ghost predicate IsTreeIdom(par: seq<nat>, semi: seq<nat>, i: nat, v: nat)
    requires |semi| == |par|
  {
    && 1 <= i < v && TreeDominates(par, semi, i, v)
    && forall a :: 1 <= a < v && TreeDominates(par, semi, a, v) ==> a <= i
  }

  lemma SettledAtSemi(e: Rel, par: seq<nat>, semi: seq<nat>, v: nat)
    requires DfsTree(e, par) && |semi| == |par| && 2 <= v < |par|
    requires IsSemi(e, semi[v], v)
    requires RelativeDominator(par, semi, semi[v], v)
    ensures IsTreeIdom(par, semi, semi[v], v)
  {
    SemiAtMostParent(e, par, semi[v], v);
  }

  /** The vertex of least semidominator below the semidominator has the same strict dominators. */
  lemma SettledBelowSemi(e: Rel, par: seq<nat>, semi: seq<nat>, i: nat, u: nat, v: nat)
    requires DfsTree(e, par) && |semi| == |par| && 2 <= v < |par|
    requires IsSemi(e, semi[v], v)
    requires u != semi[v] && RelativeDominator(par, semi, u, v)
    requires IsTreeIdom(par, semi, i, u)
    ensures IsTreeIdom(par, semi, i, v)
  {
    AncTrans(par, i, u, v);
    assert semi[u] >= i;
    forall y | i < y < |par| && Anc(par, y, v)
      ensures semi[y] >= i
    {
      if y <= u {
        AncLinear(par, y, u, v);
      }
    }
    forall a | 1 <= a < v && TreeDominates(par, semi, a, v)
      ensures a <= i
    {
      assert a <= semi[v];
      AncLinear(par, a, u, v);
      forall y | a < y < |par| && Anc(par, y, u)
        ensures semi[y] >= a
      {
        AncTrans(par, y, u, v);
      }
      assert TreeDominates(par, semi, a, u);
    }
  }

  /** One entry of the final pass, given that all earlier entries are final. */
  lemma FixUpStep(e: Rel, par: seq<nat>, semi: seq<nat>, idom: seq<nat>, w: nat)
    requires DfsTree(e, par) && |semi| == |idom| == |par| && 2 <= w < |par|
    requires IsSemi(e, semi[w], w) && RelativeDominator(par, semi, idom[w], w)
    requires forall v :: 2 <= v < w ==> IsTreeIdom(par, semi, idom[v], v)
    ensures idom[w] != semi[w] ==> 2 <= idom[w] < w && IsTreeIdom(par, semi, idom[idom[w]], w)
    ensures idom[w] == semi[w] ==> IsTreeIdom(par, semi, idom[w], w)
  {
    if idom[w] != semi[w] {
      SemiAtMostParent(e, par, semi[w], w);
      SettledBelowSemi(e, par, semi, idom[idom[w]], idom[w], w);
    } else {
      SettledAtSemi(e, par, semi, w);
    }
  }

  /** A dominator of `v` dominates every tree ancestor of `v` below it. */
  lemma TreeDominatesOnPath(par: seq<nat>, semi: seq<nat>, d: nat, i: nat, v: nat)
    requires |semi| == |par| && TreeDominates(par, semi, d, v) && Anc(par, i, v) && d <= i
    ensures TreeDominates(par, semi, d, i)
  {
  }

  lemma StrictDominatorInTree(e: Rel, par: seq<nat>, semi: seq<nat>, d: nat, v: nat)
    requires DfsTree(e, par) && |semi| == |par| && 2 <= v < |par|
    requires forall x :: 2 <= x < |par| ==> IsSemi(e, semi[x], x)
    requires StrictlyDominates(e, 1, d, v)
    ensures 1 <= d < v && TreeDominates(par, semi, d, v)
  {
    AncOfRoot(par, v);
    var t := TreeWalk(e, par, 1, v);
    assert d in t;
    AncBelow(par, d, v);
    DominatesIffTree(e, par, semi, d, v);
  }

  lemma TreeIdomIsImmediate(e: Rel, par: seq<nat>, semi: seq<nat>, i: nat, v: nat)
    requires DfsTree(e, par) && |semi| == |par| && 2 <= v < |par|
    requires forall x :: 2 <= x < |par| ==> IsSemi(e, semi[x], x)
    requires IsTreeIdom(par, semi, i, v)
    ensures IsImmediateDominator(e, 1, i, v)
  {
    DominatesIffTree(e, par, semi, i, v);
    forall d | StrictlyDominates(e, 1, d, v)
      ensures Dominates(e, 1, d, i)
    {
      StrictDominatorInTree(e, par, semi, d, v);
      TreeDominatesOnPath(par, semi, d, i, v);
      DominatesIffTree(e, par, semi, d, i);
    }
  }

  /** `BucketsOk` just before the bucket of `w`'s parent is emptied: `w` itself has joined a bucket. */
  ghost predicate AlmostSettled(par: seq<nat>, semi: seq<nat>, bucket: seq<seq<nat>>, idom: seq<nat>, w: nat) {
    && |par| == |semi| == |bucket| == |idom| && 2 <= w < |par| && par[w] < w
    && (forall s: nat, v: nat {:trigger v in bucket[s]} ::
          s < |bucket| && v in bucket[s] ==> w <= v < |par| && semi[v] == s)
    && (forall v :: w <= v < |par| ==>
                      semi[v] < v && (v in bucket[semi[v]] || Settled(par, semi, idom[v], v, w - 1)))
    && (forall c, v {:trigger Anc(par, c, v)} ::
          w < c < |par| && w <= v < |par| && par[c] == semi[v] && Anc(par, c, v)
          ==> Settled(par, semi, idom[v], v, w - 1))
  }

  lemma SettledLower(par: seq<nat>, semi: seq<nat>, semi': seq<nat>, i: nat, v: nat, w: nat)
    requires |semi| == |semi'| == |par| && 1 <= w < v < |par|
    requires forall x :: 0 <= x < |semi| && x != w ==> semi'[x] == semi[x]
    requires semi[v] < v && Settled(par, semi, i, v, w)
    ensures Settled(par, semi', i, v, w - 1)
  {
  }

  /** Lowering `semi[w]` and putting `w` into its bucket. */
  lemma BucketPushed(par: seq<nat>, semi: seq<nat>, semi': seq<nat>, bucket: seq<seq<nat>>, idom: seq<nat>, w: nat)
    requires BucketsOk(par, semi, bucket, idom, w) && 2 <= w < |par| && par[w] < w && |semi'| == |semi|
    requires forall x :: 0 <= x < |semi| && x != w ==> semi'[x] == semi[x]
    requires semi'[w] < w
    ensures AlmostSettled(par, semi', bucket[semi'[w] := bucket[semi'[w]] + [w]], idom, w)
  {
    var b := bucket[semi'[w] := bucket[semi'[w]] + [w]];
    forall v | w < v < |par|
      ensures semi'[v] < v && (v in b[semi'[v]] || Settled(par, semi', idom[v], v, w - 1))
    {
      if v in bucket[semi[v]] {
        assert v in b[semi[v]];
      } else {
        SettledLower(par, semi, semi', idom[v], v, w);
      }
    }
    assert w in b[semi'[w]];
    forall c, v | w < c < |par| && w <= v < |par| && par[c] == semi'[v] && Anc(par, c, v)
      ensures Settled(par, semi', idom[v], v, w - 1)
    {
      AncBelow(par, c, v);
      SettledLower(par, semi, semi', idom[v], v, w);
    }
  }

  lemma WaitingBelow(e: Rel, par: seq<nat>, semi: seq<nat>, bucket: seq<seq<nat>>, idom: seq<nat>, w: nat)
    requires DfsTree(e, par) && AlmostSettled(par, semi, bucket, idom, w) && SemiOk(e, semi, w - 1)
    ensures forall v: nat {:trigger v in bucket[par[w]]} :: v in bucket[par[w]] ==>
              w <= v < |par| && semi[v] == par[w] && Anc(par, par[w], v)
  {
    forall v: nat | v in bucket[par[w]]
      ensures w <= v < |par| && semi[v] == par[w] && Anc(par, par[w], v)
    {
      SemiAtMostParent(e, par, semi[v], v);
    }
  }

  lemma BucketEmptied(par: seq<nat>, semi: seq<nat>, bucket: seq<seq<nat>>, idom: seq<nat>, idom': seq<nat>, w: nat)
    requires AlmostSettled(par, semi, bucket, idom, w) && |idom'| == |idom|
    requires forall v: nat :: v in bucket[par[w]] ==> v < |par| && Settled(par, semi, idom'[v], v, w - 1)
    requires forall v: nat :: v < |idom| && v !in bucket[par[w]] ==> idom'[v] == idom[v]
    ensures BucketsOk(par, semi, bucket[par[w] := []], idom', w - 1)
  {
  }

  /** Linking `w` to its parent. */
  lemma ForestLinked(par: seq<nat>, semi: seq<nat>, ancestor: seq<nat>, labels: seq<nat>, w: nat)
    requires Preorder(par) && Forest(par, semi, ancestor, labels, w) && 2 <= w
    ensures Forest(par, semi, ancestor[w := par[w]], labels, w - 1)
  {
    var a := ancestor[w := par[w]];
    assert Hangs(par, w);
    forall x | w - 1 < x < |par|
      ensures Pointer(par, semi, w - 1, x, a[x], labels[x])
    {
      if x == w {
        forall y | par[w] < y < |par| && Anc(par, y, w)
          ensures y == w
        {
          assert y == w || Anc(par, y, par[w]);
        }
      } else {
        assert Pointer(par, semi, w, x, ancestor[x], labels[x]);
      }
    }
  }

  /** With every vertex processed no bucket still holds one. */
  lemma AllSettled(e: Rel, par: seq<nat>, semi: seq<nat>, bucket: seq<seq<nat>>, idom: seq<nat>)
    requires DfsTree(e, par) && BucketsOk(par, semi, bucket, idom, 1) && SemiOk(e, semi, 1)
    ensures forall v :: 2 <= v < |par| ==> RelativeDominator(par, semi, idom[v], v)
  {
    forall v | 2 <= v < |par|
      ensures RelativeDominator(par, semi, idom[v], v)
    {
      SemiAtMostParent(e, par, semi[v], v);
      var c := ChildTowards(par, semi[v], v);
      assert Anc(par, c, v);
    }
  }
}
