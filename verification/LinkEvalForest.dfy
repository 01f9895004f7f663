/** The link-eval forest as pure data: what the compressed `ancestor` and `label` tables stand for. */
module LinkEvalForest {
  import opened PreorderTree

  /**
   * One forest vertex `x` with ancestor pointer `a`: everything on the tree path from `x` up to but not including
   * `a` is linked (numbered above `top`), and `l` is at least as good as each of them.
   */
  ghost predicate Pointer(par: seq<nat>, semi: seq<nat>, top: nat, x: nat, a: nat, l: nat)
    requires |semi| == |par|
  {
    && 1 <= a < x && Anc(par, a, x)
    && a <= l < |par| && Anc(par, l, x)
    && forall y :: a < y < |par| && Anc(par, y, x) ==> y > top && semi[l] <= semi[y]
  }

  /** Vertices above `top` are linked, the others are forest roots that still carry themselves as label. */
  ghost predicate Forest(par: seq<nat>, semi: seq<nat>, ancestor: seq<nat>, labels: seq<nat>, top: nat) {
    && |semi| == |par| == |ancestor| == |labels|
    && 1 <= top < |par|
    && (forall x :: 1 <= x <= top ==> ancestor[x] == 0 && labels[x] == x)
    && (forall x :: top < x < |par| ==> Pointer(par, semi, top, x, ancestor[x], labels[x]))
  }

  /** `r` is the root of `v`'s tree in the forest: the closest tree ancestor of `v` that is not linked. */
  ghost predicate IsForestRoot(par: seq<nat>, top: nat, r: nat, v: nat) {
    && 1 <= r <= top && Anc(par, r, v)
    && forall y :: r < y < |par| && Anc(par, y, v) ==> y > top
  }

  lemma {:induction false} ForestRootUnique(par: seq<nat>, top: nat, r: nat, s: nat, v: nat)
    requires IsForestRoot(par, top, r, v) && IsForestRoot(par, top, s, v) && top < |par|
    ensures r == s
  {
  }

  /** `u` has least `semi` on the tree path from `v` up to and including its forest root. */
  ghost predicate IsEval(par: seq<nat>, semi: seq<nat>, top: nat, v: nat, r: nat, u: nat)
    requires |semi| == |par|
  {
    && IsForestRoot(par, top, r, v)
    && r <= u < |par| && Anc(par, u, v)
    && forall y :: r <= y < |par| && Anc(par, y, v) ==> semi[u] <= semi[y]
  }

  /** Stacking the pointer of `a` on the pointer of `v`, taking the better label. */
  lemma PointerCompose(par: seq<nat>, semi: seq<nat>, top: nat, v: nat, a: nat, lv: nat, aa: nat, la: nat)
    requires |semi| == |par|
    requires Pointer(par, semi, top, v, a, lv) && Pointer(par, semi, top, a, aa, la)
    ensures Pointer(par, semi, top, v, aa, if semi[la] < semi[lv] then la else lv)
  {
    AncTrans(par, aa, a, v);
    AncTrans(par, la, a, v);
    forall y | aa < y < |par| && Anc(par, y, v)
      ensures y > top && (semi[la] <= semi[y] || semi[lv] <= semi[y])
    {
      if y <= a {
        AncLinear(par, y, a, v);
      }
    }
  }

  /** Folding a root's own label in. */
  lemma PointerFold(par: seq<nat>, semi: seq<nat>, top: nat, v: nat, a: nat, lv: nat)
    requires |semi| == |par|
    requires Pointer(par, semi, top, v, a, lv) && semi[a] < semi[lv] && a < |par|
    ensures Pointer(par, semi, top, v, a, a)
  {
  }
}
