/** Post-dominator sets by iterating in place to the greatest fixed point. */
module PostDominators {
  import opened Counting
  import opened Walks
  import opened Cfgs

  /** The region analysed: control stays inside `nodes` and ends at the exits or where it cannot go on. */
  datatype Region = Region(graph: Cfg, nodes: set<Node>, exits: set<Node>) {

    ghost predicate Step(v: Node, w: Node) {
      w in graph.Successors(v) && w in nodes
    }

    ghost predicate DeadEnd(n: Node) {
      forall s :: !Step(n, s)
    }

    ghost predicate Terminal(n: Node) {
      n in exits || DeadEnd(n)
    }

    /** A run of control from its first node to the first exit or dead end it meets. */
    ghost predicate Complete(p: seq<Node>) {
      && |p| > 0 && Terminal(p[|p| - 1])
      && forall i :: 0 <= i < |p| - 1 ==> !Terminal(p[i]) && Step(p[i], p[i + 1])
    }

    /** `q` is met by every complete run from `n`. */
    ghost predicate PostDominates(q: Node, n: Node) {
      forall p :: Complete(p) && p[0] == n ==> q in p
    }

    /** The documented notion: `q` is met by every run from `n` that ends at an exit. */
    ghost predicate OnEveryExitPath(q: Node, n: Node) {
      forall p :: ExitPath(p) && p[0] == n ==> q in p
    }

    ghost predicate ExitPath(p: seq<Node>) {
      && |p| > 0 && p[|p| - 1] in exits
      && forall i :: 0 <= i < |p| - 1 ==> Step(p[i], p[i + 1])
    }

    /** The data-flow equation of `n`. */
    ghost predicate InUpdate(pdom: map<Node, set<Node>>, n: Node, q: Node)
      requires nodes <= pdom.Keys
    {
      q == n || (!Terminal(n) && forall s :: Step(n, s) ==> q in pdom[s])
    }
  }

  lemma Prepend(r: Region, n: Node, s: Node, p: seq<Node>)
    requires r.Complete(p) && p[0] == s && !r.Terminal(n) && r.Step(n, s)
    ensures r.Complete([n] + p)
  {
  }

  /** Post-dominance solves the equations, one node at a time. */
  lemma PostDominatesUnfolds(r: Region, q: Node, n: Node)
    ensures r.PostDominates(q, n) <==>
            q == n || (!r.Terminal(n) && forall s :: r.Step(n, s) ==> r.PostDominates(q, s))
  {
    if q != n && r.PostDominates(q, n) {
      assert [n][0] == n;
      assert !r.Complete([n]);
      forall s, p | r.Step(n, s) && r.Complete(p) && p[0] == s
        ensures q in p
      {
        Prepend(r, n, s, p);
        assert ([n] + p)[0] == n;
        assert q in [n] + p;
      }
    }
    if !r.Terminal(n) && forall s :: r.Step(n, s) ==> r.PostDominates(q, s) {
      forall p | r.Complete(p) && p[0] == n
        ensures q in p
      {
        CompleteTail(r, p);
        assert r.PostDominates(q, p[1]);
        assert q in p[1..];
      }
    }
  }

  lemma CompleteTail(r: Region, p: seq<Node>)
    requires r.Complete(p) && !r.Terminal(p[0])
    ensures |p| > 1 && r.Complete(p[1..]) && r.Step(p[0], p[1])
  {
  }

  ghost predicate Covers(pdom: map<Node, set<Node>>, nodes: seq<Node>) {
    forall n :: n in pdom <==> n in nodes
  }

  /** Every solution of the equations lies below post-dominance. */
  lemma {:induction false} SolutionBelow(r: Region, pdom: map<Node, set<Node>>, n: Node, q: Node, p: seq<Node>)
    requires r.nodes <= pdom.Keys && n in pdom && q in pdom[n]
    requires forall m, x :: m in pdom && x in pdom[m] ==> r.InUpdate(pdom, m, x)
    requires r.Complete(p) && p[0] == n
    ensures q in p
    decreases |p|
  {
    if q != n {
      CompleteTail(r, p);
      SolutionBelow(r, pdom, p[1], q, p[1..]);
    }
  }

  /** Above post-dominance, and no smaller than its own update. */
  ghost predicate Descending(r: Region, nodes: seq<Node>, pdom: map<Node, set<Node>>) {
    && Covers(pdom, nodes) && r.nodes <= pdom.Keys
    && (forall n, q :: n in pdom && q in pdom[n] ==> q in nodes)
    && (forall n, q :: n in pdom && q in nodes && r.PostDominates(q, n) ==> q in pdom[n])
    && (forall n, q :: n in pdom && q in nodes && r.InUpdate(pdom, n, q) ==> q in pdom[n])
  }

  /** The equation of `n` holds in the current table. */
  ghost predicate Solved(r: Region, pdom: map<Node, set<Node>>, n: Node)
    requires r.nodes <= pdom.Keys && n in pdom
  {
    forall q :: q in pdom[n] ==> r.InUpdate(pdom, n, q)
  }

  lemma UpdateKeepsDescending(r: Region, nodes: seq<Node>, pdom: map<Node, set<Node>>, n: Node, updated: set<Node>)
    requires Descending(r, nodes, pdom) && n in nodes
    requires forall q :: q in updated <==> q in nodes && r.InUpdate(pdom, n, q)
    ensures updated <= pdom[n] && Descending(r, nodes, pdom[n := updated])
  {
    var after := pdom[n := updated];
    forall m, q | m in after && q in nodes && r.PostDominates(q, m)
      ensures q in after[m]
    {
      PostDominatesUnfolds(r, q, m);
    }
    forall m, q | m in after && q in nodes && r.InUpdate(after, m, q)
      ensures q in after[m]
    {
      assert r.InUpdate(pdom, m, q);
    }
  }

  /** Narrows the first set by each of the others. */
  method IntersectSets(sets: seq<set<Node>>) returns (acc: set<Node>)
    ensures sets == [] ==> acc == {}
    ensures sets != [] ==> forall q :: q in acc <==> forall i :: 0 <= i < |sets| ==> q in sets[i]
  {
    if sets == [] {
      return {};
    }
    acc := sets[0];
    for k := 1 to |sets|
      invariant forall q :: q in acc <==> forall i :: 0 <= i < k ==> q in sets[i]
    {
      acc := set value | value in acc && value in sets[k];
    }
  }

  /** The right-hand side of one node's equation. */
  method Updated(r: Region, pdom: map<Node, set<Node>>, n: Node, ghost nodes: seq<Node>) returns (updated: set<Node>)
    requires Descending(r, nodes, pdom) && n in nodes && n !in r.exits
    ensures forall q :: q in updated <==> q in nodes && r.InUpdate(pdom, n, q)
  {
    var succs := r.graph.Successors(n);
    var sets: seq<set<Node>> := [];
    ghost var kept: seq<Node> := [];
    for i := 0 to |succs|
      invariant |kept| == |sets|
      invariant forall j :: 0 <= j < |sets| ==> r.Step(n, kept[j]) && sets[j] == pdom[kept[j]]
      invariant forall j :: 0 <= j < i && succs[j] in r.nodes ==> succs[j] in kept
    {
      if succs[i] in r.nodes {
        sets := sets + [pdom[succs[i]]];
        kept := kept + [succs[i]];
        assert kept[|kept| - 1] == succs[i];
      }
    }
    updated := IntersectSets(sets);
    UpdatedMeaning(r, pdom, n, nodes, kept, sets, updated);
    updated := updated + {n};
  }

  lemma UpdatedMeaning(r: Region, pdom: map<Node, set<Node>>, n: Node, nodes: seq<Node>, kept: seq<Node>,
                       sets: seq<set<Node>>, meet: set<Node>)
    requires Descending(r, nodes, pdom) && n in nodes && n !in r.exits
    requires |kept| == |sets| && forall j :: 0 <= j < |sets| ==> r.Step(n, kept[j]) && sets[j] == pdom[kept[j]]
    requires forall s :: r.Step(n, s) ==> s in kept
    requires sets == [] ==> meet == {}
    requires sets != [] ==> forall q :: q in meet <==> forall i :: 0 <= i < |sets| ==> q in sets[i]
    ensures forall q :: q in meet + {n} <==> q in nodes && r.InUpdate(pdom, n, q)
  {
    forall q
      ensures q in meet + {n} <==> q in nodes && r.InUpdate(pdom, n, q)
    {
      if sets == [] {
        assert forall s :: r.Step(n, s) ==> s in kept;
        assert r.DeadEnd(n);
      } else {
        assert r.Step(n, kept[0]);
        if q in meet {
          forall s | r.Step(n, s)
            ensures q in pdom[s]
          {
            var j :| 0 <= j < |kept| && kept[j] == s;
            assert q in sets[j];
          }
          assert q in pdom[kept[0]];
        }
      }
    }
  }

  /** Total size of the table, counted along `nodes`. */
  ghost function Total(nodes: seq<Node>, pdom: map<Node, set<Node>>): nat
    requires forall n :: n in nodes ==> n in pdom
  {
    if nodes == [] then 0 else |pdom[nodes[0]]| + Total(nodes[1..], pdom)
  }

  lemma {:induction false} TotalShrinks(nodes: seq<Node>, pdom: map<Node, set<Node>>, n: Node, smaller: set<Node>)
    requires forall m :: m in nodes ==> m in pdom
    requires n in pdom && smaller < pdom[n]
    ensures Total(nodes, pdom[n := smaller]) <= Total(nodes, pdom)
    ensures n in nodes ==> Total(nodes, pdom[n := smaller]) < Total(nodes, pdom)
    decreases |nodes|
  {
    if nodes != [] {
      TotalShrinks(nodes[1..], pdom, n, smaller);
      SubsetSize(smaller, pdom[n]);
    }
  }

  /** One in-place pass over `nodes`: it shrinks the table or finds every equation solved. */
  method Sweep(r: Region, nodes: seq<Node>, pdom: map<Node, set<Node>>)
    returns (out: map<Node, set<Node>>, changed: bool)
    requires Descending(r, nodes, pdom) && ExitsFixed(r, pdom)
    ensures Descending(r, nodes, out) && ExitsFixed(r, out)
    ensures changed ==> Total(nodes, out) < Total(nodes, pdom)
    ensures !changed ==> out == pdom && forall j :: 0 <= j < |nodes| ==> Solved(r, out, nodes[j])
  {
    out, changed := pdom, false;
    for i := 0 to |nodes|
      invariant Descending(r, nodes, out) && ExitsFixed(r, out)
      invariant if changed then Total(nodes, out) < Total(nodes, pdom) else out == pdom
      invariant !changed ==> forall j :: 0 <= j < i ==> Solved(r, out, nodes[j])
    {
      var node := nodes[i];
      if node in r.exits {
        continue;
      }
      var updated := Updated(r, out, node, nodes);
      UpdateKeepsDescending(r, nodes, out, node, updated);
      if updated != out[node] {
        TotalShrinks(nodes, out, node, updated);
        out := out[node := updated];
        changed := true;
      }
    }
  }

  ghost predicate ExitsFixed(r: Region, pdom: map<Node, set<Node>>) {
    forall n :: n in pdom && n in r.exits ==> pdom[n] == {n}
  }

  /**
   * Chaotic iteration: overwrite entries in place until a pass changes nothing. The table it ends with is exactly
   * post-dominance over complete runs.
   */
  method ComputePostdominators(r: Region, nodes: seq<Node>) returns (pdom: map<Node, set<Node>>)
    requires forall n :: n in r.nodes ==> n in nodes
    ensures Covers(pdom, nodes)
    ensures forall n, q :: n in pdom ==> (q in pdom[n] <==> q in nodes && r.PostDominates(q, n))
  {
    var all := set n | n in nodes;
    pdom := map n | n in all :: if n in r.exits then {n} else all;
    StartDescending(r, nodes, pdom);

    var changed := true;
    while changed
      invariant Descending(r, nodes, pdom) && ExitsFixed(r, pdom)
      invariant !changed ==> forall j :: 0 <= j < |nodes| ==> Solved(r, pdom, nodes[j])
      decreases Total(nodes, pdom), changed
    {
      pdom, changed := Sweep(r, nodes, pdom);
    }
    SolvedIsPostDominance(r, nodes, pdom);
  }

  lemma StartDescending(r: Region, nodes: seq<Node>, pdom: map<Node, set<Node>>)
    requires Covers(pdom, nodes) && forall n :: n in r.nodes ==> n in nodes
    requires forall n :: n in pdom ==> pdom[n] == if n in r.exits then {n} else set m | m in nodes
    ensures Descending(r, nodes, pdom)
  {
    forall n, q | n in pdom && q in nodes && r.PostDominates(q, n)
      ensures q in pdom[n]
    {
      PostDominatesUnfolds(r, q, n);
    }
  }

  lemma SolvedIsPostDominance(r: Region, nodes: seq<Node>, pdom: map<Node, set<Node>>)
    requires Descending(r, nodes, pdom) && forall n :: n in pdom ==> Solved(r, pdom, n)
    ensures forall n, q :: n in pdom ==> (q in pdom[n] <==> q in nodes && r.PostDominates(q, n))
  {
    forall n, q | n in pdom && q in pdom[n]
      ensures q in nodes && r.PostDominates(q, n)
    {
      forall p | r.Complete(p) && p[0] == n
        ensures q in p
      {
        SolutionBelow(r, pdom, n, q, p);
      }
    }
  }

  /** The result is the greatest solution: any other solution is below it, entry by entry. */
  lemma GreatestSolution(r: Region, nodes: seq<Node>, pdom: map<Node, set<Node>>, other: map<Node, set<Node>>, n: Node)
    requires Covers(pdom, nodes) && n in pdom && Covers(other, nodes) && r.nodes <= other.Keys
    requires forall m, q :: m in pdom ==> (q in pdom[m] <==> q in nodes && r.PostDominates(q, m))
    requires forall m, q :: m in other && q in other[m] ==> q in nodes && r.InUpdate(other, m, q)
    ensures other[n] <= pdom[n]
  {
    forall q | q in other[n]
      ensures r.PostDominates(q, n)
    {
      forall p | r.Complete(p) && p[0] == n
        ensures q in p
      {
        SolutionBelow(r, other, n, q, p);
      }
    }
  }

  /** The result also solves the equations. */
  lemma PostDominanceIsSolution(r: Region, nodes: seq<Node>, pdom: map<Node, set<Node>>, n: Node, q: Node)
    requires Covers(pdom, nodes) && r.nodes <= pdom.Keys && n in pdom && q in nodes
    requires forall m, q :: m in pdom ==> (q in pdom[m] <==> q in nodes && r.PostDominates(q, m))
    ensures q in pdom[n] <==> r.InUpdate(pdom, n, q)
  {
    PostDominatesUnfolds(r, q, n);
  }

  /** A run that ends at an exit starts with a complete run when every dead end is an exit. */
  lemma {:induction false} CompletePrefix(r: Region, p: seq<Node>) returns (c: seq<Node>)
    requires r.ExitPath(p)
    ensures r.Complete(c) && c <= p
    decreases |p|
  {
    if r.Terminal(p[0]) {
      c := [p[0]];
    } else {
      assert r.ExitPath(p[1..]);
      c := CompletePrefix(r, p[1..]);
      Prepend(r, p[0], p[1], c);
      c := [p[0]] + c;
    }
  }

  /**
   * The code stops at dead ends as if they were exits, the documentation looks at exits only. The two notions agree
   * on all nodes exactly when every dead end is an exit, or there is just one node.
   */
  lemma AsDocumentedIff(r: Region, all: set<Node>)
    requires r.nodes <= all
    ensures (forall q, n :: q in all && n in all ==> (r.PostDominates(q, n) <==> r.OnEveryExitPath(q, n)))
            <==> (forall m :: m in all && r.DeadEnd(m) ==> m in r.exits || all == {m})
  {
    if forall m :: m in all && r.DeadEnd(m) ==> m in r.exits || all == {m} {
      forall q, n | q in all && n in all
        ensures r.PostDominates(q, n) <==> r.OnEveryExitPath(q, n)
      {
        NotionsAgree(r, all, q, n);
      }
    }
    forall m | m in all && r.DeadEnd(m) && m !in r.exits && all != {m}
      ensures exists q, n :: q in all && n in all && !(r.PostDominates(q, n) <==> r.OnEveryExitPath(q, n))
    {
      var q :| q in all && q != m;
      assert r.Complete([m]) && [m][0] == m;
      forall p
        ensures !(r.ExitPath(p) && p[0] == m)
      {
        NoExitPath(r, m, p);
      }
      assert r.OnEveryExitPath(q, m);
    }
  }

  lemma NoExitPath(r: Region, m: Node, p: seq<Node>)
    requires r.DeadEnd(m) && m !in r.exits
    ensures !(r.ExitPath(p) && p[0] == m)
  {
    if |p| > 1 && p[0] == m {
      assert !r.Step(p[0], p[1]);
    }
  }

  lemma NotionsAgree(r: Region, all: set<Node>, q: Node, n: Node)
    requires r.nodes <= all && q in all && n in all
    requires forall m :: m in all && r.DeadEnd(m) ==> m in r.exits || all == {m}
    ensures r.PostDominates(q, n) <==> r.OnEveryExitPath(q, n)
  {
    if r.PostDominates(q, n) {
      forall p | r.ExitPath(p) && p[0] == n
        ensures q in p
      {
        var c := CompletePrefix(r, p);
        assert q in c;
      }
    }
    if r.OnEveryExitPath(q, n) {
      forall p | r.Complete(p) && p[0] == n
        ensures q in p
      {
        var last := p[|p| - 1];
        assert |p| > 1 ==> r.Step(p[|p| - 2], p[|p| - 1]);
        assert last in all;
        if last in r.exits {
          assert r.ExitPath(p);
        } else {
          assert q == last;
        }
      }
    }
  }

  /** Two isolated nodes and no exit: the code keeps them apart, the documented notion is vacuous. */
  lemma DeadEndDiffers()
    ensures var r := Region(Cfg(map[]), {0, 1}, {});
            r.OnEveryExitPath(1, 0) && !r.PostDominates(1, 0)
  {
    var r := Region(Cfg(map[]), {0, 1}, {});
    assert r.Complete([0]) && [0][0] == 0;
  }

  /** An exit is post-dominated by itself only. */
  lemma ExitPostDominators(r: Region, q: Node, x: Node)
    requires x in r.exits
    ensures r.PostDominates(q, x) <==> q == x
  {
    PostDominatesUnfolds(r, q, x);
  }

  /** The steps that keep away from `x`. */
  ghost function Away(r: Region, x: Node): (e: Rel)
    ensures forall v: Node, w: Node :: (v, w) in e <==> r.Step(v, w) && v != x && w != x
  {
    set p | p in r.graph.Edges() && p.1 in r.nodes && p.0 != x && p.1 != x
  }

  /** Control can get from `n` to another exit or dead end without coming to `x`. */
  ghost predicate Escapes(r: Region, x: Node, n: Node) {
    exists s :: r.Terminal(s) && Reaches(Away(r, x), n, s)
  }

  lemma {:induction false} EscapingRun(r: Region, x: Node, p: seq<Node>) returns (c: seq<Node>)
    requires Walk(Away(r, x), p) && p[0] != x && r.Terminal(p[|p| - 1])
    ensures r.Complete(c) && c[0] == p[0] && x !in c
    decreases |p|
  {
    if r.Terminal(p[0]) {
      c := [p[0]];
    } else {
      assert (p[0], p[1]) in Away(r, x);
      SubWalk(Away(r, x), p, 1, |p|);
      assert p[1..|p|] == p[1..];
      c := EscapingRun(r, x, p[1..]);
      Prepend(r, p[0], p[1], c);
      c := [p[0]] + c;
    }
  }

  /** `x` post-dominates another node exactly when control cannot escape it from there. */
  lemma PostDominatesIffNoEscape(r: Region, x: Node, n: Node)
    requires n != x
    ensures r.PostDominates(x, n) <==> !Escapes(r, x, n)
  {
    if !r.PostDominates(x, n) {
      var p :| r.Complete(p) && p[0] == n && x !in p;
      forall i, j | 0 <= i && j == i + 1 && j < |p|
        ensures (p[i], p[j]) in Away(r, x)
      {
        assert p[i] in p && p[j] in p && r.Step(p[i], p[i + 1]);
      }
      assert WalkFromTo(Away(r, x), p, n, p[|p| - 1]);
    }
    if Escapes(r, x, n) {
      var s :| r.Terminal(s) && Reaches(Away(r, x), n, s);
      var p :| WalkFromTo(Away(r, x), p, n, s);
      var c := EscapingRun(r, x, p);
    }
  }

  /** An exit post-dominates only itself exactly when control can escape it from every other node. */
  lemma ExitPostDominatesOnlyItselfIff(r: Region, all: set<Node>, x: Node)
    ensures (forall n :: n in all && r.PostDominates(x, n) ==> n == x)
            <==> (forall n :: n in all && n != x ==> Escapes(r, x, n))
  {
    forall n | n in all && n != x
      ensures r.PostDominates(x, n) <==> !Escapes(r, x, n)
    {
      PostDominatesIffNoEscape(r, x, n);
    }
  }

  /** The only exit, 0, post-dominates the node 1 that leads to it. */
  lemma ExitPostDominatesOther()
    ensures Region(Cfg(map[1 := [0]]), {0, 1}, {0}).PostDominates(0, 1)
  {
    var r := Region(Cfg(map[1 := [0]]), {0, 1}, {0});
    assert r.Step(1, 0);
    PostDominatesUnfolds(r, 0, 0);
    PostDominatesUnfolds(r, 0, 1);
  }
}
