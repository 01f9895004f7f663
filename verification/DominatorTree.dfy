/** The queries of a dominator tree. */
module DominatorTrees {
  import opened Walks
  import opened Cfgs
  import opened Dominance
  import opened Dominators
  import opened SearchOrder

  /** The immediate dominators and predecessors of the nodes reachable from `root`. */
  datatype DominatorTree = DominatorTree(root: Node, idom: map<Node, Node>, preds: map<Node, seq<Node>>) {

    ghost predicate Correct(e: Rel) {
      CorrectIdom(e, root, idom) && CorrectPreds(e, root, preds)
    }
  }

  /** The reachable dominators of `n`, as a finite set. */
  ghost function Doms(e: Rel, root: Node, idom: map<Node, Node>, n: Node): set<Node> {
    set d | d in idom.Keys + {root} && Dominates(e, root, d, n)
  }

  lemma DomsStep(e: Rel, root: Node, idom: map<Node, Node>, n: Node)
    requires CorrectIdom(e, root, idom) && n in idom
    ensures idom[n] in idom || idom[n] == root
    ensures Doms(e, root, idom, n) == {n} + Doms(e, root, idom, idom[n])
    ensures n !in Doms(e, root, idom, idom[n])
  {
    DominatorReachable(e, root, idom[n], n);
    DominatorsOfIdom(e, root, idom[n], n, n);
    forall d
      ensures d in Doms(e, root, idom, n) <==> d in {n} + Doms(e, root, idom, idom[n])
    {
      DominatorsOfIdom(e, root, idom[n], n, d);
    }
  }

  lemma DomsRoot(e: Rel, root: Node, idom: map<Node, Node>)
    ensures Doms(e, root, idom, root) == {root}
  {
    forall d
      ensures Dominates(e, root, d, root) <==> d == root
    {
      RootDominators(e, root, d);
    }
  }

  lemma DomsMeaning(e: Rel, root: Node, idom: map<Node, Node>, n: Node, d: Node)
    requires CorrectIdom(e, root, idom) && Reaches(e, root, n)
    ensures d in Doms(e, root, idom, n) <==> Dominates(e, root, d, n)
  {
    if Dominates(e, root, d, n) {
      DominatorReachable(e, root, d, n);
    }
  }

  /** Walks every chain of immediate dominators up to the root. */
  method ComputeDominatorSets(idom: map<Node, Node>, root: Node, ghost e: Rel) returns (out: map<Node, set<Node>>)
    requires CorrectIdom(e, root, idom)
    ensures forall n :: n in out <==> Reaches(e, root, n)
    ensures forall n, d :: n in out ==> (d in out[n] <==> Dominates(e, root, d, n))
  {
    var rest := idom.Keys + {root};
    out := map[];
    while rest != {}
      invariant forall n :: n in idom || n == root <==> n in out || n in rest
      invariant forall n :: n in out ==> out[n] == Doms(e, root, idom, n)
      decreases |rest|
    {
      var n :| n in rest;
      rest := rest - {n};
      var s := Chain(idom, root, n, e);
      out := out[n := s];
    }
    DomsDecide(e, root, idom, out);
  }

  lemma DomsDecide(e: Rel, root: Node, idom: map<Node, Node>, sets: map<Node, set<Node>>)
    requires CorrectIdom(e, root, idom)
    requires forall n :: n in idom || n == root <==> n in sets
    requires forall n :: n in sets ==> sets[n] == Doms(e, root, idom, n)
    ensures forall n :: n in sets <==> Reaches(e, root, n)
    ensures forall n, d :: n in sets ==> (d in sets[n] <==> Dominates(e, root, d, n))
  {
    ReachesSelf(e, root);
    forall n, d | n in sets
      ensures d in sets[n] <==> Dominates(e, root, d, n)
    {
      DomsMeaning(e, root, idom, n, d);
    }
  }

  method Chain(idom: map<Node, Node>, ghost root: Node, n: Node, ghost e: Rel) returns (s: set<Node>)
    requires CorrectIdom(e, root, idom) && (n in idom || n == root)
    ensures s == Doms(e, root, idom, n)
  {
    s := {};
    var cursor := n;
    while true
      invariant cursor in idom || cursor == root
      invariant s + Doms(e, root, idom, cursor) == Doms(e, root, idom, n)
      decreases Doms(e, root, idom, cursor)
    {
      s := s + {cursor};
      if cursor in idom {
        DomsStep(e, root, idom, cursor);
        cursor := idom[cursor];
      } else {
        DomsRoot(e, root, idom);
        break;
      }
    }
  }

  method DecidesDominance(tree: DominatorTree, dominator: Node, node: Node, ghost e: Rel) returns (r: bool)
    requires tree.Correct(e)
    ensures r <==> Reaches(e, tree.root, node) && Dominates(e, tree.root, dominator, node)
  {
    var sets := ComputeDominatorSets(tree.idom, tree.root, e);
    r := node in sets && dominator in sets[node];
  }

  /** Inverts the immediate-dominator map: each node is listed once, under its immediate dominator. */
  method ChildrenMap(idom: map<Node, Node>) returns (children: map<Node, seq<Node>>)
    ensures forall p, n :: (p in children && n in children[p]) <==> (n in idom && idom[n] == p)
    ensures forall p, i, j :: p in children && 0 <= i < j < |children[p]| ==> children[p][i] != children[p][j]
    ensures forall p :: p in children ==> children[p] != []
  {
    children := map[];
    var rest := idom.Keys;
    while rest != {}
      invariant rest <= idom.Keys
      invariant forall p, n :: (p in children && n in children[p]) <==> (n in idom && n !in rest && idom[n] == p)
      invariant forall p, i, j :: p in children && 0 <= i < j < |children[p]| ==> children[p][i] != children[p][j]
      invariant forall p :: p in children ==> children[p] != []
      decreases |rest|
    {
      var n :| n in rest;
      rest := rest - {n};
      var p := idom[n];
      var old' := if p in children then children[p] else [];
      children := children[p := old' + [n]];
    }
  }

  /** The textbook dominance frontier: `n` dominates a reachable predecessor of `y` but not strictly `y` itself. */
  ghost predicate InFrontier(e: Rel, root: Node, n: Node, y: Node) {
    && Reaches(e, root, y)
    && !StrictlyDominates(e, root, n, y)
    && exists p: Node :: Reaches(e, root, p) && (p, y) in e && Dominates(e, root, n, p)
  }

  /** What one predecessor `p` contributes to the frontiers of `y`. */
  ghost predicate FrontierVia(e: Rel, root: Node, n: Node, p: Node, y: Node) {
    Dominates(e, root, n, p) && !StrictlyDominates(e, root, n, y)
  }

  /** Above `idom(y)` every dominator of a predecessor strictly dominates `y`, below it none does. */
  lemma FrontierCut(e: Rel, root: Node, idom: map<Node, Node>, p: Node, y: Node, n: Node)
    requires CorrectIdom(e, root, idom) && y in idom && Reaches(e, root, p) && (p, y) in e
    ensures Dominates(e, root, idom[y], p)
    ensures FrontierVia(e, root, n, p, y) <==> Dominates(e, root, n, p) && !Dominates(e, root, n, idom[y])
  {
    DominatesPredecessor(e, root, idom[y], p, y);
    DominatorsOfIdom(e, root, idom[y], y, n);
  }

  /** A node with a single predecessor is in no frontier: the predecessor is its immediate dominator. */
  lemma SinglePredecessor(e: Rel, root: Node, idom: map<Node, Node>, p: Node, y: Node, n: Node)
    requires CorrectIdom(e, root, idom) && y in idom && Reaches(e, root, p) && (p, y) in e
    requires forall q :: Reaches(e, root, q) && (q, y) in e ==> q == p
    ensures !FrontierVia(e, root, n, p, y)
  {
    forall t | WalkFromTo(e, t, root, y)
      ensures p in t
    {
      SubWalk(e, t, 0, |t| - 1);
      assert WalkFromTo(e, t[0..|t| - 1], root, t[|t| - 2]);
      assert (t[|t| - 2], t[|t| - 1]) in e;
    }
    DominatorsOfIdom(e, root, idom[y], y, p);
    FrontierCut(e, root, idom, p, y, y);
    if p == y {
      var t :| WalkFromTo(e, t, root, y);
      var q := FirstVisit(e, t, y);
      SubWalk(e, q, 0, |q| - 1);
      assert WalkFromTo(e, q[0..|q| - 1], root, q[|q| - 2]);
      assert (q[|q| - 2], q[|q| - 1]) in e;
      assert q[|q| - 2] in q[..|q| - 1];
    }
    if FrontierVia(e, root, n, p, y) {
      DominatesTrans(e, root, n, p, idom[y]);
      FrontierCut(e, root, idom, p, y, n);
    }
  }

  /** The inner loop: climb from `p` to `idom(y)`, adding `y` to the frontier of every node passed. */
  method Climb(idom: map<Node, Node>, ghost root: Node, p: Node, y: Node, frontier: map<Node, set<Node>>, ghost e: Rel)
    returns (out: map<Node, set<Node>>)
    requires CorrectIdom(e, root, idom) && y in idom && Reaches(e, root, p) && (p, y) in e
    requires frontier.Keys == idom.Keys + {root}
    ensures out.Keys == frontier.Keys
    ensures forall n, z :: n in out ==>
              (z in out[n] <==> z in frontier[n] || (z == y && FrontierVia(e, root, n, p, y)))
  {
    out := frontier;
    var runner := p;
    ghost var passed: set<Node> := {};
    FrontierCut(e, root, idom, p, y, p);
    while runner != idom[y]
      invariant runner in idom || runner == root
      invariant out.Keys == frontier.Keys
      invariant Dominates(e, root, idom[y], runner)
      invariant passed + Doms(e, root, idom, runner) == Doms(e, root, idom, p)
      invariant forall n :: n in passed ==> !Dominates(e, root, n, idom[y])
      invariant forall n, z :: n in out ==> (z in out[n] <==> z in frontier[n] || (z == y && n in passed))
      decreases Doms(e, root, idom, runner)
    {
      out := out[runner := out[runner] + {y}];
      passed := passed + {runner};
      if runner in idom {
        DomsStep(e, root, idom, runner);
        DominatorsOfIdom(e, root, idom[runner], runner, idom[y]);
        if Dominates(e, root, runner, idom[y]) {
          DominatorReachable(e, root, idom[y], p);
          DominatesAntisym(e, root, runner, idom[y]);
        }
        runner := idom[runner];
      } else {
        RootDominators(e, root, idom[y]);
        break;
      }
    }
    ReachesSelf(e, root);
    forall n | n in out
      ensures n in passed <==> FrontierVia(e, root, n, p, y)
    {
      FrontierCut(e, root, idom, p, y, n);
      DomsMeaning(e, root, idom, p, n);
      DomsMeaning(e, root, idom, runner, n);
    }
  }

  ghost predicate FrontierViaSome(e: Rel, root: Node, n: Node, ps: seq<Node>, y: Node) {
    exists j :: 0 <= j < |ps| && FrontierVia(e, root, n, ps[j], y)
  }

  lemma FrontierViaAll(tree: DominatorTree, e: Rel, n: Node, y: Node)
    requires tree.Correct(e) && y in tree.idom
    ensures y in tree.preds && (FrontierViaSome(e, tree.root, n, tree.preds[y], y) <==> InFrontier(e, tree.root, n, y))
  {
  }

  /** Fewer than two recorded predecessors: the loop's shortcut skips nothing. */
  lemma ShortcutSound(tree: DominatorTree, e: Rel, n: Node, y: Node)
    requires tree.Correct(e) && y in tree.idom && y in tree.preds && |tree.preds[y]| < 2
    ensures !InFrontier(e, tree.root, n, y)
  {
    FrontierViaAll(tree, e, n, y);
    var ps := tree.preds[y];
    if |ps| == 1 {
      assert ps[0] in ps;
      SinglePredecessor(e, tree.root, tree.idom, ps[0], y, n);
    }
  }

  /** All of one node's contributions. */
  method AddFrontiers(tree: DominatorTree, y: Node, frontier: map<Node, set<Node>>, ghost e: Rel)
    returns (out: map<Node, set<Node>>)
    requires tree.Correct(e) && y in tree.idom && y in tree.preds
    requires frontier.Keys == tree.idom.Keys + {tree.root}
    ensures out.Keys == frontier.Keys
    ensures forall n, z :: n in out ==>
              (z in out[n] <==> z in frontier[n] || (z == y && InFrontier(e, tree.root, n, y)))
  {
    out := frontier;
    var ps := tree.preds[y];
    for i := 0 to |ps|
      invariant out.Keys == frontier.Keys
      invariant forall n, z :: n in out ==>
                  (z in out[n] <==> z in frontier[n] || (z == y && FrontierViaSome(e, tree.root, n, ps[..i], y)))
    {
      assert ps[i] in ps;
      out := Climb(tree.idom, tree.root, ps[i], y, out, e);
      forall n
        ensures FrontierViaSome(e, tree.root, n, ps[..i + 1], y) <==>
                FrontierViaSome(e, tree.root, n, ps[..i], y) || FrontierVia(e, tree.root, n, ps[i], y)
      {
        ViaSomeStep(e, tree.root, n, ps, i, y);
      }
    }
    assert ps[..|ps|] == ps;
    forall n
      ensures FrontierViaSome(e, tree.root, n, ps, y) <==> InFrontier(e, tree.root, n, y)
    {
      FrontierViaAll(tree, e, n, y);
    }
  }

  lemma ViaSomeStep(e: Rel, root: Node, n: Node, ps: seq<Node>, i: nat, y: Node)
    requires i < |ps|
    ensures FrontierViaSome(e, root, n, ps[..i + 1], y) <==>
            FrontierViaSome(e, root, n, ps[..i], y) || FrontierVia(e, root, n, ps[i], y)
  {
  }

  /** The frontiers are complete for the nodes in `done` and hold nothing else. */
  ghost predicate FrontiersDone(e: Rel, root: Node, frontier: map<Node, set<Node>>, done: set<Node>) {
    forall n, y :: n in frontier ==> (y in frontier[n] <==> y in done && InFrontier(e, root, n, y))
  }

  lemma FrontiersStep(e: Rel, root: Node, before: map<Node, set<Node>>, after: map<Node, set<Node>>, done: set<Node>,
                      y: Node)
    requires FrontiersDone(e, root, before, done) && after.Keys == before.Keys
    requires forall n, z :: n in after ==> (z in after[n] <==> z in before[n] || (z == y && InFrontier(e, root, n, y)))
    ensures FrontiersDone(e, root, after, done + {y})
  {
  }

  lemma FrontiersComplete(tree: DominatorTree, e: Rel, frontier: map<Node, set<Node>>, done: set<Node>)
    requires tree.Correct(e) && FrontiersDone(e, tree.root, frontier, done)
    requires frontier.Keys == tree.idom.Keys + {tree.root} && forall y :: y in done <==> y in tree.idom
    ensures forall n :: n in frontier <==> Reaches(e, tree.root, n)
    ensures forall n, y :: n in frontier ==>
              (y in frontier[n] <==> y != tree.root && InFrontier(e, tree.root, n, y))
  {
    ReachesSelf(e, tree.root);
  }

  /** One round of the frontier loop: the root is passed over, a node with fewer than two predecessors as well. */
  method FrontierRound(tree: DominatorTree, y: Node, frontier: map<Node, set<Node>>, ghost done: set<Node>,
                       ghost e: Rel)
    returns (out: map<Node, set<Node>>)
    requires tree.Correct(e) && y in tree.preds
    requires frontier.Keys == tree.idom.Keys + {tree.root} && FrontiersDone(e, tree.root, frontier, done)
    ensures out.Keys == frontier.Keys
    ensures FrontiersDone(e, tree.root, out, if y in tree.idom then done + {y} else done)
  {
    if y !in tree.idom {
      return frontier;
    }
    if |tree.preds[y]| < 2 {
      forall n
        ensures !InFrontier(e, tree.root, n, y)
      {
        ShortcutSound(tree, e, n, y);
      }
      out := frontier;
    } else {
      out := AddFrontiers(tree, y, frontier, e);
    }
    FrontiersStep(e, tree.root, frontier, out, done, y);
  }

  /** The frontier of every node, by climbing from the predecessors of every join. */
  method DominatorFrontier(tree: DominatorTree, ghost e: Rel) returns (frontier: map<Node, set<Node>>)
    requires tree.Correct(e)
    ensures forall n :: n in frontier <==> Reaches(e, tree.root, n)
    ensures forall n, y :: n in frontier ==>
              (y in frontier[n] <==> y != tree.root && InFrontier(e, tree.root, n, y))
  {
    frontier := map n | n in tree.idom.Keys + {tree.root} :: {};
    var rest := tree.preds.Keys;
    ghost var done: set<Node> := {};
    while rest != {}
      invariant rest <= tree.preds.Keys
      invariant frontier.Keys == tree.idom.Keys + {tree.root}
      invariant forall y :: y in done <==> y in tree.idom && y !in rest
      invariant FrontiersDone(e, tree.root, frontier, done)
      decreases |rest|
    {
      var y :| y in rest;
      rest := rest - {y};
      frontier := FrontierRound(tree, y, frontier, done, e);
      done := if y in tree.idom then done + {y} else done;
    }
    FrontiersComplete(tree, e, frontier, done);
  }

  /**
   * The documented frontiers also list the root wherever control flows back to it, which the computed ones never do:
   * the map that `DominatorFrontier` returns is the documented one exactly when no reachable edge enters the root.
   */
  lemma FrontierAsDocumentedIff(tree: DominatorTree, e: Rel, frontier: map<Node, set<Node>>)
    requires tree.Correct(e) && forall n :: n in frontier <==> Reaches(e, tree.root, n)
    requires forall n, y :: n in frontier ==> (y in frontier[n] <==> y != tree.root && InFrontier(e, tree.root, n, y))
    ensures (forall n, y :: n in frontier ==> (y in frontier[n] <==> InFrontier(e, tree.root, n, y)))
            <==> (forall p: Node :: Reaches(e, tree.root, p) ==> (p, tree.root) !in e)
  {
    ReachesSelf(e, tree.root);
    forall p: Node | Reaches(e, tree.root, p) && (p, tree.root) in e
      ensures p in frontier && InFrontier(e, tree.root, p, tree.root)
    {
      DominatesSelf(e, tree.root, p);
      RootDominators(e, tree.root, p);
    }
  }

  /** A root that jumps to itself is in its own documented frontier. */
  lemma FrontierOmitsRoot()
    ensures InFrontier({(0, 0)}, 0, 0, 0)
  {
    ReachesSelf({(0, 0)}, 0);
    DominatesSelf({(0, 0)}, 0, 0);
  }

  /** The dominator tree of everything reachable from `root`. */
  method ComputeDominators(graph: Cfg, root: Node) returns (tree: DominatorTree)
    ensures tree.root == root && tree.Correct(graph.Edges()) && CountedPreds(graph, root, tree.preds)
  {
    var nodes; ghost var par;
    nodes, par := ReachableFromRoot(graph, root);
    var nodeSet := set n | n in nodes;
    var result := RunLengauerTarjan(graph, nodeSet, root);
    tree := DominatorTree(root, result.idom, result.preds);
    ReachesSelf(graph.Edges(), root);
    InducedCorrect(graph, nodeSet, tree);
  }

  /** What is correct for the reachable part is correct for the whole graph. */
  lemma InducedCorrect(graph: Cfg, nodes: set<Node>, tree: DominatorTree)
    requires forall v :: v in nodes <==> Reaches(graph.Edges(), tree.root, v)
    requires tree.Correct(graph.Induced(nodes))
    ensures tree.Correct(graph.Edges())
  {
    InducedAgrees(graph, nodes, tree.root);
    forall w | w in tree.idom
      ensures IsImmediateDominator(graph.Edges(), tree.root, tree.idom[w], w)
    {
      assert IsImmediateDominator(graph.Induced(nodes), tree.root, tree.idom[w], w);
    }
  }

  /** Restricting the graph to the reachable nodes changes none of the walks from the root. */
  lemma InducedWalks(graph: Cfg, nodes: set<Node>, root: Node, p: seq<Node>)
    requires forall v :: v in nodes <==> Reaches(graph.Edges(), root, v)
    requires |p| > 0 && p[0] == root
    ensures Walk(graph.Edges(), p) <==> Walk(graph.Induced(nodes), p)
  {
    if Walk(graph.Edges(), p) {
      ReachesSelf(graph.Edges(), root);
      forall x, y | (x, y) in graph.Edges() && x in nodes
        ensures y in nodes
      {
        ReachesStep(graph.Edges(), root, x, y);
      }
      ClosedUnderWalk(graph.Edges(), nodes, p);
    }
  }

  lemma InducedAgrees(graph: Cfg, nodes: set<Node>, root: Node)
    requires forall v :: v in nodes <==> Reaches(graph.Edges(), root, v)
    ensures forall w :: Reaches(graph.Edges(), root, w) <==> Reaches(graph.Induced(nodes), root, w)
    ensures forall d, w :: Dominates(graph.Edges(), root, d, w) <==> Dominates(graph.Induced(nodes), root, d, w)
  {
    var e, e' := graph.Edges(), graph.Induced(nodes);
    forall p, w
      ensures WalkFromTo(e, p, root, w) <==> WalkFromTo(e', p, root, w)
    {
      if |p| > 0 && p[0] == root {
        InducedWalks(graph, nodes, root, p);
      }
    }
    forall d, w
      ensures Dominates(e, root, d, w) <==> Dominates(e', root, d, w)
    {
    }
  }
}
