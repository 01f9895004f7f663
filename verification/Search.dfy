/** What a graph search keeps true, whatever order it takes its pending nodes in. */
module Search {
  import opened Walks

  /** Every node a search from `root` can come across. */
  ghost function Universe(e: Rel, root: Node): set<Node> {
    {root} + set p | p in e :: p.1
  }

  /** Everything seen is reachable, and nothing leads out of the visited nodes but to the pending ones. */
  ghost predicate Searching(e: Rel, root: Node, visited: set<Node>, pending: seq<Node>) {
    && (forall v :: v in pending || v in visited ==> Reaches(e, root, v) && v in Universe(e, root))
    && (root in visited || root in pending)
    && (forall v, w :: (v, w) in e && v in visited ==> w in visited || w in pending)
  }

  lemma SearchStart(e: Rel, root: Node)
    ensures Searching(e, root, {}, [root])
  {
    ReachesSelf(e, root);
  }

  /** Visiting a pending node and adding its unvisited targets. */
  lemma SearchVisit(e: Rel, root: Node, visited: set<Node>, pending: seq<Node>, node: Node, next: seq<Node>)
    requires Searching(e, root, visited, pending) && node in pending
    requires forall v :: v in pending && v != node ==> v in next
    requires forall v :: v in next ==> v in pending || (node, v) in e
    requires forall v :: (node, v) in e ==> v in visited + {node} || v in next
    ensures Searching(e, root, visited + {node}, next)
  {
    forall v | v in next
      ensures Reaches(e, root, v) && v in Universe(e, root)
    {
      if v !in pending {
        ReachesStep(e, root, node, v);
        assert (node, v) in e && (node, v).1 == v;
      }
    }
  }

  /** Dropping a pending node that has been visited before. */
  lemma SearchSkip(e: Rel, root: Node, visited: set<Node>, pending: seq<Node>, node: Node, next: seq<Node>)
    requires Searching(e, root, visited, pending) && node in visited
    requires forall v :: v in pending && v != node ==> v in next
    requires forall v :: v in next ==> v in pending
    ensures Searching(e, root, visited, next)
  {
  }

  lemma SearchEnded(e: Rel, root: Node, visited: set<Node>, v: Node)
    requires Searching(e, root, visited, [])
    ensures v in visited <==> Reaches(e, root, v)
  {
    if Reaches(e, root, v) {
      var p :| WalkFromTo(e, p, root, v);
      ClosedUnderWalk(e, visited, p);
    }
  }
}
