/** The depth-first iterators over a graph. */
module GraphTraversal {
  import opened Walks
  import opened Search
  import opened Cfgs
  import opened GraphTables
  import opened Semidominators
  import opened DepthFirstOrder

  datatype Mode = Directed | Undirected

  /** The end of an edge that a node's iterator hands out. */
  function Opposite(ends: Ends, v: Node): Node {
    if ends.from == v then ends.to else ends.from
  }

  /** Edge `e` of the incidence set of `v` takes the traversal to `w`; it leaves `v` if directions count. */
  ghost predicate Step(t: Tables, mode: Mode, v: Node, e: nat, w: Node) {
    && v in t.nodes && e in t.nodes[v] && e in t.edges
    && (t.edges[e] == Ends(v, w) || (mode == Undirected && t.edges[e].from == w && t.edges[e].from != v))
  }

  ghost function StepRel(t: Tables, mode: Mode): Walks.Rel {
    set v, e | v in t.nodes && e in t.nodes[v] && e in t.edges && Step(t, mode, v, e, Opposite(t.edges[e], v))
      :: (v, Opposite(t.edges[e], v))
  }

  lemma StepRelMeans(t: Tables, mode: Mode, v: Node, w: Node)
    ensures (v, w) in StepRel(t, mode) <==> exists e: nat :: Step(t, mode, v, e, w)
  {
    if e: nat :| Step(t, mode, v, e, w) {
      assert Step(t, mode, v, e, Opposite(t.edges[e], v));
    }
  }

  /** The directed traversal follows the successors. */
  lemma DirectedSteps(t: Tables)
    ensures StepRel(t, Directed) == t.Succ()
  {
    forall v: Node, w: Node
      ensures (v, w) in StepRel(t, Directed) <==> (v, w) in t.Succ()
    {
      StepRelMeans(t, Directed, v, w);
      assert forall e: nat :: Step(t, Directed, v, e, w) <==> t.Leads(v, e, w);
    }
  }

  /** As long as the tables agree the undirected traversal follows the listed edges both ways. */
  lemma UndirectedSteps(t: Tables, v: Node, w: Node)
    requires t.Agree()
    ensures (v, w) in StepRel(t, Undirected) <==> (v, w) in t.Listed() || (w, v) in t.Listed()
  {
    StepRelMeans(t, Undirected, v, w);
    forall e: nat
      ensures Step(t, Undirected, v, e, w) <==> t.Joins(e, v, w) || t.Joins(e, w, v)
    {
      UndirectedStep(t, v, e, w);
    }
  }

  lemma UndirectedStep(t: Tables, v: Node, e: nat, w: Node)
    requires t.Agree()
    ensures Step(t, Undirected, v, e, w) <==> t.Joins(e, v, w) || t.Joins(e, w, v)
  {
    if v in t.nodes {
      assert e in t.nodes[v] <==> t.Touches(e, v);
    }
  }

  ghost function Targets(stack: seq<(Option<nat>, Node)>): (r: seq<Node>)
    ensures |r| == |stack| && forall i :: 0 <= i < |r| ==> r[i] == stack[i].1
  {
    seq(|stack|, i requires 0 <= i < |stack| => stack[i].1)
  }

  /** The entry leads along its edge from the node numbered `p`; the root's entry comes from nowhere. */
  ghost predicate Arrives(t: Tables, mode: Mode, root: Node, order: seq<Node>, entry: (Option<nat>, Node), p: nat) {
    if order == [] then entry == (None, root)
    else entry.0.Some? && 1 <= p <= |order| && Step(t, mode, order[p - 1], entry.0.value, entry.1)
  }

  ghost predicate AllArrive(t: Tables, mode: Mode, root: Node, order: seq<Node>, stack: seq<(Option<nat>, Node)>,
                            source: seq<nat>)
  {
    |source| == |stack| && forall i :: 0 <= i < |stack| ==> Arrives(t, mode, root, order, stack[i], source[i])
  }

  /** The state of a traversal: a search that is depth-first so far, each stack entry with the edge it leads along. */
  ghost predicate Iterating(rel: Walks.Rel, root: Node, visited: set<Node>, s: Trace) {
    && (forall v :: v in visited <==> v in s.order)
    && Searching(rel, root, visited, s.targets)
    && s.Ok(rel, root)
  }

  /** What the iterator holds: such a search, and an edge of the graph for each stack entry. */
  ghost predicate Holds(t: Tables, mode: Mode, root: Node, visited: set<Node>, stack: seq<(Option<nat>, Node)>,
                        s: Trace)
  {
    && s.targets == Targets(stack) && AllArrive(t, mode, root, s.order, stack, s.source)
    && Iterating(StepRel(t, mode), root, visited, s)
  }

  class DfsIter {
    const t: Tables
    const mode: Mode
    ghost const root: Node
    var visited: set<Node>
    var stack: seq<(Option<nat>, Node)>
    /** The nodes in order of visit, and where each one and each stack entry came from. */
    ghost var trace: Trace

    ghost predicate Valid()
      reads this
    {
      t.Sound() && Holds(t, mode, root, visited, stack, trace)
    }

    constructor (t: Tables, mode: Mode, root: Node)
      requires t.Sound()
      ensures Valid() && trace.order == [] && trace.par == [0] && this.t == t && this.mode == mode && this.root == root
    {
      this.t, this.mode, this.root := t, mode, root;
      visited, stack := {}, [(None, root)];
      trace := Trace([], [0], [root], [0]);
      new;
      SearchStart(StepRel(t, mode), root);
      assert Targets(stack) == [root];
    }

    /**
     * The next unvisited node with the edge it was reached by, or nothing once all reachable nodes have been yielded.
     * `Valid` says that the visits so far are depth-first. The first call panics if the graph does not hold the root.
     */
    method Next() returns (item: Option<(Option<nat>, Node)>, panicked: bool, ghost p: nat)
      requires Valid()
      modifies this
      ensures true == Valid()
      ensures panicked <==> root !in t.nodes && old(trace.order) == []
      ensures panicked ==> item.None? && visited == {root}
      ensures item.None? && !panicked ==> trace.order == old(trace.order) && trace.par == old(trace.par)
      ensures item.None? && !panicked ==> forall v :: v in trace.order <==> Reaches(StepRel(t, mode), root, v)
      ensures item.Some? ==> item.value.1 !in old(trace.order) && trace.order == old(trace.order) + [item.value.1]
      ensures item.Some? ==> Reaches(StepRel(t, mode), root, item.value.1) && item.value.1 in t.nodes
      ensures item.Some? ==> trace.par == old(trace.par) + [p]
                             && Arrives(t, mode, root, old(trace.order), item.value, p)
    {
      while stack != []
        invariant true == Valid() && trace.order == old(trace.order) && trace.par == old(trace.par)
        decreases |stack|
      {
        var entry := stack[|stack| - 1];
        var below := stack[..|stack| - 1];
        if entry.1 in visited {
          Drop(below);
          continue;
        }
        TopExists(t, mode, root, visited, stack, trace);
        panicked, p := Visit(entry, below);
        return if panicked then None else Some(entry), panicked, p;
      }
      AllYielded(StepRel(t, mode), root, visited, trace);
      return None, false, 0;
    }

    /** Drops the top entry. */
    method Drop(below: seq<(Option<nat>, Node)>)
      requires true == Valid() && |stack| > 0 && stack[|stack| - 1].1 in visited && below == stack[..|stack| - 1]
      modifies this`stack, this`trace
      ensures true == Valid() && stack == below && trace.order == old(trace.order) && trace.par == old(trace.par)
    {
      SkipHolds(t, mode, root, visited, stack, trace);
      stack := below;
      trace := trace.Popped();
    }

    /** Marks the node of the top entry and pushes what it leads to; panics, once it is marked, if it does not exist. */
    method Visit(entry: (Option<nat>, Node), below: seq<(Option<nat>, Node)>) returns (panicked: bool, ghost p: nat)
      requires true == Valid() && |stack| > 0 && entry == stack[|stack| - 1] && below == stack[..|stack| - 1]
      requires entry.1 !in visited
      modifies this
      ensures true == Valid()
      ensures panicked <==> entry.1 !in t.nodes
      ensures visited == old(visited) + {entry.1}
      ensures entry.1 !in old(trace.order) && trace.order == old(trace.order) + [entry.1]
      ensures trace.par == old(trace.par) + [p] && true == Arrives(t, mode, root, old(trace.order), entry, p)
    {
      ghost var seen := visited;
      visited := visited + {entry.1};
      var pushed;
      panicked, pushed := PushEdges(entry.1);
      p := VisitHolds(t, mode, root, seen, stack, trace, entry, pushed);
      stack := below + pushed;
      trace := trace.Visited(Targets(pushed));
    }

    /** The entries for the edges of `node` that lead to unvisited nodes, in whatever order they come. */
    method PushEdges(node: Node) returns (panicked: bool, pushed: seq<(Option<nat>, Node)>)
      requires t.Sound()
      ensures panicked <==> node !in t.nodes
      ensures true == Entries(t, mode, node, visited, pushed)
    {
      panicked, pushed := node !in t.nodes, [];
      if panicked {
        return;
      }
      var rest := t.nodes[node];
      while rest != {}
        invariant rest <= t.nodes[node]
        invariant forall i :: 0 <= i < |pushed| ==>
                           pushed[i].0.Some? && Step(t, mode, node, pushed[i].0.value, pushed[i].1)
        invariant forall e: nat, w: nat :: Step(t, mode, node, e, w) && e !in rest ==>
                           w in visited || w in Targets(pushed)
        decreases |rest|
      {
        var e :| e in rest;
        rest := rest - {e};
        if mode == Directed && t.edges[e].from != node {
          continue;
        }
        var other := Opposite(t.edges[e], node);
        if other !in visited {
          ghost var was := pushed;
          pushed := pushed + [(Some(e), other)];
          assert Targets(pushed) == Targets(was) + [other];
        }
      }
      PushedHops(t, mode, node, visited, pushed);
    }
  }

  lemma NodeExists(t: Tables, mode: Mode, root: Node, v: Node)
    requires t.Sound() && Reaches(StepRel(t, mode), root, v)
    ensures v in t.nodes || v == root
    ensures root !in t.nodes ==> v == root
  {
    var p :| WalkFromTo(StepRel(t, mode), p, root, v);
    var all := if root in t.nodes then t.nodes.Keys else {root};
    forall x: Node, y: Node | (x, y) in StepRel(t, mode) && x in all
      ensures y in all
    {
      StepRelMeans(t, mode, x, y);
    }
    ClosedUnderWalk(StepRel(t, mode), all, p);
    assert p[|p| - 1] in p;
  }

  /** The entries lead along edges from `node`, to all its targets that have not been visited. */
  ghost predicate Entries(t: Tables, mode: Mode, node: Node, visited: set<Node>, pushed: seq<(Option<nat>, Node)>) {
    Along(t, mode, node, pushed) && Offers(StepRel(t, mode), node, visited, Targets(pushed))
  }

  ghost predicate Along(t: Tables, mode: Mode, node: Node, pushed: seq<(Option<nat>, Node)>) {
    forall i :: 0 <= i < |pushed| ==> pushed[i].0.Some? && Step(t, mode, node, pushed[i].0.value, pushed[i].1)
  }

  ghost predicate Offers(rel: Walks.Rel, node: Node, visited: set<Node>, targets: seq<Node>) {
    && (forall w :: w in targets ==> (node, w) in rel)
    && (forall w :: (node, w) in rel ==> w in visited || w in targets)
  }

  /** What has been pushed, in terms of node pairs only. */
  lemma PushedHops(t: Tables, mode: Mode, node: Node, visited: set<Node>, pushed: seq<(Option<nat>, Node)>)
    requires forall i :: 0 <= i < |pushed| ==> pushed[i].0.Some? && Step(t, mode, node, pushed[i].0.value, pushed[i].1)
    requires forall e: nat, w: nat :: Step(t, mode, node, e, w) ==> w in visited || w in Targets(pushed)
    ensures Entries(t, mode, node, visited, pushed)
  {
    forall w | w in Targets(pushed)
      ensures (node, w) in StepRel(t, mode)
    {
      var i :| 0 <= i < |pushed| && pushed[i].1 == w;
      assert Step(t, mode, node, pushed[i].0.value, w);
      StepRelMeans(t, mode, node, w);
    }
    forall w | (node, w) in StepRel(t, mode)
      ensures w in visited || w in Targets(pushed)
    {
      StepRelMeans(t, mode, node, w);
    }
  }

  /** Where the top entry comes from. */
  lemma TopEntry(t: Tables, mode: Mode, root: Node, visited: set<Node>, stack: seq<(Option<nat>, Node)>, s: Trace)
    returns (p: nat)
    requires true == Holds(t, mode, root, visited, stack, s) && |stack| > 0
    ensures s.order == [] ==> |stack| == 1
    ensures |s.source| == |s.targets| == |stack| && p == s.source[|stack| - 1]
    ensures s.targets[|stack| - 1] == stack[|stack| - 1].1
            && true == Arrives(t, mode, root, s.order, stack[|stack| - 1], p)
    ensures stack[|stack| - 1].1 in visited <==> stack[|stack| - 1].1 in s.order
  {
    p := s.source[|stack| - 1];
    assert s.targets[|stack| - 1] == stack[|stack| - 1].1;
  }

  /** Its node is one of the graph's, unless it is the root and the graph does not hold that. */
  lemma TopExists(t: Tables, mode: Mode, root: Node, visited: set<Node>, stack: seq<(Option<nat>, Node)>, s: Trace)
    requires t.Sound() && true == Holds(t, mode, root, visited, stack, s) && |stack| > 0
    requires stack[|stack| - 1].1 !in visited
    ensures Reaches(StepRel(t, mode), root, stack[|stack| - 1].1)
    ensures stack[|stack| - 1].1 !in t.nodes <==> root !in t.nodes && s.order == []
    ensures stack[|stack| - 1].1 !in t.nodes ==> visited + {stack[|stack| - 1].1} == {root}
  {
    assert s.targets[|stack| - 1] == stack[|stack| - 1].1;
    NodeExists(t, mode, root, stack[|stack| - 1].1);
  }

  lemma SkipHolds(t: Tables, mode: Mode, root: Node, visited: set<Node>, stack: seq<(Option<nat>, Node)>, s: Trace)
    requires true == Holds(t, mode, root, visited, stack, s) && |stack| > 0 && stack[|stack| - 1].1 in visited
    ensures |s.source| == |s.targets| == |stack|
    ensures true == Holds(t, mode, root, visited, stack[..|stack| - 1], s.Popped())
  {
    assert s.targets[|stack| - 1] == stack[|stack| - 1].1;
    Skipped(StepRel(t, mode), root, visited, s);
    SkipArrives(t, mode, root, s, stack);
  }

  lemma VisitHolds(t: Tables, mode: Mode, root: Node, visited: set<Node>, stack: seq<(Option<nat>, Node)>, s: Trace,
                   entry: (Option<nat>, Node), pushed: seq<(Option<nat>, Node)>) returns (p: nat)
    requires true == Holds(t, mode, root, visited, stack, s)
    requires |stack| > 0 && stack[|stack| - 1] == entry && entry.1 !in visited
    requires true == Entries(t, mode, entry.1, visited + {entry.1}, pushed)
    ensures |s.source| == |s.targets| == |stack|
    ensures true == Holds(t, mode, root, visited + {entry.1}, stack[..|stack| - 1] + pushed, s.Visited(Targets(pushed)))
    ensures entry.1 !in s.order && true == Arrives(t, mode, root, s.order, entry, p)
    ensures s.Visited(Targets(pushed)).order == s.order + [entry.1] && s.Visited(Targets(pushed)).par == s.par + [p]
  {
    p := TopEntry(t, mode, root, visited, stack, s);
    Expanded(StepRel(t, mode), root, visited, s, entry.1, Targets(pushed));
    VisitArrives(t, mode, root, s, stack, pushed);
  }

  lemma AllYielded(rel: Walks.Rel, root: Node, visited: set<Node>, s: Trace)
    requires true == Iterating(rel, root, visited, s) && s.targets == []
    ensures forall v :: v in s.order <==> Reaches(rel, root, v)
  {
    forall v
      ensures v in s.order <==> Reaches(rel, root, v)
    {
      SearchEnded(rel, root, visited, v);
    }
  }

  /** Dropping an entry whose node has been visited. */
  lemma Skipped(rel: Walks.Rel, root: Node, visited: set<Node>, s: Trace)
    requires true == Iterating(rel, root, visited, s) && |s.targets| > 0 && s.targets[|s.targets| - 1] in visited
    ensures true == Iterating(rel, root, visited, s.Popped())
  {
    SearchSkip(rel, root, visited, s.targets, s.targets[|s.targets| - 1], s.Popped().targets);
    PoppedOk(rel, root, s);
  }

  lemma SkipArrives(t: Tables, mode: Mode, root: Node, s: Trace, stack: seq<(Option<nat>, Node)>)
    requires |stack| > 0 && s.targets == Targets(stack) && AllArrive(t, mode, root, s.order, stack, s.source)
    ensures s.Popped().targets == Targets(stack[..|stack| - 1])
    ensures AllArrive(t, mode, root, s.order, stack[..|stack| - 1], s.Popped().source)
  {
  }

  /** Visiting the top entry's node. */
  lemma Expanded(rel: Walks.Rel, root: Node, visited: set<Node>, s: Trace, node: Node, pushed: seq<Node>)
    requires true == Iterating(rel, root, visited, s)
    requires |s.targets| > 0 && s.targets[|s.targets| - 1] == node && node !in visited
    requires true == Offers(rel, node, visited + {node}, pushed)
    ensures true == Iterating(rel, root, visited + {node}, s.Visited(pushed))
  {
    var b := s.Visited(pushed);
    ExpandedSearch(rel, root, visited, s.targets, node, pushed);
    assert forall v :: v in visited + {node} <==> v in b.order;
    VisitedOk(rel, root, s, pushed);
  }

  /** Visiting a node keeps the search in order. */
  lemma ExpandedSearch(rel: Walks.Rel, root: Node, visited: set<Node>, pending: seq<Node>, node: Node,
                       pushed: seq<Node>)
    requires |pending| > 0 && pending[|pending| - 1] == node && Searching(rel, root, visited, pending)
    requires forall w :: w in pushed ==> (node, w) in rel
    requires forall w :: (node, w) in rel ==> w in visited + {node} || w in pushed
    ensures Searching(rel, root, visited + {node}, pending[..|pending| - 1] + pushed)
  {
    SearchVisit(rel, root, visited, pending, node, pending[..|pending| - 1] + pushed);
  }

  /** Every entry on the stack still leads along its edge. */
  lemma VisitArrives(t: Tables, mode: Mode, root: Node, s: Trace, stack: seq<(Option<nat>, Node)>,
                     pushed: seq<(Option<nat>, Node)>)
    requires |stack| > 0 && s.targets == Targets(stack) && true == AllArrive(t, mode, root, s.order, stack, s.source)
    requires s.order == [] ==> |stack| == 1
    requires true == Along(t, mode, stack[|stack| - 1].1, pushed)
    ensures s.Visited(Targets(pushed)).targets == Targets(stack[..|stack| - 1] + pushed)
    ensures true == AllArrive(t, mode, root, s.Visited(Targets(pushed)).order, stack[..|stack| - 1] + pushed,
                              s.Visited(Targets(pushed)).source)
  {
    var b := s.Visited(Targets(pushed));
    var after := stack[..|stack| - 1] + pushed;
    forall i | 0 <= i < |after|
      ensures Arrives(t, mode, root, b.order, after[i], b.source[i])
    {
      if i < |stack| - 1 {
        assert Arrives(t, mode, root, s.order, stack[i], s.source[i]);
      } else {
        assert after[i] == pushed[i - (|stack| - 1)];
      }
    }
  }

  /** The items yielded so far, against the order and the parents the iterator has recorded. */
  ghost predicate Yielded(t: Tables, mode: Mode, root: Node, items: seq<(Option<nat>, Node)>, order: seq<Node>,
                          par: seq<nat>)
  {
    && order == Targets(items) && |par| == |items| + 1
    && forall i :: 0 <= i < |items| ==> Arrives(t, mode, root, order[..i], items[i], par[i + 1])
  }

  lemma YieldedMore(t: Tables, mode: Mode, root: Node, items: seq<(Option<nat>, Node)>, order: seq<Node>, par: seq<nat>,
                    item: (Option<nat>, Node), p: nat)
    requires Yielded(t, mode, root, items, order, par) && Arrives(t, mode, root, order, item, p)
    ensures Yielded(t, mode, root, items + [item], order + [item.1], par + [p])
  {
    var more := items + [item];
    forall i | 0 <= i < |more|
      ensures Arrives(t, mode, root, (order + [item.1])[..i], more[i], (par + [p])[i + 1])
    {
      assert (order + [item.1])[..i] == order[..i];
      assert i == |items| ==> order[..i] == order;
    }
  }

  /**
   * Draining the iterator: every reachable node once, the root first. `par` gives the number of the item each one was
   * reached from, by an edge of that item; the items so numbered are a depth-first spanning tree of the edges between
   * them, the same notion that the dominator analysis numbers its nodes by.
   */
  method Drain(t: Tables, mode: Mode, root: Node)
    returns (items: seq<(Option<nat>, Node)>, panicked: bool, ghost par: seq<nat>)
    requires t.Sound()
    ensures (panicked <==> root !in t.nodes) && (panicked ==> items == [])
    ensures !panicked ==> forall v :: v in Targets(items) <==> Reaches(StepRel(t, mode), root, v)
    ensures forall i, j :: 0 <= i < j < |items| ==> items[i].1 != items[j].1
    ensures !panicked ==> |items| > 0 && items[0] == (None, root)
    ensures !panicked ==> Yielded(t, mode, root, items, Targets(items), par)
    ensures !panicked ==> DfsTree(Numbered(StepRel(t, mode), Targets(items)), par)
  {
    var iter := new DfsIter(t, mode, root);
    items := [];
    while true
      invariant fresh(iter) && true == iter.Valid() && iter.t == t && iter.mode == mode && iter.root == root
      invariant true == Yielded(t, mode, root, items, iter.trace.order, iter.trace.par)
      invariant items != [] ==> root in t.nodes
      decreases t.nodes.Keys - iter.visited
    {
      ghost var before := iter.trace;
      var item; ghost var p;
      item, panicked, p := iter.Next();
      if panicked {
        return [], true, [];
      }
      if item.None? {
        break;
      }
      YieldedMore(t, mode, root, items, before.order, before.par, item.value, p);
      items := items + [item.value];
    }
    par := iter.trace.par;
    ReachesSelf(StepRel(t, mode), root);
    Drained(t, mode, root, items, iter.trace);
  }

  lemma Drained(t: Tables, mode: Mode, root: Node, items: seq<(Option<nat>, Node)>, s: Trace)
    requires s.TreeOk(StepRel(t, mode)) && s.order != [] && Yielded(t, mode, root, items, s.order, s.par)
    ensures items != [] && items[0] == (None, root)
    ensures forall i, j :: 0 <= i < j < |items| ==> items[i].1 != items[j].1
    ensures DfsTree(Numbered(StepRel(t, mode), Targets(items)), s.par)
  {
    VisitsAreDfsTree(StepRel(t, mode), s);
    assert Arrives(t, mode, root, s.order[..0], items[0], s.par[1]);
    forall i, j | 0 <= i < j < |items|
      ensures items[i].1 != items[j].1
    {
      assert s.order[i] != s.order[j];
    }
  }
}
