/** The forward search from a root: depth-first, and of a node's successors the last one in iterator order first. */
module SearchOrder {
  import opened Counting
  import opened Walks
  import opened Search
  import opened Cfgs
  import opened PreorderTree
  import opened Semidominators
  import opened DepthFirstOrder

  /** `v` is at one of the positions `lo` to `hi - 1`. */
  ghost predicate Within(s: seq<Node>, lo: nat, hi: nat, v: Node) {
    exists h: nat :: lo <= h < hi && h < |s| && s[h] == v
  }

  /** `v` is among the first `hi` visited nodes or the stack entries from `lo` on. */
  ghost predicate Taken(order: seq<Node>, hi: nat, stack: seq<Node>, lo: nat, v: Node) {
    Within(order, 0, hi, v) || Within(stack, lo, |stack|, v)
  }

  /** Node `w` is a successor, and every later successor is among those visited nodes and stack entries. */
  ghost predicate Due(succs: seq<Node>, w: Node, order: seq<Node>, hi: nat, stack: seq<Node>, lo: nat) {
    exists k: nat :: DueAt(succs, k, w, order, hi, stack, lo)
  }

  ghost predicate DueAt(succs: seq<Node>, k: nat, w: Node, order: seq<Node>, hi: nat, stack: seq<Node>, lo: nat) {
    k < |succs| && succs[k] == w && forall j :: k < j < |succs| ==> Taken(order, hi, stack, lo, succs[j])
  }

  lemma DueLater(succs: seq<Node>, w: Node, order: seq<Node>, hi: nat, stack: seq<Node>, lo: nat,
                 order': seq<Node>, hi': nat, stack': seq<Node>, lo': nat)
    requires true == Due(succs, w, order, hi, stack, lo)
    requires forall v :: Taken(order, hi, stack, lo, v) ==> Taken(order', hi', stack', lo', v)
    ensures true == Due(succs, w, order', hi', stack', lo')
  {
    var k: nat :| DueAt(succs, k, w, order, hi, stack, lo);
    assert DueAt(succs, k, w, order', hi', stack', lo');
  }

  /** Of its parent's successors the node numbered `w` is the last one that had not been visited before it. */
  ghost predicate LastOfRest(graph: Cfg, order: seq<Node>, par: seq<nat>, w: nat) {
    2 <= w <= |order| && w < |par| && 1 <= par[w] < w
    && Due(graph.Successors(order[par[w] - 1]), order[w - 1], order, w - 1, [], 0)
  }

  /** Each stack entry comes after the visited nodes and the higher entries only. */
  ghost predicate EntryDue(graph: Cfg, order: seq<Node>, stack: seq<Node>, source: seq<nat>, i: nat)
    requires i < |stack| == |source|
  {
    1 <= source[i] <= |order|
    && Due(graph.Successors(order[source[i] - 1]), stack[i], order, |order|, stack, i + 1)
  }

  ghost predicate AllDue(graph: Cfg, order: seq<Node>, stack: seq<Node>, source: seq<nat>) {
    |stack| == |source| && forall i: nat :: i < |stack| ==> EntryDue(graph, order, stack, source, i)
  }

  ghost predicate AllLast(graph: Cfg, order: seq<Node>, par: seq<nat>) {
    |par| == |order| + 1 && forall w: nat :: 2 <= w <= |order| ==> LastOfRest(graph, order, par, w)
  }

  lemma DroppedTaken(order: seq<Node>, stack: seq<Node>, node: Node, lo: nat, v: Node)
    requires Taken(order, |order|, stack + [node], lo, v) && node in order
    ensures Taken(order, |order|, stack, lo, v)
  {
    if Within(stack + [node], lo, |stack| + 1, v) {
      var h: nat :| lo <= h < |stack| + 1 && (stack + [node])[h] == v;
      assert h < |stack| ==> stack[h] == v;
    }
  }

  /** The top entry is dropped because its node has been visited. */
  lemma DroppedDue(graph: Cfg, order: seq<Node>, stack: seq<Node>, source: seq<nat>, node: Node, p: nat)
    requires AllDue(graph, order, stack + [node], source + [p]) && node in order
    ensures true == AllDue(graph, order, stack, source)
  {
    forall i: nat | i < |stack|
      ensures EntryDue(graph, order, stack, source, i)
    {
      assert EntryDue(graph, order, stack + [node], source + [p], i);
      var lo := i + 1;
      forall v | Taken(order, |order|, stack + [node], lo, v)
        ensures Taken(order, |order|, stack, lo, v)
      {
        DroppedTaken(order, stack, node, lo, v);
      }
      DueLater(graph.Successors(order[source[i] - 1]), stack[i], order, |order|, stack + [node], i + 1,
               order, |order|, stack, i + 1);
    }
  }

  lemma VisitedTaken(order: seq<Node>, stack: seq<Node>, node: Node, pushed: seq<Node>, lo: nat, v: Node)
    requires Taken(order, |order|, stack + [node], lo, v)
    ensures Taken(order + [node], |order| + 1, stack + pushed, lo, v)
  {
    if Within(order, 0, |order|, v) {
      var h: nat :| h < |order| && order[h] == v;
      assert (order + [node])[h] == v;
    } else {
      var h: nat :| lo <= h < |stack| + 1 && (stack + [node])[h] == v;
      if h < |stack| {
        assert (stack + pushed)[h] == v;
      } else {
        assert (order + [node])[|order|] == v;
      }
    }
  }

  lemma DueVisited(succs: seq<Node>, w: Node, order: seq<Node>, stack: seq<Node>, node: Node, pushed: seq<Node>,
                   lo: nat)
    requires true == Due(succs, w, order, |order|, stack + [node], lo)
    ensures true == Due(succs, w, order + [node], |order| + 1, stack + pushed, lo)
  {
    var hi := |order| + 1;
    forall v | Taken(order, |order|, stack + [node], lo, v)
      ensures Taken(order + [node], hi, stack + pushed, lo, v)
    {
      VisitedTaken(order, stack, node, pushed, lo, v);
    }
    DueLater(succs, w, order, |order|, stack + [node], lo, order + [node], hi, stack + pushed, lo);
  }

  /** The entries below the one that is visited stay in line. */
  lemma KeptDue(graph: Cfg, order: seq<Node>, stack: seq<Node>, source: seq<nat>, node: Node, p: nat,
                pushed: seq<Node>, more: seq<nat>, i: nat)
    requires |stack| == |source| && |pushed| == |more| && i < |stack|
    requires true == EntryDue(graph, order, stack + [node], source + [p], i)
    ensures true == EntryDue(graph, order + [node], stack + pushed, source + more, i)
  {
    DueVisited(graph.Successors(order[source[i] - 1]), stack[i], order, stack, node, pushed, i + 1);
  }

  /** What has been pushed for a node: each entry with the later ones above it. */
  ghost predicate PushedInLine(succs: seq<Node>, order: seq<Node>, pushed: seq<Node>) {
    forall q: nat :: q < |pushed| ==> PushedDue(succs, order, pushed, q)
  }

  ghost predicate PushedDue(succs: seq<Node>, order: seq<Node>, pushed: seq<Node>, q: nat)
    requires q < |pushed|
  {
    Due(succs, pushed[q], order, |order|, pushed, q + 1)
  }

  lemma HigherTaken(order: seq<Node>, stack: seq<Node>, pushed: seq<Node>, q: nat, v: Node)
    requires Taken(order, |order|, pushed, q + 1, v)
    ensures Taken(order, |order|, stack + pushed, |stack| + q + 1, v)
  {
    if Within(pushed, q + 1, |pushed|, v) {
      var h: nat :| q + 1 <= h < |pushed| && pushed[h] == v;
      assert (stack + pushed)[|stack| + h] == v;
    }
  }

  lemma NewDue(graph: Cfg, order: seq<Node>, stack: seq<Node>, source: seq<nat>, node: Node, pushed: seq<Node>,
               more: seq<nat>, q: nat)
    requires |stack| == |source| && |pushed| == |more| && q < |pushed| && more[q] == |order| + 1
    requires true == PushedDue(graph.Successors(node), order + [node], pushed, q)
    ensures true == EntryDue(graph, order + [node], stack + pushed, source + more, |stack| + q)
  {
    var hi, lo, higher := |order| + 1, q + 1, |stack| + q + 1;
    forall v | Taken(order + [node], hi, pushed, lo, v)
      ensures Taken(order + [node], hi, stack + pushed, higher, v)
    {
      HigherTaken(order + [node], stack, pushed, q, v);
    }
    DueLater(graph.Successors(node), pushed[q], order + [node], |order| + 1, pushed, q + 1,
             order + [node], |order| + 1, stack + pushed, |stack| + q + 1);
  }

  /** The top entry's node is visited and its entries take the place of the entry. */
  lemma VisitedDue(graph: Cfg, order: seq<Node>, stack: seq<Node>, source: seq<nat>, node: Node, p: nat,
                   pushed: seq<Node>, more: seq<nat>)
    requires |stack| == |source| && |pushed| == |more| && forall q :: 0 <= q < |more| ==> more[q] == |order| + 1
    requires forall i: nat :: i < |stack| ==> EntryDue(graph, order, stack + [node], source + [p], i)
    requires true == PushedInLine(graph.Successors(node), order + [node], pushed)
    ensures true == AllDue(graph, order + [node], stack + pushed, source + more)
  {
    forall i: nat | i < |stack + pushed|
      ensures EntryDue(graph, order + [node], stack + pushed, source + more, i)
    {
      if i < |stack| {
        KeptDue(graph, order, stack, source, node, p, pushed, more, i);
      } else {
        assert PushedDue(graph.Successors(node), order + [node], pushed, i - |stack|);
        NewDue(graph, order, stack, source, node, pushed, more, i - |stack|);
      }
    }
  }

  lemma PrefixTaken(order: seq<Node>, node: Node, hi: nat, v: Node)
    requires hi <= |order|
    ensures Taken(order, hi, [], 0, v) <==> Taken(order + [node], hi, [], 0, v)
  {
    if Within(order, 0, hi, v) {
      var h: nat :| h < hi && h < |order| && order[h] == v;
      assert (order + [node])[h] == v;
    }
    if Within(order + [node], 0, hi, v) {
      var h: nat :| h < hi && (order + [node])[h] == v;
      assert order[h] == v;
    }
  }

  lemma LastKept(graph: Cfg, order: seq<Node>, par: seq<nat>, w: nat, node: Node, p: nat)
    requires true == LastOfRest(graph, order, par, w)
    ensures true == LastOfRest(graph, order + [node], par + [p], w)
  {
    var hi := w - 1;
    forall v | Taken(order, hi, [], 0, v)
      ensures Taken(order + [node], hi, [], 0, v)
    {
      PrefixTaken(order, node, hi, v);
    }
    DueLater(graph.Successors(order[par[w] - 1]), order[w - 1], order, w - 1, [], 0, order + [node], w - 1, [], 0);
  }

  lemma DueTop(succs: seq<Node>, w: Node, order: seq<Node>, stack: seq<Node>, node: Node)
    requires true == Due(succs, w, order, |order|, stack, |stack|)
    ensures true == Due(succs, w, order + [node], |order|, [], 0)
  {
    forall v | Taken(order, |order|, stack, |stack|, v)
      ensures Taken(order + [node], |order|, [], 0, v)
    {
      PrefixTaken(order, node, |order|, v);
    }
    DueLater(succs, w, order, |order|, stack, |stack|, order + [node], |order|, [], 0);
  }

  lemma TopLast(graph: Cfg, order: seq<Node>, par: seq<nat>, stack: seq<Node>, source: seq<nat>, node: Node, p: nat)
    requires |stack| == |source| && |par| == |order| + 1
    requires true == EntryDue(graph, order, stack + [node], source + [p], |stack|)
    ensures true == LastOfRest(graph, order + [node], par + [p], |order| + 1)
  {
    DueTop(graph.Successors(order[p - 1]), node, order, stack + [node], node);
  }

  lemma VisitedLast(graph: Cfg, order: seq<Node>, par: seq<nat>, stack: seq<Node>, source: seq<nat>, node: Node, p: nat)
    requires AllLast(graph, order, par) && |stack| == |source|
    requires order != [] ==> true == EntryDue(graph, order, stack + [node], source + [p], |stack|)
    ensures true == AllLast(graph, order + [node], par + [p])
  {
    forall w: nat | 2 <= w <= |order| + 1
      ensures LastOfRest(graph, order + [node], par + [p], w)
    {
      if w <= |order| {
        assert LastOfRest(graph, order, par, w);
        LastKept(graph, order, par, w, node, p);
      } else {
        TopLast(graph, order, par, stack, source, node, p);
      }
    }
  }

  ghost predicate InLine(graph: Cfg, s: Trace) {
    AllLast(graph, s.order, s.par) && (s.order != [] ==> AllDue(graph, s.order, s.targets, s.source))
  }

  lemma PoppedInLine(graph: Cfg, s: Trace)
    requires InLine(graph, s) && s.order != [] && |s.targets| == |s.source| > 0
    requires s.targets[|s.targets| - 1] in s.order
    ensures InLine(graph, s.Popped())
  {
    var top := |s.targets| - 1;
    assert s.targets == s.targets[..top] + [s.targets[top]] && s.source == s.source[..top] + [s.source[top]];
    DroppedDue(graph, s.order, s.targets[..top], s.source[..top], s.targets[top], s.source[top]);
  }

  lemma VisitedInLine(graph: Cfg, s: Trace, pushed: seq<Node>)
    requires InLine(graph, s) && |s.targets| == |s.source| > 0 && (s.order == [] ==> |s.targets| == 1)
    requires true == PushedInLine(graph.Successors(s.targets[|s.targets| - 1]), s.order + [s.targets[|s.targets| - 1]],
                                  pushed)
    ensures InLine(graph, s.Visited(pushed))
  {
    var top := |s.targets| - 1;
    var node, p, more := s.targets[top], s.source[top], seq(|pushed|, i => |s.order| + 1);
    assert s.targets == s.targets[..top] + [node] && s.source == s.source[..top] + [p];
    VisitedDue(graph, s.order, s.targets[..top], s.source[..top], node, p, pushed, more);
    VisitedLast(graph, s.order, s.par, s.targets[..top], s.source[..top], node, p);
  }

  lemma StillTaken(order: seq<Node>, pushed: seq<Node>, w: Node, lo: nat, v: Node)
    requires Taken(order, |order|, pushed, lo, v)
    ensures Taken(order, |order|, pushed + [w], lo, v)
  {
    if Within(pushed, lo, |pushed|, v) {
      var h: nat :| lo <= h < |pushed| && pushed[h] == v;
      assert (pushed + [w])[h] == v;
    }
  }

  /** One more successor, which has been visited or is pushed on top. */
  lemma DueOneMore(succs: seq<Node>, x: Node, w: Node, order: seq<Node>, stack: seq<Node>, lo: nat)
    requires true == Due(succs, w, order, |order|, stack, lo) && Taken(order, |order|, stack, lo, x)
    ensures true == Due(succs + [x], w, order, |order|, stack, lo)
  {
    var k: nat :| DueAt(succs, k, w, order, |order|, stack, lo);
    assert DueAt(succs + [x], k, w, order, |order|, stack, lo);
  }

  lemma VisitedSuccessor(succs: seq<Node>, x: Node, order: seq<Node>, pushed: seq<Node>)
    requires PushedInLine(succs, order, pushed) && x in order
    ensures PushedInLine(succs + [x], order, pushed)
  {
    assert Within(order, 0, |order|, x);
    forall q: nat | q < |pushed|
      ensures PushedDue(succs + [x], order, pushed, q)
    {
      assert PushedDue(succs, order, pushed, q);
      DueOneMore(succs, x, pushed[q], order, pushed, q + 1);
    }
  }

  lemma PushedSuccessor(succs: seq<Node>, x: Node, order: seq<Node>, pushed: seq<Node>)
    requires PushedInLine(succs, order, pushed)
    ensures PushedInLine(succs + [x], order, pushed + [x])
  {
    var more := pushed + [x];
    forall q: nat | q < |more|
      ensures PushedDue(succs + [x], order, more, q)
    {
      if q < |pushed| {
        assert PushedDue(succs, order, pushed, q);
        var lo := q + 1;
        forall v | Taken(order, |order|, pushed, lo, v)
          ensures Taken(order, |order|, more, lo, v)
        {
          StillTaken(order, pushed, x, lo, v);
        }
        DueLater(succs, pushed[q], order, |order|, pushed, q + 1, order, |order|, more, q + 1);
        assert more[|pushed|] == x;
        DueOneMore(succs, x, pushed[q], order, more, q + 1);
      } else {
        assert DueAt(succs + [x], |succs|, x, order, |order|, more, q + 1);
      }
    }
  }

  /** The successors that have not been visited, in iterator order. */
  method Unvisited(succs: seq<Node>, visited: set<Node>, ghost order: seq<Node>) returns (pushed: seq<Node>)
    requires forall v :: v in visited <==> v in order
    ensures forall v :: v in pushed <==> v in succs && v !in visited
    ensures true == PushedInLine(succs, order, pushed)
  {
    pushed := [];
    for i := 0 to |succs|
      invariant forall v :: v in pushed <==> v in succs[..i] && v !in visited
      invariant true == PushedInLine(succs[..i], order, pushed)
    {
      assert succs[..i + 1] == succs[..i] + [succs[i]];
      if succs[i] !in visited {
        PushedSuccessor(succs[..i], succs[i], order, pushed);
        pushed := pushed + [succs[i]];
      } else {
        VisitedSuccessor(succs[..i], succs[i], order, pushed);
      }
    }
    assert succs[..|succs|] == succs;
  }

  /** A search that is depth-first and in line, each stack entry and visited node accounted for. */
  ghost predicate Searched(graph: Cfg, root: Node, visited: set<Node>, s: Trace) {
    && (forall v :: v in visited <==> v in s.order)
    && Searching(graph.Edges(), root, visited, s.targets)
    && s.Ok(graph.Edges(), root) && InLine(graph, s)
    && (s.order != [] ==> s.order[0] == root)
  }

  lemma SearchedStart(graph: Cfg, root: Node)
    ensures Searched(graph, root, {}, Trace([], [0], [root], [0]))
  {
    SearchStart(graph.Edges(), root);
  }

  lemma SearchedPopped(graph: Cfg, root: Node, visited: set<Node>, s: Trace)
    requires Searched(graph, root, visited, s) && |s.targets| > 0 && s.targets[|s.targets| - 1] in visited
    ensures Searched(graph, root, visited, s.Popped())
  {
    var top := |s.targets| - 1;
    assert s.targets == s.Popped().targets + [s.targets[top]];
    SearchSkip(graph.Edges(), root, visited, s.targets, s.targets[top], s.Popped().targets);
    PoppedOk(graph.Edges(), root, s);
    PoppedInLine(graph, s);
  }

  lemma SearchedVisited(graph: Cfg, root: Node, visited: set<Node>, s: Trace, node: Node, pushed: seq<Node>)
    requires Searched(graph, root, visited, s) && |s.targets| > 0
    requires node == s.targets[|s.targets| - 1] && node !in visited
    requires forall v :: v in pushed <==> v in graph.Successors(node) && v !in visited + {node}
    requires PushedInLine(graph.Successors(node), s.order + [node], pushed)
    ensures Searched(graph, root, visited + {node}, s.Visited(pushed))
  {
    var e := graph.Edges();
    var b := s.Visited(pushed);
    assert s.targets == s.targets[..|s.targets| - 1] + [node];
    SearchVisit(e, root, visited, s.targets, node, b.targets);
    forall w | (node, w) in e
      ensures w in b.order || w in pushed
    {
      assert w in graph.Successors(node);
    }
    VisitedOk(e, root, s, pushed);
    VisitedInLine(graph, s, pushed);
  }

  lemma SearchedEnd(graph: Cfg, root: Node, visited: set<Node>, s: Trace)
    requires Searched(graph, root, visited, s) && s.targets == []
    ensures forall v :: v in s.order <==> Reaches(graph.Edges(), root, v)
    ensures s.order != [] && s.order[0] == root
    ensures DfsTree(Numbered(graph.Edges(), s.order), s.par)
  {
    forall v
      ensures v in s.order <==> Reaches(graph.Edges(), root, v)
    {
      SearchEnded(graph.Edges(), root, visited, v);
    }
    ReachesSelf(graph.Edges(), root);
    VisitsAreDfsTree(graph.Edges(), s);
  }

  /** Searches forward from the root. `par` says which node each one was reached from. */
  method ReachableFromRoot(graph: Cfg, root: Node) returns (order: seq<Node>, ghost par: seq<nat>)
    ensures forall v :: v in order <==> Reaches(graph.Edges(), root, v)
    ensures forall i, j :: 0 <= i < j < |order| ==> order[i] != order[j]
    ensures |order| > 0 && order[0] == root
    ensures DfsTree(Numbered(graph.Edges(), order), par) && AllLast(graph, order, par)
  {
    SearchedStart(graph, root);
    var visited: set<Node> := {};
    order := [];
    var stack := [root];
    ghost var s := Trace([], [0], [root], [0]);
    while stack != []
      invariant s.targets == stack && s.order == order && true == Searched(graph, root, visited, s)
      decreases Universe(graph.Edges(), root) - visited, |stack|
    {
      var node := stack[|stack| - 1];
      var below := stack[..|stack| - 1];
      if node in visited {
        SearchedPopped(graph, root, visited, s);
        stack, s := below, s.Popped();
        continue;
      }
      assert node in stack;
      var pushed := Unvisited(graph.Successors(node), visited + {node}, order + [node]);
      SearchedVisited(graph, root, visited, s, node, pushed);
      visited := visited + {node};
      order := order + [node];
      stack, s := below + pushed, s.Visited(pushed);
    }
    SearchedEnd(graph, root, visited, s);
    par := s.par;
  }

  /** What the search says of its result. */
  ghost predicate Result(graph: Cfg, root: Node, order: seq<Node>, par: seq<nat>) {
    && (forall v :: v in order <==> Reaches(graph.Edges(), root, v))
    && (forall i, j :: 0 <= i < j < |order| ==> order[i] != order[j])
    && |order| > 0 && order[0] == root
    && DfsTree(Numbered(graph.Edges(), order), par) && AllLast(graph, order, par)
  }

  /** Two orders that agree on the first `k` nodes and on what these hang below. */
  ghost predicate AgreeUpTo(order: seq<Node>, par: seq<nat>, order': seq<Node>, par': seq<nat>, k: nat) {
    && 1 <= k <= |order| && k <= |order'| && |par| == |order| + 1 && |par'| == |order'| + 1
    && (forall i :: 0 <= i < k ==> order[i] == order'[i])
    && (forall w :: 2 <= w <= k ==> par[w] == par'[w])
  }

  lemma {:induction false} SameAnc(par: seq<nat>, par': seq<nat>, k: nat, u: nat, x: nat)
    requires k < |par| && k < |par'| && 1 <= u && x <= k && forall w :: 2 <= w <= k ==> par[w] == par'[w]
    requires Anc(par', u, x)
    ensures Anc(par, u, x)
    decreases x
  {
    if u != x {
      SameAnc(par, par', k, u, par[x]);
    }
  }

  /** A node on the path that has an edge to an unvisited node is no deeper than what the next node hangs below. */
  lemma OpenAbove(rel: Rel, order: seq<Node>, par: seq<nat>, k: nat, q: nat, i: nat)
    requires DfsTree(Numbered(rel, order), par) && |par| == |order| + 1 && 1 <= q <= k <= i < |order|
    requires Anc(par, q, k) && (order[q - 1], order[i]) in rel
    ensures q <= par[k + 1]
  {
    assert (q, i + 1) in Numbered(rel, order);
    AncContiguous(par, q, k + 1, i + 1);
    AncBelow(par, q, par[k + 1]);
  }

  lemma HangsBelow(rel: Rel, order: seq<Node>, par: seq<nat>, k: nat)
    requires DfsTree(Numbered(rel, order), par) && |par| == |order| + 1 && 1 <= k < |order|
    ensures 1 <= par[k + 1] <= k && Anc(par, par[k + 1], k) && (order[par[k + 1] - 1], order[k]) in rel
  {
    assert Hangs(par, k + 1) && TreeEdge(Numbered(rel, order), par, k + 1);
  }

  lemma LaterPosition(order: seq<Node>, order': seq<Node>, k: nat) returns (i: nat)
    requires k < |order'| && k <= |order| && order'[k] in order
    requires forall i, j :: 0 <= i < j < |order'| ==> order'[i] != order'[j]
    requires forall i :: 0 <= i < k ==> order[i] == order'[i]
    ensures k <= i < |order| && order[i] == order'[k]
  {
    i :| 0 <= i < |order| && order[i] == order'[k];
  }

  /** The next node hangs below the deepest node on the path that still has an unvisited successor. */
  lemma ParentAtLeast(graph: Cfg, root: Node, order: seq<Node>, par: seq<nat>, order': seq<Node>, par': seq<nat>,
                      k: nat)
    requires true == Result(graph, root, order, par) && true == Result(graph, root, order', par')
    requires AgreeUpTo(order, par, order', par', k) && k < |order| && k < |order'|
    ensures par'[k + 1] <= par[k + 1]
  {
    HangsBelow(graph.Edges(), order', par', k);
    SameAnc(par, par', k, par'[k + 1], k);
    assert order'[k] in order';
    var i := LaterPosition(order, order', k);
    OpenAbove(graph.Edges(), order, par, k, par'[k + 1], i);
  }

  lemma NoLater(succs: seq<Node>, a: nat, w: Node, order: seq<Node>, k: nat, b: nat)
    requires DueAt(succs, a, w, order, k, [], 0) && b < |succs| && !Within(order, 0, k, succs[b])
    ensures b <= a
  {
  }

  lemma SameNext(succs: seq<Node>, order: seq<Node>, order': seq<Node>, k: nat)
    requires k < |order| && k < |order'| && forall i :: 0 <= i < k ==> order[i] == order'[i]
    requires Due(succs, order[k], order, k, [], 0) && Due(succs, order'[k], order', k, [], 0)
    requires forall i, j :: 0 <= i < j < |order| ==> order[i] != order[j]
    requires forall i, j :: 0 <= i < j < |order'| ==> order'[i] != order'[j]
    ensures order[k] == order'[k]
  {
    var a: nat :| DueAt(succs, a, order[k], order, k, [], 0);
    var b: nat :| DueAt(succs, b, order'[k], order', k, [], 0);
    NoLater(succs, a, order[k], order, k, b);
    NoLater(succs, b, order'[k], order', k, a);
  }

  lemma AgreeMore(graph: Cfg, root: Node, order: seq<Node>, par: seq<nat>, order': seq<Node>, par': seq<nat>, k: nat)
    requires Result(graph, root, order, par) && Result(graph, root, order', par')
    requires AgreeUpTo(order, par, order', par', k) && k < |order| && k < |order'|
    ensures AgreeUpTo(order, par, order', par', k + 1)
  {
    ParentAtLeast(graph, root, order, par, order', par', k);
    ParentAtLeast(graph, root, order', par', order, par, k);
    assert LastOfRest(graph, order, par, k + 1) && LastOfRest(graph, order', par', k + 1);
    SameNext(graph.Successors(order[par[k + 1] - 1]), order, order', k);
  }

  /** The graph and the root determine the order: there is one depth-first order that takes the last successor first. */
  lemma OrderUnique(graph: Cfg, root: Node, order: seq<Node>, par: seq<nat>, order': seq<Node>, par': seq<nat>)
    requires Result(graph, root, order, par) && Result(graph, root, order', par')
    ensures order == order'
  {
    var members := set v | v in order;
    DistinctLength(order, members);
    DistinctLength(order', members);
    var k := 1;
    while k < |order|
      invariant AgreeUpTo(order, par, order', par', k)
    {
      AgreeMore(graph, root, order, par, order', par', k);
      k := k + 1;
    }
  }
}
