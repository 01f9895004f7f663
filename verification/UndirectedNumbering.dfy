/** The depth-first numbering that treats edges as undirected, as pure data. */
module UndirectedNumbering {
  import opened Cfgs
  import opened EdgeRoutes
  import opened PreorderTree

  /** The end of edge `e` that is not `v`. */
  function Other(edges: seq<IEdge>, e: nat, v: nat): nat
    requires e < |edges|
  {
    if edges[e].from == v then edges[e].to else edges[e].from
  }

  ghost predicate Incident(edges: seq<IEdge>, e: nat, v: nat) {
    e < |edges| && (edges[e].from == v || edges[e].to == v)
  }

  /** The subtree of position `u` is exactly the positions `u`..`last`. */
  ghost predicate Interval(par: seq<nat>, u: nat, last: nat) {
    forall j :: 1 <= j < |par| ==> (Anc(par, u, j) <==> u <= j <= last)
  }

  ghost predicate AllBelow(par: seq<nat>, u: nat) {
    forall j :: u <= j < |par| ==> Anc(par, u, j)
  }

  lemma IntervalPush(par: seq<nat>, p: nat, u: nat, last: nat)
    requires Interval(par, u, last) && p < |par| && 1 <= u <= last < |par|
    requires p == 0 || !(u <= p <= last)
    ensures Interval(par + [p], u, last)
  {
    var b := par + [p];
    forall j | 1 <= j < |b|
      ensures Anc(b, u, j) <==> u <= j <= last
    {
      if j < |par| {
        AncExtend(par, p, u, j);
      } else {
        AncExtend(par, p, u, p);
      }
    }
  }

  lemma AllBelowPush(par: seq<nat>, p: nat, u: nat)
    requires AllBelow(par, u) && u <= p < |par| && 1 <= u
    ensures AllBelow(par + [p], u)
  {
    var b := par + [p];
    forall j | u <= j < |b|
      ensures Anc(b, u, j)
    {
      if j < |par| {
        AncExtend(par, p, u, j);
      } else {
        AncExtend(par, p, u, p);
      }
    }
  }

  /**
   * The arrays of the traversal. Beside them `par` keeps the tree by preorder position (shifted by one, 0 meaning
   * "none"), and `done` the nodes whose visit has ended.
   */
  datatype State = State(parent: seq<Option<nat>>, parentEdge: seq<Option<nat>>, number: seq<Option<nat>>,
                         end: seq<nat>, preorder: seq<nat>, tree: seq<bool>, par: seq<nat>, done: set<nat>)
  {
    ghost predicate Numbered(v: nat) {
      v < |number| && number[v].Some?
    }

    /** Position of `v` in the tree table. */
    ghost function Pos(v: nat): nat
      requires Numbered(v)
    {
      number[v].value + 1
    }

    ghost predicate Shape(edges: seq<IEdge>, n: nat) {
      && |parent| == |parentEdge| == |number| == |end| == n && |tree| == |edges|
      && |par| == |preorder| + 1
      && (forall i :: 0 <= i < |preorder| ==> preorder[i] < n && number[preorder[i]] == Some(i))
      && (forall v :: 0 <= v < n && number[v].Some? ==> number[v].value < |preorder| && preorder[number[v].value] == v)
      && (forall v :: v in done ==> Numbered(v))
    }

    /** `v` hangs below its parent by the edge recorded for it. */
    ghost predicate Linked(edges: seq<IEdge>, v: nat)
      requires Numbered(v) && v < |parent| && v < |parentEdge| && Pos(v) < |par|
    {
      if number[v].value == 0 then parent[v] == None && parentEdge[v] == None && par[1] == 0
      else
        && parent[v].Some? && Numbered(parent[v].value) && par[Pos(v)] == Pos(parent[v].value)
        && parentEdge[v].Some? && Incident(edges, parentEdge[v].value, v)
        && Other(edges, parentEdge[v].value, v) == parent[v].value
    }

    /** `v` is finished: its subtree is the interval up to `end[v]`, and every neighbour was numbered in time. */
    ghost predicate Finished(edges: seq<IEdge>, v: nat)
      requires Numbered(v) && v < |end|
    {
      && number[v].value < end[v] <= |preorder|
      && Interval(par, Pos(v), end[v])
      && (forall e :: Incident(edges, e, v) ==>
            Numbered(Other(edges, e, v)) && number[Other(edges, e, v)].value < end[v])
    }

    ghost predicate Ok(edges: seq<IEdge>, n: nat) {
      && Shape(edges, n)
      && Preorder(par)
      && (forall v :: 0 <= v < n && number[v].Some? ==> Linked(edges, v))
      && (forall v :: v in done ==> Finished(edges, v))
    }

    /** `p` is open: unfinished, above everything numbered after it, outside everything finished before it. */
    ghost predicate Open(n: nat, p: nat)
      requires |end| == |number| == n
    {
      && Numbered(p) && p !in done
      && AllBelow(par, Pos(p))
      && (forall d :: d in done && Numbered(d) && number[d].value < number[p].value ==> end[d] <= number[p].value)
    }
  }

  /** `b` continues `a`: what was numbered or finished stays as it is. */
  ghost predicate Continues(a: State, b: State) {
    && a.preorder <= b.preorder && a.par <= b.par && a.done <= b.done
    && |a.number| == |b.number| == |a.end| == |b.end| == |a.parent| == |b.parent| == |a.parentEdge| == |b.parentEdge|
    && |a.tree| == |b.tree|
    && (forall v :: 0 <= v < |a.number| && a.number[v].Some? ==>
          b.number[v] == a.number[v] && b.parent[v] == a.parent[v] && b.parentEdge[v] == a.parentEdge[v])
    && (forall v :: v in a.done && v < |a.end| ==> b.end[v] == a.end[v])
    && (forall v :: v in b.done && a.Numbered(v) ==> v in a.done)
    && (forall e :: 0 <= e < |a.tree| && a.tree[e] ==> b.tree[e])
  }

  lemma ContinuesTrans(a: State, b: State, c: State)
    requires Continues(a, b) && Continues(b, c)
    ensures Continues(a, c)
  {
  }

  /** An open node of `a` stays open while only nodes below it are added and finished. */
  lemma OpenContinues(edges: seq<IEdge>, n: nat, a: State, b: State, p: nat)
    requires a.Shape(edges, n) && b.Shape(edges, n) && Continues(a, b) && a.Open(n, p)
    requires AllBelow(b.par, a.Pos(p))
    ensures b.Open(n, p)
  {
  }

  /** Numbering `node`. */
  ghost function Pushed(a: State, node: nat): State
    requires node < |a.number| && node < |a.parent|
    requires a.parent[node].Some? ==> a.Numbered(a.parent[node].value)
  {
    a.(number := a.number[node := Some(|a.preorder|)], preorder := a.preorder + [node],
       par := a.par + [if a.parent[node].Some? then a.Pos(a.parent[node].value) else 0])
  }

  /** What a visit of `node` may rely on. */
  ghost predicate MayVisit(edges: seq<IEdge>, n: nat, a: State, node: nat) {
    && a.Ok(edges, n) && node < n && a.number[node].None?
    && (a.parent[node].None? ==> a.preorder == [] && a.parentEdge[node].None?)
    && (a.parent[node].Some? ==>
          && a.Open(n, a.parent[node].value)
          && a.parentEdge[node].Some? && Incident(edges, a.parentEdge[node].value, node)
          && Other(edges, a.parentEdge[node].value, node) == a.parent[node].value)
  }

  lemma PushedPreorder(edges: seq<IEdge>, n: nat, a: State, node: nat)
    requires a.Shape(edges, n) && Preorder(a.par) && node < n && a.number[node].None?
    requires if a.parent[node].Some? then a.Open(n, a.parent[node].value) else a.preorder == []
    ensures Preorder(Pushed(a, node).par)
  {
    PreorderGrows(a.par, if a.parent[node].Some? then a.Pos(a.parent[node].value) else 0);
  }

  lemma PushedShape(edges: seq<IEdge>, n: nat, a: State, node: nat)
    requires a.Shape(edges, n) && node < n && a.number[node].None?
    requires a.parent[node].Some? ==> a.Numbered(a.parent[node].value)
    ensures Pushed(a, node).Shape(edges, n) && Continues(a, Pushed(a, node))
  {
  }

  lemma PushedFinished(edges: seq<IEdge>, n: nat, a: State, node: nat, d: nat)
    requires MayVisit(edges, n, a, node) && d in a.done
    ensures Pushed(a, node).Numbered(d) && Pushed(a, node).Finished(edges, d)
  {
    assert a.Finished(edges, d);
    PushedStaysFinished(edges, n, a, node, d);
  }

  lemma PushedStaysFinished(edges: seq<IEdge>, n: nat, a: State, node: nat, d: nat)
    requires a.Shape(edges, n) && node < n && a.number[node].None? && d in a.done && a.Finished(edges, d)
    requires if a.parent[node].Some? then a.Open(n, a.parent[node].value) else a.preorder == []
    ensures Pushed(a, node).Numbered(d) && Pushed(a, node).Finished(edges, d)
  {
    var b := Pushed(a, node);
    IntervalPush(a.par, b.par[|a.par|], a.Pos(d), a.end[d]);
    forall e | Incident(edges, e, d)
      ensures b.Numbered(Other(edges, e, d)) && b.number[Other(edges, e, d)].value < b.end[d]
    {
      assert a.Numbered(Other(edges, e, d));
    }
  }

  lemma PushedLinked(edges: seq<IEdge>, n: nat, a: State, node: nat, v: nat)
    requires a.Shape(edges, n) && node < n && a.number[node].None?
    requires if a.parent[node].Some? then
               && a.Numbered(a.parent[node].value)
               && a.parentEdge[node].Some? && Incident(edges, a.parentEdge[node].value, node)
               && Other(edges, a.parentEdge[node].value, node) == a.parent[node].value
             else a.preorder == [] && a.parentEdge[node].None?
    requires v == node || (a.Numbered(v) && a.Linked(edges, v))
    ensures Pushed(a, node).Pos(v) < |Pushed(a, node).par| && Pushed(a, node).Linked(edges, v)
  {
  }

  lemma PushedOpen(edges: seq<IEdge>, n: nat, a: State, node: nat)
    requires MayVisit(edges, n, a, node)
    ensures Pushed(a, node).Open(n, node)
    ensures a.parent[node].Some? ==> Pushed(a, node).Open(n, a.parent[node].value)
  {
    var b := Pushed(a, node);
    PushedShape(edges, n, a, node);
    forall d | d in b.done
      ensures b.end[d] <= |a.preorder|
    {
      assert a.Finished(edges, d);
    }
    if a.parent[node].Some? {
      var p := a.parent[node].value;
      AllBelowPush(a.par, a.Pos(p), a.Pos(p));
      OpenContinues(edges, n, a, b, p);
    }
  }

  lemma PushedOk(edges: seq<IEdge>, n: nat, a: State, node: nat)
    requires MayVisit(edges, n, a, node)
    ensures Pushed(a, node).Ok(edges, n)
  {
    var b := Pushed(a, node);
    PushedShape(edges, n, a, node);
    PushedPreorder(edges, n, a, node);
    forall d | d in b.done
      ensures b.Finished(edges, d)
    {
      PushedFinished(edges, n, a, node, d);
    }
    forall v | 0 <= v < n && b.number[v].Some?
      ensures b.Linked(edges, v)
    {
      PushedLinked(edges, n, a, node, v);
    }
  }

  /** Ending the visit of `node`. */
  ghost function Ended(a: State, node: nat): State
    requires node < |a.end|
  {
    a.(end := a.end[node := |a.preorder|], done := a.done + {node})
  }

  lemma EndedFinished(edges: seq<IEdge>, n: nat, a: State, node: nat, d: nat)
    requires a.Shape(edges, n) && a.Open(n, node) && d in a.done + {node}
    requires d in a.done ==> a.Finished(edges, d)
    requires forall e :: Incident(edges, e, node) ==> a.Numbered(Other(edges, e, node))
    ensures Ended(a, node).Numbered(d) && Ended(a, node).Finished(edges, d)
  {
  }

  lemma EndedOk(edges: seq<IEdge>, n: nat, a: State, node: nat)
    requires a.Ok(edges, n) && a.Open(n, node)
    requires forall e :: Incident(edges, e, node) ==> a.Numbered(Other(edges, e, node))
    ensures Ended(a, node).Ok(edges, n)
  {
    var b := Ended(a, node);
    forall d | d in b.done
      ensures b.Numbered(d) && b.Finished(edges, d)
    {
      EndedFinished(edges, n, a, node, d);
    }
    forall v | 0 <= v < n && b.number[v].Some?
      ensures b.Linked(edges, v)
    {
      EndedLinked(edges, a, node, v);
    }
  }

  lemma EndedLinked(edges: seq<IEdge>, a: State, node: nat, v: nat)
    requires node < |a.end| && a.Numbered(v) && v < |a.parent| && v < |a.parentEdge| && a.Pos(v) < |a.par|
    requires a.Linked(edges, v)
    ensures Ended(a, node).Linked(edges, v)
  {
  }

  lemma EndedContinues(edges: seq<IEdge>, n: nat, a: State, b: State, node: nat)
    requires a.Shape(edges, n) && node < n && Continues(a, b) && a.number[node].None?
    ensures Continues(a, Ended(b, node))
  {
  }

  lemma AllBelowGrew(par: seq<nat>, bigger: seq<nat>, u: nat, c: nat)
    requires par <= bigger && AllBelow(par, u) && u <= c < |par| && AllBelow(bigger, c)
    ensures AllBelow(bigger, u)
  {
    forall j | u <= j <= c
      ensures Anc(bigger, u, j)
    {
      AncPrefix(par, bigger, u, j);
    }
    AllBelowTrans(bigger, u, c, |bigger|);
  }

  lemma AncAtMost(par: seq<nat>, u: nat, x: nat)
    ensures Anc(par, u, x) ==> u <= x
  {
  }

  /** Everything numbered since `a` is finished, and the edge it was found by is marked. */
  ghost predicate NewFinished(a: State, b: State) {
    forall v :: b.Numbered(v) && !a.Numbered(v) ==> v in b.done && TreeEdgeMarked(b, v)
  }

  ghost predicate TreeEdgeMarked(s: State, v: nat) {
    v < |s.parentEdge| && s.parentEdge[v].Some? && s.parentEdge[v].value < |s.tree| && s.tree[s.parentEdge[v].value]
  }

  lemma NewFinishedTrans(a: State, b: State, c: State)
    requires Continues(b, c) && NewFinished(a, b) && NewFinished(b, c)
    ensures NewFinished(a, c)
  {
  }

  /** Only edges some numbered node was found by are marked. */
  ghost predicate OnlyTreeMarked(s: State) {
    forall e :: 0 <= e < |s.tree| && s.tree[e] ==> exists v :: FoundBy(s, v, e)
  }

  ghost predicate FoundBy(s: State, v: nat, e: nat) {
    s.Numbered(v) && v < |s.parentEdge| && s.parentEdge[v] == Some(e)
  }

  lemma OnlyTreeContinues(a: State, b: State)
    requires OnlyTreeMarked(a) && Continues(a, b) && b.tree == a.tree && |a.parentEdge| == |a.number|
    ensures OnlyTreeMarked(b)
  {
    forall e | 0 <= e < |b.tree| && b.tree[e]
      ensures exists v :: FoundBy(b, v, e)
    {
      var v :| FoundBy(a, v, e);
      assert FoundBy(b, v, e);
    }
  }

  /** Handing `other` its parent before it is visited. */
  ghost function Adopted(a: State, node: nat, e: nat, other: nat): State
    requires other < |a.parent| == |a.parentEdge|
  {
    a.(parent := a.parent[other := Some(node)], parentEdge := a.parentEdge[other := Some(e)])
  }

  lemma OtherWay(edges: seq<IEdge>, e: nat, v: nat)
    requires Incident(edges, e, v)
    ensures Incident(edges, e, Other(edges, e, v)) && Other(edges, e, Other(edges, e, v)) == v
  {
  }

  /** `b` differs from `a` at most in edge marks and in the parents of nodes not yet numbered. */
  ghost predicate SameCore(a: State, b: State) {
    && a.number == b.number && a.end == b.end && a.preorder == b.preorder && a.par == b.par && a.done == b.done
    && |a.parent| == |b.parent| == |a.parentEdge| == |b.parentEdge| && |a.tree| == |b.tree|
    && (forall v :: 0 <= v < |a.number| && v < |a.parent| && a.number[v].Some? ==>
          b.parent[v] == a.parent[v] && b.parentEdge[v] == a.parentEdge[v])
  }

  lemma CoreLinked(edges: seq<IEdge>, a: State, b: State, v: nat)
    requires SameCore(a, b) && a.Numbered(v) && v < |a.parent| && a.Pos(v) < |a.par| && a.Linked(edges, v)
    ensures b.Linked(edges, v)
  {
  }

  lemma CoreFinished(edges: seq<IEdge>, a: State, b: State, d: nat)
    requires SameCore(a, b) && a.Numbered(d) && d < |a.end| && a.Finished(edges, d)
    ensures b.Finished(edges, d)
  {
  }

  lemma CoreShape(edges: seq<IEdge>, n: nat, a: State, b: State)
    requires a.Shape(edges, n) && SameCore(a, b)
    ensures b.Shape(edges, n)
  {
  }

  lemma CoreOk(edges: seq<IEdge>, n: nat, a: State, b: State)
    requires a.Ok(edges, n) && SameCore(a, b)
    ensures b.Ok(edges, n)
  {
    CoreShape(edges, n, a, b);
    forall v | 0 <= v < n && b.number[v].Some?
      ensures b.Linked(edges, v)
    {
      CoreLinked(edges, a, b, v);
    }
    forall d | d in b.done
      ensures b.Finished(edges, d)
    {
      CoreFinished(edges, a, b, d);
    }
  }

  lemma AdoptedShape(edges: seq<IEdge>, n: nat, a: State, node: nat, e: nat, other: nat)
    requires a.Shape(edges, n) && other < n && a.number[other].None?
    ensures SameCore(a, Adopted(a, node, e, other)) && Continues(a, Adopted(a, node, e, other))
    ensures NewFinished(a, Adopted(a, node, e, other))
  {
  }

  lemma CoreOpen(n: nat, a: State, b: State, p: nat)
    requires |a.end| == |a.number| == n && SameCore(a, b) && a.Open(n, p)
    ensures b.Open(n, p)
  {
  }

  lemma AdoptedOk(edges: seq<IEdge>, n: nat, a: State, node: nat, e: nat)
    requires a.Ok(edges, n) && a.Open(n, node) && Incident(edges, e, node) && Other(edges, e, node) < n
    requires a.number[Other(edges, e, node)].None?
    ensures MayVisit(edges, n, Adopted(a, node, e, Other(edges, e, node)), Other(edges, e, node))
  {
    var other := Other(edges, e, node);
    var b := Adopted(a, node, e, other);
    AdoptedShape(edges, n, a, node, e, other);
    CoreOk(edges, n, a, b);
    CoreOpen(n, a, b, node);
    OtherWay(edges, e, node);
  }

  /** Marking the edge `v` was found by. */
  ghost function MarkedEdge(a: State, e: nat): State
    requires e < |a.tree|
  {
    a.(tree := a.tree[e := true])
  }

  lemma MarkedOk(edges: seq<IEdge>, n: nat, b: State, v: nat, e: nat)
    requires b.Ok(edges, n) && FoundBy(b, v, e) && e < |b.tree| && OnlyTreeMarked(b)
    ensures SameCore(b, MarkedEdge(b, e)) && MarkedEdge(b, e).Ok(edges, n) && OnlyTreeMarked(MarkedEdge(b, e))
  {
    CoreOk(edges, n, b, MarkedEdge(b, e));
    MarkedOnlyTree(b, v, e);
  }

  lemma MarkedFinishes(a: State, b: State, v: nat, e: nat)
    requires Continues(a, b) && FoundBy(b, v, e) && e < |b.tree| && v in b.done
    requires forall x :: b.Numbered(x) && !a.Numbered(x) && x != v ==> x in b.done && TreeEdgeMarked(b, x)
    ensures Continues(a, MarkedEdge(b, e)) && NewFinished(a, MarkedEdge(b, e))
  {
  }

  lemma MarkedOnlyTree(b: State, v: nat, e: nat)
    requires FoundBy(b, v, e) && e < |b.tree| && OnlyTreeMarked(b)
    ensures OnlyTreeMarked(MarkedEdge(b, e))
  {
    var c := MarkedEdge(b, e);
    forall x | 0 <= x < |c.tree| && c.tree[x]
      ensures exists y :: FoundBy(c, y, x)
    {
      if x == e {
        assert FoundBy(c, v, x);
      } else {
        var y :| FoundBy(b, y, x);
        assert FoundBy(c, y, x);
      }
    }
  }

  /** An invariant of the whole traversal. */
  ghost predicate Ready(edges: seq<IEdge>, n: nat, s: State) {
    s.Ok(edges, n) && OnlyTreeMarked(s)
  }

  /** What a visit of `node` that starts in `a` has achieved in `b`. */
  ghost predicate Visited(edges: seq<IEdge>, n: nat, a: State, b: State, node: nat)
    requires |a.number| == n && |a.parent| == n && node < n
    requires a.parent[node].Some? ==> a.Numbered(a.parent[node].value)
  {
    && Ready(edges, n, b) && Continues(a, b)
    && node in b.done && b.number[node] == Some(|a.preorder|)
    && b.parent[node] == a.parent[node] && b.parentEdge[node] == a.parentEdge[node]
    && (forall v :: b.Numbered(v) && !a.Numbered(v) && v != node ==> v in b.done && TreeEdgeMarked(b, v))
    && (a.parent[node].Some? ==> AllBelow(b.par, a.Pos(a.parent[node].value)))
  }

  /** The state between two edges of the open node `node`. */
  ghost predicate Between(edges: seq<IEdge>, n: nat, s: State, node: nat) {
    Ready(edges, n, s) && |s.end| == |s.number| == n && s.Open(n, node)
  }

  /** What handling one edge of the open node `node`, or several, has achieved. */
  ghost predicate Progress(edges: seq<IEdge>, n: nat, a: State, b: State, node: nat) {
    Between(edges, n, b, node) && Continues(a, b) && NewFinished(a, b)
  }

  lemma NoProgress(edges: seq<IEdge>, n: nat, a: State, node: nat)
    requires Between(edges, n, a, node)
    ensures Progress(edges, n, a, a, node)
  {
  }

  lemma ProgressTrans(edges: seq<IEdge>, n: nat, a: State, b: State, c: State, node: nat)
    requires Progress(edges, n, a, b, node) && Progress(edges, n, b, c, node)
    ensures Progress(edges, n, a, c, node)
  {
    ContinuesTrans(a, b, c);
    NewFinishedTrans(a, b, c);
  }

  lemma ProgressStart(edges: seq<IEdge>, n: nat, a: State, node: nat)
    requires Ready(edges, n, a) && MayVisit(edges, n, a, node)
    ensures Progress(edges, n, Pushed(a, node), Pushed(a, node), node)
    ensures Continues(a, Pushed(a, node))
    ensures a.parent[node].Some? ==> AllBelow(Pushed(a, node).par, a.Pos(a.parent[node].value))
  {
    PushedOk(edges, n, a, node);
    PushedShape(edges, n, a, node);
    PushedOpen(edges, n, a, node);
    OnlyTreeContinues(a, Pushed(a, node));
  }

  lemma VisitEnds(edges: seq<IEdge>, n: nat, a: State, b: State, node: nat)
    requires MayVisit(edges, n, a, node) && Continues(a, Pushed(a, node))
    requires a.parent[node].Some? ==> AllBelow(Pushed(a, node).par, a.Pos(a.parent[node].value))
    requires Progress(edges, n, Pushed(a, node), b, node)
    requires forall e :: Incident(edges, e, node) ==> b.Numbered(Other(edges, e, node))
    ensures Visited(edges, n, a, Ended(b, node), node)
  {
    var pushed := Pushed(a, node);
    ContinuesTrans(a, pushed, b);
    EndedOk(edges, n, b, node);
    EndedContinues(edges, n, a, b, node);
    EndedMarks(b, node);
    if a.parent[node].Some? {
      AllBelowGrew(pushed.par, b.par, a.Pos(a.parent[node].value), b.Pos(node));
    }
    EndedNew(edges, n, a, b, node);
  }

  lemma EndedMarks(b: State, node: nat)
    requires OnlyTreeMarked(b) && node < |b.end|
    ensures OnlyTreeMarked(Ended(b, node))
  {
    var c := Ended(b, node);
    forall e | 0 <= e < |c.tree| && c.tree[e]
      ensures exists v :: FoundBy(c, v, e)
    {
      var v :| FoundBy(b, v, e);
      assert FoundBy(c, v, e);
    }
  }

  lemma EndedNew(edges: seq<IEdge>, n: nat, a: State, b: State, node: nat)
    requires MayVisit(edges, n, a, node) && NewFinished(Pushed(a, node), b) && node < |b.end|
    ensures forall v :: Ended(b, node).Numbered(v) && !a.Numbered(v) && v != node
              ==> v in Ended(b, node).done && TreeEdgeMarked(Ended(b, node), v)
  {
  }

  /** The edge by which `node` was found leads back to its parent. */
  lemma ParentEdgeLeadsBack(edges: seq<IEdge>, n: nat, a: State, node: nat, e: nat)
    requires a.Ok(edges, n) && a.Numbered(node) && node < n && a.parentEdge[node] == Some(e)
    ensures e < |edges| && a.Numbered(Other(edges, e, node))
  {
    assert a.Linked(edges, node);
  }

  lemma ExploredOpen(edges: seq<IEdge>, n: nat, a: State, after: State, node: nat, e: nat)
    requires a.Shape(edges, n) && after.Shape(edges, n) && a.Open(n, node) && Continues(a, after)
    requires AllBelow(after.par, a.Pos(node)) && e < |after.tree|
    ensures MarkedEdge(after, e).Open(n, node)
  {
  }

  lemma ExploredContinues(edges: seq<IEdge>, n: nat, a: State, after: State, node: nat, e: nat, other: nat)
    requires a.Shape(edges, n) && other < n && a.number[other].None?
    requires Continues(Adopted(a, node, e, other), after)
    ensures Continues(a, after)
  {
  }

  lemma EdgeExplored(edges: seq<IEdge>, n: nat, a: State, after: State, node: nat, e: nat)
    requires InRange(edges, n) && a.Shape(edges, n) && a.Open(n, node) && Incident(edges, e, node)
    requires a.number[Other(edges, e, node)].None?
    requires Visited(edges, n, Adopted(a, node, e, Other(edges, e, node)), after, Other(edges, e, node))
    ensures e < |after.tree|
    ensures Progress(edges, n, a, MarkedEdge(after, e), node)
    ensures MarkedEdge(after, e).Numbered(Other(edges, e, node))
  {
    var other := Other(edges, e, node);
    ExploredContinues(edges, n, a, after, node, e, other);
    MarkedOk(edges, n, after, other, e);
    assert Adopted(a, node, e, other).parent[other] == Some(node);
    assert Adopted(a, node, e, other).Pos(node) == a.Pos(node);
    forall x | after.Numbered(x) && !a.Numbered(x) && x != other
      ensures x in after.done && TreeEdgeMarked(after, x)
    {
      assert !Adopted(a, node, e, other).Numbered(x);
    }
    MarkedFinishes(a, after, other, e);
    ExploredOpen(edges, n, a, after, node, e);
  }

  /** The first `i` of the listed edges of `node` lead to numbered nodes. */
  ghost predicate Covered(edges: seq<IEdge>, s: State, node: nat, ids: seq<nat>, i: nat)
    requires i <= |ids|
  {
    forall j :: 0 <= j < i ==> ids[j] < |edges| && s.Numbered(Other(edges, ids[j], node))
  }

  lemma CoveredContinues(edges: seq<IEdge>, a: State, b: State, node: nat, ids: seq<nat>, i: nat)
    requires i < |ids| && Covered(edges, a, node, ids, i) && Continues(a, b)
    requires ids[i] < |edges| && b.Numbered(Other(edges, ids[i], node))
    ensures Covered(edges, b, node, ids, i + 1)
  {
  }

  /** The edges of `v` before `e` lead to numbered nodes. */
  ghost predicate EarlierMet(edges: seq<IEdge>, s: State, v: nat, e: nat) {
    forall d: nat :: d < e && Incident(edges, d, v) ==> s.Numbered(Other(edges, d, v))
  }

  /** The node `w` was found when it was the turn of its edge: what the earlier edges lead to was numbered before it. */
  ghost predicate InTurn(edges: seq<IEdge>, s: State, w: nat)
    requires s.Numbered(w) && w < |s.parent| == |s.parentEdge|
  {
    s.parent[w].Some? && s.parentEdge[w].Some? ==>
      forall d: nat :: d < s.parentEdge[w].value && Incident(edges, d, s.parent[w].value) ==>
                    && s.Numbered(Other(edges, d, s.parent[w].value))
                    && s.number[Other(edges, d, s.parent[w].value)].value < s.number[w].value
  }

  ghost predicate AllInTurn(edges: seq<IEdge>, s: State) {
    |s.parent| == |s.parentEdge| == |s.number| && forall w :: s.Numbered(w) ==> InTurn(edges, s, w)
  }

  /** A node about to be numbered whose turn it is. */
  ghost predicate TurnCome(edges: seq<IEdge>, s: State, node: nat) {
    && node < |s.parent| == |s.parentEdge|
    && (s.parent[node].Some? && s.parentEdge[node].Some? ==>
          EarlierMet(edges, s, s.parent[node].value, s.parentEdge[node].value))
  }

  lemma CoreInTurn(edges: seq<IEdge>, a: State, b: State)
    requires AllInTurn(edges, a) && SameCore(a, b)
    ensures true == AllInTurn(edges, b)
  {
    forall w | b.Numbered(w)
      ensures InTurn(edges, b, w)
    {
      assert InTurn(edges, a, w);
    }
  }

  lemma AdoptedInTurn(edges: seq<IEdge>, n: nat, a: State, node: nat, e: nat, other: nat)
    requires AllInTurn(edges, a) && a.Shape(edges, n) && other < n && a.number[other].None?
             && EarlierMet(edges, a, node, e)
    ensures true == AllInTurn(edges, Adopted(a, node, e, other))
            && true == TurnCome(edges, Adopted(a, node, e, other), other)
  {
    AdoptedShape(edges, n, a, node, e, other);
    CoreInTurn(edges, a, Adopted(a, node, e, other));
  }

  lemma PushedInTurn(edges: seq<IEdge>, n: nat, a: State, node: nat)
    requires AllInTurn(edges, a) && a.Shape(edges, n) && node < n && a.number[node].None? && TurnCome(edges, a, node)
    requires a.parent[node].Some? ==> a.Numbered(a.parent[node].value)
    ensures true == AllInTurn(edges, Pushed(a, node))
  {
    var b := Pushed(a, node);
    forall w | b.Numbered(w)
      ensures InTurn(edges, b, w)
    {
      assert w != node ==> InTurn(edges, a, w);
    }
  }

  lemma EndedInTurn(edges: seq<IEdge>, a: State, node: nat)
    requires AllInTurn(edges, a) && node < |a.end|
    ensures true == AllInTurn(edges, Ended(a, node))
  {
    var b := Ended(a, node);
    forall w | b.Numbered(w)
      ensures InTurn(edges, b, w)
    {
      assert InTurn(edges, a, w);
    }
  }

  lemma MarkedInTurn(edges: seq<IEdge>, a: State, e: nat)
    requires AllInTurn(edges, a) && e < |a.tree|
    ensures true == AllInTurn(edges, MarkedEdge(a, e))
  {
    CoreInTurn(edges, a, MarkedEdge(a, e));
  }

  /** The listed edges are met in the order of their ids. */
  lemma CoveredEarlier(edges: seq<IEdge>, s: State, node: nat, ids: seq<nat>, i: nat)
    requires i < |ids| && Covered(edges, s, node, ids, i)
    requires forall e: nat :: e in ids <==> Incident(edges, e, node)
    requires forall j, k :: 0 <= j < k < |ids| ==> ids[j] <= ids[k]
    ensures true == EarlierMet(edges, s, node, ids[i])
  {
    forall d: nat | d < ids[i] && Incident(edges, d, node)
      ensures s.Numbered(Other(edges, d, node))
    {
      assert d in ids;
    }
  }
}
