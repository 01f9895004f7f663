/** The traversal itself. */
module UndirectedDfs {
  import opened Walks
  import opened Cfgs
  import opened EdgeRoutes
  import opened PreorderTree
  import opened UndirectedNumbering

  /** Each node's list holds the edges that touch it, in order of their ids. */
  ghost predicate IncidentLists(edges: seq<IEdge>, n: nat, incident: seq<seq<nat>>) {
    && |incident| == n
    && (forall v, e: nat :: 0 <= v < n ==> (e in incident[v] <==> Incident(edges, e, v)))
    && (forall v, i, j :: 0 <= v < n && 0 <= i < j < |incident[v]| ==> incident[v][i] <= incident[v][j])
  }

  /** The arrays before the first visit. */
  ghost function Blank(edges: seq<IEdge>, n: nat): State {
    State(seq(n, i => None), seq(n, i => None), seq(n, i => None), seq(n, i => 0), [], seq(|edges|, i => false), [0],
          {})
  }

  lemma CoveredAll(edges: seq<IEdge>, n: nat, incident: seq<seq<nat>>, s: State, node: nat)
    requires IncidentLists(edges, n, incident) && node < n && Covered(edges, s, node, incident[node], |incident[node]|)
    ensures forall e :: Incident(edges, e, node) ==> s.Numbered(Other(edges, e, node))
  {
    forall e | Incident(edges, e, node)
      ensures s.Numbered(Other(edges, e, node))
    {
      assert e in incident[node];
    }
  }

  class Traversal {
    const edges: seq<IEdge>
    const n: nat
    const incident: seq<seq<nat>>

    var parent: seq<Option<nat>>
    var parentEdge: seq<Option<nat>>
    var number: seq<Option<nat>>
    var end: seq<nat>
    var preorder: seq<nat>
    var tree: seq<bool>
    ghost var par: seq<nat>
    ghost var done: set<nat>

    constructor (edges: seq<IEdge>, n: nat, incident: seq<seq<nat>>)
      ensures this.edges == edges && this.n == n && this.incident == incident
      ensures Now() == Blank(edges, n)
    {
      this.edges, this.n, this.incident := edges, n, incident;
      parent, parentEdge, number := seq(n, i => None), seq(n, i => None), seq(n, i => None);
      end, preorder, tree := seq(n, i => 0), [], seq(|edges|, i => false);
      par, done := [0], {};
    }

    ghost function Now(): State
      reads this
    {
      State(parent, parentEdge, number, end, preorder, tree, par, done)
    }

    ghost function Unnumbered(): set<nat>
      reads this
    {
      set v: nat | v < |number| && number[v].None?
    }

    ghost predicate Inputs() {
      InRange(edges, n) && IncidentLists(edges, n, incident)
    }

    /** One visit: numbers `node` and everything reachable from it through unnumbered nodes. */
    method Visit(node: nat)
      requires Inputs() && Ready(edges, n, Now()) && MayVisit(edges, n, Now(), node)
      requires true == AllInTurn(edges, Now()) && true == TurnCome(edges, Now(), node)
      modifies this
      ensures true == Visited(edges, n, old(Now()), Now(), node) && true == AllInTurn(edges, Now())
      decreases Unnumbered(), 1
    {
      ghost var start := Now();
      ProgressStart(edges, n, start, node);
      PushedInTurn(edges, n, start, node);
      Push(node);
      VisitEdges(node);
      VisitEnds(edges, n, start, Now(), node);
      EndedInTurn(edges, Now(), node);
      Finish(node);
    }

    method Finish(node: nat)
      requires node < |end|
      modifies this`end, this`done
      ensures Now() == Ended(old(Now()), node)
    {
      end := end[node := |preorder|];
      done := done + {node};
    }

    method Push(node: nat)
      requires node < |number| && node < |parent|
      requires parent[node].Some? ==> Now().Numbered(parent[node].value)
      modifies this`number, this`preorder, this`par
      ensures Now() == Pushed(old(Now()), node)
      ensures number[node].Some? && Unnumbered() == old(Unnumbered()) - {node}
    {
      par := par + [if parent[node].Some? then Now().Pos(parent[node].value) else 0];
      number := number[node := Some(|preorder|)];
      preorder := preorder + [node];
    }

    /** The loop over the edges of an open node. */
    method VisitEdges(node: nat)
      requires Inputs() && Between(edges, n, Now(), node) && true == AllInTurn(edges, Now())
      modifies this
      ensures true == Progress(edges, n, old(Now()), Now(), node) && true == AllInTurn(edges, Now())
      ensures forall e :: Incident(edges, e, node) ==> Now().Numbered(Other(edges, e, node))
      decreases Unnumbered(), 3
    {
      ghost var start := Now();
      NoProgress(edges, n, start, node);
      var edgeIds := incident[node];
      for i := 0 to |edgeIds|
        invariant true == Progress(edges, n, start, Now(), node)
        invariant true == Covered(edges, Now(), node, edgeIds, i) && true == AllInTurn(edges, Now())
        invariant Unnumbered() <= old(Unnumbered())
      {
        assert edgeIds[i] in incident[node];
        ghost var before := Now();
        CoveredEarlier(edges, before, node, edgeIds, i);
        VisitEdge(node, edgeIds[i]);
        ProgressTrans(edges, n, start, before, Now(), node);
        CoveredContinues(edges, before, Now(), node, edgeIds, i);
      }
      CoveredAll(edges, n, incident, Now(), node);
    }

    /** One incident edge of an open node. */
    method VisitEdge(node: nat, eid: nat)
      requires Inputs() && Between(edges, n, Now(), node) && Incident(edges, eid, node)
      requires true == AllInTurn(edges, Now()) && true == EarlierMet(edges, Now(), node, eid)
      modifies this
      ensures true == Progress(edges, n, old(Now()), Now(), node) && true == AllInTurn(edges, Now())
      ensures Now().Numbered(Other(edges, eid, node))
      decreases Unnumbered(), 2
    {
      NoProgress(edges, n, Now(), node);
      if parentEdge[node] == Some(eid) {
        ParentEdgeLeadsBack(edges, n, Now(), node, eid);
        return;
      }
      var other := Other(edges, eid, node);
      if number[other] == None {
        Explore(node, eid, other);
      }
    }

    /** A tree edge. */
    method Explore(node: nat, eid: nat, other: nat)
      requires Inputs() && Between(edges, n, Now(), node) && Incident(edges, eid, node)
      requires other == Other(edges, eid, node) && number[other] == None
      requires true == AllInTurn(edges, Now()) && true == EarlierMet(edges, Now(), node, eid)
      modifies this
      ensures true == Progress(edges, n, old(Now()), Now(), node) && true == AllInTurn(edges, Now())
      ensures Now().Numbered(other)
      decreases Unnumbered(), 2, 0
    {
      ghost var before := Now();
      AdoptedOk(edges, n, before, node, eid);
      AdoptedMarks(edges, n, before, node, eid, other);
      AdoptedInTurn(edges, n, before, node, eid, other);
      parent := parent[other := Some(node)];
      parentEdge := parentEdge[other := Some(eid)];
      assert Now() == Adopted(before, node, eid, other);
      Visit(other);
      EdgeExplored(edges, n, before, Now(), node, eid);
      MarkedInTurn(edges, Now(), eid);
      tree := tree[eid := true];
    }
  }

  lemma AdoptedMarks(edges: seq<IEdge>, n: nat, a: State, node: nat, e: nat, other: nat)
    requires Ready(edges, n, a) && other < n && a.number[other].None?
    ensures OnlyTreeMarked(Adopted(a, node, e, other))
  {
    AdoptedShape(edges, n, a, node, e, other);
    OnlyTreeContinues(a, Adopted(a, node, e, other));
  }

  method BuildIncident(edges: seq<IEdge>, n: nat) returns (incident: seq<seq<nat>>)
    requires InRange(edges, n)
    ensures IncidentLists(edges, n, incident)
  {
    incident := seq(n, i => []);
    for id := 0 to |edges|
      invariant |incident| == n
      invariant forall v, e: nat :: 0 <= v < n ==> (e in incident[v] <==> e < id && Incident(edges, e, v))
      invariant forall v, i :: 0 <= v < n && 0 <= i < |incident[v]| ==> incident[v][i] < id
      invariant forall v, i, j :: 0 <= v < n && 0 <= i < j < |incident[v]| ==> incident[v][i] <= incident[v][j]
    {
      var from, to := edges[id].from, edges[id].to;
      incident := incident[from := incident[from] + [id]];
      incident := incident[to := incident[to] + [id]];
    }
  }

  lemma BlankReady(edges: seq<IEdge>, n: nat, root: nat)
    requires root < n
    ensures Ready(edges, n, Blank(edges, n)) && MayVisit(edges, n, Blank(edges, n), root)
    ensures AllInTurn(edges, Blank(edges, n)) && TurnCome(edges, Blank(edges, n), root)
  {
  }

  /** A finished traversal: every numbered node's visit has ended. */
  ghost predicate Complete(edges: seq<IEdge>, n: nat, s: State, root: nat) {
    && Ready(edges, n, s) && root < n && s.number[root] == Some(0)
    && (forall v :: s.Numbered(v) ==> v in s.done)
    && (forall v :: s.Numbered(v) && v != root ==> TreeEdgeMarked(s, v))
    && AllInTurn(edges, s)
  }

  /** The numbering half of the classification: build the incidence lists and visit the root. */
  method Traverse(edges: seq<IEdge>, n: nat, root: nat) returns (t: Traversal)
    requires InRange(edges, n) && root < n
    ensures Complete(edges, n, t.Now(), root)
  {
    var incident := BuildIncident(edges, n);
    t := new Traversal(edges, n, incident);
    BlankReady(edges, n, root);
    t.Visit(root);
  }

  /** No cross edges: the ends of every edge met are both numbered, and one is an ancestor of the other. */
  lemma NoCrossEdges(edges: seq<IEdge>, n: nat, s: State, root: nat, e: nat)
    requires InRange(edges, n) && Complete(edges, n, s, root) && e < |edges|
    requires s.Numbered(edges[e].from) || s.Numbered(edges[e].to)
    ensures s.Numbered(edges[e].from) && s.Numbered(edges[e].to)
    ensures Anc(s.par, s.Pos(edges[e].from), s.Pos(edges[e].to)) || Anc(s.par, s.Pos(edges[e].to), s.Pos(edges[e].from))
  {
    var u, v := edges[e].from, edges[e].to;
    assert Incident(edges, e, u) && Incident(edges, e, v);
    assert s.Finished(edges, u) && s.Finished(edges, v);
  }

  /** `k` steps up the parent array. */
  ghost function Up(parent: seq<Option<nat>>, v: nat, k: nat): Option<nat>
    decreases k
  {
    if k == 0 then Some(v)
    else if v < |parent| && parent[v].Some? then Up(parent, parent[v].value, k - 1)
    else None
  }

  /** The parent array as a map between tree positions. */
  ghost predicate ParentsMatch(s: State) {
    && (forall v: nat :: s.Numbered(v) ==> v < |s.parent| && s.Pos(v) < |s.par|)
    && (forall v: nat :: s.Numbered(v) && s.parent[v].Some? ==>
          s.Numbered(s.parent[v].value) && s.par[s.Pos(v)] == s.Pos(s.parent[v].value) < s.Pos(v))
    && (forall v: nat :: s.Numbered(v) && s.parent[v].None? ==> s.par[s.Pos(v)] == 0)
    && (forall u: nat, v: nat :: s.Numbered(u) && s.Numbered(v) && s.Pos(u) == s.Pos(v) ==> u == v)
  }

  lemma ParentMatches(edges: seq<IEdge>, n: nat, s: State, v: nat)
    requires s.Shape(edges, n) && Preorder(s.par) && s.Numbered(v) && s.Linked(edges, v)
    ensures s.parent[v].Some? ==>
              s.Numbered(s.parent[v].value) && s.par[s.Pos(v)] == s.Pos(s.parent[v].value) < s.Pos(v)
    ensures s.parent[v].None? ==> s.par[s.Pos(v)] == 0
  {
    assert s.Pos(v) >= 2 ==> Hangs(s.par, s.Pos(v));
  }

  lemma PositionsDiffer(edges: seq<IEdge>, n: nat, s: State, u: nat, v: nat)
    requires s.Shape(edges, n) && s.Numbered(u) && s.Numbered(v) && s.Pos(u) == s.Pos(v)
    ensures u == v
  {
    assert s.preorder[s.number[u].value] == u && s.preorder[s.number[v].value] == v;
  }

  lemma OkParentsMatch(edges: seq<IEdge>, n: nat, s: State)
    requires s.Ok(edges, n)
    ensures ParentsMatch(s)
  {
    forall v: nat | s.Numbered(v)
      ensures v < |s.parent| && s.Pos(v) < |s.par|
      ensures s.parent[v].Some? ==>
                s.Numbered(s.parent[v].value) && s.par[s.Pos(v)] == s.Pos(s.parent[v].value) < s.Pos(v)
      ensures s.parent[v].None? ==> s.par[s.Pos(v)] == 0
    {
      ParentMatches(edges, n, s, v);
    }
    forall u: nat, v: nat | s.Numbered(u) && s.Numbered(v) && s.Pos(u) == s.Pos(v)
      ensures u == v
    {
      PositionsDiffer(edges, n, s, u, v);
    }
  }

  /** The parent array and the preorder tree describe the same ancestors. */
  lemma {:induction false} UpIsAncestor(s: State, u: nat, v: nat, k: nat)
    requires ParentsMatch(s) && s.Numbered(u) && s.Numbered(v) && Up(s.parent, v, k) == Some(u)
    ensures Anc(s.par, s.Pos(u), s.Pos(v)) && (k > 0 ==> s.Pos(u) < s.Pos(v))
    decreases k
  {
    if k > 0 {
      var p := s.parent[v].value;
      UpIsAncestor(s, u, p, k - 1);
      AncAtMost(s.par, s.Pos(u), s.Pos(p));
    }
  }

  lemma {:induction false} AncestorIsUp(s: State, u: nat, v: nat) returns (k: nat)
    requires ParentsMatch(s) && s.Numbered(u) && s.Numbered(v) && Anc(s.par, s.Pos(u), s.Pos(v))
    ensures Up(s.parent, v, k) == Some(u) && (u != v ==> k > 0)
    decreases s.Pos(v)
  {
    if s.Pos(u) == s.Pos(v) {
      k := 0;
    } else {
      var p := s.parent[v].value;
      k := AncestorIsUp(s, u, p);
      k := k + 1;
    }
  }

  /** The interval test of the code. */
  ghost predicate IsDescendant(s: State, node: nat, ancestor: nat)
    requires s.Numbered(node) && s.Numbered(ancestor) && ancestor < |s.end|
  {
    node != ancestor && s.number[ancestor].value <= s.number[node].value < s.end[ancestor]
  }

  /** The interval test decides proper descent along the parent array. */
  lemma IntervalTestDecides(edges: seq<IEdge>, n: nat, s: State, root: nat, node: nat, ancestor: nat)
    requires Complete(edges, n, s, root) && s.Numbered(node) && s.Numbered(ancestor)
    ensures IsDescendant(s, node, ancestor) <==> exists k: nat :: k > 0 && Up(s.parent, node, k) == Some(ancestor)
  {
    assert s.Finished(edges, ancestor);
    OkParentsMatch(edges, n, s);
    if IsDescendant(s, node, ancestor) {
      var k := AncestorIsUp(s, ancestor, node);
    }
    if k: nat :| k > 0 && Up(s.parent, node, k) == Some(ancestor) {
      UpIsAncestor(s, ancestor, node, k);
    }
  }

  /** Marked edges are exactly the parent edges. */
  lemma MarkedIffParentEdge(edges: seq<IEdge>, n: nat, s: State, root: nat, e: nat)
    requires Complete(edges, n, s, root) && e < |edges|
    ensures s.tree[e] <==> exists v :: FoundBy(s, v, e)
  {
    if v :| FoundBy(s, v, e) {
      assert s.Linked(edges, v);
      assert v != root;
      assert TreeEdgeMarked(s, v);
    }
  }

  /** Each edge, read in both directions. */
  ghost function Undirected(edges: seq<IEdge>): (r: Rel)
    ensures forall u: nat, v: nat :: (u, v) in r <==>
              exists e: nat :: Incident(edges, e, u) && Other(edges, e, u) == v
  {
    set e, v | 0 <= e < |edges| && v in {edges[e].from, edges[e].to} :: (v, Other(edges, e, v))
  }

  /** The numbered nodes are the connected component of the root. */
  lemma NumberedIsComponent(edges: seq<IEdge>, n: nat, s: State, root: nat, v: nat)
    requires InRange(edges, n) && Complete(edges, n, s, root)
    ensures s.Numbered(v) <==> Reaches(Undirected(edges), root, v)
  {
    if s.Numbered(v) {
      Connected(edges, n, s, root, v);
    }
    if Reaches(Undirected(edges), root, v) {
      var p :| WalkFromTo(Undirected(edges), p, root, v);
      var numbered := set x: nat | x < |s.number| && s.number[x].Some?;
      forall x: nat, y: nat | (x, y) in Undirected(edges) && x in numbered
        ensures y in numbered
      {
        assert s.Finished(edges, x);
      }
      ClosedUnderWalk(Undirected(edges), numbered, p);
      assert p[|p| - 1] in numbered;
    }
  }

  lemma {:induction false} Connected(edges: seq<IEdge>, n: nat, s: State, root: nat, v: nat)
    requires InRange(edges, n) && Complete(edges, n, s, root) && s.Numbered(v)
    ensures Reaches(Undirected(edges), root, v)
    decreases s.Pos(v)
  {
    assert s.Linked(edges, v);
    assert s.Pos(v) >= 2 ==> Hangs(s.par, s.Pos(v));
    if s.number[v].value == 0 {
      assert s.preorder[0] == v == root;
      ReachesSelf(Undirected(edges), root);
    } else {
      var p, e := s.parent[v].value, s.parentEdge[v].value;
      Connected(edges, n, s, root, p);
      OtherWay(edges, e, v);
      ReachesStep(Undirected(edges), root, p, v);
    }
  }
}
