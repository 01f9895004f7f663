/** Multigraphs as edge lists, and reachability that avoids given edges. */
module EdgeRoutes {
  import opened Cfgs

  datatype IEdge = IEdge(from: nat, to: nat, original: Option<nat>)

  /** `w` lists the indices of edges that lead from `u` to `v`. */
  ghost predicate Route(edges: seq<IEdge>, u: nat, w: seq<nat>, v: nat)
    decreases |w|
  {
    if w == [] then u == v
    else w[0] < |edges| && edges[w[0]].from == u && Route(edges, edges[w[0]].to, w[1..], v)
  }

  ghost predicate Avoids(w: seq<nat>, avoid: set<nat>) {
    forall i :: 0 <= i < |w| ==> w[i] !in avoid
  }

  /** Some route from `u` to `v` uses no edge of `avoid`. */
  ghost predicate Reach(edges: seq<IEdge>, u: nat, v: nat, avoid: set<nat>) {
    exists w :: Route(edges, u, w, v) && Avoids(w, avoid)
  }

  lemma {:induction false} RouteConcat(edges: seq<IEdge>, u: nat, p: seq<nat>, m: nat, q: seq<nat>, v: nat)
    requires Route(edges, u, p, m) && Route(edges, m, q, v)
    ensures Route(edges, u, p + q, v)
    decreases |p|
  {
    if p == [] {
      assert p + q == q;
    } else {
      RouteConcat(edges, edges[p[0]].to, p[1..], m, q, v);
      assert (p + q)[1..] == p[1..] + q;
    }
  }

  lemma ReachSelf(edges: seq<IEdge>, u: nat, avoid: set<nat>)
    ensures Reach(edges, u, u, avoid)
  {
    assert Route(edges, u, [], u);
    assert Avoids([], avoid);
  }

  lemma ReachEdge(edges: seq<IEdge>, e: nat, avoid: set<nat>)
    requires e < |edges| && e !in avoid
    ensures Reach(edges, edges[e].from, edges[e].to, avoid)
  {
    assert Route(edges, edges[e].from, [e], edges[e].to);
    assert Avoids([e], avoid);
  }

  lemma ReachTrans(edges: seq<IEdge>, u: nat, m: nat, v: nat, avoid: set<nat>)
    requires Reach(edges, u, m, avoid) && Reach(edges, m, v, avoid)
    ensures Reach(edges, u, v, avoid)
  {
    var p :| Route(edges, u, p, m) && Avoids(p, avoid);
    var q :| Route(edges, m, q, v) && Avoids(q, avoid);
    RouteConcat(edges, u, p, m, q, v);
    assert Avoids(p + q, avoid);
  }

  lemma ReachStep(edges: seq<IEdge>, u: nat, e: nat, avoid: set<nat>)
    requires e < |edges| && e !in avoid && Reach(edges, u, edges[e].from, avoid)
    ensures Reach(edges, u, edges[e].to, avoid)
  {
    ReachEdge(edges, e, avoid);
    ReachTrans(edges, u, edges[e].from, edges[e].to, avoid);
  }

  lemma ReachBack(edges: seq<IEdge>, e: nat, v: nat, avoid: set<nat>)
    requires e < |edges| && e !in avoid && Reach(edges, edges[e].to, v, avoid)
    ensures Reach(edges, edges[e].from, v, avoid)
  {
    ReachEdge(edges, e, avoid);
    ReachTrans(edges, edges[e].from, edges[e].to, v, avoid);
  }

  lemma ReachWeaken(edges: seq<IEdge>, u: nat, v: nat, avoid: set<nat>, fewer: set<nat>)
    requires Reach(edges, u, v, avoid) && fewer <= avoid
    ensures Reach(edges, u, v, fewer)
  {
  }

  /**
   * Cutting a route at the first and at the last use of an edge: either the edge can be avoided altogether, or its
   * tail and head are joined to the ends by routes without it.
   */
  lemma {:induction false} CutAt(edges: seq<IEdge>, u: nat, v: nat, avoid: set<nat>, e: nat)
    requires Reach(edges, u, v, avoid) && e < |edges|
    ensures Reach(edges, u, v, avoid + {e})
            || (Reach(edges, u, edges[e].from, avoid + {e}) && Reach(edges, edges[e].to, v, avoid + {e}))
  {
    var w :| Route(edges, u, w, v) && Avoids(w, avoid);
    CutRoute(edges, u, w, v, avoid, e);
  }

  lemma {:induction false} CutRoute(edges: seq<IEdge>, u: nat, w: seq<nat>, v: nat, avoid: set<nat>, e: nat)
    requires Route(edges, u, w, v) && Avoids(w, avoid) && e < |edges|
    ensures Reach(edges, u, v, avoid + {e})
            || (Reach(edges, u, edges[e].from, avoid + {e}) && Reach(edges, edges[e].to, v, avoid + {e}))
    decreases |w|
  {
    ReachSelf(edges, u, avoid + {e});
    if w != [] {
      var m := edges[w[0]].to;
      CutRoute(edges, m, w[1..], v, avoid, e);
      if w[0] != e {
        assert w[0] !in avoid;
        if Reach(edges, m, v, avoid + {e}) {
          ReachBack(edges, w[0], v, avoid + {e});
        } else {
          ReachBack(edges, w[0], edges[e].from, avoid + {e});
        }
      }
    }
  }

  /** Edges other than the avoided ones never lead out of `s`. */
  ghost predicate ClosedAvoiding(edges: seq<IEdge>, s: set<nat>, avoid: set<nat>) {
    forall e :: 0 <= e < |edges| && e !in avoid && edges[e].from in s ==> edges[e].to in s
  }

  lemma {:induction false} ReachStaysIn(edges: seq<IEdge>, s: set<nat>, u: nat, v: nat, avoid: set<nat>)
    requires ClosedAvoiding(edges, s, avoid) && u in s && Reach(edges, u, v, avoid)
    ensures v in s
  {
    var w :| Route(edges, u, w, v) && Avoids(w, avoid);
    RouteStaysIn(edges, s, u, w, v, avoid);
  }

  lemma {:induction false} RouteStaysIn(edges: seq<IEdge>, s: set<nat>, u: nat, w: seq<nat>, v: nat, avoid: set<nat>)
    requires ClosedAvoiding(edges, s, avoid) && u in s && Route(edges, u, w, v) && Avoids(w, avoid)
    ensures v in s
    decreases |w|
  {
    if w != [] {
      assert w[0] !in avoid;
      RouteStaysIn(edges, s, edges[w[0]].to, w[1..], v, avoid);
    }
  }

  lemma NoWayOut(edges: seq<IEdge>, s: set<nat>, u: nat, v: nat, avoid: set<nat>)
    requires true == ClosedAvoiding(edges, s, avoid) && u in s && v !in s
    ensures !Reach(edges, u, v, avoid)
  {
    if Reach(edges, u, v, avoid) {
      ReachStaysIn(edges, s, u, v, avoid);
    }
  }

  /** The mirror image: edges other than the avoided ones never lead into `s` from outside. */
  lemma {:induction false} ReachStaysOut(edges: seq<IEdge>, s: set<nat>, u: nat, v: nat, avoid: set<nat>)
    requires forall e :: 0 <= e < |edges| && e !in avoid && edges[e].to in s ==> edges[e].from in s
    requires u !in s && Reach(edges, u, v, avoid)
    ensures v !in s
  {
    var w :| Route(edges, u, w, v) && Avoids(w, avoid);
    RouteStaysOut(edges, s, u, w, v, avoid);
  }

  lemma {:induction false} RouteStaysOut(edges: seq<IEdge>, s: set<nat>, u: nat, w: seq<nat>, v: nat, avoid: set<nat>)
    requires forall e :: 0 <= e < |edges| && e !in avoid && edges[e].to in s ==> edges[e].from in s
    requires u !in s && Route(edges, u, w, v) && Avoids(w, avoid)
    ensures v !in s
    decreases |w|
  {
    if w != [] {
      assert w[0] !in avoid;
      RouteStaysOut(edges, s, edges[w[0]].to, w[1..], v, avoid);
    }
  }

  ghost function Skipped(skip: Option<nat>): set<nat> {
    if skip.Some? then {skip.value} else {}
  }

  /** Reachability along edges, or against them when `reverse`. */
  ghost predicate ReachDir(edges: seq<IEdge>, start: nat, v: nat, avoid: set<nat>, reverse: bool) {
    if reverse then Reach(edges, v, start, avoid) else Reach(edges, start, v, avoid)
  }

  ghost predicate InRange(edges: seq<IEdge>, n: nat) {
    forall e :: 0 <= e < |edges| ==> edges[e].from < n && edges[e].to < n
  }

  function Tail(edge: IEdge, reverse: bool): nat {
    if reverse then edge.to else edge.from
  }

  function Head(edge: IEdge, reverse: bool): nat {
    if reverse then edge.from else edge.to
  }

  /** What the search knows: everything marked or stacked is reachable, and marked nodes lead nowhere else. */
  ghost predicate Marking(edges: seq<IEdge>, n: nat, start: nat, avoid: set<nat>, reverse: bool,
                          seen: seq<bool>, stack: seq<nat>) {
    && |seen| == n
    && (forall v :: v in stack ==> v < n && ReachDir(edges, start, v, avoid, reverse))
    && (forall v :: 0 <= v < n && seen[v] ==> ReachDir(edges, start, v, avoid, reverse))
    && (start in stack || (start < n && seen[start]))
    && (forall e :: 0 <= e < |edges| && e !in avoid && Tail(edges[e], reverse) < n && seen[Tail(edges[e], reverse)]
                    ==> (Head(edges[e], reverse) in stack
                         || (Head(edges[e], reverse) < n && seen[Head(edges[e], reverse)])))
  }

  lemma DirStep(edges: seq<IEdge>, start: nat, e: nat, avoid: set<nat>, reverse: bool)
    requires e < |edges| && e !in avoid && ReachDir(edges, start, Tail(edges[e], reverse), avoid, reverse)
    ensures ReachDir(edges, start, Head(edges[e], reverse), avoid, reverse)
  {
    if reverse {
      ReachBack(edges, e, start, avoid);
    } else {
      ReachStep(edges, start, e, avoid);
    }
  }

  /** The edge scan for one freshly marked node. */
  method PushTargets(edges: seq<IEdge>, n: nat, node: nat, skip: Option<nat>, reverse: bool, seen: array<bool>,
                     stack: seq<nat>) returns (out: seq<nat>)
    requires InRange(edges, n) && seen.Length == n
    ensures stack <= out
    ensures forall v :: v in out && v !in stack ==>
              exists e :: 0 <= e < |edges| && e !in Skipped(skip) && Tail(edges[e], reverse) == node
                          && Head(edges[e], reverse) == v
    ensures forall e :: 0 <= e < |edges| && e !in Skipped(skip) && Tail(edges[e], reverse) == node
                        ==> Head(edges[e], reverse) in out || seen[Head(edges[e], reverse)]
  {
    out := stack;
    for i := 0 to |edges|
      invariant stack <= out
      invariant forall v :: v in out && v !in stack ==>
                  exists e :: 0 <= e < i && e !in Skipped(skip) && Tail(edges[e], reverse) == node
                              && Head(edges[e], reverse) == v
      invariant forall e :: 0 <= e < i && e !in Skipped(skip) && Tail(edges[e], reverse) == node
                            ==> Head(edges[e], reverse) in out || seen[Head(edges[e], reverse)]
    {
      if skip == Some(i) {
        continue;
      }
      var from, to := Tail(edges[i], reverse), Head(edges[i], reverse);
      if from == node && !seen[to] {
        out := out + [to];
      }
    }
  }

  ghost function Unmarked(seen: seq<bool>): set<nat> {
    set v | 0 <= v < |seen| && !seen[v]
  }

  ghost function Marked(seen: seq<bool>): set<nat> {
    set v | 0 <= v < |seen| && seen[v]
  }

  lemma UnmarkedDrops(seen: seq<bool>, v: nat)
    requires v < |seen| && !seen[v]
    ensures Unmarked(seen[v := true]) == Unmarked(seen) - {v} && v in Unmarked(seen)
  {
  }

  /** Depth-first search over the edge list, one edge skipped, optionally against the edges. */
  method Reachable(edges: seq<IEdge>, n: nat, start: nat, skip: Option<nat>, reverse: bool) returns (marks: array<bool>)
    requires InRange(edges, n) && start < n
    ensures fresh(marks) && marks.Length == n
    ensures forall v :: 0 <= v < n ==> (marks[v] <==> ReachDir(edges, start, v, Skipped(skip), reverse))
  {
    ghost var avoid := Skipped(skip);
    var seen := new bool[n](_ => false);
    var stack := [start];
    ReachSelf(edges, start, avoid);
    while stack != []
      invariant true == Marking(edges, n, start, avoid, reverse, seen[..], stack)
      decreases Unmarked(seen[..]), |stack|
    {
      var node := stack[|stack| - 1];
      var below := stack[..|stack| - 1];
      assert stack == below + [node];
      assert node in stack;
      if seen[node] {
        MarkSkip(edges, n, start, avoid, reverse, seen[..], below, node);
        stack := below;
        continue;
      }
      ghost var before := seen[..];
      seen[node] := true;
      assert seen[..] == before[node := true];
      UnmarkedDrops(before, node);
      stack := PushTargets(edges, n, node, skip, reverse, seen, below);
      MarkStep(edges, n, start, avoid, reverse, before, below, node, stack);
    }
    MarkEnd(edges, n, start, avoid, reverse, seen[..]);
    return seen;
  }

  lemma MarkSkip(edges: seq<IEdge>, n: nat, start: nat, avoid: set<nat>, reverse: bool, seen: seq<bool>,
                 below: seq<nat>, node: nat)
    requires Marking(edges, n, start, avoid, reverse, seen, below + [node]) && node < n && seen[node]
    ensures Marking(edges, n, start, avoid, reverse, seen, below)
  {
    forall v | v in below
      ensures v in below + [node]
    {
    }
  }

  lemma MarkStep(edges: seq<IEdge>, n: nat, start: nat, avoid: set<nat>, reverse: bool, seen: seq<bool>,
                 below: seq<nat>, node: nat, next: seq<nat>)
    requires InRange(edges, n) && node < n && below <= next
    requires Marking(edges, n, start, avoid, reverse, seen, below + [node])
    requires forall v :: v in next && v !in below ==>
               exists e :: 0 <= e < |edges| && e !in avoid && Tail(edges[e], reverse) == node
                           && Head(edges[e], reverse) == v
    requires forall e :: 0 <= e < |edges| && e !in avoid && Tail(edges[e], reverse) == node
                         ==> Head(edges[e], reverse) in next || seen[node := true][Head(edges[e], reverse)]
    ensures Marking(edges, n, start, avoid, reverse, seen[node := true], next)
  {
    assert node in below + [node];
    forall v | v in next
      ensures v < n && ReachDir(edges, start, v, avoid, reverse)
    {
      if v in below {
        assert v in below + [node];
      } else {
        var e :| 0 <= e < |edges| && e !in avoid && Tail(edges[e], reverse) == node && Head(edges[e], reverse) == v;
        DirStep(edges, start, e, avoid, reverse);
      }
    }
  }

  lemma MarkEnd(edges: seq<IEdge>, n: nat, start: nat, avoid: set<nat>, reverse: bool, seen: seq<bool>)
    requires InRange(edges, n) && Marking(edges, n, start, avoid, reverse, seen, [])
    ensures forall v :: 0 <= v < n ==> (seen[v] <==> ReachDir(edges, start, v, avoid, reverse))
  {
    forall v | 0 <= v < n && ReachDir(edges, start, v, avoid, reverse)
      ensures seen[v]
    {
      if reverse {
        if v in Unmarked(seen) {
          ReachStaysIn(edges, Unmarked(seen), v, start, avoid);
        }
      } else {
        ReachStaysIn(edges, Marked(seen), start, v, avoid);
      }
    }
  }
}
