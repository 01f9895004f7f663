/** Single-entry/single-exit regions of a flowgraph, and how they can overlap. */
module SeseRegions {
  import opened Cfgs
  import opened EdgeRoutes
  import opened CycleClasses

  /**
   * The working graph: nodes 0..n-1, the last one the synthetic exit; the first `count` edges are original, then come
   * the edges into the exit, and last the edge from the exit back to the entry.
   */
  datatype FlowGraph = FlowGraph(edges: seq<IEdge>, n: nat, entry: nat, count: nat) {

    ghost predicate Ok() {
      && n >= 2 && entry < n - 1 && count + 2 <= |edges|
      && InRange(edges, n)
      && (forall e :: 0 <= e < count ==>
                        edges[e].from < n - 1 && edges[e].to < n - 1 && edges[e].from != edges[e].to
                          && edges[e].original.Some?)
      && (forall e :: count <= e < |edges| - 1 ==>
                   edges[e].from < n - 1 && edges[e].to == n - 1 && edges[e].original.None?)
      && edges[|edges| - 1] == IEdge(n - 1, entry, None)
      && (forall v :: 0 <= v < n ==> Reach(edges, entry, v, {}))
    }

    ghost predicate ReachesExit(v: nat)
      requires n >= 1
    {
      Reach(edges, v, n - 1, {})
    }

    /** Every node can get to the synthetic exit. */
    ghost predicate Proper()
      requires n >= 1
    {
      forall v :: 0 <= v < n ==> ReachesExit(v)
    }

    /** Every route from the entry to `b`'s tail uses `a`. */
    ghost predicate EdgeDominates(a: nat, b: nat)
      requires b < |edges|
    {
      !Reach(edges, entry, edges[b].from, {a})
    }

    /** Every route from `a`'s head to the exit uses `b`. */
    ghost predicate EdgePostdominates(b: nat, a: nat)
      requires a < |edges| && n >= 1
    {
      !Reach(edges, edges[a].to, n - 1, {b})
    }

    ghost predicate InRegion(a: nat, b: nat, v: nat)
      requires a < |edges| && b < |edges|
    {
      && v < n - 1
      && Reach(edges, edges[a].to, v, {b})
      && Reach(edges, v, edges[b].from, {a})
    }

    ghost function Region(a: nat, b: nat): (s: set<nat>)
      requires a < |edges| && b < |edges|
      ensures forall v: nat :: v in s <==> InRegion(a, b, v)
    {
      set v: nat | v < n && InRegion(a, b, v)
    }

    /** The pairs of boundary edges the enumeration accepts. */
    ghost predicate Candidate(a: nat, b: nat)
      requires n >= 1
    {
      && a < count <= |edges| && b < count && a != b
      && EdgeDominates(a, b) && EdgePostdominates(b, a) && CycleEquivalent(edges, a, b)
    }

    ghost predicate Enters(s: set<nat>, e: nat)
      requires e < |edges|
    {
      edges[e].from !in s && edges[e].to in s
    }

    ghost predicate Leaves(s: set<nat>, e: nat)
      requires e < |edges|
    {
      edges[e].from in s && edges[e].to !in s
    }

    /** `a` is the only edge into `s` from outside and `b` the only edge out; entry and exit are outside. */
    ghost predicate Sese(s: set<nat>, a: nat, b: nat)
      requires n >= 1
    {
      && a < count <= |edges| && b < count
      && entry !in s && n - 1 !in s && (forall v :: v in s ==> v < n)
      && (forall e :: 0 <= e < |edges| ==> (Enters(s, e) <==> e == a))
      && (forall e :: 0 <= e < |edges| ==> (Leaves(s, e) <==> e == b))
    }
  }

  /** The heads and tails of a candidate's boundary edges, with nothing assumed beyond the candidate test. */
  lemma CandidateEnds(g: FlowGraph, a: nat, b: nat)
    requires g.Ok() && g.Candidate(a, b)
    ensures Reach(g.edges, g.edges[a].to, g.edges[b].from, {})
            ==> g.InRegion(a, b, g.edges[a].to) && g.InRegion(a, b, g.edges[b].from)
    ensures !g.InRegion(a, b, g.edges[a].from) && !g.InRegion(a, b, g.edges[b].to)
  {
    var e := g.edges;
    if Reach(e, e[a].to, e[b].from, {}) {
      CutAt(e, e[a].to, e[b].from, {}, a);
      CutAt(e, e[a].to, e[b].from, {}, b);
      assert {} + {a} == {a} && {} + {b} == {b};
      ReachSelf(e, e[a].to, {b});
      ReachSelf(e, e[b].from, {a});
    }
  }

  lemma NonemptyConnects(g: FlowGraph, a: nat, b: nat, v: nat)
    requires g.Ok() && g.Candidate(a, b) && g.InRegion(a, b, v)
    ensures Reach(g.edges, g.edges[a].to, g.edges[b].from, {})
  {
    ReachWeaken(g.edges, g.edges[a].to, v, {b}, {});
    ReachWeaken(g.edges, v, g.edges[b].from, {a}, {});
    ReachTrans(g.edges, g.edges[a].to, v, g.edges[b].from, {});
  }

  /** On every flowgraph the entry edge is the only edge into a candidate's region. */
  lemma OnlyEntryEnters(g: FlowGraph, a: nat, b: nat, e: nat)
    requires g.Ok() && g.Candidate(a, b) && e < |g.edges|
    requires g.Enters(g.Region(a, b), e)
    ensures e == a
  {
    var es := g.edges;
    var u, v := es[e].from, es[e].to;
    if e != a {
      ReachBack(es, e, es[b].from, {a});
      CutAt(es, g.entry, u, {}, a);
      assert {} + {a} == {a};
      if Reach(es, g.entry, u, {a}) {
        ReachTrans(es, g.entry, u, es[b].from, {a});
      } else {
        CutAt(es, es[a].to, u, {a}, b);
        if Reach(es, es[a].to, u, {a} + {b}) {
          ReachWeaken(es, es[a].to, u, {a} + {b}, {b});
        } else {
          ReachWeaken(es, es[b].to, u, {a} + {b}, {a});
          ReachTrans(es, es[b].to, u, es[b].from, {a});
        }
      }
    }
  }

  /** The entry node and the synthetic exit are never inside. */
  lemma EntryOutside(g: FlowGraph, a: nat, b: nat)
    requires g.Ok() && g.Candidate(a, b)
    ensures g.entry !in g.Region(a, b) && g.n - 1 !in g.Region(a, b)
  {
  }

  /** On every flowgraph an edge out of a candidate's region is the exit edge or cannot lead to the exit. */
  lemma LeavingEdge(g: FlowGraph, a: nat, b: nat, e: nat)
    requires g.Ok() && g.Candidate(a, b) && e < |g.edges|
    requires g.Leaves(g.Region(a, b), e)
    ensures e == b || !g.ReachesExit(g.edges[e].to)
  {
    var es := g.edges;
    var v := es[e].to;
    if e != b && g.ReachesExit(v) {
      ReachStep(es, es[a].to, e, {b});
      CutAt(es, v, g.n - 1, {}, b);
      assert {} + {b} == {b};
      if Reach(es, v, g.n - 1, {b}) {
        ReachTrans(es, es[a].to, v, g.n - 1, {b});
      } else {
        CutAt(es, v, es[b].from, {b}, a);
        if Reach(es, v, es[b].from, {b} + {a}) {
          ReachWeaken(es, v, es[b].from, {b} + {a}, {a});
        } else {
          ReachWeaken(es, v, es[a].from, {b} + {a}, {b});
          ReachTrans(es, es[a].to, v, es[a].from, {b});
        }
      }
    }
  }

  /** An edge other than `b` that leaves the region for a part from which the exit is out of reach. */
  ghost predicate Leaks(g: FlowGraph, a: nat, b: nat, e: nat)
    requires g.n >= 1 && a < |g.edges| && b < |g.edges|
  {
    && e < |g.edges| && e != b && g.InRegion(a, b, g.edges[e].from)
    && !g.ReachesExit(g.edges[e].to) && !g.InRegion(a, b, g.edges[e].to)
  }

  /**
   * On every flowgraph: a candidate's region has exactly one edge in and exactly one edge out if and only if no edge
   * leads from it into a part that never terminates.
   */
  lemma ExitLawIff(g: FlowGraph, a: nat, b: nat, v: nat)
    requires g.Ok() && g.Candidate(a, b) && g.InRegion(a, b, v)
    ensures g.Sese(g.Region(a, b), a, b) <==> forall e: nat :: !Leaks(g, a, b, e)
  {
    var s := g.Region(a, b);
    NonemptyConnects(g, a, b, v);
    CandidateEnds(g, a, b);
    EntryOutside(g, a, b);
    forall e: nat | Leaks(g, a, b, e)
      ensures !g.Sese(s, a, b)
    {
      assert g.Leaves(s, e);
    }
    if forall e: nat :: !Leaks(g, a, b, e) {
      forall e | 0 <= e < |g.edges| && g.Enters(s, e)
        ensures e == a
      {
        OnlyEntryEnters(g, a, b, e);
      }
      forall e | 0 <= e < |g.edges| && g.Leaves(s, e)
        ensures e == b
      {
        LeavingEdge(g, a, b, e);
        assert !Leaks(g, a, b, e);
      }
    }
  }

  /** In a proper flowgraph a candidate's region really has one entry and one exit. */
  lemma CandidateIsSese(g: FlowGraph, a: nat, b: nat, v: nat)
    requires g.Ok() && g.Proper() && g.Candidate(a, b) && g.InRegion(a, b, v)
    ensures g.Sese(g.Region(a, b), a, b)
  {
    ExitLawIff(g, a, b, v);
    assert forall e: nat :: !Leaks(g, a, b, e);
  }

  lemma SeseStays(g: FlowGraph, s: set<nat>, a: nat, b: nat, u: nat, v: nat)
    requires g.n >= 1 && g.Sese(s, a, b)
    ensures u in s && Reach(g.edges, u, v, {b}) ==> v in s
    ensures u !in s && Reach(g.edges, u, v, {a}) ==> v !in s
  {
    if u in s && Reach(g.edges, u, v, {b}) {
      forall e | 0 <= e < |g.edges| && e !in {b} && g.edges[e].from in s
        ensures g.edges[e].to in s
      {
        assert !g.Leaves(s, e);
      }
      ReachStaysIn(g.edges, s, u, v, {b});
    }
    if u !in s && Reach(g.edges, u, v, {a}) {
      forall e | 0 <= e < |g.edges| && e !in {a} && g.edges[e].to in s
        ensures g.edges[e].from in s
      {
        assert !g.Enters(s, e);
      }
      ReachStaysOut(g.edges, s, u, v, {a});
    }
  }

  /** Conversely every node set with one entry edge and one exit edge is found, as the region of those two edges. */
  lemma SeseIsCandidate(g: FlowGraph, s: set<nat>, a: nat, b: nat)
    requires g.Ok() && g.Proper() && g.Sese(s, a, b)
    ensures g.Candidate(a, b) && g.Region(a, b) == s && g.edges[a].to in s
  {
    var es := g.edges;
    assert g.Enters(s, a) && g.Leaves(s, b);
    SeseStays(g, s, a, b, g.entry, es[b].from);
    SeseStays(g, s, a, b, es[a].to, g.n - 1);
    SeseStays(g, s, a, b, es[a].to, es[a].from);
    SeseStays(g, s, a, b, es[b].to, es[b].from);
    forall v: nat
      ensures v in s <==> g.InRegion(a, b, v)
    {
      if v in s {
        SeseMember(g, s, a, b, v);
      }
      SeseStays(g, s, a, b, es[a].to, v);
    }
  }

  lemma SeseMember(g: FlowGraph, s: set<nat>, a: nat, b: nat, v: nat)
    requires g.Ok() && g.Proper() && g.Sese(s, a, b) && v in s
    ensures g.InRegion(a, b, v)
  {
    var es := g.edges;
    assert g.Enters(s, a) && g.Leaves(s, b);
    assert {} + {a} == {a} && {} + {b} == {b};
    CutAt(es, g.entry, v, {}, a);
    SeseStays(g, s, a, b, g.entry, v);
    CutAt(es, es[a].to, v, {a}, b);
    if Reach(es, es[a].to, v, {a} + {b}) {
      ReachWeaken(es, es[a].to, v, {a} + {b}, {b});
    } else {
      ReachWeaken(es, es[b].to, v, {a} + {b}, {a});
      SeseStays(g, s, a, b, es[b].to, v);
    }
    assert g.ReachesExit(v);
    CutAt(es, v, g.n - 1, {}, b);
    SeseStays(g, s, a, b, v, g.n - 1);
    CutAt(es, v, es[b].from, {b}, a);
    if Reach(es, v, es[b].from, {b} + {a}) {
      ReachWeaken(es, v, es[b].from, {b} + {a}, {a});
    } else {
      ReachWeaken(es, v, es[a].from, {b} + {a}, {b});
      SeseStays(g, s, a, b, v, es[a].from);
    }
  }

  /** Exactness of the candidate test in proper flowgraphs. */
  lemma CandidatesAreExactlySese(g: FlowGraph, s: set<nat>, a: nat, b: nat)
    requires g.Ok() && g.Proper() && s != {}
    ensures g.Sese(s, a, b) <==> g.Candidate(a, b) && g.Region(a, b) == s
  {
    if g.Sese(s, a, b) {
      SeseIsCandidate(g, s, a, b);
    }
    if g.Candidate(a, b) && g.Region(a, b) == s {
      var v :| v in s;
      CandidateIsSese(g, a, b, v);
    }
  }

  /** Something enters every nonempty set that the entry node is not in. */
  lemma SomethingEnters(g: FlowGraph, s: set<nat>, v: nat) returns (e: nat)
    requires g.Ok() && v in s && v < g.n && g.entry !in s
    ensures e < |g.edges| && g.Enters(s, e)
  {
    e := 0;
    if exists e: nat :: e < |g.edges| && g.Enters(s, e) {
      e :| e < |g.edges| && g.Enters(s, e);
    } else {
      forall e | 0 <= e < |g.edges| && g.edges[e].to in s
        ensures g.edges[e].from in s
      {
        assert !g.Enters(s, e);
      }
      ReachStaysOut(g.edges, s, g.entry, v, {});
    }
  }

  lemma SomethingLeaves(g: FlowGraph, s: set<nat>, v: nat) returns (e: nat)
    requires g.Ok() && g.Proper() && v in s && v < g.n && g.n - 1 !in s
    ensures e < |g.edges| && g.Leaves(s, e)
  {
    e := 0;
    if exists e: nat :: e < |g.edges| && g.Leaves(s, e) {
      e :| e < |g.edges| && g.Leaves(s, e);
    } else {
      forall e | 0 <= e < |g.edges| && g.edges[e].from in s
        ensures g.edges[e].to in s
      {
        assert !g.Leaves(s, e);
      }
      assert g.ReachesExit(v);
      ReachStaysIn(g.edges, s, v, g.n - 1, {});
    }
  }

  ghost predicate Crossing(s: set<nat>, t: set<nat>) {
    s * t != {} && !(s <= t) && !(t <= s)
  }

  /** The three pieces two crossing regions split into, in the order control passes through them. */
  ghost predicate Chained(g: FlowGraph, first: set<nat>, middle: set<nat>, last: set<nat>, e0: nat, e1: nat, e2: nat,
                          e3: nat)
    requires g.n >= 1
  {
    g.Sese(first, e0, e1) && g.Sese(middle, e1, e2) && g.Sese(last, e2, e3)
  }

  /** The chain, once it is known which pieces the four boundary edges join. */
  lemma ChainFromEnds(g: FlowGraph, s: set<nat>, a: nat, b: nat, t: set<nat>, c: nat, d: nat)
    requires g.Ok() && g.Sese(s, a, b) && g.Sese(t, c, d)
    requires g.edges[a].from !in s + t && g.edges[a].to in s - t
    requires g.edges[c].from in s - t && g.edges[c].to in s * t
    requires g.edges[b].from in s * t && g.edges[b].to in t - s
    requires g.edges[d].from in t - s && g.edges[d].to !in s + t
    ensures Chained(g, s - t, s * t, t - s, a, c, b, d)
  {
    forall e | 0 <= e < |g.edges|
      ensures g.Enters(s - t, e) <==> e == a
      ensures g.Leaves(s - t, e) <==> e == c
      ensures g.Enters(s * t, e) <==> e == c
      ensures g.Leaves(s * t, e) <==> e == b
      ensures g.Enters(t - s, e) <==> e == b
      ensures g.Leaves(t - s, e) <==> e == d
    {
      assert g.Enters(s, e) <==> e == a;
      assert g.Leaves(s, e) <==> e == b;
      assert g.Enters(t, e) <==> e == c;
      assert g.Leaves(t, e) <==> e == d;
    }
  }

  /**
   * Two crossing single-entry/single-exit sets fall into a chain of three such sets: control enters one difference,
   * passes to the intersection and leaves through the other difference.
   */
  lemma CrossingSplits(g: FlowGraph, s: set<nat>, a: nat, b: nat, t: set<nat>, c: nat, d: nat)
    requires g.Ok() && g.Proper() && g.Sese(s, a, b) && g.Sese(t, c, d) && Crossing(s, t)
    ensures Chained(g, s - t, s * t, t - s, a, c, b, d) || Chained(g, t - s, s * t, s - t, c, a, d, b)
  {
    var v0 :| v0 in s * t;
    var v1 :| v1 in s && v1 !in t;
    var v2 :| v2 in t && v2 !in s;
    var inI := SomethingEnters(g, s * t, v0);
    var inS := SomethingEnters(g, s - t, v1);
    var inT := SomethingEnters(g, t - s, v2);
    var out := SomethingLeaves(g, s + t, v0);
    assert g.Enters(s, a) && g.Leaves(s, b) && g.Enters(t, c) && g.Leaves(t, d);
    assert g.Enters(s, inI) || g.Enters(t, inI);
    assert g.Enters(s, inS) || g.Leaves(t, inS);
    assert g.Enters(t, inT) || g.Leaves(s, inT);
    assert g.Leaves(s, out) || g.Leaves(t, out);
    assert (g.Enters(t, a) <==> a == c) && (g.Leaves(t, a) <==> a == d);
    assert (g.Enters(t, b) <==> b == c) && (g.Leaves(t, b) <==> b == d);
    assert (g.Enters(s, c) <==> c == a) && (g.Leaves(s, c) <==> c == b);
    assert (g.Enters(s, d) <==> d == a) && (g.Leaves(s, d) <==> d == b);
    if g.edges[a].to in s - t {
      ChainFromEnds(g, s, a, b, t, c, d);
    } else {
      ChainFromEnds(g, t, c, d, s, a, b);
      assert t * s == s * t;
    }
  }
}
