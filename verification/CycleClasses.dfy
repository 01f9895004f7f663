/** Edge cycle equivalence and its classes. */
module CycleClasses {
  import opened Cfgs
  import opened EdgeRoutes
  import opened UnionFind

  /** Some directed cycle goes through `a` and not through `b`. */
  ghost predicate CycleWithout(edges: seq<IEdge>, a: nat, b: nat)
    requires a < |edges|
  {
    Reach(edges, edges[a].to, edges[a].from, {b})
  }

  /** No directed cycle contains one of the two edges without the other. */
  ghost predicate CycleEquivalent(edges: seq<IEdge>, a: nat, b: nat)
    requires a < |edges| && b < |edges|
  {
    !CycleWithout(edges, a, b) && !CycleWithout(edges, b, a)
  }

  method ComputeCycleEquivalent(edges: seq<IEdge>, n: nat, a: nat, b: nat) returns (r: bool)
    requires InRange(edges, n) && a < |edges| && b < |edges|
    ensures r <==> CycleEquivalent(edges, a, b)
  {
    var fromA := Reachable(edges, n, edges[a].to, Some(b), false);
    var fromB := Reachable(edges, n, edges[b].to, Some(a), false);
    var aCycleWithoutB, bCycleWithoutA := fromA[edges[a].from], fromB[edges[b].from];
    r := !aCycleWithoutB && !bCycleWithoutA;
  }

  /** Off the diagonal cycle equivalence is transitive: a cycle through `a` meets `b`, and turned round it meets `c`. */
  lemma CycleEquivalentTrans(edges: seq<IEdge>, a: nat, b: nat, c: nat)
    requires a < |edges| && b < |edges| && c < |edges| && a != b && b != c && a != c
    requires CycleEquivalent(edges, a, b) && CycleEquivalent(edges, b, c)
    ensures CycleEquivalent(edges, a, c)
  {
    NoCycleWithout(edges, a, b, c);
    NoCycleWithout(edges, c, b, a);
  }

  lemma NoCycleWithout(edges: seq<IEdge>, a: nat, b: nat, c: nat)
    requires a < |edges| && b < |edges| && c < |edges| && a != c && b != c
    requires !CycleWithout(edges, a, b) && !CycleWithout(edges, b, c)
    ensures !CycleWithout(edges, a, c)
  {
    if CycleWithout(edges, a, c) {
      CutAt(edges, edges[a].to, edges[a].from, {c}, b);
      if Reach(edges, edges[a].to, edges[a].from, {c} + {b}) {
        ReachWeaken(edges, edges[a].to, edges[a].from, {c} + {b}, {b});
      } else {
        ReachWeaken(edges, edges[a].to, edges[b].from, {c} + {b}, {c});
        ReachWeaken(edges, edges[b].to, edges[a].from, {c} + {b}, {c});
        ReachStep(edges, edges[b].to, a, {c});
        ReachTrans(edges, edges[b].to, edges[a].to, edges[b].from, {c});
      }
    }
  }

  /** An edge on any cycle also lies on a cycle that uses it once, so it is never equivalent to itself. */
  lemma NotSelfEquivalent(edges: seq<IEdge>, a: nat)
    requires a < |edges|
    ensures CycleEquivalent(edges, a, a) <==> !Reach(edges, edges[a].to, edges[a].from, {})
  {
    if Reach(edges, edges[a].to, edges[a].from, {}) {
      CutAt(edges, edges[a].to, edges[a].from, {}, a);
      assert {} + {a} == {a};
    }
    if CycleWithout(edges, a, a) {
      ReachWeaken(edges, edges[a].to, edges[a].from, {a}, {});
    }
  }

  /** Same class: the same edge, or two cycle-equivalent ones. */
  ghost predicate Same(edges: seq<IEdge>, a: nat, b: nat)
    requires a < |edges| && b < |edges|
  {
    a == b || CycleEquivalent(edges, a, b)
  }

  lemma SameTrans(edges: seq<IEdge>, a: nat, b: nat, c: nat)
    requires a < |edges| && b < |edges| && c < |edges| && Same(edges, a, b) && Same(edges, b, c)
    ensures Same(edges, a, c)
  {
    if a != b && b != c && a != c {
      CycleEquivalentTrans(edges, a, b, c);
    }
  }

  /** The least member of `x`'s class. */
  ghost function Least(edges: seq<IEdge>, x: nat, k: nat): (m: nat)
    requires x < |edges| && k <= x
    requires forall y :: 0 <= y < k ==> !Same(edges, y, x)
    ensures k <= m <= x && Same(edges, m, x)
    ensures forall y :: 0 <= y < m ==> !Same(edges, y, x)
    decreases x - k
  {
    if Same(edges, k, x) then k else Least(edges, x, k + 1)
  }

  lemma LeastAgrees(edges: seq<IEdge>, x: nat, y: nat)
    requires x < |edges| && y < |edges|
    ensures Least(edges, x, 0) == Least(edges, y, 0) <==> Same(edges, x, y)
  {
    var mx, my := Least(edges, x, 0), Least(edges, y, 0);
    if Same(edges, x, y) {
      SameTrans(edges, mx, x, y);
      SameTrans(edges, my, y, x);
    }
    if mx == my {
      SameTrans(edges, x, mx, y);
    }
  }

  /**
   * The representatives once all pairs before `(a, b)` have been merged: the least member, where it has had its turn.
   */
  ghost predicate MergedUpTo(edges: seq<IEdge>, parent: seq<nat>, a: nat, b: nat) {
    && |parent| == |edges| && UnionFind.Forest(parent)
    && forall x :: 0 <= x < |edges| ==>
                     Root(parent, x) == if Least(edges, x, 0) < a || (Least(edges, x, 0) == a && x < b)
                                        then Least(edges, x, 0) else x
  }

  lemma RowDone(edges: seq<IEdge>, parent: seq<nat>, a: nat)
    requires MergedUpTo(edges, parent, a, |edges|)
    ensures MergedUpTo(edges, parent, a + 1, a + 2)
  {
  }

  lemma MergePair(edges: seq<IEdge>, parent: seq<nat>, a: nat, b: nat, after: seq<nat>)
    requires a < b < |edges| && MergedUpTo(edges, parent, a, b)
    requires !CycleEquivalent(edges, a, b) ==> after == parent
    requires CycleEquivalent(edges, a, b) ==> after == parent[Root(parent, b) := Root(parent, a)]
    ensures MergedUpTo(edges, after, a, b + 1)
  {
    LeastAgrees(edges, a, b);
    if CycleEquivalent(edges, a, b) {
      var ra, rb := Root(parent, a), Root(parent, b);
      assert ra <= rb;
      forall x | 0 <= x < |edges|
        ensures UnionFind.Forest(after)
        ensures Root(after, x) == if Root(parent, x) == rb then ra else Root(parent, x)
      {
        UnionRoots(parent, ra, rb, x);
      }
    }
  }

  /** The partition a class table describes, off the diagonal. */
  ghost predicate ExactClasses(edges: seq<IEdge>, classes: seq<nat>) {
    && |classes| == |edges|
    && forall a, b :: 0 <= a < |edges| && 0 <= b < |edges| && a != b ==>
                        (classes[a] == classes[b] <==> CycleEquivalent(edges, a, b))
  }

  /** Merges all equivalent pairs, then numbers the trees from 1 in order of first appearance. */
  method DirectCycleClasses(edges: seq<IEdge>, n: nat) returns (classes: seq<nat>)
    requires InRange(edges, n)
    ensures ExactClasses(edges, classes)
    ensures InOrder(classes) && forall a :: 0 <= a < |classes| ==> classes[a] >= 1
  {
    var parent := new nat[|edges|](i => i);
    assert forall x :: 0 <= x < |edges| ==> Root(parent[..], x) == x;
    for a := 0 to |edges|
      invariant MergedUpTo(edges, parent[..], a, a + 1)
    {
      for b := a + 1 to |edges|
        invariant MergedUpTo(edges, parent[..], a, b)
      {
        MergeIfEquivalent(edges, n, parent, a, b);
      }
      RowDone(edges, parent[..], a);
    }
    classes := LabelRoots(edges, parent);
    forall a, b | 0 <= a < |edges| && 0 <= b < |edges| && a != b
      ensures classes[a] == classes[b] <==> CycleEquivalent(edges, a, b)
    {
      LeastAgrees(edges, a, b);
    }
  }

  method MergeIfEquivalent(edges: seq<IEdge>, n: nat, parent: array<nat>, a: nat, b: nat)
    requires InRange(edges, n) && a < b < |edges| && MergedUpTo(edges, parent[..], a, b)
    modifies parent
    ensures MergedUpTo(edges, parent[..], a, b + 1)
  {
    var equivalent := ComputeCycleEquivalent(edges, n, a, b);
    if equivalent {
      var ra := Find(parent, a);
      var rb := Find(parent, b);
      ghost var before := parent[..];
      parent[rb] := ra;
      assert parent[..] == before[rb := ra];
      MergePair(edges, before, a, b, parent[..]);
    } else {
      MergePair(edges, parent[..], a, b, parent[..]);
    }
  }

  method LabelRoots(edges: seq<IEdge>, parent: array<nat>) returns (classes: seq<nat>)
    requires parent.Length == |edges| && UnionFind.Forest(parent[..])
    modifies parent
    ensures |classes| == |edges|
    ensures forall a, b :: 0 <= a < |edges| && 0 <= b < |edges| ==>
              (classes[a] == classes[b] <==> Root(old(parent[..]), a) == Root(old(parent[..]), b))
    ensures forall a :: 0 <= a < |classes| ==> classes[a] >= 1
    ensures InOrder(classes)
  {
    ghost var start := parent[..];
    var labels: map<nat, nat> := map[];
    var next := 1;
    classes := [];
    for edge := 0 to |edges|
      invariant UnionFind.Forest(parent[..])
      invariant forall x :: 0 <= x < |edges| ==> Root(parent[..], x) == Root(start, x)
      invariant |classes| == edge && true == Labels(labels, next)
      invariant InOrder(classes) && forall x :: 1 <= x < next ==> x in classes
      invariant forall a :: 0 <= a < edge ==> Root(start, a) in labels && classes[a] == labels[Root(start, a)]
    {
      var root := Find(parent, edge);
      if root !in labels {
        NewLabel(labels, next, root);
        labels := labels[root := next];
        next := next + 1;
      }
      InOrderMore(classes, labels[root]);
      classes := classes + [labels[root]];
    }
  }

  /** Labels are handed out one by one: before a label appears every smaller one has appeared. */
  ghost predicate InOrder(classes: seq<nat>) {
    forall a, x :: 0 <= a < |classes| && 1 <= x < classes[a] ==> x in classes[..a]
  }

  lemma InOrderMore(classes: seq<nat>, c: nat)
    requires InOrder(classes) && forall x :: 1 <= x < c ==> x in classes
    ensures InOrder(classes + [c])
  {
    var more := classes + [c];
    forall a, x | 0 <= a < |more| && 1 <= x < more[a]
      ensures x in more[..a]
    {
      assert more[..a] == if a < |classes| then classes[..a] else classes;
    }
  }

  /** Every root seen has a label of its own, below the next one. */
  ghost predicate Labels(labels: map<nat, nat>, next: nat) {
    && next >= 1
    && (forall r :: r in labels ==> 1 <= labels[r] < next)
    && forall r, s :: r in labels && s in labels && r != s ==> labels[r] != labels[s]
  }

  lemma NewLabel(labels: map<nat, nat>, next: nat, root: nat)
    requires Labels(labels, next) && root !in labels
    ensures Labels(labels[root := next], next + 1)
  {
  }

  /** What the bracket pass hands over: nothing when it gave up early, else a class for every edge. */
  datatype BracketPass = GaveUp | Classes(classOf: nat -> nat)

  /** The table of the bracket pass decides cycle equivalence on all pairs, the diagonal included. */
  ghost predicate Decides(edges: seq<IEdge>, pass: BracketPass)
    requires pass.Classes?
  {
    forall a, b :: 0 <= a < |edges| && 0 <= b < |edges| ==>
                     (pass.classOf(a) == pass.classOf(b) <==> CycleEquivalent(edges, a, b))
  }

  /**
   * The wrapper around the bracket pass: whatever that pass computed, its table is checked against the defining
   * predicate on all pairs, the diagonal included, and replaced when it fails.
   */
  method JppCycleClasses(edges: seq<IEdge>, n: nat, pass: BracketPass) returns (classes: seq<nat>, ghost replaced: bool)
    requires InRange(edges, n)
    ensures ExactClasses(edges, classes)
    ensures replaced <==> pass.GaveUp? || !Decides(edges, pass)
    ensures !replaced ==> forall e :: 0 <= e < |edges| ==> classes[e] == pass.classOf(e)
    ensures replaced ==> InOrder(classes) && forall a :: 0 <= a < |classes| ==> classes[a] >= 1
    ensures (exists a :: 0 <= a < |edges| && !CycleEquivalent(edges, a, a)) ==> replaced
  {
    if pass.GaveUp? {
      classes := DirectCycleClasses(edges, n);
      return classes, true;
    }
    var table: seq<nat> := seq(|edges|, (e: nat) => pass.classOf(e));
    var valid := Validate(edges, n, table);
    if valid {
      return table, false;
    }
    classes := DirectCycleClasses(edges, n);
    return classes, true;
  }

  method Validate(edges: seq<IEdge>, n: nat, table: seq<nat>) returns (valid: bool)
    requires InRange(edges, n) && |table| == |edges|
    ensures valid <==> forall a, b :: 0 <= a < |edges| && 0 <= b < |edges| ==>
                         (table[a] == table[b] <==> CycleEquivalent(edges, a, b))
  {
    for a := 0 to |edges|
      invariant forall x, y :: 0 <= x < a && 0 <= y < |edges| ==>
                         (table[x] == table[y] <==> CycleEquivalent(edges, x, y))
    {
      for b := 0 to |edges|
        invariant forall y :: 0 <= y < b ==> (table[a] == table[y] <==> CycleEquivalent(edges, a, y))
      {
        var equivalent := ComputeCycleEquivalent(edges, n, a, b);
        if (table[a] == table[b]) != equivalent {
          return false;
        }
      }
    }
    return true;
  }
}
