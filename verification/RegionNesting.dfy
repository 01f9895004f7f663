/** Nesting a laminar family of node sets into a tree, and who owns which node. */
module RegionNesting {
  import opened Counting
  import opened SeseRegions

  /** `r` is the first of the smallest sets that contain `x`. */
  ghost predicate IsSmallest(sets: seq<set<nat>>, x: set<nat>, r: nat) {
    && r < |sets| && x <= sets[r]
    && forall j :: 0 <= j < |sets| && x <= sets[j] ==> |sets[r]| < |sets[j]| || (|sets[r]| == |sets[j]| && r <= j)
  }

  /** The sets from largest to smallest, each with the smallest set listed before it that contains it as its parent. */
  ghost predicate Nested(sets: seq<set<nat>>, parents: seq<nat>) {
    && |sets| == |parents| >= 1
    && (forall i :: 1 <= i < |sets| ==> sets[i] <= sets[0] && sets[i] != {})
    && (forall i, j :: 1 <= i < j < |sets| ==> |sets[j]| <= |sets[i]|)
    && (forall i, j :: 1 <= i < |sets| && 1 <= j < |sets| ==> !Crossing(sets[i], sets[j]))
    && (forall i: nat :: 1 <= i < |sets| ==> ParentOk(sets, parents, i))
  }

  ghost predicate ParentOk(sets: seq<set<nat>>, parents: seq<nat>, i: nat)
    requires i < |sets| == |parents|
  {
    IsSmallest(sets[..i], sets[i], parents[i])
  }

  /** Node `v` is owned by the smallest set that contains it. */
  ghost predicate Owns(sets: seq<set<nat>>, i: nat, v: nat) {
    IsSmallest(sets, {v}, i)
  }

  ghost predicate IsChild(parents: seq<nat>, c: nat, i: nat) {
    1 <= c < |parents| && parents[c] == i
  }

  /** Child `c` of set `i` contains `v`. */
  ghost predicate InChild(sets: seq<set<nat>>, parents: seq<nat>, i: nat, c: nat, v: nat) {
    IsChild(parents, c, i) && c < |sets| && v in sets[c]
  }

  ghost predicate Placed(sets: seq<set<nat>>, parents: seq<nat>, i: nat, v: nat) {
    Owns(sets, i, v) || exists c: nat :: InChild(sets, parents, i, c, v)
  }

  /** Every member of every set is owned by the set itself or lies in exactly one child, never both. */
  ghost predicate Partitioned(sets: seq<set<nat>>, parents: seq<nat>)
    requires |sets| == |parents|
  {
    && (forall i: nat, v :: i < |sets| && v in sets[i] ==> Placed(sets, parents, i, v))
    && (forall i: nat, v, c: nat :: i < |sets| && InChild(sets, parents, i, c, v) ==> v in sets[i] && !Owns(sets, i, v))
    && (forall i: nat, v, c: nat, d: nat ::
          i < |sets| && InChild(sets, parents, i, c, v) && InChild(sets, parents, i, d, v) ==> c == d)
  }

  /** Two sets of the family that share a node and are not equal: the smaller one is inside the larger one. */
  lemma Compare(sets: seq<set<nat>>, parents: seq<nat>, i: nat, j: nat, v: nat)
    requires Nested(sets, parents) && i < |sets| && j < |sets| && v in sets[i] && v in sets[j]
    requires |sets[i]| <= |sets[j]|
    ensures sets[i] <= sets[j]
  {
    SubsetSize(sets[i], sets[0]);
    SubsetSize(sets[j], sets[0]);
    if i >= 1 && j >= 1 {
      assert !Crossing(sets[i], sets[j]);
      assert v in sets[i] * sets[j];
    }
    if sets[j] <= sets[i] {
      SubsetSize(sets[j], sets[i]);
    }
  }

  ghost predicate Distinct(sets: seq<set<nat>>) {
    forall i, j :: 0 <= i < j < |sets| ==> sets[i] != sets[j]
  }

  /** From the owner of a node the parent chain passes every set that contains the node. */
  lemma {:induction false} ChildOnChain(sets: seq<set<nat>>, parents: seq<nat>, o: nat, i: nat, v: nat) returns (c: nat)
    requires Nested(sets, parents) && Distinct(sets)
    requires o < |sets| && i < |sets| && v in sets[o] && v in sets[i] && o != i && |sets[o]| <= |sets[i]|
    ensures IsChild(parents, c, i) && v in sets[c]
    decreases o
  {
    Compare(sets, parents, o, i, v);
    assert sets[o] != sets[i];
    SubsetSize(sets[o], sets[i]);
    assert i < o by {
      if o == 0 {
        SubsetSize(sets[i], sets[0]);
      }
    }
    var p := parents[o];
    assert ParentOk(sets, parents, o);
    assert sets[..o][i] == sets[i] && sets[..o][p] == sets[p];
    if p == i {
      c := o;
    } else {
      c := ChildOnChain(sets, parents, p, i, v);
    }
  }

  lemma ParentFacts(sets: seq<set<nat>>, parents: seq<nat>, c: nat)
    requires Nested(sets, parents) && 1 <= c < |sets|
    ensures parents[c] < c && sets[c] <= sets[parents[c]]
    ensures forall j :: 0 <= j < c && sets[c] <= sets[j] ==>
              |sets[parents[c]]| < |sets[j]| || (|sets[parents[c]]| == |sets[j]| && parents[c] <= j)
  {
    assert ParentOk(sets, parents, c);
  }

  lemma SmallestExists(sets: seq<set<nat>>, x: set<nat>, k: nat) returns (r: nat)
    requires k < |sets| && x <= sets[k]
    ensures IsSmallest(sets, x, r)
    decreases |sets[k]|, k
  {
    if j: nat :| j < |sets| && x <= sets[j] && (|sets[j]| < |sets[k]| || (|sets[j]| == |sets[k]| && j < k)) {
      r := SmallestExists(sets, x, j);
    } else {
      r := k;
    }
  }

  /** Distinct sets: the family partitions. */
  lemma DistinctPartitions(sets: seq<set<nat>>, parents: seq<nat>)
    requires Nested(sets, parents) && Distinct(sets)
    ensures Partitioned(sets, parents)
  {
    forall i: nat, v | i < |sets| && v in sets[i]
      ensures Placed(sets, parents, i, v)
    {
      var o := SmallestExists(sets, {v}, i);
      if o != i {
        var c := ChildOnChain(sets, parents, o, i, v);
        assert InChild(sets, parents, i, c, v);
      }
    }
    forall i: nat, v, c: nat | i < |sets| && InChild(sets, parents, i, c, v)
      ensures v in sets[i] && !Owns(sets, i, v)
    {
      ParentFacts(sets, parents, c);
      SubsetSize(sets[c], sets[i]);
    }
    forall i: nat, v, c: nat, d: nat | i < |sets| && InChild(sets, parents, i, c, v) && InChild(sets, parents, i, d, v)
      ensures c == d
    {
      if c < d {
        SiblingsDisjoint(sets, parents, i, c, d, v);
      } else if d < c {
        SiblingsDisjoint(sets, parents, i, d, c, v);
      }
    }
  }

  lemma SiblingsDisjoint(sets: seq<set<nat>>, parents: seq<nat>, i: nat, c: nat, d: nat, v: nat)
    requires Nested(sets, parents) && Distinct(sets) && c < d
    requires IsChild(parents, c, i) && IsChild(parents, d, i) && v in sets[c]
    ensures v !in sets[d]
  {
    ParentFacts(sets, parents, c);
    ParentFacts(sets, parents, d);
    SubsetSize(sets[c], sets[i]);
    if v in sets[d] {
      Compare(sets, parents, d, c, v);
    }
  }

  /** A repeated set spoils the partition: its later copy owns nothing and has no children. */
  lemma PartitionNeedsDistinct(sets: seq<set<nat>>, parents: seq<nat>, i: nat, j: nat)
    requires Nested(sets, parents) && sets[0] != {} && i < j < |sets| && sets[i] == sets[j]
    ensures !Partitioned(sets, parents)
  {
    var v :| v in sets[j];
    assert !Owns(sets, j, v);
    forall c: nat
      ensures !IsChild(parents, c, j)
    {
      if 1 <= c < |parents| {
        ParentFacts(sets, parents, c);
      }
    }
    assert !Placed(sets, parents, j, v);
  }

  /** The family partitions exactly when no two of its sets are equal. */
  lemma PartitionedIffDistinct(sets: seq<set<nat>>, parents: seq<nat>)
    requires Nested(sets, parents) && sets[0] != {}
    ensures Partitioned(sets, parents) <==> Distinct(sets)
  {
    if Distinct(sets) {
      DistinctPartitions(sets, parents);
    } else {
      var i, j :| 0 <= i < j < |sets| && sets[i] == sets[j];
      PartitionNeedsDistinct(sets, parents, i, j);
    }
  }

  /** First smallest set containing `x`, by one scan. */
  method SmallestContaining(sets: seq<set<nat>>, x: set<nat>) returns (r: nat)
    requires |sets| > 0 && x <= sets[0]
    ensures IsSmallest(sets, x, r)
  {
    r := 0;
    for i := 1 to |sets|
      invariant r < i && x <= sets[r]
      invariant forall j :: 0 <= j < i && x <= sets[j] ==> |sets[r]| < |sets[j]| || (|sets[r]| == |sets[j]| && r <= j)
    {
      if x <= sets[i] && |sets[i]| < |sets[r]| {
        r := i;
      }
    }
  }
}
