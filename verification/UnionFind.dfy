/** Union-find over an array of parent pointers that never point upwards, with path halving. */
module UnionFind {

  ghost predicate Forest(parent: seq<nat>) {
    forall x :: 0 <= x < |parent| ==> parent[x] <= x
  }

  ghost function Root(parent: seq<nat>, x: nat): (r: nat)
    requires Forest(parent) && x < |parent|
    ensures r <= x && parent[r] == r
    decreases x
  {
    if parent[x] == x then x else Root(parent, parent[x])
  }

  lemma {:induction false} HalvingKeepsRoots(parent: seq<nat>, x: nat, y: nat)
    requires Forest(parent) && x < |parent| && y < |parent|
    ensures Forest(parent[x := parent[parent[x]]])
    ensures Root(parent[x := parent[parent[x]]], y) == Root(parent, y)
    decreases y
  {
    var halved := parent[x := parent[parent[x]]];
    if halved[y] != y {
      if y == x && parent[parent[x]] != parent[x] {
        HalvingKeepsRoots(parent, x, parent[parent[x]]);
      } else {
        HalvingKeepsRoots(parent, x, parent[y]);
      }
    }
  }

  /** The representative of `node`, halving the path on the way; every representative is unchanged. */
  method Find(parent: array<nat>, node: nat) returns (r: nat)
    requires Forest(parent[..]) && node < parent.Length
    modifies parent
    ensures Forest(parent[..])
    ensures r == Root(old(parent[..]), node)
    ensures forall x :: 0 <= x < parent.Length ==> Root(parent[..], x) == Root(old(parent[..]), x)
  {
    r := node;
    while parent[r] != r
      invariant r < parent.Length && Forest(parent[..])
      invariant Root(parent[..], r) == Root(old(parent[..]), node)
      invariant forall x :: 0 <= x < parent.Length ==> Root(parent[..], x) == Root(old(parent[..]), x)
      decreases r
    {
      ghost var before := parent[..];
      parent[r] := parent[parent[r]];
      assert parent[..] == before[r := before[before[r]]];
      forall x | 0 <= x < parent.Length
        ensures Root(parent[..], x) == Root(before, x)
      {
        HalvingKeepsRoots(before, r, x);
      }
      r := parent[r];
    }
  }

  /** Hanging the root `rb` below the smaller root `ra` redirects exactly the members of `rb`'s tree. */
  lemma {:induction false} UnionRoots(parent: seq<nat>, ra: nat, rb: nat, x: nat)
    requires Forest(parent) && ra <= rb < |parent| && x < |parent| && parent[ra] == ra && parent[rb] == rb
    ensures Forest(parent[rb := ra])
    ensures Root(parent[rb := ra], x) == if Root(parent, x) == rb then ra else Root(parent, x)
    decreases x
  {
    if x != rb && parent[x] != x {
      UnionRoots(parent, ra, rb, parent[x]);
    }
  }
}
