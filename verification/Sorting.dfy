/** The library orderings the analyses rely on: sorting a sequence by a key, and listing a set in order. */
module Sorting {

  ghost predicate TotalOrder<T(!new)>(le: (T, T) -> bool) {
    && (forall x, y :: le(x, y) || le(y, x))
    && (forall x, y, z :: le(x, y) && le(y, z) ==> le(x, z))
  }

  ghost predicate Sorted<T>(le: (T, T) -> bool, s: seq<T>) {
    forall i, j :: 0 <= i < j < |s| ==> le(s[i], s[j])
  }

  ghost predicate Ascending(s: seq<nat>) {
    forall i, j :: 0 <= i < j < |s| ==> s[i] < s[j]
  }

  ghost predicate NoRepeats<T>(s: seq<T>) {
    forall i, j :: 0 <= i < j < |s| ==> s[i] != s[j]
  }

  /** Sorts by insertion. */
  method SortBy<T(!new)>(s: seq<T>, le: (T, T) -> bool) returns (out: seq<T>)
    requires TotalOrder(le)
    ensures multiset(out) == multiset(s) && Sorted(le, out)
  {
    out := [];
    for i := 0 to |s|
      invariant multiset(out) == multiset(s[..i]) && Sorted(le, out)
    {
      assert s[..i + 1] == s[..i] + [s[i]];
      out := Insert(out, s[i], le);
    }
    assert s[..|s|] == s;
  }

  method Insert<T(!new)>(s: seq<T>, x: T, le: (T, T) -> bool) returns (out: seq<T>)
    requires TotalOrder(le) && Sorted(le, s)
    ensures multiset(out) == multiset(s) + multiset{x} && Sorted(le, out)
  {
    var k := |s|;
    while k > 0 && !le(s[k - 1], x)
      invariant 0 <= k <= |s|
      invariant forall j :: k <= j < |s| ==> le(x, s[j])
    {
      k := k - 1;
    }
    out := s[..k] + [x] + s[k..];
    assert s == s[..k] + s[k..];
    InsertSorted(s, x, k, le);
  }

  lemma InsertSorted<T(!new)>(s: seq<T>, x: T, k: nat, le: (T, T) -> bool)
    requires TotalOrder(le) && Sorted(le, s) && k <= |s|
    requires k > 0 ==> le(s[k - 1], x)
    requires forall j :: k <= j < |s| ==> le(x, s[j])
    ensures Sorted(le, s[..k] + [x] + s[k..])
  {
  }

  /** The members of a finite set in ascending order. */
  method Elements(s: set<nat>) returns (out: seq<nat>)
    ensures Ascending(out) && forall x :: x in out <==> x in s
  {
    out := [];
    var rest := s;
    while rest != {}
      invariant rest <= s
      invariant forall x :: x in out <==> x in s && x !in rest
      invariant forall x, y :: x in out && y in rest ==> x < y
      invariant Ascending(out)
      decreases |rest|
    {
      var m := Minimum(rest);
      forall i | 0 <= i < |out|
        ensures out[i] < m
      {
        assert out[i] in out;
      }
      rest := rest - {m};
      out := out + [m];
    }
  }

  method Minimum(s: set<nat>) returns (m: nat)
    requires s != {}
    ensures m in s && forall x :: x in s ==> m <= x
  {
    m :| m in s;
    var rest := s - {m};
    while rest != {}
      invariant m in s && rest <= s
      invariant forall x :: x in s && x !in rest ==> m <= x
      decreases |rest|
    {
      var x :| x in rest;
      rest := rest - {x};
      if x < m {
        m := x;
      }
    }
  }

  /** No element occurs twice. */
  lemma {:induction false} DistinctIffMultiset<T>(s: seq<T>)
    ensures (forall i, j :: 0 <= i < j < |s| ==> s[i] != s[j]) <==> (forall x :: multiset(s)[x] <= 1)
    decreases |s|
  {
    if s != [] {
      var shorter, last := s[..|s| - 1], s[|s| - 1];
      assert s == shorter + [last];
      DistinctIffMultiset(shorter);
      if forall i, j :: 0 <= i < j < |s| ==> s[i] != s[j] {
        assert last !in shorter;
        assert forall i, j :: 0 <= i < j < |shorter| ==> shorter[i] != shorter[j];
      }
      if forall x :: multiset(s)[x] <= 1 {
        assert multiset(s)[last] <= 1;
        assert forall x :: multiset(shorter)[x] <= multiset(s)[x];
        assert last !in multiset(shorter);
      }
    }
  }

  lemma PermutationKeeps<T>(s: seq<T>, t: seq<T>)
    requires multiset(s) == multiset(t) && forall i, j :: 0 <= i < j < |s| ==> s[i] != s[j]
    ensures forall x :: x in s <==> x in t
    ensures forall i, j :: 0 <= i < j < |t| ==> t[i] != t[j]
  {
    forall x
      ensures x in s <==> x in t
    {
      assert x in multiset(s) <==> x in multiset(t);
    }
    DistinctIffMultiset(s);
    DistinctIffMultiset(t);
  }

  lemma SortedInits<T(!new)>(le: (T, T) -> bool, s: seq<T>, t: seq<T>, i: nat, j: nat)
    requires Sorted(le, s) && Sorted(le, t) && NoRepeats(s) && NoRepeats(t)
    requires |s| == i + 1 && |t| == j + 1 && forall x :: x in s <==> x in t
    requires forall x, y :: x in s && y in s && le(x, y) && le(y, x) ==> x == y
    ensures s[i] == t[j]
    ensures forall x :: x in s[..i] <==> x in t[..j]
  {
    assert s[i] in t && t[j] in s;
    forall x
      ensures x in s[..i] <==> x in s && x != s[i]
      ensures x in t[..j] <==> x in t && x != t[j]
    {
      assert s == s[..i] + [s[i]] && t == t[..j] + [t[j]];
    }
  }

  /** Sorted lists without repeats that have the same members are the same list. */
  lemma {:induction false} SortedUnique<T(!new)>(le: (T, T) -> bool, s: seq<T>, t: seq<T>)
    requires Sorted(le, s) && Sorted(le, t) && NoRepeats(s) && NoRepeats(t) && forall x :: x in s <==> x in t
    requires forall x, y :: x in s && y in s && le(x, y) && le(y, x) ==> x == y
    ensures s == t
    decreases |s|
  {
    HasMember(s);
    HasMember(t);
    if s != [] {
      var i, j := |s| - 1, |t| - 1;
      SortedInits(le, s, t, i, j);
      SortedUnique(le, s[..i], t[..j]);
      assert s == s[..i] + [s[i]] && t == t[..j] + [t[j]];
    }
  }

  lemma HasMember<T>(s: seq<T>)
    ensures s != [] ==> exists x :: x in s
  {
    if s != [] {
      assert s[0] in s;
    }
  }

  /** Ascending lists with the same members are the same list. */
  lemma AscendingUnique(s: seq<nat>, t: seq<nat>)
    requires Ascending(s) && Ascending(t) && forall x :: x in s <==> x in t
    ensures s == t
  {
    SortedUnique((x: nat, y: nat) => x <= y, s, t);
  }
}
