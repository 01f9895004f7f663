/** Chunked, address-stable storage. */
module Registries {
  import opened Cfgs
  import opened DoublingLayout

  /** How many of `len` elements fall into chunk `k`. */
  ghost function ChunkLen(len: nat, k: nat): nat {
    if len + 1 <= Pow2(k) then 0
    else if len + 1 - Pow2(k) >= Pow2(k) then Pow2(k)
    else len + 1 - Pow2(k)
  }

  /** The chunks hold `len` elements in the doubling layout; chunks emptied by a truncation stay, empty. */
  ghost predicate Layout<T>(chunks: seq<seq<T>>, len: nat) {
    && (forall k :: 0 <= k < |chunks| ==> |chunks[k]| == ChunkLen(len, k))
    && len < Pow2(|chunks|)
  }

  /** One more element makes its own chunk longer by one and leaves the others. */
  lemma ChunkGrows(len: nat, j: nat)
    ensures ChunkLen(len, Locate(len).0) == Locate(len).1
    ensures ChunkLen(len + 1, j) == if j == Locate(len).0 then Locate(len).1 + 1 else ChunkLen(len, j)
  {
    var k := Locate(len).0;
    if j < k {
      Pow2Grows(j, k);
    } else if k < j {
      Pow2Grows(k, j);
    }
  }

  lemma InChunk<T>(chunks: seq<seq<T>>, len: nat, n: nat)
    requires Layout(chunks, len) && n < len
    ensures Locate(n).0 < |chunks| && Locate(n).1 < |chunks[Locate(n).0]|
  {
    var (k, offset) := Locate(n);
    if |chunks| <= k {
      if |chunks| < k {
        Pow2Grows(|chunks|, k);
      }
    }
  }

  ghost function Element<T>(chunks: seq<seq<T>>, len: nat, n: nat): T
    requires Layout(chunks, len) && n < len
  {
    InChunk(chunks, len, n);
    chunks[Locate(n).0][Locate(n).1]
  }

  /** The registry as the plain sequence its users see. */
  ghost function Contents<T>(chunks: seq<seq<T>>, len: nat): (s: seq<T>)
    requires Layout(chunks, len)
    ensures |s| == len && forall n :: 0 <= n < len ==> s[n] == Element(chunks, len, n)
  {
    seq(len, n requires 0 <= n < len => Element(chunks, len, n))
  }

  ghost function Flatten<T>(chunks: seq<seq<T>>): seq<T> {
    if chunks == [] then [] else Flatten(chunks[..|chunks| - 1]) + chunks[|chunks| - 1]
  }

  /** The elements before chunk `k`. */
  ghost function Before(len: nat, k: nat): nat {
    if len + 1 <= Pow2(k) then len else Pow2(k) - 1
  }

  lemma {:induction false} FlattenPrefix<T>(chunks: seq<seq<T>>, len: nat, k: nat)
    requires Layout(chunks, len) && k <= |chunks|
    ensures |Flatten(chunks[..k])| == Before(len, k)
    ensures forall n :: 0 <= n < Before(len, k) ==> Flatten(chunks[..k])[n] == Element(chunks, len, n)
    decreases k
  {
    if k > 0 {
      FlattenPrefix(chunks, len, k - 1);
      var shorter := Flatten(chunks[..k - 1]);
      assert chunks[..k][..k - 1] == chunks[..k - 1];
      assert Flatten(chunks[..k]) == shorter + chunks[k - 1];
      forall n | 0 <= n < Before(len, k)
        ensures Flatten(chunks[..k])[n] == Element(chunks, len, n)
      {
        if n >= Before(len, k - 1) {
          LocateOnto(n, k - 1, n + 1 - Pow2(k - 1));
        }
      }
    }
  }

  /** Reading the chunks one after the other gives the sequence: no gap, no leftover, empty chunks included. */
  lemma FlattenIsContents<T>(chunks: seq<seq<T>>, len: nat)
    requires Layout(chunks, len)
    ensures Flatten(chunks) == Contents(chunks, len)
  {
    FlattenPrefix(chunks, len, |chunks|);
    assert chunks[..|chunks|] == chunks;
  }

  /** The chunks after a push. */
  ghost function Grown<T>(chunks: seq<seq<T>>, k: nat, e: T): seq<seq<T>>
    requires k <= |chunks|
  {
    if k == |chunks| then chunks + [[e]] else chunks[k := chunks[k] + [e]]
  }

  lemma GrownLayout<T>(chunks: seq<seq<T>>, len: nat, e: T)
    requires Layout(chunks, len)
    ensures Locate(len).0 <= |chunks|
    ensures Locate(len).0 == |chunks| ==> Locate(len).1 == 0
    ensures Locate(len).0 < |chunks| ==> |chunks[Locate(len).0]| == Locate(len).1
    ensures Layout(Grown(chunks, Locate(len).0, e), len + 1)
  {
    var (k, offset) := Locate(len);
    if |chunks| < k {
      Pow2Grows(|chunks|, k);
    }
    var g := Grown(chunks, k, e);
    forall j | 0 <= j < |g|
      ensures |g[j]| == ChunkLen(len + 1, j)
    {
      ChunkGrows(len, j);
    }
    if k < |chunks| {
      if k + 1 < |chunks| {
        Pow2Grows(k + 1, |chunks|);
      }
    }
  }

  lemma GrownElement<T>(chunks: seq<seq<T>>, len: nat, e: T, k: nat, n: nat)
    requires Layout(chunks, len) && k == Locate(len).0 <= |chunks| && n <= len
    requires Layout(Grown(chunks, k, e), len + 1)
    ensures Element(Grown(chunks, k, e), len + 1, n) == if n < len then Element(chunks, len, n) else e
  {
    ChunkGrows(len, k);
    InChunk(Grown(chunks, k, e), len + 1, n);
    if n < len {
      InChunk(chunks, len, n);
    }
  }

  lemma GrownContents<T>(chunks: seq<seq<T>>, len: nat, e: T)
    requires Layout(chunks, len)
    ensures Locate(len).0 <= |chunks| && Layout(Grown(chunks, Locate(len).0, e), len + 1)
    ensures Contents(Grown(chunks, Locate(len).0, e), len + 1) == Contents(chunks, len) + [e]
  {
    GrownLayout(chunks, len, e);
    var k := Locate(len).0;
    var g := Grown(chunks, k, e);
    forall n | 0 <= n <= len
      ensures Element(g, len + 1, n) == if n < len then Element(chunks, len, n) else e
    {
      GrownElement(chunks, len, e, k, n);
    }
  }

  /** The chunks after the last element has gone. */
  ghost function Shrunk<T>(chunks: seq<seq<T>>, k: nat, offset: nat): seq<seq<T>>
    requires k < |chunks| && offset <= |chunks[k]|
  {
    chunks[k := chunks[k][..offset]]
  }

  lemma ShrunkLayout<T>(chunks: seq<seq<T>>, len: nat)
    requires Layout(chunks, len) && len > 0
    ensures Locate(len - 1).0 < |chunks| && Locate(len - 1).1 < |chunks[Locate(len - 1).0]|
    ensures Layout(Shrunk(chunks, Locate(len - 1).0, Locate(len - 1).1), len - 1)
  {
    InChunk(chunks, len, len - 1);
    var (k, offset) := Locate(len - 1);
    var s := Shrunk(chunks, k, offset);
    forall j | 0 <= j < |s|
      ensures |s[j]| == ChunkLen(len - 1, j)
    {
      ChunkGrows(len - 1, j);
    }
  }

  lemma ShrunkContents<T>(chunks: seq<seq<T>>, len: nat)
    requires Layout(chunks, len) && len > 0
    ensures Locate(len - 1).0 < |chunks| && Locate(len - 1).1 < |chunks[Locate(len - 1).0]|
    ensures Layout(Shrunk(chunks, Locate(len - 1).0, Locate(len - 1).1), len - 1)
    ensures Contents(Shrunk(chunks, Locate(len - 1).0, Locate(len - 1).1), len - 1) == Contents(chunks, len)[..len - 1]
  {
    ShrunkLayout(chunks, len);
    var s := Shrunk(chunks, Locate(len - 1).0, Locate(len - 1).1);
    forall n | 0 <= n < len - 1
      ensures Element(s, len - 1, n) == Element(chunks, len, n)
    {
      InChunk(chunks, len, n);
      InChunk(s, len - 1, n);
    }
  }

  /** No chunk outgrows the capacity it is allocated with, so no element is ever moved. */
  lemma ChunksFit<T>(chunks: seq<seq<T>>, len: nat, k: nat)
    requires Layout(chunks, len) && k < |chunks|
    ensures |chunks[k]| <= Pow2(k)
  {
  }

  class Registry<T> {
    var chunks: seq<seq<T>>
    var len: nat

    ghost predicate Valid()
      reads this
    {
      Layout(chunks, len)
    }

    ghost function Items(): (s: seq<T>)
      requires Valid()
      reads this
      ensures |s| == len
    {
      Contents(chunks, len)
    }

    constructor ()
      ensures Valid() && Items() == [] && chunks == []
    {
      chunks, len := [], 0;
    }

    method Push(e: T) returns (id: nat)
      requires Valid()
      modifies this
      ensures Valid() && id == old(len) && Items() == old(Items()) + [e]
      ensures |chunks| == if Locate(old(len)).0 == |old(chunks)| then |old(chunks)| + 1 else |old(chunks)|
    {
      var n := len;
      var (k, offset) := Locate(n);
      GrownContents(chunks, len, e);
      GrownLayout(chunks, len, e);
      ghost var before := chunks;
      if offset == 0 && |chunks| == k {
        chunks := chunks + [[]];
        assert chunks[k] + [e] == [e];
      }
      chunks := chunks[k := chunks[k] + [e]];
      assert chunks == Grown(before, k, e);
      len := len + 1;
      id := n;
    }

    /** Drops the elements from `newLen` on; the chunks stay. */
    method Truncate(newLen: nat)
      requires Valid()
      modifies this
      ensures Valid() && |chunks| == |old(chunks)|
      ensures Items() == if newLen < old(len) then old(Items())[..newLen] else old(Items())
    {
      while len > newLen
        invariant Valid() && |chunks| == |old(chunks)| && len <= old(len)
        invariant len < old(len) ==> newLen <= len
        invariant Items() == old(Items())[..len]
      {
        DropLast();
      }
    }

    /** Drops the last element. */
    method DropLast()
      requires Valid() && len > 0
      modifies this
      ensures Valid() && |chunks| == |old(chunks)| && len == old(len) - 1 && Items() == old(Items())[..len]
    {
      ShrunkContents(chunks, len);
      var (k, offset) := Locate(len - 1);
      chunks := chunks[k := chunks[k][..offset]];
      len := len - 1;
    }

    method At(n: nat) returns (e: T)
      requires Valid() && n < len
      ensures e == Items()[n]
    {
      InChunk(chunks, len, n);
      var (k, offset) := Locate(n);
      e := chunks[k][offset];
    }

    /** Swaps one element out; the old one is returned. */
    method Replace(id: nat, value: T) returns (previous: T)
      requires Valid() && id < len
      modifies this
      ensures Valid() && previous == old(Items())[id] && Items() == old(Items())[id := value]
      ensures len == old(len)
    {
      InChunk(chunks, len, id);
      var (k, offset) := Locate(id);
      previous := chunks[k][offset];
      ghost var before := chunks;
      chunks := chunks[k := chunks[k][offset := value]];
      forall n | 0 <= n < len
        ensures Element(chunks, len, n) == if n == id then value else Element(before, len, n)
      {
        InChunk(before, len, n);
        LocateInjective(n, id);
      }
    }

    /** One pass over the chunks, counting ids as it goes. */
    method Iter() returns (items: seq<(nat, T)>)
      requires Valid()
      ensures |items| == len && forall n :: 0 <= n < len ==> items[n] == (n, Items()[n])
    {
      items := [];
      for k := 0 to |chunks|
        invariant |items| == |Flatten(chunks[..k])|
        invariant forall n :: 0 <= n < |items| ==> items[n] == (n, Flatten(chunks[..k])[n])
      {
        assert chunks[..k + 1][..k] == chunks[..k];
        ghost var flat := Flatten(chunks[..k]);
        for j := 0 to |chunks[k]|
          invariant |items| == |flat| + j
          invariant forall n :: 0 <= n < |items| ==> items[n] == (n, (flat + chunks[k])[n])
        {
          items := items + [(|items|, chunks[k][j])];
        }
      }
      assert chunks[..|chunks|] == chunks;
      FlattenIsContents(chunks, len);
    }

    /** What is stored at a place. */
    ghost function Place(slot: (nat, nat)): Option<T>
      reads this
    {
      if slot.0 < |chunks| && slot.1 < |chunks[slot.0]| then Some(chunks[slot.0][slot.1]) else None
    }

    /**
     * The places of the requested elements, in request order. `None` stands for the panic on an id that is out of
     * bounds or requested twice.
     */
    method SelectMut(ids: seq<nat>) returns (slots: Option<seq<(nat, nat)>>)
      requires Valid()
      ensures slots.Some? <==>
              (forall i :: 0 <= i < |ids| ==> ids[i] < len) && (forall i, j :: 0 <= i < j < |ids| ==> ids[i] != ids[j])
      ensures slots.Some? ==> |slots.value| == |ids|
      ensures slots.Some? ==> forall i :: 0 <= i < |ids| ==> slots.value[i] == Locate(ids[i])
      ensures slots.Some? ==> forall i :: 0 <= i < |ids| ==> Place(slots.value[i]) == Some(Items()[ids[i]])
      ensures slots.Some? ==> forall i, j :: 0 <= i < j < |ids| ==> slots.value[i] != slots.value[j]
    {
      var want: map<nat, nat> := map[];
      for pos := 0 to |ids|
        invariant Selectable(ids[..pos], len)
        invariant forall n :: n in want <==> n in ids[..pos]
        invariant forall n :: n in want ==> want[n] < pos && ids[want[n]] == n
      {
        if ids[pos] >= len || ids[pos] in want {
          NotSelectable(ids, len, pos);
          return None;
        }
        assert ids[..pos + 1] == ids[..pos] + [ids[pos]];
        want := want[ids[pos] := pos];
      }
      assert ids[..|ids|] == ids;
      var routed := Route(ids, want);
      slots := Some(routed);
      forall i | 0 <= i < |ids|
        ensures Place(routed[i]) == Some(Items()[ids[i]])
      {
        InChunk(chunks, len, ids[i]);
      }
      forall i, j | 0 <= i < j < |ids|
        ensures routed[i] != routed[j]
      {
        LocateInjective(ids[i], ids[j]);
      }
    }

    /** The routing pass: every place visited in id order, kept where it was asked for. */
    method Route(ids: seq<nat>, want: map<nat, nat>) returns (routed: seq<(nat, nat)>)
      requires Valid() && Selectable(ids, len)
      requires forall n :: n in want <==> n in ids
      requires forall n :: n in want ==> want[n] < |ids| && ids[want[n]] == n
      ensures |routed| == |ids| && forall i :: 0 <= i < |ids| ==> routed[i] == Locate(ids[i])
    {
      routed := seq(|ids|, i => (0, 0));
      for n := 0 to len
        invariant |routed| == |ids|
        invariant forall i :: 0 <= i < |ids| && ids[i] < n ==> routed[i] == Locate(ids[i])
      {
        if n in want {
          routed := routed[want[n] := Locate(n)];
          forall i | 0 <= i < |ids| && ids[i] == n
            ensures i == want[n]
          {
          }
        }
        forall i | 0 <= i < |ids| && ids[i] == n
          ensures n in want
        {
          assert ids[i] in ids;
        }
      }
    }
  }

  ghost predicate Selectable(ids: seq<nat>, len: nat) {
    && (forall i :: 0 <= i < |ids| ==> ids[i] < len)
    && (forall i, j :: 0 <= i < j < |ids| ==> ids[i] != ids[j])
  }

  lemma NotSelectable(ids: seq<nat>, len: nat, pos: nat)
    requires pos < |ids| && (ids[pos] >= len || ids[pos] in ids[..pos])
    ensures !Selectable(ids, len)
  {
  }

  /** Rebuilding by pushing every element in turn. */
  method FromSeq<T>(items: seq<T>) returns (r: Registry<T>)
    ensures fresh(r) && r.Valid() && r.Items() == items
  {
    r := new Registry<T>();
    for i := 0 to |items|
      invariant fresh(r) && r.Valid() && r.Items() == items[..i]
    {
      assert items[..i + 1] == items[..i] + [items[i]];
      var id := r.Push(items[i]);
    }
    assert items[..|items|] == items;
  }

  datatype Op<T> = Push(value: T) | Truncate(len: nat)

  ghost function After<T>(s: seq<T>, op: Op<T>): seq<T> {
    match op
    case Push(value) => s + [value]
    case Truncate(len) => if len < |s| then s[..len] else s
  }

  ghost function AfterAll<T>(s: seq<T>, ops: seq<Op<T>>): seq<T>
    decreases |ops|
  {
    if ops == [] then s else After(AfterAll(s, ops[..|ops| - 1]), ops[|ops| - 1])
  }

  /** Any mix of pushes and truncations does to the registry what it does to a plain sequence. */
  method Run<T>(ops: seq<Op<T>>) returns (r: Registry<T>)
    ensures r.Valid() && r.Items() == AfterAll([], ops) && Flatten(r.chunks) == AfterAll([], ops)
  {
    r := new Registry<T>();
    for i := 0 to |ops|
      invariant fresh(r) && r.Valid() && r.Items() == AfterAll([], ops[..i])
    {
      assert ops[..i + 1][..i] == ops[..i];
      match ops[i]
      case Push(value) => var id := r.Push(value);
      case Truncate(len) => r.Truncate(len);
    }
    assert ops[..|ops|] == ops;
    FlattenIsContents(r.chunks, r.len);
  }
}
