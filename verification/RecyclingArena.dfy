/** A slab whose removed slots are chained into a free list and reused. */
module RecyclingArenas {
  import opened Counting
  import opened Cfgs
  import opened RecyclingModel

  datatype Slot<T> = Live(value: T) | Free(next: Option<nat>)

  /** Following the chain from `at` visits exactly `list` and ends. */
  ghost predicate Threads<T>(slots: seq<Slot<T>>, at: Option<nat>, list: seq<nat>)
    decreases |list|
  {
    match at
    case None => list == []
    case Some(id) => list != [] && list[0] == id && id < |slots| && slots[id].Free?
                     && Threads(slots, slots[id].next, list[1..])
  }

  /** The chain is determined by the slots alone. */
  lemma {:induction false} ThreadsUnique<T>(slots: seq<Slot<T>>, at: Option<nat>, p: seq<nat>, q: seq<nat>)
    requires Threads(slots, at, p) && Threads(slots, at, q)
    ensures p == q
    decreases |p|
  {
    if at.Some? {
      ThreadsUnique(slots, slots[at.value].next, p[1..], q[1..]);
      assert p == [p[0]] + p[1..] && q == [q[0]] + q[1..];
    }
  }

  /** Writing a slot off the chain does not disturb it. */
  lemma {:induction false} ThreadsFrame<T>(slots: seq<Slot<T>>, after: seq<Slot<T>>, at: Option<nat>, list: seq<nat>)
    requires Threads(slots, at, list) && |slots| <= |after|
    requires forall i :: 0 <= i < |list| && list[i] < |slots| ==> after[list[i]] == slots[list[i]]
    ensures Threads(after, at, list)
    decreases |list|
  {
    if at.Some? {
      assert after[list[0]] == slots[list[0]];
      forall i | 0 <= i < |list[1..]| && list[1..][i] < |slots|
        ensures after[list[1..][i]] == slots[list[1..][i]]
      {
        assert list[1..][i] == list[i + 1];
      }
      ThreadsFrame(slots, after, slots[at.value].next, list[1..]);
    }
  }

  lemma {:induction false} ThreadsFree<T>(slots: seq<Slot<T>>, at: Option<nat>, list: seq<nat>)
    requires Threads(slots, at, list)
    ensures forall i :: 0 <= i < |list| ==> list[i] < |slots| && slots[list[i]].Free?
    decreases |list|
  {
    if at.Some? {
      ThreadsFree(slots, slots[at.value].next, list[1..]);
      forall i | 0 < i < |list|
        ensures list[i] < |slots| && slots[list[i]].Free?
      {
        assert list[i] == list[1..][i - 1];
      }
    }
  }

  /** Vacating a live slot puts it at the head of the chain. */
  lemma ThreadsFreed<T>(slots: seq<Slot<T>>, at: Option<nat>, list: seq<nat>, id: nat)
    requires id < |slots| && slots[id].Live? && Threads(slots, at, list)
    ensures Threads(slots[id := Free(at)], Some(id), [id] + list)
  {
    ThreadsFree(slots, at, list);
    ThreadsFrame(slots, slots[id := Free(at)], at, list);
    assert ([id] + list)[1..] == list;
  }

  /** Filling the slot at the head of the chain leaves the rest of the chain in place. */
  lemma ThreadsTaken<T>(slots: seq<Slot<T>>, id: nat, list: seq<nat>, s: Slot<T>)
    requires Threads(slots, Some(id), list) && forall i, j :: 0 <= i < j < |list| ==> list[i] != list[j]
    ensures Threads(slots[id := s], slots[id].next, list[1..])
  {
    forall i | 0 <= i < |list[1..]|
      ensures list[1..][i] != id
    {
      assert list[1..][i] == list[i + 1] && list[0] == id;
    }
    ThreadsFrame(slots, slots[id := s], slots[id].next, list[1..]);
  }

  ghost function Payload<T>(s: Slot<T>): Option<T> {
    if s.Live? then Some(s.value) else None
  }

  ghost function LiveCount<T>(slots: seq<Slot<T>>): nat {
    if slots == [] then 0 else LiveCount(slots[..|slots| - 1]) + if slots[|slots| - 1].Live? then 1 else 0
  }

  lemma {:induction false} LiveCountUpdate<T>(slots: seq<Slot<T>>, id: nat, s: Slot<T>)
    requires id < |slots|
    ensures LiveCount(slots[id := s])
            == LiveCount(slots) - (if slots[id].Live? then 1 else 0) + (if s.Live? then 1 else 0)
    decreases |slots|
  {
    var last := |slots| - 1;
    if id < last {
      LiveCountUpdate(slots[..last], id, s);
      assert slots[id := s][..last] == slots[..last][id := s];
    } else {
      assert slots[id := s][..last] == slots[..last];
    }
  }

  lemma LiveCountAppend<T>(slots: seq<Slot<T>>, s: Slot<T>)
    ensures LiveCount(slots + [s]) == LiveCount(slots) + (if s.Live? then 1 else 0)
  {
  }

  class RecyclingArena<T> {
    var slots: seq<Slot<T>>
    var free: Option<nat>
    var live: nat
    /** How many different values the identifier type can hold. */
    const capacity: nat
    /** The free chain. */
    ghost var chain: seq<nat>

    ghost function Abstract(): Model<T>
      reads this
    {
      Model(seq(|slots|, i requires 0 <= i < |slots| reads this => Payload(slots[i])), chain)
    }

    /** The chain is acyclic, visits every free slot exactly once, and `live` counts the others. */
    ghost predicate Valid()
      reads this
    {
      ModelOk(Abstract()) && Threads(slots, free, chain) && live == LiveCount(slots)
    }

    constructor (capacity: nat)
      ensures Valid() && Abstract() == Model([], []) && this.capacity == capacity
    {
      slots, free, live := [], None, 0;
      this.capacity := capacity;
      chain := [];
    }

    /** `None` stands for the panic when the identifier space is exhausted. */
    method Push(value: T) returns (id: Option<nat>)
      requires Valid()
      modifies this
      ensures Valid() && id == NextId(old(Abstract()), capacity)
      ensures Abstract() == AfterPush(old(Abstract()), capacity, value)
      ensures id.None? <==> old(Abstract()).vacant == [] && |old(slots)| >= capacity
      ensures id.None? ==> slots == old(slots)
      ensures id.Some? ==> id.value == if old(Abstract()).vacant == [] then |old(slots)| else old(Abstract()).vacant[0]
      ensures id.Some? ==> id.value < |slots| && slots[id.value] == Live(value)
      ensures id.Some? ==> |slots| == if old(Abstract()).vacant == [] then |old(slots)| + 1 else |old(slots)|
      ensures forall j :: 0 <= j < |old(slots)| && Some(j) != id ==> slots[j] == old(slots)[j]
    {
      if free.Some? {
        var reused := Reuse(value);
        return Some(reused);
      }
      var raw := |slots|;
      if raw >= capacity {
        return None;
      }
      ghost var before := slots;
      slots := slots + [Live(value)];
      LiveCountAppend(before, Live(value));
      live := live + 1;
      PushKeepsOk(old(Abstract()), capacity, value);
      assert Abstract().entries == AfterPush(old(Abstract()), capacity, value).entries;
      id := Some(raw);
    }

    /** The slot at the head of the chain. */
    method Reuse(value: T) returns (id: nat)
      requires Valid() && free.Some?
      modifies this
      ensures Valid() && Some(id) == NextId(old(Abstract()), capacity)
      ensures Abstract() == AfterPush(old(Abstract()), capacity, value)
      ensures id < |old(slots)| && slots == old(slots)[id := Live(value)]
    {
      id := free.value;
      ThreadsTaken(slots, id, chain, Live(value));
      LiveCountUpdate(slots, id, Live(value));
      free := slots[id].next;
      slots := slots[id := Live(value)];
      chain := chain[1..];
      live := live + 1;
      PushKeepsOk(old(Abstract()), capacity, value);
      assert Abstract().entries == AfterPush(old(Abstract()), capacity, value).entries;
    }

    /** `None` stands for the panic on an id that is out of bounds or vacant. */
    method Remove(id: nat) returns (value: Option<T>)
      requires Valid()
      modifies this
      ensures Valid() && Abstract() == AfterRemove(old(Abstract()), id)
      ensures value == if Holds(old(Abstract()), id) then old(Abstract()).entries[id] else None
      ensures value.Some? <==> id < |old(slots)| && old(slots)[id].Live?
      ensures value.None? ==> slots == old(slots)
      ensures value.Some? ==> old(slots)[id] == Live(value.value) && slots == old(slots)[id := Free(old(free))]
    {
      if id >= |slots| || slots[id].Free? {
        return None;
      }
      ghost var before := slots;
      value := Some(slots[id].value);
      ThreadsFreed(before, free, chain, id);
      LiveCountUpdate(before, id, Free(free));
      LiveCountPositive(before, id);
      slots := slots[id := Free(free)];
      free := Some(id);
      chain := [id] + chain;
      live := live - 1;
      RemoveKeepsOk(old(Abstract()), id);
      assert Abstract().entries == AfterRemove(old(Abstract()), id).entries;
    }

    method Clear()
      requires Valid()
      modifies this
      ensures Valid() && Abstract() == Model([], [])
    {
      slots, free, live := [], None, 0;
      chain := [];
    }

    method Len() returns (n: nat)
      requires Valid()
      ensures n + |chain| == |Abstract().entries|
      ensures n == |set id | 0 <= id < |slots| && slots[id].Live?|
    {
      assert forall id :: 0 <= id < |slots| ==> (slots[id].Free? <==> Abstract().entries[id].None?);
      LivePlusFree(slots, chain);
      LiveCountIs(slots);
      n := live;
    }

    method Get(id: nat) returns (value: Option<T>)
      requires Valid()
      ensures value == if Holds(Abstract(), id) then Abstract().entries[id] else None
      ensures value == if id < |slots| && slots[id].Live? then Some(slots[id].value) else None
    {
      if id >= |slots| || slots[id].Free? {
        return None;
      }
      return Some(slots[id].value);
    }

    /** Live payloads with their ids, in slot order. */
    method Iter() returns (items: seq<(nat, T)>)
      requires Valid()
      ensures forall id: nat, v :: (id, v) in items <==> Holds(Abstract(), id) && Abstract().entries[id] == Some(v)
      ensures forall id: nat, v :: (id, v) in items <==> id < |slots| && slots[id] == Live(v)
      ensures forall i, j :: 0 <= i < j < |items| ==> items[i].0 < items[j].0
    {
      items := [];
      for raw := 0 to |slots|
        invariant forall id: nat, v :: (id, v) in items <==> id < raw && slots[id] == Live(v)
        invariant forall i, j :: 0 <= i < j < |items| ==> items[i].0 < items[j].0
        invariant forall i :: 0 <= i < |items| ==> items[i].0 < raw
      {
        if slots[raw].Live? {
          items := items + [(raw, slots[raw].value)];
        }
      }
    }
  }

  lemma LiveCountPositive<T>(slots: seq<Slot<T>>, id: nat)
    requires id < |slots| && slots[id].Live?
    ensures LiveCount(slots) > 0
    decreases |slots|
  {
  }

  ghost function FreeIds<T>(slots: seq<Slot<T>>): set<nat> {
    set i | 0 <= i < |slots| && slots[i].Free?
  }

  lemma {:induction false} LivePlusFreeIds<T>(slots: seq<Slot<T>>)
    ensures LiveCount(slots) + |FreeIds(slots)| == |slots|
    decreases |slots|
  {
    if slots != [] {
      var last := |slots| - 1;
      LivePlusFreeIds(slots[..last]);
      if slots[last].Free? {
        assert FreeIds(slots) == FreeIds(slots[..last]) + {last};
      } else {
        assert FreeIds(slots) == FreeIds(slots[..last]);
      }
    }
  }

  lemma {:induction false} LiveCountIs<T>(slots: seq<Slot<T>>)
    ensures LiveCount(slots) == |set id | 0 <= id < |slots| && slots[id].Live?|
    decreases |slots|
  {
    if slots != [] {
      var last := |slots| - 1;
      LiveCountIs(slots[..last]);
      var before := set id | 0 <= id < last && slots[..last][id].Live?;
      var all := set id | 0 <= id < |slots| && slots[id].Live?;
      assert all == before + if slots[last].Live? then {last} else {};
    }
  }

  /** Every slot is live or on the chain. */
  lemma LivePlusFree<T>(slots: seq<Slot<T>>, chain: seq<nat>)
    requires forall i :: 0 <= i < |chain| ==> chain[i] < |slots| && slots[chain[i]].Free?
    requires forall id :: 0 <= id < |slots| && slots[id].Free? ==> id in chain
    requires forall i, j :: 0 <= i < j < |chain| ==> chain[i] != chain[j]
    ensures LiveCount(slots) + |chain| == |slots|
  {
    LivePlusFreeIds(slots);
    DistinctLength(chain, FreeIds(slots));
  }

  /** Every run of operations from an empty arena follows the model; the chain is never found broken. */
  method Run<T>(capacity: nat, ops: seq<Op<T>>) returns (arena: RecyclingArena<T>)
    ensures arena.Valid() && arena.Abstract() == AfterAll(Model([], []), capacity, ops)
  {
    arena := new RecyclingArena<T>(capacity);
    for i := 0 to |ops|
      invariant fresh(arena) && arena.Valid() && arena.capacity == capacity
      invariant arena.Abstract() == AfterAll(Model([], []), capacity, ops[..i])
    {
      assert ops[..i + 1][..i] == ops[..i];
      Step(arena, ops[i]);
    }
    assert ops[..|ops|] == ops;
  }

  /** One operation follows the model. */
  method Step<T>(arena: RecyclingArena<T>, op: Op<T>)
    requires arena.Valid()
    modifies arena
    ensures arena.Valid()
    ensures arena.Abstract() == After(old(arena.Abstract()), arena.capacity, op)
  {
    match op
    case Push(value) => var id := arena.Push(value);
    case Remove(id) => var value := arena.Remove(id);
    case Clear => arena.Clear();
  }
}
