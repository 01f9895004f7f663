/** The arena itself. */
module StableArenas {
  import opened Cfgs
  import opened StableArenaState

  class StableArena<T> {
    var values: seq<T>
    var slotIds: seq<nat>
    var locations: seq<nat>
    /** How many different values the identifier type can hold. */
    const capacity: nat

    ghost function State(): Dense<T>
      reads this
    {
      Dense(values, slotIds, locations)
    }

    ghost predicate Valid()
      reads this
    {
      State().Ok() && |locations| <= capacity
    }

    constructor (capacity: nat)
      ensures Valid() && State() == Dense([], [], []) && this.capacity == capacity
    {
      values, slotIds, locations := [], [], [];
      this.capacity := capacity;
    }

    function LiveSlot(id: nat): (slot: Option<nat>)
      requires Valid()
      reads this
      ensures slot.Some? <==> id in State().View()
      ensures slot.Some? ==> slot.value < |slotIds| && slotIds[slot.value] == id
      ensures slot.Some? ==> values[slot.value] == State().View()[id]
    {
      if id < |locations| && locations[id] != DEAD then Some(locations[id]) else None
    }

    /** `None` stands for the panic when no further id can be issued; the arena is then unchanged. */
    method Push(value: T) returns (id: Option<nat>)
      requires Valid()
      modifies this
      ensures Valid()
      ensures id == if |old(locations)| < DEAD && |old(locations)| < capacity then Some(|old(locations)|) else None
      ensures State() == if id.Some? then Pushed(old(State()), value) else old(State())
      ensures id.Some? ==> State().View() == old(State()).View()[id.value := value]
      ensures id.Some? ==> values == old(values) + [value] && slotIds == old(slotIds) + [id.value]
    {
      var raw := |locations|;
      if raw >= DEAD || raw >= capacity {
        return None;
      }
      PushedOk(State(), value);
      var slot := |values|;
      values := values + [value];
      slotIds := slotIds + [raw];
      locations := locations + [slot];
      id := Some(raw);
    }

    method Get(id: nat) returns (value: Option<T>)
      requires Valid()
      ensures value == if id in State().View() then Some(State().View()[id]) else None
    {
      var slot := LiveSlot(id);
      if slot.None? {
        return None;
      }
      return Some(values[slot.value]);
    }

    /** `None` stands for the panic on a dead or unknown id. */
    method Remove(id: nat) returns (value: Option<T>)
      requires Valid()
      modifies this
      ensures Valid() && State() == Removed(old(State()), id)
      ensures value == if id in old(State()).View() then Some(old(State()).View()[id]) else None
      ensures State().View() == old(State()).View() - {id}
      ensures |locations| == |old(locations)| && (value.None? ==> State() == old(State()))
      ensures value.Some? ==> |values| == |old(values)| - 1 && |slotIds| == |old(slotIds)| - 1
      ensures value.Some? ==> forall s :: 0 <= s < |values| ==>
                                            values[s] == old(values)[if s == old(locations)[id] then |values| else s]
                                            && slotIds[s] == old(slotIds)[if s == old(locations)[id] then |slotIds|
                                                                          else s]
    {
      RemovedOk(State(), id);
      var found := LiveSlot(id);
      if found.None? {
        return None;
      }
      var slot := found.value;
      locations := locations[id := DEAD];
      value := Some(values[slot]);
      values := SwapRemoved(values, slot);
      slotIds := SwapRemoved(slotIds, slot);
      if slot < |values| {
        var movedId := slotIds[slot];
        locations := locations[movedId := slot];
      }
    }

    method Clear()
      requires Valid()
      modifies this
      ensures Valid() && State() == Dense([], [], [])
    {
      values, slotIds, locations := [], [], [];
    }

    /** Removes newest first every payload whose id is `issued` or above, then forgets those ids. */
    method TruncateIssued(issued: nat)
      requires Valid()
      modifies this
      ensures Valid() && State() == Truncated(old(State()), issued)
      ensures State().View() == Kept(old(State()).View(), issued)
      ensures |locations| == if issued < |old(locations)| then issued else |old(locations)|
    {
      if issued >= |locations| {
        assert State().View() == Kept(State().View(), issued);
        return;
      }
      ghost var start := State();
      DropIds(issued);
      StrippedView(start, issued, |locations|);
      NoneAbove(start, issued);
      CutOk(State(), issued);
      locations := locations[..issued];
    }

    /** The loop of the truncation. */
    method DropIds(issued: nat)
      requires Valid() && issued < |locations|
      modifies this
      ensures Valid() && |locations| == |old(locations)|
      ensures State() == Stripped(old(State()), issued, |old(locations)|)
    {
      ghost var start := State();
      for raw := |locations| downto issued
        invariant Valid() && |locations| == |start.locations|
        invariant Stripped(start, issued, |start.locations|) == Stripped(State(), issued, raw)
      {
        DropId(raw, issued);
      }
    }

    lemma NoneAbove(start: Dense<T>, issued: nat)
      requires Valid() && start.Ok() && State().View() == Kept(start.View(), issued)
      ensures forall id :: 0 <= id < |locations| && locations[id] != DEAD ==> id < issued
    {
      forall id | 0 <= id < |locations| && locations[id] != DEAD
        ensures id < issued
      {
        assert id in State().View();
      }
    }

    /** One round of the truncation. */
    method DropId(raw: nat, ghost issued: nat)
      requires Valid() && issued <= raw < |locations|
      modifies this
      ensures Valid() && |locations| == |old(locations)|
      ensures Stripped(old(State()), issued, raw + 1) == Stripped(State(), issued, raw)
    {
      if locations[raw] != DEAD {
        var dropped := Remove(raw);
      }
    }
  }

  datatype Op<T> = Push(value: T) | Remove(id: nat) | Truncate(issued: nat) | Clear

  /** The abstract arena: a map and the cursor of the next id. */
  datatype Model<T> = Model(view: map<nat, T>, cursor: nat)

  ghost function After<T>(m: Model<T>, capacity: nat, op: Op<T>): Model<T> {
    match op
    case Push(value) =>
      if m.cursor < DEAD && m.cursor < capacity then Model(m.view[m.cursor := value], m.cursor + 1) else m
    case Remove(id) => Model(m.view - {id}, m.cursor)
    case Truncate(issued) =>
      Model(Kept(m.view, issued), if issued < m.cursor then issued else m.cursor)
    case Clear => Model(map[], 0)
  }

  ghost function AfterAll<T>(m: Model<T>, capacity: nat, ops: seq<Op<T>>): Model<T>
    decreases |ops|
  {
    if ops == [] then m else After(AfterAll(m, capacity, ops[..|ops| - 1]), capacity, ops[|ops| - 1])
  }

  /** Every run from an empty arena follows the map. */
  method Run<T>(capacity: nat, ops: seq<Op<T>>) returns (arena: StableArena<T>)
    ensures arena.Valid()
    ensures Model(arena.State().View(), |arena.locations|) == AfterAll(Model(map[], 0), capacity, ops)
  {
    arena := new StableArena<T>(capacity);
    for i := 0 to |ops|
      invariant fresh(arena) && arena.Valid() && arena.capacity == capacity
      invariant Model(arena.State().View(), |arena.locations|) == AfterAll(Model(map[], 0), capacity, ops[..i])
    {
      assert ops[..i + 1][..i] == ops[..i];
      Step(arena, ops[i]);
    }
    assert ops[..|ops|] == ops;
  }

  method Step<T>(arena: StableArena<T>, op: Op<T>)
    requires arena.Valid()
    modifies arena
    ensures arena.Valid()
    ensures Model(arena.State().View(), |arena.locations|)
            == After(Model(old(arena.State().View()), |old(arena.locations)|), arena.capacity, op)
  {
    ghost var before := arena.State();
    match op
    case Push(value) =>
      var id := arena.Push(value);
      if id.Some? {
        PushedOk(before, value);
      }
    case Remove(id) =>
      var value := arena.Remove(id);
      RemovedOk(before, id);
    case Truncate(issued) =>
      arena.TruncateIssued(issued);
    case Clear =>
      arena.Clear();
  }
}
