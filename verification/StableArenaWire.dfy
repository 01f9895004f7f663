/** The serialized form of the arena, and its way back. */
module StableArenaWire {
  import opened StableArenaState

  /** The wire form: the cursor and the live entries in dense order. */
  datatype Wire<T> = Wire(nextId: Usize, entries: seq<(Usize, T)>)

  datatype WireError = CursorIsSentinel | CursorTooLarge | IdOutsideCursor(raw: nat) | DuplicateId(raw: nat)

  datatype Decoded<T> = Accepted(arena: Dense<T>) | Rejected(error: WireError)

  /** Identifiers below `capacity` survive the trip through their backing type. */
  ghost predicate WireOk<T>(w: Wire<T>, capacity: nat) {
    && w.nextId != DEAD && w.nextId <= capacity
    && (forall i :: 0 <= i < |w.entries| ==> w.entries[i].0 < w.nextId)
    && (forall i, j :: 0 <= i < j < |w.entries| ==> w.entries[i].0 != w.entries[j].0)
  }

  ghost predicate Represents<T>(d: Dense<T>, w: Wire<T>) {
    && d.Ok() && |d.locations| == w.nextId && |d.values| == |w.entries|
    && forall i :: 0 <= i < |w.entries| ==> d.slotIds[i] == w.entries[i].0 && d.values[i] == w.entries[i].1
  }

  method Serialize<T>(d: Dense<T>) returns (w: Wire<T>)
    requires d.Ok()
    ensures w.nextId == |d.locations| && Represents(d, w)
    ensures |w.entries| == |d.values|
    ensures forall i :: 0 <= i < |w.entries| ==> w.entries[i] == (d.slotIds[i], d.values[i])
  {
    var entries: seq<(Usize, T)> := [];
    for s := 0 to |d.slotIds|
      invariant |entries| == s
      invariant forall i :: 0 <= i < s ==> entries[i] == (d.slotIds[i], d.values[i])
    {
      assert d.SlotOk(s);
      entries := entries + [(d.slotIds[s], d.values[s])];
    }
    w := Wire(|d.locations|, entries);
  }

  /** The arena after the first `k` entries have been placed. */
  ghost predicate PlacedUpTo<T>(w: Wire<T>, d: Dense<T>, k: nat)
    requires k <= |w.entries|
  {
    Represents(d, Wire(w.nextId, w.entries[..k]))
  }

  /** The first entry that cannot be placed, and why: its id is out of bounds, or else an earlier entry has it. */
  ghost predicate FirstFault<T>(w: Wire<T>, capacity: nat, k: nat, error: WireError) {
    && k < |w.entries| && WireOk(Wire(w.nextId, w.entries[..k]), capacity)
    && match error
       case IdOutsideCursor(raw) => raw == w.entries[k].0 >= w.nextId
       case DuplicateId(raw) =>
         raw == w.entries[k].0 < w.nextId && exists i :: 0 <= i < k && w.entries[i].0 == w.entries[k].0
       case _ => false
  }

  /** Rebuilds an arena entry by entry, refusing anything that could not have been serialized. */
  method Deserialize<T>(w: Wire<T>, capacity: nat) returns (r: Decoded<T>)
    ensures r.Accepted? <==> WireOk(w, capacity)
    ensures r.Accepted? ==> Represents(r.arena, w)
    ensures w.nextId == DEAD ==> r == Rejected(CursorIsSentinel)
    ensures w.nextId != DEAD && w.nextId > capacity ==> r == Rejected(CursorTooLarge)
    ensures w.nextId != DEAD && w.nextId <= capacity && r.Rejected? ==> exists k :: FirstFault(w, capacity, k, r.error)
  {
    if w.nextId == DEAD {
      return Rejected(CursorIsSentinel);
    }
    if w.nextId > 0 && w.nextId - 1 >= capacity {
      return Rejected(CursorTooLarge);
    }
    var d := Dense([], [], seq(w.nextId, i => DEAD));
    for k := 0 to |w.entries|
      invariant PlacedUpTo(w, d, k)
      invariant WireOk(Wire(w.nextId, w.entries[..k]), capacity)
    {
      var (raw, value) := w.entries[k];
      if raw >= w.nextId {
        assert FirstFault(w, capacity, k, IdOutsideCursor(raw));
        return Rejected(IdOutsideCursor(raw));
      }
      // The code also refuses an id that does not fit its backing type; the check of the cursor has ruled that out.
      if raw >= capacity {
        assert false;
      }
      if d.locations[raw] != DEAD {
        assert d.LiveId(raw) && d.IdOk(raw);
        assert w.entries[..k][d.locations[raw]].0 == raw;
        assert FirstFault(w, capacity, k, DuplicateId(raw));
        return Rejected(DuplicateId(raw));
      }
      PlaceNext(w, d, k);
      d := Dense(d.values + [value], d.slotIds + [raw], d.locations[raw := |d.values|]);
    }
    assert w.entries[..|w.entries|] == w.entries;
    r := Accepted(d);
  }

  lemma PlaceNext<T>(w: Wire<T>, d: Dense<T>, k: nat)
    requires k < |w.entries| && PlacedUpTo(w, d, k) && w.entries[k].0 < w.nextId && d.locations[w.entries[k].0] == DEAD
    ensures PlacedUpTo(w, Dense(d.values + [w.entries[k].1], d.slotIds + [w.entries[k].0],
                                d.locations[w.entries[k].0 := |d.values|]), k + 1)
    ensures forall i :: 0 <= i < k ==> w.entries[i].0 != w.entries[k].0
  {
    SlotsBelowDead(d);
    var raw := w.entries[k].0;
    var e := Dense(d.values + [w.entries[k].1], d.slotIds + [raw], d.locations[raw := |d.values|]);
    forall s: nat | s < |d.slotIds|
      ensures d.slotIds[s] == w.entries[s].0 != raw
    {
      assert d.SlotOk(s) && d.slotIds[s] == w.entries[..k][s].0;
    }
    forall s: nat | s < |e.slotIds|
      ensures e.SlotOk(s)
    {
      assert s < |d.slotIds| ==> d.SlotOk(s);
    }
    forall id: nat | e.LiveId(id)
      ensures e.IdOk(id)
    {
      assert id != raw ==> d.LiveId(id) && d.IdOk(id);
    }
  }

  lemma SameLocation<T>(d: Dense<T>, e: Dense<T>, w: Wire<T>, id: nat)
    requires Represents(d, w) && Represents(e, w) && id < w.nextId
    ensures d.LiveId(id) ==> e.locations[id] == d.locations[id]
  {
    if d.LiveId(id) {
      assert d.IdOk(id) && e.SlotOk(d.locations[id]);
    }
  }

  /** The wire form determines the arena: holes, order and all. */
  lemma RepresentsUnique<T>(d: Dense<T>, e: Dense<T>, w: Wire<T>)
    requires Represents(d, w) && Represents(e, w)
    ensures d == e
  {
    forall id: nat | id < w.nextId
      ensures d.locations[id] == e.locations[id]
    {
      SameLocation(d, e, w, id);
      SameLocation(e, d, w, id);
    }
  }

  lemma RepresentedWireOk<T>(d: Dense<T>, w: Wire<T>, capacity: nat)
    requires Represents(d, w) && |d.locations| < DEAD && |d.locations| <= capacity
    ensures WireOk(w, capacity)
  {
    forall i: nat, j: nat | i < |w.entries| && j < |w.entries|
      ensures w.entries[i].0 < w.nextId && (w.entries[i].0 == w.entries[j].0 ==> i == j)
    {
      assert d.SlotOk(i) && d.SlotOk(j);
    }
  }

  /** Reading back what was written gives the identical arena, unless the cursor has reached the sentinel. */
  method RoundTrip<T>(d: Dense<T>, capacity: nat) returns (r: Decoded<T>)
    requires d.Ok() && |d.locations| <= capacity
    ensures r == if |d.locations| == DEAD then Rejected(CursorIsSentinel) else Accepted(d)
  {
    var w := Serialize(d);
    r := Deserialize(w, capacity);
    if |d.locations| < DEAD {
      RepresentedWireOk(d, w, capacity);
      RepresentsUnique(d, r.arena, w);
    }
  }
}
