/** What a recycling arena is, seen from outside: optional payloads and a stack of vacant ids. */
module RecyclingModel {
  import opened Cfgs

  /** Payloads by id, and the ids to hand out again, most recently vacated first. */
  datatype Model<T> = Model(entries: seq<Option<T>>, vacant: seq<nat>)

  datatype Op<T> = Push(value: T) | Remove(id: nat) | Clear

  /** Exactly the ids without payload are vacant, each once. */
  ghost predicate ModelOk<T>(m: Model<T>) {
    && (forall i :: 0 <= i < |m.vacant| ==> m.vacant[i] < |m.entries| && m.entries[m.vacant[i]].None?)
    && (forall id :: 0 <= id < |m.entries| && m.entries[id].None? ==> id in m.vacant)
    && (forall i, j :: 0 <= i < j < |m.vacant| ==> m.vacant[i] != m.vacant[j])
  }

  /** The next id a push hands out, if the identifier type can express it. */
  ghost function NextId<T>(m: Model<T>, capacity: nat): Option<nat> {
    if m.vacant != [] then Some(m.vacant[0]) else if |m.entries| < capacity then Some(|m.entries|) else None
  }

  ghost function AfterPush<T>(m: Model<T>, capacity: nat, value: T): Model<T>
    requires ModelOk(m)
  {
    if m.vacant != [] then Model(m.entries[m.vacant[0] := Some(value)], m.vacant[1..])
    else if |m.entries| < capacity then Model(m.entries + [Some(value)], [])
    else m
  }

  ghost predicate Holds<T>(m: Model<T>, id: nat) {
    id < |m.entries| && m.entries[id].Some?
  }

  ghost function AfterRemove<T>(m: Model<T>, id: nat): Model<T> {
    if Holds(m, id) then Model(m.entries[id := None], [id] + m.vacant) else m
  }

  ghost function After<T>(m: Model<T>, capacity: nat, op: Op<T>): (r: Model<T>)
    requires ModelOk(m)
    ensures ModelOk(r)
  {
    match op
    case Push(value) =>
      PushKeepsOk(m, capacity, value);
      AfterPush(m, capacity, value)
    case Remove(id) =>
      RemoveKeepsOk(m, id);
      AfterRemove(m, id)
    case Clear => Model([], [])
  }

  ghost function AfterAll<T>(m: Model<T>, capacity: nat, ops: seq<Op<T>>): (r: Model<T>)
    requires ModelOk(m)
    ensures ModelOk(r)
    decreases |ops|
  {
    if ops == [] then m else After(AfterAll(m, capacity, ops[..|ops| - 1]), capacity, ops[|ops| - 1])
  }

  lemma PushKeepsOk<T>(m: Model<T>, capacity: nat, value: T)
    requires ModelOk(m)
    ensures ModelOk(AfterPush(m, capacity, value))
  {
  }

  lemma RemoveKeepsOk<T>(m: Model<T>, id: nat)
    requires ModelOk(m)
    ensures ModelOk(AfterRemove(m, id))
  {
  }

  /**
   * A push stores its own payload under the id it hands out, the one vacated last or else the next fresh one; every
   * other id keeps what it had. It hands out none exactly when no id is vacant and the identifier space is used up.
   */
  lemma PushStores<T>(m: Model<T>, capacity: nat, value: T)
    requires ModelOk(m)
    ensures var r := AfterPush(m, capacity, value);
            match NextId(m, capacity)
            case None => m.vacant == [] && |m.entries| >= capacity && r == m
            case Some(id) =>
              && (if m.vacant == [] then id == |m.entries| < capacity && |r.entries| == id + 1 && r.vacant == []
                  else id == m.vacant[0] && |r.entries| == |m.entries| && r.vacant == m.vacant[1..])
              && id < |r.entries| && r.entries[id] == Some(value)
              && forall j :: 0 <= j < |m.entries| && j != id ==> r.entries[j] == m.entries[j]
  {
  }

  /** A removal empties its id alone and puts it on top of the vacant ones; an id without payload changes nothing. */
  lemma RemoveVacates<T>(m: Model<T>, id: nat)
    ensures var r := AfterRemove(m, id);
            if id < |m.entries| && m.entries[id].Some? then
              && |r.entries| == |m.entries| && r.entries[id] == None && r.vacant == [id] + m.vacant
              && forall j :: 0 <= j < |m.entries| && j != id ==> r.entries[j] == m.entries[j]
            else r == m
  {
  }

  /** The most recently vacated id is reused first, and the push undoes the removal but for the payload. */
  lemma PushAfterRemove<T>(m: Model<T>, capacity: nat, id: nat, value: T)
    requires ModelOk(m) && Holds(m, id)
    ensures ModelOk(AfterRemove(m, id))
    ensures NextId(AfterRemove(m, id), capacity) == Some(id)
    ensures AfterPush(AfterRemove(m, id), capacity, value) == Model(m.entries[id := Some(value)], m.vacant)
  {
  }

  /** A removal after a push takes the pushed payload's id back; unless the push grew the arena, nothing has changed. */
  lemma RemoveAfterPush<T>(m: Model<T>, capacity: nat, value: T)
    requires ModelOk(m) && NextId(m, capacity).Some?
    ensures AfterRemove(AfterPush(m, capacity, value), NextId(m, capacity).value)
            == if m.vacant != [] then m else Model(m.entries + [None], [|m.entries|])
  {
  }
}
