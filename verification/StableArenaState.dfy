/** Dense storage with ids that are never reused, as pure data. */
module StableArenaState {
  import opened Counting

  /** Machine words. */
  const DEAD: nat := 0xFFFF_FFFF_FFFF_FFFF
  type Usize = x: nat | x <= DEAD

  /** The three vectors: payloads and their ids side by side in dense order, and each issued id's position. */
  datatype Dense<T> = Dense(values: seq<T>, slotIds: seq<nat>, locations: seq<nat>) {

    ghost predicate LiveId(id: nat) {
      id < |locations| && locations[id] != DEAD
    }

    /** `locations` and `slotIds` are mutually inverse on the live ids. */
    ghost predicate Ok() {
      && |values| == |slotIds| && |locations| <= DEAD
      && (forall s: nat :: s < |slotIds| ==> SlotOk(s))
      && (forall id: nat :: LiveId(id) ==> IdOk(id))
    }

    /** The id in slot `s` is located there. */
    ghost predicate SlotOk(s: nat)
      requires s < |slotIds|
    {
      slotIds[s] < |locations| && locations[slotIds[s]] == s
    }

    /** The location of a live id holds that id. */
    ghost predicate IdOk(id: nat)
      requires LiveId(id)
    {
      locations[id] < |slotIds| && slotIds[locations[id]] == id
    }

    /** The arena as a map from live ids. */
    ghost function View(): (m: map<nat, T>)
      requires Ok()
      ensures forall id: nat :: id in m <==> LiveId(id)
      ensures forall id: nat :: id in m ==>
                       id < |locations| && locations[id] < |values| && m[id] == values[locations[id]]
    {
      assert forall id: nat :: LiveId(id) ==> IdOk(id);
      map id: nat | id < |locations| && LiveId(id) && IdOk(id) :: values[locations[id]]
    }
  }

  ghost function Pushed<T>(d: Dense<T>, value: T): Dense<T> {
    Dense(d.values + [value], d.slotIds + [|d.locations|], d.locations + [|d.values|])
  }

  /** The last element takes the place of the one at `slot`. */
  function SwapRemoved<T>(s: seq<T>, slot: nat): (r: seq<T>)
    requires slot < |s|
    ensures |r| == |s| - 1
    ensures forall i :: 0 <= i < |r| ==> r[i] == if i == slot then s[|s| - 1] else s[i]
  {
    if slot == |s| - 1 then s[..slot] else s[slot := s[|s| - 1]][..|s| - 1]
  }

  /** A live id whose slot, and the id in the last slot, are in range: all that swap-removal looks at. */
  ghost predicate Removable<T>(d: Dense<T>, id: nat) {
    && d.LiveId(id) && d.locations[id] < |d.slotIds| == |d.values|
    && d.slotIds[|d.slotIds| - 1] < |d.locations|
  }

  ghost function Removed<T>(d: Dense<T>, id: nat): (r: Dense<T>)
    ensures |r.locations| == |d.locations|
  {
    if !Removable(d, id) then d
    else
      var slot := d.locations[id];
      var ids := SwapRemoved(d.slotIds, slot);
      var locations := d.locations[id := DEAD];
      Dense(SwapRemoved(d.values, slot), ids, if slot < |ids| then locations[ids[slot] := slot] else locations)
  }

  /** Live slots are fewer than the issued ids. */
  lemma {:induction false} FewerSlots(slotIds: seq<nat>, issued: nat)
    requires forall s :: 0 <= s < |slotIds| ==> slotIds[s] < issued
    requires forall s, t :: 0 <= s < t < |slotIds| ==> slotIds[s] != slotIds[t]
    ensures |slotIds| <= issued
  {
    var ids := set s | 0 <= s < |slotIds| :: slotIds[s];
    DistinctLength(slotIds, ids);
    BoundedCard(ids, issued);
  }

  lemma SlotsBelowDead<T>(d: Dense<T>)
    requires d.Ok()
    ensures |d.slotIds| <= |d.locations|
  {
    forall s: nat, t: nat | s < |d.slotIds| && t < |d.slotIds|
      ensures d.slotIds[s] < |d.locations| && (d.slotIds[s] == d.slotIds[t] ==> s == t)
    {
      assert d.SlotOk(s) && d.SlotOk(t);
    }
    FewerSlots(d.slotIds, |d.locations|);
  }

  lemma PushedOk<T>(d: Dense<T>, value: T)
    requires d.Ok() && |d.locations| < DEAD
    ensures Pushed(d, value).Ok()
    ensures Pushed(d, value).View() == d.View()[|d.locations| := value]
  {
    SlotsBelowDead(d);
    var p := Pushed(d, value);
    forall s: nat | s < |p.slotIds|
      ensures p.SlotOk(s)
    {
      assert s < |d.slotIds| ==> d.SlotOk(s);
    }
    forall id: nat | p.LiveId(id)
      ensures p.IdOk(id)
    {
      assert id < |d.locations| ==> d.LiveId(id) && d.IdOk(id);
    }
    PushedView(d, value);
  }

  lemma PushedView<T>(d: Dense<T>, value: T)
    requires d.Ok() && Pushed(d, value).Ok() && |d.slotIds| < DEAD
    ensures Pushed(d, value).View() == d.View()[|d.locations| := value]
  {
    var p := Pushed(d, value);
    forall id: nat
      ensures p.LiveId(id) <==> d.LiveId(id) || id == |d.locations|
      ensures d.LiveId(id) ==> d.IdOk(id)
    {
    }
    assert p.View().Keys == d.View()[|d.locations| := value].Keys;
  }

  lemma RemovedIsOk<T>(d: Dense<T>, id: nat)
    requires d.Ok()
    ensures Removed(d, id).Ok() && |Removed(d, id).locations| == |d.locations|
  {
    SlotsBelowDead(d);
    var r := Removed(d, id);
    if d.LiveId(id) {
      assert d.IdOk(id) && d.SlotOk(|d.slotIds| - 1);
      forall s: nat | s < |r.slotIds|
        ensures r.SlotOk(s)
      {
        assert d.SlotOk(s);
      }
      forall x: nat | r.LiveId(x)
        ensures r.IdOk(x)
      {
        assert d.LiveId(x) && d.IdOk(x);
      }
    }
  }

  lemma RemovedOk<T>(d: Dense<T>, id: nat)
    requires true == d.Ok()
    ensures true == Removed(d, id).Ok() && |Removed(d, id).locations| == |d.locations|
    ensures Removed(d, id).View() == d.View() - {id}
  {
    RemovedIsOk(d, id);
    SlotsBelowDead(d);
    var r := Removed(d, id);
    forall x: nat
      ensures x in r.View() <==> x in d.View() && x != id
      ensures x in r.View() ==> r.View()[x] == d.View()[x]
    {
      RemovedEntry(d, id, x);
    }
    assert r.View() == d.View() - {id};
  }

  /** A removal moves one surviving payload at most: the one in the last slot. */
  lemma RemovedMovesLast<T>(d: Dense<T>, id: nat, x: nat)
    requires d.Ok() && d.LiveId(id) && d.LiveId(x) && x != id
    ensures Removed(d, id).locations[x] == d.locations[x] <==> d.locations[x] != |d.slotIds| - 1
  {
    SlotsBelowDead(d);
    RemovedIsOk(d, id);
    assert d.IdOk(x) && d.IdOk(id) && d.SlotOk(|d.slotIds| - 1);
  }

  lemma RemovedEntry<T>(d: Dense<T>, id: nat, x: nat)
    requires d.Ok() && |d.slotIds| <= |d.locations|
    requires Removed(d, id).Ok()
    ensures Removed(d, id).LiveId(x) <==> d.LiveId(x) && x != id
    ensures Removed(d, id).LiveId(x) ==>
              Removed(d, id).IdOk(x) && d.IdOk(x)
              && Removed(d, id).values[Removed(d, id).locations[x]] == d.values[d.locations[x]]
  {
    if d.LiveId(id) {
      assert d.IdOk(id) && d.SlotOk(|d.slotIds| - 1);
    }
    assert d.LiveId(x) ==> d.IdOk(x);
    assert Removed(d, id).LiveId(x) ==> Removed(d, id).IdOk(x);
  }

  /** Taking ids away from the highest down to `issued`, dense order and all. */
  ghost function Stripped<T>(d: Dense<T>, issued: nat, top: nat): (r: Dense<T>)
    requires issued <= top <= |d.locations|
    ensures |r.locations| == |d.locations|
    decreases top
  {
    if top == issued then d else Stripped(Removed(d, top - 1), issued, top - 1)
  }

  ghost predicate KeysBelow<T>(m: map<nat, T>, top: nat) {
    forall id :: id in m ==> id < top
  }

  /** Stripping takes exactly the ids from `issued` on out of the map. */
  lemma {:induction false} StrippedView<T>(d: Dense<T>, issued: nat, top: nat)
    requires true == d.Ok() && issued <= top <= |d.locations| && KeysBelow(d.View(), top)
    ensures true == Stripped(d, issued, top).Ok() && Stripped(d, issued, top).View() == Kept(d.View(), issued)
    decreases top
  {
    KeptSteps(d.View(), issued, top);
    if top > issued {
      RemovedOk(d, top - 1);
      StrippedView(Removed(d, top - 1), issued, top - 1);
    }
  }

  lemma KeptSteps<T>(m: map<nat, T>, issued: nat, top: nat)
    requires KeysBelow(m, top)
    ensures issued == top ==> Kept(m, issued) == m
    ensures issued < top ==> KeysBelow(m - {top - 1}, top - 1) && Kept(m - {top - 1}, issued) == Kept(m, issued)
  {
  }

  ghost function Truncated<T>(d: Dense<T>, issued: nat): Dense<T> {
    if issued >= |d.locations| then d
    else
      var s := Stripped(d, issued, |d.locations|);
      Dense(s.values, s.slotIds, s.locations[..issued])
  }

  /** Cutting the location table where no live id is lost. */
  lemma CutOk<T>(d: Dense<T>, issued: nat)
    requires d.Ok() && issued <= |d.locations|
    requires forall id :: 0 <= id < |d.locations| && d.locations[id] != DEAD ==> id < issued
    ensures Dense(d.values, d.slotIds, d.locations[..issued]).Ok()
    ensures Dense(d.values, d.slotIds, d.locations[..issued]).View() == d.View()
  {
    SlotsBelowDead(d);
    var c := Dense(d.values, d.slotIds, d.locations[..issued]);
    forall s: nat | s < |c.slotIds|
      ensures c.SlotOk(s)
    {
      assert d.SlotOk(s) && d.LiveId(d.slotIds[s]);
    }
    forall id: nat
      ensures c.LiveId(id) <==> d.LiveId(id)
      ensures d.LiveId(id) ==> c.IdOk(id) && d.IdOk(id)
    {
      assert d.LiveId(id) ==> d.IdOk(id);
    }
    assert c.View().Keys == d.View().Keys;
  }

  /** The part of a map below `issued`. */
  ghost function Kept<T>(m: map<nat, T>, issued: nat): (r: map<nat, T>)
    ensures forall id :: id in r <==> id in m && id < issued
    ensures forall id :: id in r ==> r[id] == m[id]
  {
    map id | id in m && id < issued :: m[id]
  }

  ghost function PushedAll<T>(d: Dense<T>, values: seq<T>): Dense<T>
    decreases |values|
  {
    if values == [] then d else Pushed(PushedAll(d, values[..|values| - 1]), values[|values| - 1])
  }

  lemma {:induction false} PushedAllOk<T>(d: Dense<T>, values: seq<T>)
    requires d.Ok() && |d.locations| + |values| <= DEAD
    ensures PushedAll(d, values).Ok() && |PushedAll(d, values).locations| == |d.locations| + |values|
    decreases |values|
  {
    if values != [] {
      PushedAllOk(d, values[..|values| - 1]);
      PushedOk(PushedAll(d, values[..|values| - 1]), values[|values| - 1]);
    }
  }

  /** Removing the entry just pushed leaves the arena as it was, but for the id that stays spent. */
  lemma RemovePushed<T>(d: Dense<T>, value: T, spent: seq<nat>)
    requires |d.values| == |d.slotIds| < DEAD
    ensures Removed(WithSpent(Pushed(d, value), spent), |d.locations|) == WithSpent(d, [DEAD] + spent)
  {
    var q := WithSpent(Pushed(d, value), spent);
    assert q.locations[|d.locations|] == |d.values|;
    assert SwapRemoved(q.values, |d.values|) == d.values;
    assert SwapRemoved(q.slotIds, |d.values|) == d.slotIds;
    assert q.locations[|d.locations| := DEAD] == d.locations + ([DEAD] + spent);
  }

  /** `d` with further ids issued and already dead. */
  ghost function WithSpent<T>(d: Dense<T>, spent: seq<nat>): Dense<T> {
    Dense(d.values, d.slotIds, d.locations + spent)
  }

  /** The three vectors after a batch of pushes. */
  ghost function Batch<T>(d: Dense<T>, values: seq<T>): Dense<T> {
    Dense(d.values + values, d.slotIds + seq(|values|, i => |d.locations| + i),
          d.locations + seq(|values|, i => |d.values| + i))
  }

  lemma BatchLast<T>(d: Dense<T>, values: seq<T>)
    requires |d.values| == |d.slotIds| && values != []
    ensures Batch(d, values) == Pushed(Batch(d, values[..|values| - 1]), values[|values| - 1])
  {
    assert values == values[..|values| - 1] + [values[|values| - 1]];
  }

  lemma {:induction false} PushedAllIsBatch<T>(d: Dense<T>, values: seq<T>)
    requires |d.values| == |d.slotIds|
    ensures PushedAll(d, values) == Batch(d, values)
    decreases |values|
  {
    if values != [] {
      PushedAllIsBatch(d, values[..|values| - 1]);
      BatchLast(d, values);
    }
  }

  /** `r` is what stripping leaves. */
  ghost predicate StripsTo<T>(d: Dense<T>, issued: nat, top: nat, r: Dense<T>) {
    issued <= top <= |d.locations| && Stripped(d, issued, top) == r
  }

  /** The newest push of a batch goes first. */
  lemma StripNewest<T>(d: Dense<T>, p: Dense<T>, value: T, spent: seq<nat>, issued: nat, top: nat, r: Dense<T>)
    requires |d.values| == |d.slotIds| < DEAD && |d.locations| == top && p == Pushed(d, value)
    requires true == StripsTo(WithSpent(d, [DEAD] + spent), issued, top, r)
    ensures true == StripsTo(WithSpent(p, spent), issued, top + 1, r)
  {
    RemovePushed(d, value, spent);
  }

  lemma StripNone<T>(d: Dense<T>, spent: seq<nat>)
    ensures true == StripsTo(WithSpent(Batch(d, []), spent), |d.locations|, |d.locations|, WithSpent(d, spent))
  {
    assert Batch(d, []) == d;
  }

  /** Stripping a batch of pushes leaves the arena as it was before the batch, but for the ids that stay spent. */
  lemma {:induction false} StripPushes<T>(d: Dense<T>, values: seq<T>, spent: seq<nat>) returns (dead: seq<nat>)
    requires |d.values| == |d.slotIds| && |d.values| + |values| <= DEAD
    ensures true == StripsTo(WithSpent(Batch(d, values), spent), |d.locations|, |d.locations| + |values|,
                             WithSpent(d, dead))
    decreases |values|
  {
    if values == [] {
      dead := spent;
      StripNone(d, spent);
    } else {
      var shorter, last := values[..|values| - 1], |values| - 1;
      dead := StripPushes(d, shorter, [DEAD] + spent);
      BatchLast(d, values);
      StripNewest(Batch(d, shorter), Batch(d, values), values[last], spent, |d.locations|, |d.locations| + last,
                  WithSpent(d, dead));
    }
  }

  /** A batch of pushes followed by a truncation at the old cursor gives back the identical arena. */
  lemma TruncateUndoesPushes<T>(d: Dense<T>, values: seq<T>)
    requires d.Ok() && |d.locations| + |values| <= DEAD
    ensures true == PushedAll(d, values).Ok() && Truncated(PushedAll(d, values), |d.locations|) == d
  {
    PushedAllOk(d, values);
    SlotsBelowDead(d);
    PushedAllIsBatch(d, values);
    BatchCutBack(d, values);
  }

  lemma BatchCutBack<T>(d: Dense<T>, values: seq<T>)
    requires |d.values| == |d.slotIds| && |d.values| + |values| <= DEAD
    ensures Truncated(Batch(d, values), |d.locations|) == d
  {
    var dead := StripPushes(d, values, []);
    CutBack(d, Batch(d, values), dead);
  }

  lemma CutBack<T>(d: Dense<T>, p: Dense<T>, dead: seq<nat>)
    requires |d.locations| <= |p.locations|
    requires StripsTo(WithSpent(p, []), |d.locations|, |p.locations|, WithSpent(d, dead))
    ensures Truncated(p, |d.locations|) == d
  {
    assert p.locations + [] == p.locations;
    assert WithSpent(p, []) == p;
    assert WithSpent(d, dead).locations[..|d.locations|] == d.locations;
  }

  lemma {:induction false} StripInTwo<T>(d: Dense<T>, issued: nat, middle: nat, top: nat)
    requires issued <= middle <= top <= |d.locations|
    ensures Stripped(d, issued, top) == Stripped(Stripped(d, middle, top), issued, middle)
    decreases top
  {
    if middle < top {
      StripInTwo(Removed(d, top - 1), issued, middle, top - 1);
    }
  }

  lemma RemovedSpent<T>(d: Dense<T>, spent: seq<nat>, id: nat)
    requires d.Ok() && id < |d.locations|
    ensures Removed(WithSpent(d, spent), id) == WithSpent(Removed(d, id), spent)
  {
    if d.LiveId(id) {
      SlotsBelowDead(d);
      assert d.IdOk(id) && d.SlotOk(|d.slotIds| - 1);
      var r, q := Removed(d, id), Removed(WithSpent(d, spent), id);
      assert q.locations == r.locations + spent;
    }
  }

  /** Ids that are spent and dead do not matter to what is removed below them. */
  lemma {:induction false} StripSpent<T>(d: Dense<T>, spent: seq<nat>, issued: nat, top: nat)
    requires d.Ok() && issued <= top <= |d.locations|
    ensures Stripped(WithSpent(d, spent), issued, top) == WithSpent(Stripped(d, issued, top), spent)
    decreases top
  {
    if issued < top {
      RemovedSpent(d, spent, top - 1);
      RemovedIsOk(d, top - 1);
      StripSpent(Removed(d, top - 1), spent, issued, top - 1);
    }
  }

  /** After stripping, the ids from `issued` on are dead. */
  lemma StrippedDead<T>(d: Dense<T>, issued: nat)
    requires d.Ok() && issued <= |d.locations|
    ensures var s := Stripped(d, issued, |d.locations|);
            s.Ok() && forall id :: issued <= id < |s.locations| ==> s.locations[id] == DEAD
  {
    StrippedView(d, issued, |d.locations|);
    var s := Stripped(d, issued, |d.locations|);
    forall id | issued <= id < |s.locations|
      ensures s.locations[id] == DEAD
    {
      assert id !in s.View();
    }
  }

  /**
   * Newest first: taking batches back one after the other comes to the same as taking them back at once, order
   * included.
   */
  lemma TruncateInTwo<T>(d: Dense<T>, issued: nat, middle: nat)
    requires d.Ok() && issued <= middle
    ensures Truncated(Truncated(d, middle), issued) == Truncated(d, issued)
  {
    if middle < |d.locations| {
      var top := |d.locations|;
      var s := Stripped(d, middle, top);
      StrippedDead(d, middle);
      CutOk(s, middle);
      var c, spent := Dense(s.values, s.slotIds, s.locations[..middle]), s.locations[middle..];
      assert WithSpent(c, spent) == s;
      StripInTwo(d, issued, middle, top);
      StripSpent(c, spent, issued, middle);
      assert Stripped(d, issued, top).locations[..issued] == Stripped(c, issued, middle).locations[..issued];
      assert issued == middle ==> Truncated(c, issued) == c;
    }
  }
}
