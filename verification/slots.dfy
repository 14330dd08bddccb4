/** The `slots` table: `slotId INTEGER PRIMARY KEY, isAvailable INTEGER`,
    held as a map from slot id to availability. The operations are the
    conditional SQL updates of the desktop-era data layer (src/model/SlotDAO.java);
    the newer org.parking.model.SlotDAO is not part of this model, and its
    operations the controllers call are given the same semantics here. */
module Slots {
  import opened Base

  /** slotId -> isAvailable. */
  type SlotMap = map<int, bool>

  /** The result of a conditional update: whether a row matched, and the
      table afterwards. */
  datatype Update = Update(ok: bool, slots: SlotMap)

  predicate Increasing(s: seq<int>) {
    forall i, j :: 0 <= i < j < |s| ==> s[i] < s[j]
  }

  function AvailableSet(m: SlotMap): set<int> {
    set id | id in m && m[id]
  }

  function OccupiedSet(m: SlotMap): set<int> {
    set id | id in m && !m[id]
  }

  /** A set with no members is empty. */
  lemma EmptyIfNoMember(s: set<int>)
    ensures (forall x :: x !in s) ==> s == {}
  {
    if forall x :: x !in s {
      assert s <= {};
    }
  }

  /** Every non-empty finite set of ids has a least element. */
  lemma {:induction false} MinWitness(s: set<int>) returns (m: int)
    requires s != {}
    ensures m in s && forall y :: y in s ==> m <= y
    decreases |s|
  {
    EmptyIfNoMember(s);
    var x :| x in s;
    var rest := s - {x};
    if rest == {} {
      m := x;
      EmptyIfNoMember(rest);
      assert forall y :: y in s ==> y == x || y in rest;
    } else {
      var r := MinWitness(rest);
      m := if x < r then x else r;
      assert forall y :: y in s ==> y == x || y in rest;
    }
  }

  lemma MinExists(s: set<int>)
    requires s != {}
    ensures exists m :: m in s && forall y :: y in s ==> m <= y
  {
    var w := MinWitness(s);
  }

  /** The smallest element of a non-empty set of ids. */
  function MinOf(s: set<int>): (m: int)
    requires s != {}
    ensures m in s && forall y :: y in s ==> m <= y
  {
    MinExists(s);
    var m :| m in s && forall y :: y in s ==> m <= y;
    m
  }

  /** The ids of `s` in ascending order: the order a full scan of a table
      keyed by `INTEGER PRIMARY KEY` returns rows in. */
  function SortedIds(s: set<int>): (r: seq<int>)
    ensures Increasing(r)
    ensures forall id :: id in r <==> id in s
    ensures |r| == |s|
    decreases |s|
  {
    if s == {} then []
    else
      var m := MinOf(s);
      var rest := SortedIds(s - {m});
      assert forall k :: 0 <= k < |rest| ==> m < rest[k] by {
        forall k | 0 <= k < |rest|
          ensures m < rest[k]
        {
          assert rest[k] in s - {m};
        }
      }
      [m] + rest
  }

  /** `getAvailableSlots()`: exactly the ids whose `isAvailable` is 1, in
      ascending id order, each once. */
  function GetAvailableSlots(m: SlotMap): (ids: seq<int>)
    ensures Increasing(ids)
    ensures forall id :: id in ids <==> id in m && m[id]
    ensures |ids| == |AvailableSet(m)|
  {
    SortedIds(AvailableSet(m))
  }

  /** `getTotalSlots()` / the size of `getAllSlotsWithStatus()`. */
  function TotalSlots(m: SlotMap): nat {
    |m|
  }

  /** The total splits into available and occupied slots. */
  lemma {:induction false} TotalIsAvailablePlusOccupied(m: SlotMap)
    ensures TotalSlots(m) == |AvailableSet(m)| + |OccupiedSet(m)|
  {
    assert m.Keys == AvailableSet(m) + OccupiedSet(m);
    assert AvailableSet(m) * OccupiedSet(m) == {};
  }

  /** Two slot tables with the same ids and the same availabilities are
      equal. */
  lemma SameTable(a: SlotMap, b: SlotMap)
    requires a.Keys == b.Keys
    requires forall id :: id in a ==> a[id] == b[id]
    ensures a == b
  {
    assert forall id :: id in a ==> id in b && a[id] == b[id];
    assert forall id :: id in b ==> id in a;
  }

  /** `getSlotById(id)`: the availability of an existing slot, `None` for a
      missing one. */
  function GetSlotById(m: SlotMap, id: int): (r: Option<bool>)
    ensures r.Some? <==> id in m
    ensures r.Some? ==> r.value == m[id]
  {
    if id in m then Some(m[id]) else None
  }

  /** True when `m'` differs from `m` at most in the availability of `id`. */
  predicate OnlyTouches(m: SlotMap, m': SlotMap, id: int) {
    && m'.Keys == m.Keys
    && forall other :: other in m && other != id ==> m'[other] == m[other]
  }

  /** `bookSlot(slotId)`: `UPDATE slots SET isAvailable=0 WHERE slotId=? AND
      isAvailable=1`, reporting whether a row matched. */
  function BookSlot(m: SlotMap, id: int): (u: Update)
    ensures u.ok <==> id in m && m[id]
    ensures u.ok ==> OnlyTouches(m, u.slots, id) && !u.slots[id]
    ensures !u.ok ==> u.slots == m
  {
    if id in m && m[id] then Update(true, m[id := false]) else Update(false, m)
  }

  /** `releaseSlot(slotId)`: `UPDATE slots SET isAvailable=1 WHERE slotId=?`;
      a matched row is made available whatever it was before. */
  function ReleaseSlot(m: SlotMap, id: int): (u: Update)
    ensures u.ok <==> id in m
    ensures OnlyTouches(m, u.slots, id)
    ensures id in m ==> u.slots[id]
    ensures id !in m ==> u.slots == m
  {
    if id in m then Update(true, m[id := true]) else Update(false, m)
  }

  /** `addSlot(slotId)`: `INSERT OR IGNORE ... VALUES (?, 1)`; a new slot is
      available and an existing one is left exactly as it was. */
  function AddSlot(m: SlotMap, id: int): (m': SlotMap)
    ensures m'.Keys == m.Keys + {id}
    ensures id in m ==> m' == m
    ensures id !in m ==> m'[id]
    ensures forall other :: other in m && other != id ==> m'[other] == m[other]
  {
    if id in m then m else m[id := true]
  }

  /** Adds each id in turn, as the controllers' start-up loops do. */
  function AddSlots(m: SlotMap, ids: seq<int>): (m': SlotMap)
    ensures m'.Keys == m.Keys + set i | i in ids
    ensures forall id :: id in m ==> m'[id] == m[id]
    ensures forall id :: id in m' && id !in m ==> m'[id]
    decreases |ids|
  {
    if ids == [] then m else AddSlots(AddSlot(m, ids[0]), ids[1..])
  }

  /** `deleteSlot(slotId)` of the newer data layer, taken as the conditional
      `DELETE ... WHERE slotId=? AND isAvailable=1`: only an existing
      available slot goes, and no other slot changes. */
  function DeleteSlot(m: SlotMap, id: int): (u: Update)
    ensures u.ok <==> id in m && m[id]
    ensures u.ok ==> u.slots.Keys == m.Keys - {id}
    ensures u.ok ==> forall other :: other in u.slots ==> u.slots[other] == m[other]
    ensures !u.ok ==> u.slots == m
  {
    if id in m && m[id] then Update(true, m - {id}) else Update(false, m)
  }

  /** Releasing twice is releasing once. */
  lemma ReleaseIdempotent(m: SlotMap, id: int)
    ensures ReleaseSlot(ReleaseSlot(m, id).slots, id) == Update(id in m, ReleaseSlot(m, id).slots)
  {
  }

  /** Adding twice is adding once. */
  lemma AddIdempotent(m: SlotMap, id: int)
    ensures AddSlot(AddSlot(m, id), id) == AddSlot(m, id)
  {
  }

  /** A booking of an available slot is undone by releasing it. */
  lemma BookThenReleaseRestores(m: SlotMap, id: int)
    requires id in m && m[id]
    ensures ReleaseSlot(BookSlot(m, id).slots, id).slots == m
  {
    assert ReleaseSlot(BookSlot(m, id).slots, id).slots == m[id := false][id := true];
  }

  /** Booking an occupied or missing slot a second time fails. */
  lemma BookTwiceFails(m: SlotMap, id: int)
    ensures !BookSlot(BookSlot(m, id).slots, id).ok
  {
  }
}
