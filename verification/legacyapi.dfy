/** The first-generation web controller (src/controller/ApiController.java).
    It is written against the desktop-era `model.SlotDAO` and
    `model.TransactionDAO`, but calls methods those classes do not declare
    (`getAllSlotsWithStatus`, `deleteSlot`, `bookSlot(int, String)`,
    `getTotalSlots`, `isVehicleCurrentlyParked`, a `logExit` that answers
    true or false). Their web-era namesakes stand in for them, so this
    controller works on the same `Store` as `ParkingApi`; under that
    substitution its booking and slot listing are the transitions given
    there, while start-up, slot administration and release differ and are
    given here. */
module LegacyApi {
  import opened Base
  import opened JavaText
  import Slots
  import opened Ledger
  import opened ParkingApi
  import StoreInvariant

  // ---------------------------------------------------------------- start-up

  /** Start-up: when `getAvailableSlots()` comes back empty, each of `ids`
      is added with `INSERT OR IGNORE`, even when the table holds slots that
      are all occupied; otherwise nothing changes. The controller passes
      slots 1 to 10. */
  function AddWhenNoneAvailable(s: Store, ids: seq<int>): (r: Store)
    ensures r.txns == s.txns
    ensures Slots.AvailableSet(s.slots) != {} ==> r == s
    ensures Slots.AvailableSet(s.slots) == {} ==>
      && r.slots.Keys == s.slots.Keys + set id | id in ids
      && (forall id :: id in s.slots ==> id in r.slots && r.slots[id] == s.slots[id])
      && (forall id :: id in r.slots && id !in s.slots ==> r.slots[id])
  {
    var existing := Slots.GetAvailableSlots(s.slots);
    if |existing| == 0 then
      Store(Slots.AddSlots(s.slots, ids), s.txns)
    else
      s
  }

  /** `initializeDefaultSlots()`: with no slot available, slots 1 to 10
      are added as available ones and every existing slot keeps its state;
      otherwise nothing changes. */
  function InitializeDefaultSlots(s: Store): (r: Store)
    ensures r.txns == s.txns
    ensures Slots.AvailableSet(s.slots) != {} ==> r == s
    ensures Slots.AvailableSet(s.slots) == {} ==>
      && (forall id :: id in r.slots <==> id in s.slots || 1 <= id <= 10)
      && (forall id :: id in s.slots ==> r.slots[id] == s.slots[id])
      && (forall id :: id in r.slots && id !in s.slots ==> r.slots[id])
  {
    var r := AddWhenNoneAvailable(s, DEFAULT_SLOT_IDS);
    DefaultSlotIds();
    assert Slots.AvailableSet(s.slots) == {} ==>
      forall id :: id in r.slots <==> id in s.slots || id in DEFAULT_SLOT_IDS;
    r
  }

  /** The default ids are 1 to 10. */
  lemma DefaultSlotIds()
    ensures forall id :: id in DEFAULT_SLOT_IDS <==> 1 <= id <= 10
  {
    forall id | 1 <= id <= 10
      ensures id in DEFAULT_SLOT_IDS
    {
      assert DEFAULT_SLOT_IDS[id - 1] == id;
    }
  }

  /** The start-up keeps tables that agree in agreement. */
  lemma InitKeepsConsistent(s: Store)
    requires Consistent(s)
    ensures Consistent(InitializeDefaultSlots(s))
  {
    AddWhenNoneAvailableKeepsConsistent(s, DEFAULT_SLOT_IDS);
  }

  /** Adding ids that are all present already changes nothing. */
  lemma AddSlotsPresent(m: Slots.SlotMap, ids: seq<int>)
    requires forall k :: 0 <= k < |ids| ==> ids[k] in m
    ensures Slots.AddSlots(m, ids) == m
  {
    var m' := Slots.AddSlots(m, ids);
    assert m'.Keys == m.Keys;
    Slots.SameTable(m', m);
  }

  /** Running the start-up twice is running it once: either some of the ids
      was missing and is now available, or all were present and nothing was
      added. */
  lemma AddWhenNoneAvailableIdempotent(s: Store, ids: seq<int>)
    ensures AddWhenNoneAvailable(AddWhenNoneAvailable(s, ids), ids) == AddWhenNoneAvailable(s, ids)
  {
    var r := AddWhenNoneAvailable(s, ids);
    if Slots.AvailableSet(s.slots) == {} {
      if forall k :: 0 <= k < |ids| ==> ids[k] in s.slots {
        AddSlotsPresent(s.slots, ids);
      } else {
        var k :| 0 <= k < |ids| && ids[k] !in s.slots;
        assert ids[k] in Slots.AvailableSet(r.slots);
      }
    }
  }

  /** Slots added at start-up are available, so the tables still agree. */
  lemma AddWhenNoneAvailableKeepsConsistent(s: Store, ids: seq<int>)
    requires Consistent(s)
    ensures Consistent(AddWhenNoneAvailable(s, ids))
  {
  }

  // ------------------------------------------------------------ slot admin

  /** The `id` member of the request body: absent or `null`, a JSON value
      that is not a number, an integral number (an `Integer`, `Long` or
      `BigInteger`), or a number with a fraction or exponent (a `Double`). */
  datatype IdField = Missing | NotNumber | Whole(n: int) | Fractional(x: real)

  datatype AddOutcome = IdRequired | InvalidId | SlotAdded(id: int)

  /** `addSlot({id})`: 400 "id required" without an id, 400 "invalid id"
      when it is not a number; otherwise `intValue()` of the number is added
      as a slot: an integral number keeps its low 32 bits, a fractional one
      is rounded toward zero and saturated. */
  function AddSlot(s: Store, field: IdField): (r: (AddOutcome, Store))
    ensures r.0 == IdRequired <==> field.Missing?
    ensures r.0 == InvalidId <==> field.NotNumber?
    ensures !r.0.SlotAdded? ==> r.1 == s
    ensures field.Whole? ==> r.0.SlotAdded? && (r.0.id - field.n) % 0x1_0000_0000 == 0
    ensures field.Fractional? ==> r.0 == SlotAdded(DoubleIntValue(field.x))
    ensures r.0.SlotAdded? ==>
      && IsInt32(r.0.id)
      && r.1.txns == s.txns
      && r.1.slots.Keys == s.slots.Keys + {r.0.id}
      && (forall id :: id in s.slots ==> r.1.slots[id] == s.slots[id])
      && (r.0.id !in s.slots ==> r.1.slots[r.0.id])
  {
    match field
    case Missing => (IdRequired, s)
    case NotNumber => (InvalidId, s)
    case Whole(n) =>
      var id := Wrap32(n);
      (SlotAdded(id), Store(Slots.AddSlot(s.slots, id), s.txns))
    case Fractional(x) =>
      var id := DoubleIntValue(x);
      (SlotAdded(id), Store(Slots.AddSlot(s.slots, id), s.txns))
  }

  /** An id in `int` range is added as given, and listed afterwards. */
  lemma AddSlotThenListed(s: Store, n: int)
    requires IsInt32(n)
    ensures var r := AddSlot(s, Whole(n));
      && r.0 == SlotAdded(n)
      && n in r.1.slots
      && (n !in s.slots ==> n in GetSlots(r.1).available)
  {
  }

  /** A new slot is available and an existing one is untouched, so the
      tables still agree. */
  lemma AddSlotKeepsConsistent(s: Store, field: IdField)
    requires Consistent(s)
    ensures Consistent(AddSlot(s, field).1)
  {
  }

  /** `deleteSlot(id)`: success exactly when the data layer deleted the
      slot, which it does only for an existing available slot. */
  function DeleteSlot(s: Store, id: int): (r: (bool, Store))
    ensures r.0 <==> id in s.slots && s.slots[id]
    ensures !r.0 ==> r.1 == s
    ensures r.0 ==> r.1.txns == s.txns && r.1.slots == s.slots - {id}
  {
    var u := Slots.DeleteSlot(s.slots, id);
    if u.ok then
      Slots.SameTable(u.slots, s.slots - {id});
      (true, Store(u.slots, s.txns))
    else
      (false, s)
  }

  /** The two controllers' deletes agree: success here is `SlotDeleted`
      there, with the same store afterwards. */
  lemma DeleteSlotAgrees(s: Store, id: int)
    ensures DeleteSlot(s, id).0 <==> ParkingApi.DeleteSlot(s, id).0 == SlotDeleted
    ensures DeleteSlot(s, id).1 == ParkingApi.DeleteSlot(s, id).1
  {
  }

  // --------------------------------------------------------------- release

  /** A session of `key` that has exited. */
  predicate IsClosedOf(x: Txn, key: string) {
    x.plate == key && x.exit.Some?
  }

  /** `SELECT slotId ... WHERE plateNumber=? AND exitTime IS NOT NULL ORDER
      BY exitTime DESC LIMIT 1`: the index of an exited session of `key`
      with the latest exit time, `None` when there is none. SQL leaves the
      choice between tied rows open; this model takes the later row. */
  function {:induction false} LatestExited(rows: seq<Txn>, key: string): (r: Option<nat>)
    ensures r.None? <==> forall i :: 0 <= i < |rows| ==> !IsClosedOf(rows[i], key)
    ensures r.Some? ==> r.value < |rows| && IsClosedOf(rows[r.value], key)
    ensures r.Some? ==> forall i :: 0 <= i < |rows| && IsClosedOf(rows[i], key) ==>
      rows[i].exit.value <= rows[r.value].exit.value
    ensures r.Some? ==> forall i :: r.value < i < |rows| && IsClosedOf(rows[i], key) ==>
      rows[i].exit.value < rows[r.value].exit.value
    decreases |rows|
  {
    if rows == [] then None
    else
      var n := |rows| - 1;
      var prev := LatestExited(rows[..n], key);
      assert forall i :: 0 <= i < n ==> rows[..n][i] == rows[i];
      if IsClosedOf(rows[n], key) && (prev.None? || rows[prev.value].exit.value <= rows[n].exit.value) then
        Some(n)
      else
        prev
  }

  /** `ExitLogged` is the branch for an exit that finds no exited row
      afterwards; it cannot be reached, since the exit just logged is one. */
  datatype ExitOutcome =
    | PlateRequired
    | NoOpenSession
    | SlotReleased(slotId: int)
    | ReleaseFailed(slotId: int)
    | ExitLogged

  /** `releaseSlot({plate})`: a missing or blank plate is refused; the plate
      is upper-cased and trimmed; `logExit` closes its latest open session
      with the tariff, or the request fails with nothing changed (`logExit`
      normalises the plate again, which changes nothing by
      `NormalizeIdempotent`, so it is handed the plate as given). Then the
      slot of the plate's latest exited session is released. A release of a
      slot that no longer exists fails, but the exit stays logged. */
  function ReleaseSlot(s: Store, plate: Option<string>, now: int): (r: (ExitOutcome, Store))
    ensures r.0 == PlateRequired <==> plate.None? || IsBlank(plate.value)
    ensures r.0 == NoOpenSession <==>
      plate.Some? && !IsBlank(plate.value) && !IsVehicleCurrentlyParked(s.txns, plate.value)
    ensures r.0 == PlateRequired || r.0 == NoOpenSession ==> r.1 == s
    ensures r.0 != ExitLogged
    ensures r.0.SlotReleased? || r.0.ReleaseFailed? ==>
      var key := NormalizePlate(plate.value);
      var t' := LogExit(s.txns, plate.value, now).table;
      && r.1.txns == t'
      && LatestExited(t'.rows, key).Some?
      && r.0.slotId == t'.rows[LatestExited(t'.rows, key).value].slotId
      && (r.0.SlotReleased? <==> r.0.slotId in s.slots)
      && (r.0.SlotReleased? ==> Slots.OnlyTouches(s.slots, r.1.slots, r.0.slotId) && r.1.slots[r.0.slotId])
      && (r.0.ReleaseFailed? ==> r.1.slots == s.slots)
  {
    if plate.None? || IsBlank(plate.value) then (PlateRequired, s)
    else
      var key := NormalizePlate(plate.value);
      var c := LogExit(s.txns, plate.value, now);
      if !c.ok then (NoOpenSession, s)
      else
        assert IsClosedOf(c.table.rows[LatestOpen(s.txns.rows, key).value], key);
        match LatestExited(c.table.rows, key)
        case None => (ExitLogged, Store(s.slots, c.table))
        case Some(j) =>
          var id := c.table.rows[j].slotId;
          var u := Slots.ReleaseSlot(s.slots, id);
          if u.ok then (SlotReleased(id), Store(u.slots, c.table))
          else (ReleaseFailed(id), Store(s.slots, c.table))
  }

  /** Every exited session of `key` left before `now`: the clock has moved
      on since the plate's earlier exits. */
  predicate ExitsBefore(rows: seq<Txn>, key: string, now: int) {
    forall i :: 0 <= i < |rows| && IsClosedOf(rows[i], key) ==> rows[i].exit.value < now
  }

  /** A table that differs from `rows` only in session `k`, now exited at
      `now`, has `k` as its latest exited session of `key` when every
      earlier exit of `key` came before `now`. */
  lemma LatestExitedIsJustClosed(rows: seq<Txn>, rows': seq<Txn>, key: string, k: nat, now: int)
    requires |rows'| == |rows| && k < |rows|
    requires forall i :: 0 <= i < |rows| && i != k ==> rows'[i] == rows[i]
    requires IsClosedOf(rows'[k], key) && rows'[k].exit.value == now
    requires ExitsBefore(rows, key, now)
    ensures LatestExited(rows', key) == Some(k)
  {
    assert forall i :: 0 <= i < |rows'| && i != k && IsClosedOf(rows'[i], key) ==> rows'[i].exit.value < now;
  }

  /** With the clock moving forward, the latest exited session after the
      exit is the one just closed, so the slot released is the one that
      session occupied. */
  lemma ReleaseFreesClosedSlot(s: Store, plate: string, now: int)
    requires !IsBlank(plate) && IsVehicleCurrentlyParked(s.txns, plate)
    requires ExitsBefore(s.txns.rows, NormalizePlate(plate), now)
    ensures var key := NormalizePlate(plate);
      var k := LatestOpen(s.txns.rows, key).value;
      var id := s.txns.rows[k].slotId;
      var r := ReleaseSlot(s, Some(plate), now);
      && r.0 == (if id in s.slots then SlotReleased(id) else ReleaseFailed(id))
      && r.1.txns == LogExit(s.txns, plate, now).table
  {
    var key := NormalizePlate(plate);
    var k := LatestOpen(s.txns.rows, key).value;
    var rows' := LogExit(s.txns, plate, now).table.rows;
    LatestExitedIsJustClosed(s.txns.rows, rows', key, k, now);
  }

  /** In a consistent store, with the clock moving forward, a release
      never fails on a missing slot and keeps the tables in agreement: the
      closed session's slot is freed and nothing else changes. */
  lemma ReleaseKeepsConsistent(s: Store, plate: Option<string>, now: int)
    requires Consistent(s)
    requires plate.Some? ==> ExitsBefore(s.txns.rows, NormalizePlate(plate.value), now)
    ensures !ReleaseSlot(s, plate, now).0.ReleaseFailed?
    ensures Consistent(ReleaseSlot(s, plate, now).1)
  {
    var r := ReleaseSlot(s, plate, now);
    if r.0.SlotReleased? || r.0.ReleaseFailed? {
      var p := plate.value;
      var key := NormalizePlate(p);
      ReleaseFreesClosedSlot(s, p, now);
      var k := LatestOpen(s.txns.rows, key).value;
      var y := CloseWithTariff(s.txns.rows[k], now);
      assert s.txns.rows[k].slotId in s.slots;
      assert LogExit(s.txns, p, now).table == s.txns.(rows := s.txns.rows[k := y]);
      StoreInvariant.CloseOneKeepsConsistent(s, k, y);
    }
  }
}
