/** The parking endpoints of the web controller
    (org.parking.controller.ApiController): each request is one atomic
    transition of the slot table and the transaction table together. */
module ParkingApi {
  import opened Base
  import opened JavaText
  import Slots
  import opened Ledger
  import opened Booking

  datatype Store = Store(slots: Slots.SlotMap, txns: TxnTable)

  /** Some session without an exit time is parked in slot `id`. */
  predicate HasOpenSession(rows: seq<Txn>, id: int) {
    exists i :: 0 <= i < |rows| && rows[i].exit.None? && rows[i].slotId == id
  }

  /** The tables agree: every open session sits in an existing, occupied
      slot of its own, and every occupied slot holds an open session. */
  predicate Consistent(s: Store) {
    var rows := s.txns.rows;
    && (forall i :: 0 <= i < |rows| && rows[i].exit.None? ==>
          rows[i].slotId in s.slots && !s.slots[rows[i].slotId])
    && (forall id :: id in s.slots && !s.slots[id] ==> HasOpenSession(rows, id))
    && (forall i, j :: 0 <= i < j < |rows| && rows[i].exit.None? && rows[j].exit.None? ==>
          rows[i].slotId != rows[j].slotId)
  }

  // ------------------------------------------------------------------ sync

  /** Marks occupied every existing slot an open session of `rows` names. */
  function {:induction false} MarkOccupied(m: Slots.SlotMap, rows: seq<Txn>): (m': Slots.SlotMap)
    ensures m'.Keys == m.Keys
    ensures forall id :: id in m ==> (m'[id] <==> m[id] && !HasOpenSession(rows, id))
    decreases |rows|
  {
    if rows == [] then m
    else
      var n := |rows| - 1;
      var front := MarkOccupied(m, rows[..n]);
      assert forall i :: 0 <= i < n ==> rows[..n][i] == rows[i];
      assert forall id :: HasOpenSession(rows, id) <==>
        HasOpenSession(rows[..n], id) || (rows[n].exit.None? && rows[n].slotId == id);
      if rows[n].exit.None? && rows[n].slotId in front then front[rows[n].slotId := false]
      else front
  }

  /** `syncSlotAvailability()`: every slot is made available, then every slot
      an open session names is made unavailable. */
  function SyncSlotAvailability(s: Store): (r: Store)
    ensures r.txns == s.txns && r.slots.Keys == s.slots.Keys
    ensures forall id :: id in r.slots ==> (r.slots[id] <==> !HasOpenSession(s.txns.rows, id))
  {
    Store(MarkOccupied(map id | id in s.slots :: true, s.txns.rows), s.txns)
  }

  /** Sync repairs the availability column whatever it held before, and
      changes nothing in a store that is already consistent. */
  lemma SyncFixesConsistentStore(s: Store)
    requires Consistent(s)
    ensures SyncSlotAvailability(s) == s
  {
    var r := SyncSlotAvailability(s);
    assert forall id :: id in s.slots ==> r.slots[id] == s.slots[id] by {
      forall id | id in s.slots
        ensures r.slots[id] == s.slots[id]
      {
        if HasOpenSession(s.txns.rows, id) {
          var i :| 0 <= i < |s.txns.rows| && s.txns.rows[i].exit.None? && s.txns.rows[i].slotId == id;
        }
      }
    }
    Slots.SameTable(r.slots, s.slots);
  }

  const DEFAULT_SLOT_IDS: seq<int> := [1, 2, 3, 4, 5, 6, 7, 8, 9, 10]

  /** Slots 1 to 10, all available. */
  const DEFAULT_SLOTS: Slots.SlotMap := map id | id in DEFAULT_SLOT_IDS :: true

  /** Adding ids to an empty table gives exactly those ids, all available. */
  lemma AddSlotsToEmpty(ids: seq<int>)
    ensures Slots.AddSlots(map[], ids) == map id | id in ids :: true
  {
    var m := Slots.AddSlots(map[], ids);
    var d := map id | id in ids :: true;
    assert m.Keys == d.Keys;
    Slots.SameTable(m, d);
  }

  /** Start-up: sync, then add slots 1 to 10, all available, when the slot
      table is empty. */
  function InitializeDefaultSlots(s: Store): (r: Store)
    ensures r.txns == s.txns
    ensures s.slots == map[] ==> r.slots == DEFAULT_SLOTS
    ensures s.slots != map[] ==> r.slots == SyncSlotAvailability(s).slots
  {
    var synced := SyncSlotAvailability(s);
    if |synced.slots| == 0 then
      assert synced.slots == map[];
      AddSlotsToEmpty(DEFAULT_SLOT_IDS);
      Store(Slots.AddSlots(synced.slots, DEFAULT_SLOT_IDS), synced.txns)
    else
      synced
  }

  /** Start-up keeps tables that agree in agreement: an empty slot table
      admits no open session, and sync leaves a consistent store alone. */
  lemma InitKeepsConsistent(s: Store)
    requires Consistent(s)
    ensures Consistent(InitializeDefaultSlots(s))
  {
    if s.slots == map[] {
      assert forall i :: 0 <= i < |s.txns.rows| ==> s.txns.rows[i].exit.Some?;
    } else {
      SyncFixesConsistentStore(s);
    }
  }

  // ----------------------------------------------------------- slot admin

  /** The counts `getSlots()` reports. */
  datatype SlotsReport = SlotsReport(available: seq<int>, total: nat, occupied: int)

  /** `getSlots()`: the available ids, the total, and total minus available
      as the occupied count. */
  function GetSlots(s: Store): (r: SlotsReport)
    ensures Slots.Increasing(r.available)
    ensures forall id :: id in r.available <==> id in s.slots && s.slots[id]
    ensures r.total == |s.slots|
    ensures r.occupied == |Slots.OccupiedSet(s.slots)| && r.occupied >= 0
    ensures r.occupied + |r.available| == r.total
  {
    var avail := Slots.GetAvailableSlots(s.slots);
    Slots.TotalIsAvailablePlusOccupied(s.slots);
    SlotsReport(avail, Slots.TotalSlots(s.slots), Slots.TotalSlots(s.slots) - |avail|)
  }

  datatype DeleteOutcome = NoSuchSlot | SlotOccupied | SlotDeleted

  /** `deleteSlot(id)`: refuses a missing or an occupied slot without change;
      otherwise the slot, and only it, is gone. */
  function DeleteSlot(s: Store, id: int): (r: (DeleteOutcome, Store))
    ensures r.0 == NoSuchSlot <==> id !in s.slots
    ensures r.0 == SlotOccupied <==> id in s.slots && !s.slots[id]
    ensures r.0 != SlotDeleted ==> r.1 == s
    ensures r.0 == SlotDeleted ==> r.1.txns == s.txns && r.1.slots == s.slots - {id}
  {
    match Slots.GetSlotById(s.slots, id)
    case None => (NoSuchSlot, s)
    case Some(available) =>
      if !available then (SlotOccupied, s)
      else
        var u := Slots.DeleteSlot(s.slots, id);
        assert u.ok;
        assert u.slots == s.slots - {id};
        (SlotDeleted, Store(u.slots, s.txns))
  }

  // --------------------------------------------------------------- booking

  datatype BookOutcome =
    | Invalid(errors: set<Violation>)
    | AlreadyParked
    | SlotUnavailable
    | Booked(slotId: int, plate: string)

  /** `bookSlot(request)`: validation first, then the already-parked check,
      then the conditional slot update; an entry is logged only when the
      slot was taken. Every refusal leaves the store as it was. */
  function BookSlot(s: Store, req: BookingRequest, now: int): (r: (BookOutcome, Store))
    ensures r.0.Invalid? <==> !IsValid(req)
    ensures r.0.Invalid? ==> r.0.errors == Violations(req) && r.0.errors != {}
    ensures r.0 == AlreadyParked <==>
      IsValid(req) && IsVehicleCurrentlyParked(s.txns, req.plate.value)
    ensures r.0 == SlotUnavailable <==>
      IsValid(req) && !IsVehicleCurrentlyParked(s.txns, req.plate.value) &&
      !(req.slotId.value in s.slots && s.slots[req.slotId.value])
    ensures !r.0.Booked? ==> r.1 == s
    ensures r.0.Booked? ==>
      && r.0.slotId == req.slotId.value && r.0.plate == req.plate.value
      && Slots.OnlyTouches(s.slots, r.1.slots, r.0.slotId) && !r.1.slots[r.0.slotId]
      && r.1.txns == LogEntry(s.txns, r.0.plate, r.0.slotId, now)
  {
    if !IsValid(req) then (Invalid(Violations(req)), s)
    else
      ValidRequest(req);
      var plate := req.plate.value;
      var slot := req.slotId.value;
      if IsVehicleCurrentlyParked(s.txns, plate) then (AlreadyParked, s)
      else
        var u := Slots.BookSlot(s.slots, slot);
        if u.ok then (Booked(slot, plate), Store(u.slots, LogEntry(s.txns, plate, slot, now)))
        else (SlotUnavailable, s)
  }

  // --------------------------------------------------------------- release

  datatype ReleaseOutcome = PlateMissing | NoActiveSession | Released(slotId: int)

  /** The first open session of `key` in table order: what an unordered
      `SELECT ... WHERE plateNumber = ? AND exitTime IS NULL` returns first
      through the plate index. */
  function FirstOpen(rows: seq<Txn>, key: string): (r: Option<nat>)
    ensures r.None? <==> forall i :: 0 <= i < |rows| ==> !IsOpenOf(rows[i], key)
    ensures r.Some? ==> r.value < |rows| && IsOpenOf(rows[r.value], key)
    ensures r.Some? ==> forall i :: 0 <= i < r.value ==> !IsOpenOf(rows[i], key)
  {
    FirstOpenFrom(rows, key, 0)
  }

  /** The first open session of `key` at index `from` or later. */
  function {:induction false} FirstOpenFrom(rows: seq<Txn>, key: string, from: nat): (r: Option<nat>)
    requires from <= |rows|
    ensures r.None? <==> forall i :: from <= i < |rows| ==> !IsOpenOf(rows[i], key)
    ensures r.Some? ==> from <= r.value < |rows| && IsOpenOf(rows[r.value], key)
    ensures r.Some? ==> forall i :: from <= i < r.value ==> !IsOpenOf(rows[i], key)
    decreases |rows| - from
  {
    if from == |rows| then None
    else if IsOpenOf(rows[from], key) then Some(from)
    else FirstOpenFrom(rows, key, from + 1)
  }

  /** The row `releaseSlot` writes: exited now, duration and cost zero,
      completed. */
  function CloseFree(x: Txn, now: int): (y: Txn)
    ensures y.id == x.id && y.plate == x.plate && y.slotId == x.slotId && y.entry == x.entry
    ensures y.exit == Some(now) && y.duration == Some(0) && y.cost == Some(0)
    ensures y.payment == Completed
  {
    x.(exit := Some(now), duration := Some(0), cost := Some(0), payment := Completed)
  }

  /** Closes session `k` free of charge and frees its slot; no other row
      and no other slot changes. */
  function CloseSession(s: Store, k: nat, now: int): (r: Store)
    requires k < |s.txns.rows|
    ensures r.txns.nextId == s.txns.nextId && |r.txns.rows| == |s.txns.rows|
    ensures r.txns.rows[k] == CloseFree(s.txns.rows[k], now)
    ensures forall i :: 0 <= i < |s.txns.rows| && i != k ==> r.txns.rows[i] == s.txns.rows[i]
    ensures Slots.OnlyTouches(s.slots, r.slots, s.txns.rows[k].slotId)
    ensures s.txns.rows[k].slotId in s.slots ==> r.slots[s.txns.rows[k].slotId]
  {
    var x := s.txns.rows[k];
    Store(Slots.ReleaseSlot(s.slots, x.slotId).slots, s.txns.(rows := s.txns.rows[k := CloseFree(x, now)]))
  }

  /** `releaseSlot({plate})`: a missing or blank plate is refused; otherwise
      the first open session of the normalised plate is closed free of
      charge and its slot made available. */
  function ReleaseSlot(s: Store, plate: Option<string>, now: int): (r: (ReleaseOutcome, Store))
    ensures r.0 == PlateMissing <==> plate.None? || IsBlank(plate.value)
    ensures r.0 == NoActiveSession <==>
      plate.Some? && !IsBlank(plate.value) && !IsVehicleCurrentlyParked(s.txns, plate.value)
    ensures !r.0.Released? ==> r.1 == s
    ensures r.0.Released? ==> FirstOpen(s.txns.rows, NormalizePlate(plate.value)).Some?
    ensures r.0.Released? ==>
      var k := FirstOpen(s.txns.rows, NormalizePlate(plate.value)).value;
      r.0.slotId == s.txns.rows[k].slotId && r.1 == CloseSession(s, k, now)
  {
    if plate.None? || IsBlank(plate.value) then (PlateMissing, s)
    else
      var key := NormalizePlate(plate.value);
      match FirstOpen(s.txns.rows, key)
      case None => (NoActiveSession, s)
      case Some(k) => (Released(s.txns.rows[k].slotId), CloseSession(s, k, now))
  }

  /** A release closes exactly one open session of the plate. */
  lemma ReleaseClosesOne(s: Store, plate: Option<string>, now: int)
    requires ReleaseSlot(s, plate, now).0.Released?
    ensures var key := NormalizePlate(plate.value);
      CountOpen(ReleaseSlot(s, plate, now).1.txns.rows, key) + 1 == CountOpen(s.txns.rows, key)
  {
    var key := NormalizePlate(plate.value);
    var k := FirstOpen(s.txns.rows, key).value;
    var y := CloseFree(s.txns.rows[k], now);
    assert CloseSession(s, k, now).txns.rows == s.txns.rows[k := y];
    CountOpenUpdate(s.txns.rows, k, y, key);
  }

  // ---------------------------------------------------------- admin fixes

  /** Releases the slot of every open session of `key` except the one at
      index `keep` (pass -1 to keep none). */
  function {:induction false} ReleaseSessions(m: Slots.SlotMap, rows: seq<Txn>, key: string, keep: int)
    : (m': Slots.SlotMap)
    ensures m'.Keys == m.Keys
    ensures forall id :: id in m ==> (m'[id] <==> (m[id] ||
      exists i :: 0 <= i < |rows| && i != keep && IsOpenOf(rows[i], key) && rows[i].slotId == id))
    decreases |rows|
  {
    if rows == [] then m
    else
      var n := |rows| - 1;
      var front := ReleaseSessions(m, rows[..n], key, keep);
      assert forall i :: 0 <= i < n ==> rows[..n][i] == rows[i];
      if n != keep && IsOpenOf(rows[n], key) then Slots.ReleaseSlot(front, rows[n].slotId).slots
      else front
  }

  datatype ForceOutcome = NothingToRelease | ForceReleased(count: nat)

  /** Every open session of `key` marked exited now and completed; its
      duration and cost are left as they were. */
  function CloseAll(rows: seq<Txn>, key: string, now: int): (closed: seq<Txn>)
    ensures |closed| == |rows|
    ensures forall i :: 0 <= i < |rows| && !IsOpenOf(rows[i], key) ==> closed[i] == rows[i]
    ensures forall i :: 0 <= i < |rows| && IsOpenOf(rows[i], key) ==>
      closed[i] == rows[i].(exit := Some(now), payment := Completed)
    ensures CountOpen(closed, key) == 0
    ensures CountOpen(rows, key) == 0 ==> closed == rows
  {
    var closed := seq(|rows|, i requires 0 <= i < |rows| =>
      if IsOpenOf(rows[i], key) then rows[i].(exit := Some(now), payment := Completed) else rows[i]);
    assert forall i :: 0 <= i < |closed| ==> !IsOpenOf(closed[i], key);
    closed
  }

  /** `forceReleaseVehicle(plate)`: every open session of the normalised
      plate is closed as completed and its slot made available; the number
      of sessions closed is reported, and none means failure. */
  function ForceRelease(s: Store, plate: string, now: int): (r: (ForceOutcome, Store))
    ensures var n := CountOpen(s.txns.rows, NormalizePlate(plate));
      && (r.0 == NothingToRelease <==> n == 0)
      && (r.0.ForceReleased? ==> r.0.count == n)
      && (r.0 == NothingToRelease ==> r.1 == s)
    ensures r.1.txns == s.txns.(rows := CloseAll(s.txns.rows, NormalizePlate(plate), now))
    ensures r.1.slots == ReleaseSessions(s.slots, s.txns.rows, NormalizePlate(plate), -1)
  {
    var key := NormalizePlate(plate);
    var rows := s.txns.rows;
    var n := CountOpen(rows, key);
    if n == 0 then
      assert ReleaseSessions(s.slots, rows, key, -1) == s.slots;
      (NothingToRelease, s)
    else
      (ForceReleased(n), Store(ReleaseSessions(s.slots, rows, key, -1), s.txns.(rows := CloseAll(rows, key, now))))
  }

  /** `kept` is the index of the session left open. */
  datatype FixOutcome = NoSession | AlreadyConsistent | Fixed(closed: nat, kept: nat)

  /** The row `fixVehicleInconsistency` writes for a duplicate session:
      exited now, duration and cost zero, cancelled. */
  function Cancel(x: Txn, now: int): (y: Txn)
    ensures y.id == x.id && y.plate == x.plate && y.slotId == x.slotId && y.entry == x.entry
    ensures y.exit == Some(now) && y.duration == Some(0) && y.cost == Some(0)
    ensures y.payment == Cancelled
  {
    x.(exit := Some(now), duration := Some(0), cost := Some(0), payment := Cancelled)
  }

  /** A table in which `k` is the only open session of `key` counts one. */
  lemma CountOnlyOne(rows: seq<Txn>, key: string, k: int)
    requires 0 <= k < |rows| && IsOpenOf(rows[k], key)
    requires forall i :: 0 <= i < |rows| && i != k ==> !IsOpenOf(rows[i], key)
    ensures CountOpen(rows, key) == 1
  {
    CountBelowOnlyOne(rows, key, k, |rows|);
  }

  /** The count among the first `n` rows when `k` is the only open session
      of `key`. */
  lemma {:induction false} CountBelowOnlyOne(rows: seq<Txn>, key: string, k: int, n: nat)
    requires 0 <= k < |rows| && IsOpenOf(rows[k], key) && n <= |rows|
    requires forall i :: 0 <= i < |rows| && i != k ==> !IsOpenOf(rows[i], key)
    ensures CountOpenBelow(rows, key, n) == if k < n then 1 else 0
    decreases n
  {
    if n > 0 {
      CountBelowOnlyOne(rows, key, k, n - 1);
    }
  }

  /** Every open session of `key` but the one at `k` cancelled; afterwards
      `k` is the plate's only open session. */
  function CancelDuplicates(rows: seq<Txn>, key: string, k: int, now: int): (fixed: seq<Txn>)
    requires 0 <= k < |rows| && IsOpenOf(rows[k], key)
    ensures |fixed| == |rows| && fixed[k] == rows[k]
    ensures forall i :: 0 <= i < |rows| && i != k && IsOpenOf(rows[i], key) ==> fixed[i] == Cancel(rows[i], now)
    ensures forall i :: 0 <= i < |rows| && !IsOpenOf(rows[i], key) ==> fixed[i] == rows[i]
    ensures CountOpen(fixed, key) == 1
  {
    var fixed := seq(|rows|, i requires 0 <= i < |rows| =>
      if i != k && IsOpenOf(rows[i], key) then Cancel(rows[i], now) else rows[i]);
    CountOnlyOne(fixed, key, k);
    fixed
  }

  /** `fixVehicleInconsistency(plate)`: with several open sessions of the
      normalised plate, the one with the latest entry is kept and every
      other is cancelled and its slot released; one session or none
      changes nothing. */
  function FixVehicleInconsistency(s: Store, plate: string, now: int): (r: (FixOutcome, Store))
    ensures var n := CountOpen(s.txns.rows, NormalizePlate(plate));
      && (r.0 == NoSession <==> n == 0)
      && (r.0 == AlreadyConsistent <==> n == 1)
      && (r.0.Fixed? <==> n > 1)
      && (r.0.Fixed? ==> r.0.closed == n - 1)
      && (!r.0.Fixed? ==> r.1 == s)
    ensures r.0.Fixed? ==> LatestOpen(s.txns.rows, NormalizePlate(plate)) == Some(r.0.kept)
    ensures r.0.Fixed? ==> r.0.kept < |s.txns.rows| && IsOpenOf(s.txns.rows[r.0.kept], NormalizePlate(plate))
    ensures r.0.Fixed? ==>
      && r.1.txns == s.txns.(rows := CancelDuplicates(s.txns.rows, NormalizePlate(plate), r.0.kept, now))
      && r.1.slots == ReleaseSessions(s.slots, s.txns.rows, NormalizePlate(plate), r.0.kept)
  {
    var key := NormalizePlate(plate);
    var rows := s.txns.rows;
    var n := CountOpen(rows, key);
    if n <= 1 then (if n == 0 then NoSession else AlreadyConsistent, s)
    else
      var k := LatestOpen(rows, key).value;
      (Fixed(n - 1, k), Store(ReleaseSessions(s.slots, rows, key, k), s.txns.(rows := CancelDuplicates(rows, key, k, now))))
  }

  // ---------------------------------------------------------------- reset

  /** `resetAllData()`: every transaction deleted (the AUTOINCREMENT counter
      kept) and every slot made available. */
  function ResetAllData(s: Store): (r: Store)
    ensures r.txns.rows == [] && r.txns.nextId == s.txns.nextId
    ensures r.slots.Keys == s.slots.Keys
    ensures Slots.AvailableSet(r.slots) == s.slots.Keys
    ensures forall p :: !IsVehicleCurrentlyParked(r.txns, p)
  {
    Store(map id | id in s.slots :: true, TxnTable([], s.txns.nextId))
  }
}
