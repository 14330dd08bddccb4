/** The agreement between the slot table and the transaction table
    (`ParkingApi.Consistent`) survives every endpoint that writes both, and
    a booking is undone by a release of the same plate. */
module StoreInvariant {
  import opened Base
  import opened JavaText
  import Slots
  import opened Ledger
  import opened Booking
  import opened ParkingApi

  /** Two open sessions never share a slot in a consistent store. */
  lemma OpenSlotsDistinct(s: Store, i: int, j: int)
    requires Consistent(s)
    requires 0 <= i < |s.txns.rows| && 0 <= j < |s.txns.rows| && i != j
    requires s.txns.rows[i].exit.None? && s.txns.rows[j].exit.None?
    ensures s.txns.rows[i].slotId != s.txns.rows[j].slotId
  {
    if i > j {
      assert s.txns.rows[j].slotId != s.txns.rows[i].slotId;
    }
  }

  /** Appending an open session in a free slot keeps the store consistent
      once that slot is marked occupied. */
  lemma {:induction false} AppendKeepsConsistent(s: Store, x: Txn, n: int)
    requires Consistent(s)
    requires x.exit.None? && x.slotId in s.slots && s.slots[x.slotId]
    ensures Consistent(Store(s.slots[x.slotId := false], TxnTable(s.txns.rows + [x], n)))
  {
    var rows := s.txns.rows;
    var rows' := rows + [x];
    var slots' := s.slots[x.slotId := false];
    assert forall i :: 0 <= i < |rows| ==> rows'[i] == rows[i];
    assert forall i :: 0 <= i < |rows| && rows[i].exit.None? ==> rows[i].slotId != x.slotId;
    forall id | id in slots' && !slots'[id]
      ensures HasOpenSession(rows', id)
    {
      if id == x.slotId {
        assert rows'[|rows|] == x;
      } else {
        var i :| 0 <= i < |rows| && rows[i].exit.None? && rows[i].slotId == id;
        assert rows'[i] == rows[i];
      }
    }
  }

  /** Session `i` was open in `rows` and is closed in `rows'`. */
  predicate ClosedAt(rows: seq<Txn>, rows': seq<Txn>, i: int)
    requires 0 <= i < |rows| && |rows'| == |rows|
  {
    rows[i].exit.None? && rows'[i].exit.Some?
  }

  /** Closing some open sessions keeps the store consistent when the slot
      table afterwards frees every slot a closed session held, occupies no
      new slot, and frees no slot that only other sessions held. */
  lemma {:induction false} CloseKeepsConsistent(s: Store, rows': seq<Txn>, slots': Slots.SlotMap)
    requires Consistent(s)
    requires |rows'| == |s.txns.rows|
    requires forall i :: 0 <= i < |rows'| ==> rows'[i].slotId == s.txns.rows[i].slotId
    requires forall i :: 0 <= i < |rows'| && rows'[i].exit.None? ==> rows'[i] == s.txns.rows[i]
    requires slots'.Keys == s.slots.Keys
    requires forall id :: id in s.slots && s.slots[id] ==> slots'[id]
    requires forall j :: 0 <= j < |rows'| && ClosedAt(s.txns.rows, rows', j) ==>
      s.txns.rows[j].slotId in slots' && slots'[s.txns.rows[j].slotId]
    requires forall id :: id in s.slots && !s.slots[id] ==>
      (forall j :: 0 <= j < |rows'| && ClosedAt(s.txns.rows, rows', j) ==> s.txns.rows[j].slotId != id) ==>
      !slots'[id]
    ensures Consistent(Store(slots', s.txns.(rows := rows')))
  {
    var rows := s.txns.rows;
    forall i | 0 <= i < |rows'| && rows'[i].exit.None?
      ensures rows'[i].slotId in slots' && !slots'[rows'[i].slotId]
    {
      forall j | 0 <= j < |rows'| && ClosedAt(rows, rows', j)
        ensures rows[j].slotId != rows'[i].slotId
      {
        OpenSlotsDistinct(s, i, j);
      }
    }
    forall id | id in slots' && !slots'[id]
      ensures HasOpenSession(rows', id)
    {
      var i :| 0 <= i < |rows| && rows[i].exit.None? && rows[i].slotId == id;
      assert !ClosedAt(rows, rows', i);
      assert rows'[i] == rows[i];
    }
  }

  /** A successful booking adds one open session in a slot that was free. */
  lemma BookKeepsConsistent(s: Store, req: BookingRequest, now: int)
    requires Consistent(s)
    ensures Consistent(BookSlot(s, req, now).1)
  {
    var r := BookSlot(s, req, now);
    if r.0.Booked? {
      var slot := r.0.slotId;
      var t' := LogEntry(s.txns, r.0.plate, slot, now);
      Slots.SameTable(r.1.slots, s.slots[slot := false]);
      assert t'.rows == s.txns.rows + [t'.rows[|s.txns.rows|]];
      AppendKeepsConsistent(s, t'.rows[|s.txns.rows|], t'.nextId);
    }
  }

  /** Closing one open session, whatever else the closed row records, and
      freeing its slot keeps the store consistent. */
  lemma CloseOneKeepsConsistent(s: Store, k: nat, y: Txn)
    requires Consistent(s)
    requires k < |s.txns.rows| && s.txns.rows[k].exit.None?
    requires y.slotId == s.txns.rows[k].slotId && y.exit.Some?
    ensures Consistent(Store(Slots.ReleaseSlot(s.slots, y.slotId).slots, s.txns.(rows := s.txns.rows[k := y])))
  {
    var rows := s.txns.rows;
    var rows' := rows[k := y];
    assert forall j :: 0 <= j < |rows| && ClosedAt(rows, rows', j) ==> j == k;
    CloseKeepsConsistent(s, rows', Slots.ReleaseSlot(s.slots, y.slotId).slots);
  }

  /** Closing an open session and freeing its slot keeps the store
      consistent. */
  lemma CloseSessionKeepsConsistent(s: Store, k: nat, now: int)
    requires Consistent(s)
    requires k < |s.txns.rows| && s.txns.rows[k].exit.None?
    ensures Consistent(CloseSession(s, k, now))
  {
    CloseOneKeepsConsistent(s, k, CloseFree(s.txns.rows[k], now));
  }

  /** A release closes one session and frees its slot. */
  lemma ReleaseKeepsConsistent(s: Store, plate: Option<string>, now: int)
    requires Consistent(s)
    ensures Consistent(ReleaseSlot(s, plate, now).1)
  {
    var r := ReleaseSlot(s, plate, now);
    if r.0.Released? {
      CloseSessionKeepsConsistent(s, FirstOpen(s.txns.rows, NormalizePlate(plate.value)).value, now);
    }
  }

  /** Only a free slot is deleted, and no open session sits in a free slot. */
  lemma DeleteKeepsConsistent(s: Store, id: int)
    requires Consistent(s)
    ensures Consistent(DeleteSlot(s, id).1)
  {
  }

  /** After a reset nothing is parked and every slot is free. */
  lemma ResetIsConsistent(s: Store)
    ensures Consistent(ResetAllData(s))
  {
  }

  /** Closing every open session of `key` but the one at `keep`, and
      releasing the slots they held, keeps the store consistent. */
  lemma {:induction false} ReleaseSessionsKeepsConsistent(s: Store, key: string, keep: int, rows': seq<Txn>)
    requires Consistent(s)
    requires |rows'| == |s.txns.rows|
    requires forall i :: 0 <= i < |rows'| ==> rows'[i].slotId == s.txns.rows[i].slotId
    requires forall i :: 0 <= i < |rows'| && rows'[i].exit.None? ==> rows'[i] == s.txns.rows[i]
    requires forall j :: 0 <= j < |rows'| ==>
      (ClosedAt(s.txns.rows, rows', j) <==> j != keep && IsOpenOf(s.txns.rows[j], key))
    ensures Consistent(Store(ReleaseSessions(s.slots, s.txns.rows, key, keep), s.txns.(rows := rows')))
  {
    var rows := s.txns.rows;
    var m' := ReleaseSessions(s.slots, rows, key, keep);
    forall j | 0 <= j < |rows'| && ClosedAt(rows, rows', j)
      ensures rows[j].slotId in m' && m'[rows[j].slotId]
    {
      assert j != keep && IsOpenOf(rows[j], key);
    }
    forall id | id in s.slots && !s.slots[id] &&
      (forall j :: 0 <= j < |rows'| && ClosedAt(rows, rows', j) ==> rows[j].slotId != id)
      ensures !m'[id]
    {
      assert forall j :: 0 <= j < |rows| && j != keep && IsOpenOf(rows[j], key) ==> rows[j].slotId != id;
    }
    CloseKeepsConsistent(s, rows', m');
  }

  /** Force-releasing a plate closes its sessions and frees exactly their
      slots. */
  lemma ForceReleaseKeepsConsistent(s: Store, plate: string, now: int)
    requires Consistent(s)
    ensures Consistent(ForceRelease(s, plate, now).1)
  {
    var key := NormalizePlate(plate);
    var rows := s.txns.rows;
    var rows' := CloseAll(rows, key, now);
    assert forall j :: 0 <= j < |rows'| ==> (ClosedAt(rows, rows', j) <==> j != -1 && IsOpenOf(rows[j], key));
    ReleaseSessionsKeepsConsistent(s, key, -1, rows');
  }

  /** Cancelling duplicates closes exactly the open sessions of `key` other
      than the one at `k`. */
  lemma CancelClosesDuplicates(rows: seq<Txn>, key: string, k: int, now: int)
    requires 0 <= k < |rows| && IsOpenOf(rows[k], key)
    ensures var rows' := CancelDuplicates(rows, key, k, now);
      forall j :: 0 <= j < |rows'| ==> (ClosedAt(rows, rows', j) <==> j != k && IsOpenOf(rows[j], key))
  {
  }

  /** Cancelling every open session of `key` but the one at `k`, and freeing
      their slots, keeps the store consistent. */
  lemma CancelKeepsConsistent(s: Store, key: string, k: int, now: int)
    requires Consistent(s)
    requires 0 <= k < |s.txns.rows| && IsOpenOf(s.txns.rows[k], key)
    ensures Consistent(Store(ReleaseSessions(s.slots, s.txns.rows, key, k),
                             s.txns.(rows := CancelDuplicates(s.txns.rows, key, k, now))))
  {
    CancelClosesDuplicates(s.txns.rows, key, k, now);
    ReleaseSessionsKeepsConsistent(s, key, k, CancelDuplicates(s.txns.rows, key, k, now));
  }

  /** Cancelling duplicates keeps the newest session and frees the slots of
      the others. */
  lemma FixKeepsConsistent(s: Store, plate: string, now: int)
    requires Consistent(s)
    ensures Consistent(FixVehicleInconsistency(s, plate, now).1)
  {
    var r := FixVehicleInconsistency(s, plate, now);
    if r.0.Fixed? {
      CancelKeepsConsistent(s, NormalizePlate(plate), r.0.kept, now);
    }
  }

  /** Booking a free slot for a well-formed plate that is not parked
      succeeds, occupies that slot and logs the entry. */
  lemma BookFreeSlot(s: Store, plate: string, slot: int, now: int)
    requires MatchesPlatePattern(plate) && slot > 0
    requires !IsVehicleCurrentlyParked(s.txns, plate)
    requires slot in s.slots && s.slots[slot]
    ensures BookSlot(s, BookingRequest(Some(plate), Some(slot)), now) ==
      (Booked(slot, plate), Store(s.slots[slot := false], LogEntry(s.txns, plate, slot, now)))
  {
    ValidWhenWellFormed(plate, slot);
  }

  /** The entry just logged for a plate with no open session is the plate's
      first open session, and the only one. */
  lemma {:induction false} NewEntryIsFirstOpen(t: TxnTable, plate: string, slot: int, now: int)
    requires !IsVehicleCurrentlyParked(t, plate)
    ensures var rows1 := LogEntry(t, plate, slot, now).rows;
      && FirstOpen(rows1, NormalizePlate(plate)) == Some(|t.rows|)
      && forall i :: 0 <= i < |t.rows| ==> !IsOpenOf(rows1[i], NormalizePlate(plate))
  {
    var rows1 := LogEntry(t, plate, slot, now).rows;
    assert forall i :: 0 <= i < |t.rows| ==> rows1[i] == t.rows[i];
  }

  /** A release of a plate whose first open session is `n` closes that
      session. */
  lemma ReleaseFirstOpen(s: Store, plate: string, n: nat, later: int)
    requires !IsBlank(plate)
    requires FirstOpen(s.txns.rows, NormalizePlate(plate)) == Some(n)
    ensures ReleaseSlot(s, Some(plate), later) == (Released(s.txns.rows[n].slotId), CloseSession(s, n, later))
  {
  }

  /** When only the last row was open for `key`, closing it leaves none. */
  lemma {:induction false} NoneOpenAfterLast(rows: seq<Txn>, y: Txn, rows': seq<Txn>, key: string)
    requires rows != [] && !IsOpenOf(y, key) && rows' == rows[|rows| - 1 := y]
    requires forall i :: 0 <= i < |rows| - 1 ==> !IsOpenOf(rows[i], key)
    ensures forall i :: 0 <= i < |rows'| ==> !IsOpenOf(rows'[i], key)
  {
  }

  /** Booking a free slot for a plate that is not parked, then releasing
      that plate, frees the same slot and leaves the plate not parked. */
  lemma BookThenRelease(s: Store, plate: string, slot: int, now: int, later: int)
    requires MatchesPlatePattern(plate) && slot > 0
    requires !IsVehicleCurrentlyParked(s.txns, plate)
    requires slot in s.slots && s.slots[slot]
    ensures var b := BookSlot(s, BookingRequest(Some(plate), Some(slot)), now);
      var r := ReleaseSlot(b.1, Some(plate), later);
      && b.0 == Booked(slot, plate)
      && r.0 == Released(slot)
      && r.1.slots == s.slots
      && !IsVehicleCurrentlyParked(r.1.txns, plate)
  {
    BookFreeSlot(s, plate, slot, now);
    ReleaseAfterBooking(s, plate, slot, now, later);
  }

  /** The release half of `BookThenRelease`, on the store the booking
      leaves. */
  lemma ReleaseAfterBooking(s: Store, plate: string, slot: int, now: int, later: int)
    requires MatchesPlatePattern(plate)
    requires !IsVehicleCurrentlyParked(s.txns, plate)
    requires slot in s.slots && s.slots[slot]
    ensures var r := ReleaseSlot(Store(s.slots[slot := false], LogEntry(s.txns, plate, slot, now)), Some(plate), later);
      && r.0 == Released(slot)
      && r.1.slots == s.slots
      && !IsVehicleCurrentlyParked(r.1.txns, plate)
  {
    var t1 := LogEntry(s.txns, plate, slot, now);
    var b1 := Store(s.slots[slot := false], t1);
    NewEntryIsFirstOpen(s.txns, plate, slot, now);
    assert !IsBlank(plate) by {
      assert !IsSpace(plate[0]);
    }
    var n := |s.txns.rows|;
    ReleaseFirstOpen(b1, plate, n, later);
    var c := CloseSession(b1, n, later);
    Slots.SameTable(c.slots, s.slots);
    assert c.txns.rows == t1.rows[n := CloseFree(t1.rows[n], later)];
    NoneOpenAfterLast(t1.rows, CloseFree(t1.rows[n], later), c.txns.rows, NormalizePlate(plate));
  }

}
