/** The three actions of the Swing desk (src/view/ParkingManagementUI.java)
    on the desktop-era tables: generate a QR code, admit the vehicle a
    scanned code names, and let a vehicle out. The QR image itself, the file
    dialog and the text shown are left out; the decoded QR text and the
    clock's text are parameters. */
module ParkingDesk {
  import opened Base
  import opened JavaText
  import Slots
  import opened LegacyLedger

  datatype Desk = Desk(slots: Slots.SlotMap, journal: seq<Entry>)

  // -------------------------------------------------------------- generate

  /** Generate: the QR file name for the typed plate, `None` when the trimmed
      plate is empty. The plate can be read back from the name. */
  function QrFileName(typed: string): (r: Option<string>)
    ensures r.None? <==> AllSpaces(typed)
    ensures r.Some? ==> StartsWith(r.value, "qr_") && |r.value| == |Trim(typed)| + 7
    ensures r.Some? ==> r.value[3..|r.value| - 4] == Trim(typed) && r.value[|r.value| - 4..] == ".png"
  {
    var plate := Trim(typed);
    if plate == [] then None else Some("qr_" + plate + ".png")
  }

  // ------------------------------------------------------------------ entry

  datatype EntryOutcome = NoSlots | BookFailed | Entered(slotId: int)

  /** Scan entry: books the first id `getAvailableSlots()` lists and logs
      the decoded plate there; with no free slot nothing changes. */
  function ScanEntry(d: Desk, decoded: string, now: string): (r: (EntryOutcome, Desk))
    ensures r.0 == NoSlots <==> Slots.AvailableSet(d.slots) == {}
    ensures r.0 != BookFailed
    ensures r.0 == NoSlots ==> r.1 == d
    ensures r.0.Entered? ==>
      && r.0.slotId in d.slots && d.slots[r.0.slotId]
      && (forall id :: id in d.slots && d.slots[id] ==> r.0.slotId <= id)
      && Slots.OnlyTouches(d.slots, r.1.slots, r.0.slotId) && !r.1.slots[r.0.slotId]
      && r.1.journal == LogEntry(d.journal, decoded, r.0.slotId, now)
  {
    var available := Slots.GetAvailableSlots(d.slots);
    if available == [] then
      assert Slots.AvailableSet(d.slots) == {} by {
        Slots.EmptyIfNoMember(Slots.AvailableSet(d.slots));
      }
      (NoSlots, d)
    else
      var slot := available[0];
      assert forall id :: id in d.slots && d.slots[id] ==> slot <= id by {
        forall id | id in d.slots && d.slots[id]
          ensures slot <= id
        {
          var k :| 0 <= k < |available| && available[k] == id;
        }
      }
      var u := Slots.BookSlot(d.slots, slot);
      if u.ok then (Entered(slot), Desk(u.slots, LogEntry(d.journal, decoded, slot, now)))
      else (BookFailed, d)
  }

  // ------------------------------------------------------- history parsing

  /** One step of the loop over the comma-separated parts of a history
      line: a part that starts with `Slot:` once trimmed, and whose
      remainder parses as an `int`, sets the slot; any other part keeps the
      slot found so far. */
  function PartSlot(part: string, found: int): (slot: int)
    ensures slot != found ==> StartsWith(Trim(part), "Slot:")
  {
    if StartsWith(Trim(part), "Slot:") then
      match ParseInt(Trim(RemoveAll(part, "Slot:")))
      case Some(v) => v
      case None => found
    else found
  }

  /** The loop itself: a later slot part overrides an earlier one. */
  function {:induction false} ScanParts(parts: seq<string>, found: int): (slot: int)
    ensures slot == found || exists k :: 0 <= k < |parts| && StartsWith(Trim(parts[k]), "Slot:")
    decreases |parts|
  {
    if parts == [] then found
    else
      var next := PartSlot(parts[0], found);
      var r := ScanParts(parts[1..], next);
      assert r != next ==> exists k :: 1 <= k < |parts| && StartsWith(Trim(parts[k]), "Slot:") by {
        if r != next {
          var k :| 0 <= k < |parts[1..]| && StartsWith(Trim(parts[1..][k]), "Slot:");
          assert parts[1..][k] == parts[k + 1];
        }
      }
      r
  }

  /** The slot id the desk reads off a history line, -1 when none. */
  function ParseSlot(line: string): (slot: int)
    ensures slot == -1 ||
      exists k :: 0 <= k < |JavaSplit(line, ',')| && StartsWith(Trim(JavaSplit(line, ',')[k]), "Slot:")
  {
    ScanParts(JavaSplit(line, ','), -1)
  }

  /** The slot part of a history line yields its slot id. */
  lemma SlotPartParses(n: int)
    requires IsInt32(n)
    ensures var part := "Slot: " + IntToString(n);
      StartsWith(Trim(part), "Slot:") && ParseInt(Trim(RemoveAll(part, "Slot:"))) == Some(n)
  {
    var digits := IntToString(n);
    var body := " " + digits;
    assert "Slot: " + digits == "Slot:" + body;
    RemoveLeading("Slot:", body);
    SlotValueParses(n);
    IntToStringTrimmed(n);
    TrimmedConcat("Slot:", body);
  }

  /** What is left of the slot part once `Slot:` is removed and the rest
      trimmed is the decimal text of the slot id. */
  lemma SlotValueParses(n: int)
    requires IsInt32(n)
    ensures ParseInt(Trim(RemoveAll(" " + IntToString(n), "Slot:"))) == Some(n)
  {
    var digits := IntToString(n);
    var body := " " + digits;
    IntToStringChars(n, 'S');
    RemoveAbsent(body, "Slot:");
    IntToStringTrimmed(n);
    assert body == [' '] + digits;
    TrimSkipsLeadingSpace(' ', digits);
    ParseIntToString(n);
  }

  /** A part that opens with one blank and a word not starting with `S` is
      passed over. */
  lemma {:induction false} OtherPartSkipped(word: string, rest: string)
    requires |word| >= 2 && word[0] == ' ' && !IsSpace(word[1]) && word[1] != 'S'
    ensures !StartsWith(Trim(word + rest), "Slot:")
  {
    var part := word + rest;
    assert part == [' '] + [word[1]] + (word[2..] + rest);
    TrimAfterSpace(word[1], word[2..] + rest);
    NotSlotPart(Trim(part));
  }

  lemma NotSlotPart(s: string)
    requires |s| > 0 && s[0] != 'S'
    ensures !StartsWith(s, "Slot:")
  {
  }

  /** A history line splits at its two commas into three parts, provided
      neither time text contains a comma. */
  lemma {:induction false} LineParts(e: Entry)
    requires ',' !in e.entryTime && ',' !in ExitText(e)
    ensures JavaSplit(Line(e), ',') ==
      ["Slot: " + IntToString(e.slotId), " Entry: " + e.entryTime, " Exit: " + ExitText(e)]
  {
    var a := "Slot: " + IntToString(e.slotId);
    var b := " Entry: " + e.entryTime;
    var c := " Exit: " + ExitText(e);
    IntToStringChars(e.slotId, ',');
    assert ',' !in a && ',' !in b && ',' !in c;
    assert Line(e) == a + [','] + (b + [','] + c);
    SplitPrefix(a, b + [','] + c, ',');
    SplitPrefix(b, c, ',');
    SplitNoSeparator(c, ',');
    var parts := [a, b, c];
    assert SplitOn(Line(e), ',') == parts;
    assert ',' in Line(e) by {
      assert Line(e)[|a|] == ',';
    }
    assert DropTrailingEmpty(parts) == parts;
  }

  /** One turn of the loop. */
  lemma ScanCons(p: string, rest: seq<string>, found: int)
    ensures ScanParts([p] + rest, found) == ScanParts(rest, PartSlot(p, found))
  {
    assert ([p] + rest)[1..] == rest;
  }

  /** The loop over three parts of which only the first names slot `v`. */
  lemma ScanThree(a: string, b: string, c: string, v: int)
    requires PartSlot(a, -1) == v && PartSlot(b, v) == v && PartSlot(c, v) == v
    ensures ScanParts([a, b, c], -1) == v
  {
    ScanCons(c, [], v);
    ScanCons(b, [c], v);
    ScanCons(a, [b, c], -1);
    assert [a] + [b, c] == [a, b, c];
    assert [b] + [c] == [b, c];
    assert [c] + [] == [c];
  }

  /** Reading the slot back from a history line gives the row's slot id,
      provided neither time text contains a comma. */
  lemma {:induction false} ParseSlotOfLine(e: Entry)
    requires IsInt32(e.slotId)
    requires ',' !in e.entryTime && ',' !in ExitText(e)
    ensures ParseSlot(Line(e)) == e.slotId
  {
    var a := "Slot: " + IntToString(e.slotId);
    var b := " Entry: " + e.entryTime;
    var c := " Exit: " + ExitText(e);
    LineParts(e);
    SlotPartParses(e.slotId);
    TimePartsSkipped(e);
    ScanThree(a, b, c, e.slotId);
  }

  /** Neither time part of a history line names a slot. */
  lemma TimePartsSkipped(e: Entry)
    ensures !StartsWith(Trim(" Entry: " + e.entryTime), "Slot:")
    ensures !StartsWith(Trim(" Exit: " + ExitText(e)), "Slot:")
  {
    OtherPartSkipped(" Entry: ", e.entryTime);
    OtherPartSkipped(" Exit: ", ExitText(e));
  }

  // ------------------------------------------------------------------- exit

  datatype ExitOutcome = NeedPlate | NoRecord | UnknownSlot | NotParked | ReleaseFailed | Exited(slotId: int)

  /** Exit: reads the slot off the last history line of the trimmed plate,
      makes that slot available and, only if that worked, stamps the exit
      time on the plate's open rows. An empty plate, an empty history or
      an unreadable slot changes nothing. */
  function Exit(d: Desk, typed: string, now: string): (r: (ExitOutcome, Desk))
    ensures r.0 == NeedPlate <==> AllSpaces(typed)
    ensures r.0 == NoRecord <==>
      !AllSpaces(typed) && forall i :: 0 <= i < |d.journal| ==> d.journal[i].plate != Trim(typed)
    ensures r.0 != NotParked
    ensures !r.0.Exited? ==> r.1 == d
    ensures r.0.Exited? ==>
      && r.0.slotId != -1 && r.0.slotId in d.slots
      && Slots.OnlyTouches(d.slots, r.1.slots, r.0.slotId) && r.1.slots[r.0.slotId]
      && r.1.journal == LogExit(d.journal, Trim(typed), now)
  {
    var plate := Trim(typed);
    if plate == [] then (NeedPlate, d)
    else
      var history := GetHistory(d.journal, plate);
      if history == [] then (NoRecord, d)
      else ReleaseParsed(d, plate, ParseSlot(history[|history| - 1]), now)
  }

  /** The end of the exit action once a slot id has been read: -1 means it
      could not be read; otherwise the slot is released and, if it exists,
      the plate's open rows are closed. */
  function ReleaseParsed(d: Desk, plate: string, slot: int, now: string): (r: (ExitOutcome, Desk))
    ensures r.0 == UnknownSlot <==> slot == -1
    ensures r.0 == ReleaseFailed <==> slot != -1 && slot !in d.slots
    ensures !r.0.Exited? ==> r.1 == d
    ensures r.0.Exited? ==>
      && r.0.slotId == slot && slot != -1 && slot in d.slots
      && Slots.OnlyTouches(d.slots, r.1.slots, slot) && r.1.slots[slot]
      && r.1.journal == LogExit(d.journal, plate, now)
  {
    if slot == -1 then (UnknownSlot, d)
    else
      var u := Slots.ReleaseSlot(d.slots, slot);
      if u.ok then (Exited(slot), Desk(u.slots, LogExit(d.journal, plate, now)))
      else (ReleaseFailed, d)
  }

  /** The rows the desk can read back: slot ids are `int`s other than -1
      and no time text contains a comma. */
  predicate Readable(rows: seq<Entry>) {
    forall i :: 0 <= i < |rows| ==>
      IsInt32(rows[i].slotId) && rows[i].slotId != -1 &&
      ',' !in rows[i].entryTime && ',' !in ExitText(rows[i])
  }

  /** The last row the journal holds for `plate`. */
  function LastRowOf(rows: seq<Entry>, plate: string): (e: Entry)
    requires LastIndexOf(rows, plate).Some?
    ensures e.plate == plate
  {
    rows[LastIndexOf(rows, plate).value]
  }

  /** On a readable journal, exit acts on the slot of the plate's last row. */
  lemma ExitUsesLastRow(d: Desk, typed: string, now: string)
    requires Readable(d.journal)
    requires LastIndexOf(d.journal, Trim(typed)).Some?
    requires !AllSpaces(typed)
    ensures Exit(d, typed, now) == ReleaseParsed(d, Trim(typed), LastRowOf(d.journal, Trim(typed)).slotId, now)
  {
    var plate := Trim(typed);
    HistoryEndsWithLastRow(d.journal, plate);
    ParseSlotOfLine(LastRowOf(d.journal, plate));
  }

  // -------------------------------------------------------- the corrected exit

  /** The desk's tables agree: an open row sits in an existing, occupied
      slot, and no two open rows share a slot. */
  predicate DeskConsistent(d: Desk) {
    var rows := d.journal;
    && (forall i :: 0 <= i < |rows| && rows[i].exitTime.None? ==>
          rows[i].slotId in d.slots && !d.slots[rows[i].slotId])
    && (forall i, j :: 0 <= i < j < |rows| && rows[i].exitTime.None? && rows[j].exitTime.None? ==>
          rows[i].slotId != rows[j].slotId)
  }

  /** Exit as it is evidently meant: a plate whose last row already has an
      exit time is not parked, and nothing is released. */
  function ExitChecked(d: Desk, typed: string, now: string): (r: (ExitOutcome, Desk))
    ensures r.0 == NotParked <==> (!AllSpaces(typed) &&
      LastIndexOf(d.journal, Trim(typed)).Some? &&
      LastRowOf(d.journal, Trim(typed)).exitTime.Some?)
    ensures r.0 == NotParked ==> r.1 == d
    ensures r.0 != NotParked ==> r == Exit(d, typed, now)
  {
    var plate := Trim(typed);
    if plate != [] && LastIndexOf(d.journal, plate).Some? &&
       LastRowOf(d.journal, plate).exitTime.Some?
    then (NotParked, d)
    else Exit(d, typed, now)
  }

  /** Entry keeps the desk consistent: it takes a free slot, which no open
      row holds. */
  lemma ScanEntryKeepsConsistent(d: Desk, decoded: string, now: string)
    requires DeskConsistent(d)
    ensures DeskConsistent(ScanEntry(d, decoded, now).1)
  {
    var r := ScanEntry(d, decoded, now);
    if r.0.Entered? {
      var rows := d.journal;
      var rows' := r.1.journal;
      assert forall i :: 0 <= i < |rows| ==> rows'[i] == rows[i];
      assert forall i :: 0 <= i < |rows| && rows[i].exitTime.None? ==> rows[i].slotId != r.0.slotId;
    }
  }

  /** Freeing the slot of an open row of `plate` and closing that plate's
      open rows keeps the desk consistent. */
  lemma {:induction false} ReleaseOpenRowKeepsConsistent(d: Desk, plate: string, k: int, now: string)
    requires DeskConsistent(d)
    requires 0 <= k < |d.journal| && IsOpenFor(d.journal[k], plate)
    ensures DeskConsistent(Desk(Slots.ReleaseSlot(d.slots, d.journal[k].slotId).slots,
                                LogExit(d.journal, plate, now)))
  {
    var rows := d.journal;
    var rows' := LogExit(rows, plate, now);
    var slots' := Slots.ReleaseSlot(d.slots, rows[k].slotId).slots;
    forall i | 0 <= i < |rows'| && rows'[i].exitTime.None?
      ensures rows'[i].slotId in slots' && !slots'[rows'[i].slotId]
    {
      OpenAfterExit(rows, plate, now, i);
      assert i != k;
    }
    forall i, j | 0 <= i < j < |rows'| && rows'[i].exitTime.None? && rows'[j].exitTime.None?
      ensures rows'[i].slotId != rows'[j].slotId
    {
      OpenAfterExit(rows, plate, now, i);
      OpenAfterExit(rows, plate, now, j);
    }
  }

  /** The corrected exit keeps the desk consistent. */
  lemma ExitCheckedKeepsConsistent(d: Desk, typed: string, now: string)
    requires DeskConsistent(d) && Readable(d.journal)
    ensures DeskConsistent(ExitChecked(d, typed, now).1)
  {
    if ExitChecked(d, typed, now).0.Exited? {
      ExitCheckedFrees(d, typed, now);
    }
  }

  lemma {:induction false} ExitCheckedFrees(d: Desk, typed: string, now: string)
    requires DeskConsistent(d) && Readable(d.journal)
    requires ExitChecked(d, typed, now).0.Exited?
    ensures DeskConsistent(ExitChecked(d, typed, now).1)
  {
    var r := ExitChecked(d, typed, now);
    var plate := Trim(typed);
    ExitUsesLastRow(d, typed, now);
    var e := LastRowOf(d.journal, plate);
    var k := LastIndexOf(d.journal, plate).value;
    assert IsOpenFor(d.journal[k], plate);
    assert r.1 == Desk(Slots.ReleaseSlot(d.slots, e.slotId).slots, LogExit(d.journal, plate, now));
    ReleaseOpenRowKeepsConsistent(d, plate, k, now);
  }

  /** As written, exit frees the slot of a plate's last row even when that
      row has already exited: if another vehicle has since been parked in
      the slot, the slot is marked available under it. */
  lemma {:induction false} ExitFreesTakenSlot(d: Desk, typed: string, now: string, j: int)
    requires DeskConsistent(d) && Readable(d.journal)
    requires !AllSpaces(typed)
    requires LastIndexOf(d.journal, Trim(typed)).Some?
    requires LastRowOf(d.journal, Trim(typed)).exitTime.Some?
    requires 0 <= j < |d.journal| && d.journal[j].exitTime.None? && d.journal[j].plate != Trim(typed)
    requires d.journal[j].slotId == LastRowOf(d.journal, Trim(typed)).slotId
    ensures Exit(d, typed, now).0 == Exited(d.journal[j].slotId)
    ensures !DeskConsistent(Exit(d, typed, now).1)
  {
    var plate := Trim(typed);
    ExitUsesLastRow(d, typed, now);
    var r := Exit(d, typed, now);
    assert r.1.journal[j] == d.journal[j];
  }

  /** When the plate's last row is still open, the corrected exit frees
      that row's slot and closes the plate's open rows. */
  lemma ExitOfOpenLastRow(d: Desk, typed: string, now: string)
    requires Readable(d.journal) && !AllSpaces(typed)
    requires LastIndexOf(d.journal, Trim(typed)).Some?
    requires LastRowOf(d.journal, Trim(typed)).exitTime.None?
    requires LastRowOf(d.journal, Trim(typed)).slotId in d.slots
    ensures var slot := LastRowOf(d.journal, Trim(typed)).slotId;
      ExitChecked(d, typed, now) ==
        (Exited(slot), Desk(Slots.ReleaseSlot(d.slots, slot).slots, LogExit(d.journal, Trim(typed), now)))
  {
    ExitUsesLastRow(d, typed, now);
  }

  /** Entry then exit of the same plate at the desk releases the slot the
      entry took, restores the slot table, and leaves the plate with no
      open row. */
  lemma {:induction false} DeskEntryThenExit(d: Desk, plate: string, now: string, later: string)
    requires Readable(d.journal)
    requires forall id :: id in d.slots ==> IsInt32(id) && id != -1
    requires Trimmed(plate) && plate != [] && ',' !in now
    requires Slots.AvailableSet(d.slots) != {}
    ensures var e := ScanEntry(d, plate, now);
      var x := ExitChecked(e.1, plate, later);
      && e.0.Entered? && x.0 == Exited(e.0.slotId)
      && x.1.slots == d.slots
      && forall i :: 0 <= i < |x.1.journal| ==> !IsOpenFor(x.1.journal[i], plate)
  {
    var e := ScanEntry(d, plate, now);
    var slot := e.0.slotId;
    var n := |d.journal|;
    var rows1 := LogEntry(d.journal, plate, slot, now);
    assert e.1.journal == rows1;
    assert rows1 == d.journal + [Entry(plate, slot, now, None)];
    assert Trim(plate) == plate;
    assert !AllSpaces(plate) by {
      assert !IsSpace(plate[0]);
    }
    assert Readable(rows1) by {
      assert forall i :: 0 <= i < n ==> rows1[i] == d.journal[i];
    }
    assert rows1[n].plate == plate;
    assert LastRowOf(rows1, plate) == rows1[n] by {
      RowsOfAppend(d.journal, rows1[n], plate);
    }
    Slots.SameTable(e.1.slots, d.slots[slot := false]);
    ExitOfOpenLastRow(e.1, plate, later);
    Slots.BookThenReleaseRestores(d.slots, slot);
  }
}
