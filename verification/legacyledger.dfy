/** The `transactions` table of the desktop-era data layer
    (src/model/TransactionDAO.java): `plateNumber, slotId, entryTime,
    exitTime`, with the times as the text `LocalDateTime.toString()` wrote.
    Rows are kept in insertion order, the order an unordered `SELECT` scans
    them in. Plates are stored and matched exactly as given. */
module LegacyLedger {
  import opened Base
  import opened JavaText

  datatype Entry = Entry(plate: string, slotId: int, entryTime: string, exitTime: Option<string>)

  /** A row of `plate` whose exit time is still `NULL`. */
  predicate IsOpenFor(e: Entry, plate: string) {
    e.plate == plate && e.exitTime.None?
  }

  /** `logEntry(plate, slotId)`: one more row, with the plate as given, the
      slot, the entry time and no exit time; earlier rows are untouched. */
  function LogEntry(rows: seq<Entry>, plate: string, slotId: int, now: string): (r: seq<Entry>)
    ensures |r| == |rows| + 1 && r[..|rows|] == rows
    ensures IsOpenFor(r[|rows|], plate) && r[|rows|].slotId == slotId && r[|rows|].entryTime == now
  {
    rows + [Entry(plate, slotId, now, None)]
  }

  /** `logExit(plate)`: `UPDATE ... SET exitTime=? WHERE plateNumber=? AND
      exitTime IS NULL`. Every open row of exactly that plate gets the exit
      time; other plates' rows and closed rows are left alone. */
  function LogExit(rows: seq<Entry>, plate: string, now: string): (r: seq<Entry>)
    ensures |r| == |rows|
    ensures forall i :: 0 <= i < |rows| && !IsOpenFor(rows[i], plate) ==> r[i] == rows[i]
    ensures forall i :: 0 <= i < |rows| && IsOpenFor(rows[i], plate) ==>
      r[i] == rows[i].(exitTime := Some(now))
    ensures forall i :: 0 <= i < |r| ==> !IsOpenFor(r[i], plate)
  {
    seq(|rows|, i requires 0 <= i < |rows| =>
      if IsOpenFor(rows[i], plate) then rows[i].(exitTime := Some(now)) else rows[i])
  }

  /** A row still open after an exit was not touched by it, and belongs to
      another plate. */
  lemma OpenAfterExit(rows: seq<Entry>, plate: string, now: string, i: int)
    requires 0 <= i < |rows| && LogExit(rows, plate, now)[i].exitTime.None?
    ensures LogExit(rows, plate, now)[i] == rows[i] && rows[i].plate != plate
  {
  }

  /** A second exit of the same plate finds nothing left to close. */
  lemma LogExitIdempotent(rows: seq<Entry>, plate: string, now: string, later: string)
    ensures LogExit(LogExit(rows, plate, now), plate, later) == LogExit(rows, plate, now)
  {
  }

  /** Exits of two different plates touch disjoint rows, so their order does
      not matter. */
  lemma LogExitCommutes(rows: seq<Entry>, p: string, q: string, now: string, later: string)
    requires p != q
    ensures LogExit(LogExit(rows, p, now), q, later) == LogExit(LogExit(rows, q, later), p, now)
  {
  }

  /** The text of a missing exit time, as `String` concatenation renders
      `null`. */
  function ExitText(e: Entry): string {
    match e.exitTime
    case None => "null"
    case Some(x) => x
  }

  /** One history line: `Slot: <s>, Entry: <e>, Exit: <x>`. */
  function Line(e: Entry): (line: string)
  {
    "Slot: " + IntToString(e.slotId) + ", Entry: " + e.entryTime + ", Exit: " + ExitText(e)
  }

  /** The rows of exactly `plate`, in table order. */
  function {:induction false} RowsOf(rows: seq<Entry>, plate: string): (r: seq<Entry>)
    ensures |r| <= |rows|
    ensures forall k :: 0 <= k < |r| ==> r[k].plate == plate
    ensures r == [] <==> forall i :: 0 <= i < |rows| ==> rows[i].plate != plate
    decreases |rows|
  {
    if rows == [] then []
    else
      var rest := RowsOf(rows[1..], plate);
      assert forall i :: 1 <= i < |rows| ==> rows[i] == rows[1..][i - 1];
      if rows[0].plate == plate then [rows[0]] + rest else rest
  }

  /** The history line of each row, in order. */
  function {:induction false} Lines(r: seq<Entry>): (h: seq<string>)
    ensures |h| == |r|
    ensures forall k :: 0 <= k < |h| ==> h[k] == Line(r[k])
    decreases |r|
  {
    if r == [] then [] else [Line(r[0])] + Lines(r[1..])
  }

  /** `getHistory(plate)`: one line per row of exactly that plate, in table
      order; no case or whitespace normalisation. */
  function GetHistory(rows: seq<Entry>, plate: string): (h: seq<string>)
    ensures |h| == |RowsOf(rows, plate)|
    ensures forall k :: 0 <= k < |h| ==> h[k] == Line(RowsOf(rows, plate)[k])
    ensures h == [] <==> forall i :: 0 <= i < |rows| ==> rows[i].plate != plate
  {
    Lines(RowsOf(rows, plate))
  }

  lemma {:induction false} RowsOfAppend(rows: seq<Entry>, e: Entry, plate: string)
    ensures RowsOf(rows + [e], plate) == RowsOf(rows, plate) + (if e.plate == plate then [e] else [])
    decreases |rows|
  {
    if rows == [] {
      assert RowsOf([e], plate) == (if e.plate == plate then [e] else []) by {
        assert [e][1..] == [];
      }
    } else {
      assert (rows + [e])[1..] == rows[1..] + [e];
      RowsOfAppend(rows[1..], e, plate);
    }
  }

  /** The index of the last row of `plate`, `None` when it has none. */
  function {:induction false} LastIndexOf(rows: seq<Entry>, plate: string): (r: Option<nat>)
    ensures r.None? <==> forall i :: 0 <= i < |rows| ==> rows[i].plate != plate
    ensures r.Some? ==> r.value < |rows| && rows[r.value].plate == plate
    ensures r.Some? ==> forall i :: r.value < i < |rows| ==> rows[i].plate != plate
    decreases |rows|
  {
    if rows == [] then None
    else
      var n := |rows| - 1;
      if rows[n].plate == plate then Some(n)
      else
        var prev := LastIndexOf(rows[..n], plate);
        assert forall i :: 0 <= i < n ==> rows[..n][i] == rows[i];
        prev
  }

  /** The last of a plate's rows is the row `LastIndexOf` finds. */
  lemma {:induction false} RowsOfEndsWithLastRow(rows: seq<Entry>, plate: string)
    requires LastIndexOf(rows, plate).Some?
    ensures var r := RowsOf(rows, plate);
      |r| > 0 && r[|r| - 1] == rows[LastIndexOf(rows, plate).value]
    decreases |rows|
  {
    var n := |rows| - 1;
    assert rows == rows[..n] + [rows[n]];
    RowsOfAppend(rows[..n], rows[n], plate);
    if rows[n].plate != plate {
      assert LastIndexOf(rows, plate) == LastIndexOf(rows[..n], plate);
      RowsOfEndsWithLastRow(rows[..n], plate);
    }
  }

  /** The last line of a plate's history is the line of its last row. */
  lemma HistoryEndsWithLastRow(rows: seq<Entry>, plate: string)
    requires LastIndexOf(rows, plate).Some?
    ensures var h := GetHistory(rows, plate);
      |h| > 0 && h[|h| - 1] == Line(rows[LastIndexOf(rows, plate).value])
  {
    RowsOfEndsWithLastRow(rows, plate);
    var h := GetHistory(rows, plate);
    var r := RowsOf(rows, plate);
    assert h[|h| - 1] == Line(r[|r| - 1]);
  }

  /** An entry adds exactly one line, at the end, to its own plate's history
      and none to any other plate's. */
  lemma EntryExtendsHistory(rows: seq<Entry>, plate: string, slotId: int, now: string, q: string)
    ensures var h := GetHistory(LogEntry(rows, plate, slotId, now), q);
      && (q == plate ==> h == GetHistory(rows, q) + [Line(Entry(plate, slotId, now, None))])
      && (q != plate ==> h == GetHistory(rows, q))
  {
    RowsOfAppend(rows, Entry(plate, slotId, now, None), q);
  }
}
