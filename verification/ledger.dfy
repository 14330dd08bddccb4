/** The `transactions` table of the web-era data layer
    (org.parking.model.TransactionDAO). Rows are kept in id order, which is
    also insertion order. The model chooses whole-minute times on one
    clock; the table stores `LocalDateTime` text with seconds, which
    `ChronoUnit.MINUTES.between` truncates, and those seconds are not
    modelled. */
module Ledger {
  import opened Base
  import opened JavaText
  import opened Tariff

  /** The `payment_status` column. */
  datatype Payment = Pending | Completed | Cancelled

  /** One row: `id, plateNumber, slotId, entryTime, exitTime,
      duration_minutes, cost, payment_status`. */
  datatype Txn = Txn(id: int, plate: string, slotId: int, entry: int,
                     exit: Option<int>, duration: Option<int>, cost: Option<int>,
                     payment: Payment)

  /** The rows in id order, and the next AUTOINCREMENT id. */
  datatype TxnTable = TxnTable(rows: seq<Txn>, nextId: int)

  /** The result of an update that may find no row to change. */
  datatype Change = Change(ok: bool, table: TxnTable)

  /** Ids increase along the table and stay below the next id. */
  predicate WellFormed(t: TxnTable) {
    && (forall i, j :: 0 <= i < j < |t.rows| ==> t.rows[i].id < t.rows[j].id)
    && (forall i :: 0 <= i < |t.rows| ==> t.rows[i].id < t.nextId)
  }

  /** A session of `key` that has not exited. */
  predicate IsOpenOf(x: Txn, key: string) {
    x.plate == key && x.exit.None?
  }

  /** `plateNumber.toUpperCase().trim()`: the form plates are stored and
      looked up in. */
  function NormalizePlate(p: string): (r: string)
    ensures Trimmed(r) && NoLowerAscii(r)
    ensures |r| <= |p|
    ensures Trimmed(p) && NoLowerAscii(p) ==> r == p
  {
    TrimNoLower(ToUpper(p));
    if Trimmed(p) && NoLowerAscii(p) then ToUpperNoLower(p); Trim(ToUpper(p))
    else Trim(ToUpper(p))
  }

  /** The normal form is the plate's trimmed middle, upper-cased:
      upper-casing before or after `trim` gives the same text. */
  lemma NormalizePlateContent(p: string)
    ensures NormalizePlate(p) == ToUpper(Trim(p))
  {
    TrimUpperCommute(p);
  }

  /** Normalising twice is normalising once. */
  lemma NormalizeIdempotent(p: string)
    ensures NormalizePlate(NormalizePlate(p)) == NormalizePlate(p)
  {
  }

  /** `logEntry(plate, slotId)`: appends one open, pending session with the
      normalised plate and the next id; earlier rows are untouched. */
  function LogEntry(t: TxnTable, plate: string, slotId: int, now: int): (t': TxnTable)
    ensures |t'.rows| == |t.rows| + 1 && t'.rows[..|t.rows|] == t.rows
    ensures t'.nextId == t.nextId + 1
    ensures var x := t'.rows[|t.rows|];
      && x.id == t.nextId && x.plate == NormalizePlate(plate) && x.slotId == slotId
      && x.entry == now && x.exit.None? && x.duration.None? && x.cost.None?
      && x.payment == Pending
    ensures WellFormed(t) ==> WellFormed(t')
  {
    TxnTable(t.rows + [Txn(t.nextId, NormalizePlate(plate), slotId, now, None, None, None, Pending)],
             t.nextId + 1)
  }

  /** The open sessions of `key` among the first `n` rows. */
  function {:induction false} CountOpenBelow(rows: seq<Txn>, key: string, n: nat): (c: nat)
    requires n <= |rows|
    ensures c <= n
    ensures c > 0 <==> exists i :: 0 <= i < n && IsOpenOf(rows[i], key)
    decreases n
  {
    if n == 0 then 0
    else CountOpenBelow(rows, key, n - 1) + (if IsOpenOf(rows[n - 1], key) then 1 else 0)
  }

  /** `SELECT COUNT(*) ... WHERE plateNumber = ? AND exitTime IS NULL`. */
  function CountOpen(rows: seq<Txn>, key: string): (n: nat)
    ensures n <= |rows|
    ensures n > 0 <==> exists i :: 0 <= i < |rows| && IsOpenOf(rows[i], key)
  {
    CountOpenBelow(rows, key, |rows|)
  }

  /** `isVehicleCurrentlyParked(plate)`: some session of the normalised plate
      has no exit time. */
  function IsVehicleCurrentlyParked(t: TxnTable, plate: string): (r: bool)
    ensures r <==> exists i :: 0 <= i < |t.rows| && IsOpenOf(t.rows[i], NormalizePlate(plate))
  {
    CountOpen(t.rows, NormalizePlate(plate)) > 0
  }

  /** A vehicle whose entry was just logged is parked. */
  lemma EntryThenParked(t: TxnTable, plate: string, slotId: int, now: int)
    ensures IsVehicleCurrentlyParked(LogEntry(t, plate, slotId, now), plate)
  {
    var t' := LogEntry(t, plate, slotId, now);
    assert IsOpenOf(t'.rows[|t.rows|], NormalizePlate(plate));
  }

  /** Replacing one row changes the open count of `key` among the first
      `n` rows by what that row contributed before and after. */
  lemma {:induction false} CountBelowUpdate(rows: seq<Txn>, k: int, y: Txn, key: string, n: nat)
    requires 0 <= k < |rows| && n <= |rows|
    ensures CountOpenBelow(rows[k := y], key, n) + (if k < n && IsOpenOf(rows[k], key) then 1 else 0)
         == CountOpenBelow(rows, key, n) + (if k < n && IsOpenOf(y, key) then 1 else 0)
    decreases n
  {
    if n > 0 {
      CountBelowUpdate(rows, k, y, key, n - 1);
    }
  }

  /** Replacing one row changes the open count of `key` by what that row
      contributed before and after. */
  lemma CountOpenUpdate(rows: seq<Txn>, k: int, y: Txn, key: string)
    requires 0 <= k < |rows|
    ensures CountOpen(rows[k := y], key) + (if IsOpenOf(rows[k], key) then 1 else 0)
         == CountOpen(rows, key) + (if IsOpenOf(y, key) then 1 else 0)
  {
    CountBelowUpdate(rows, k, y, key, |rows|);
  }

  /** `... ORDER BY entryTime DESC LIMIT 1` over the open sessions of `key`:
      the index of one with the latest entry time (the later row on a tie),
      or `None` when there is none. */
  function {:induction false} LatestOpen(rows: seq<Txn>, key: string): (r: Option<nat>)
    ensures r.None? <==> forall i :: 0 <= i < |rows| ==> !IsOpenOf(rows[i], key)
    ensures r.Some? ==> r.value < |rows| && IsOpenOf(rows[r.value], key)
    ensures r.Some? ==> forall i :: 0 <= i < |rows| && IsOpenOf(rows[i], key) ==>
      rows[i].entry <= rows[r.value].entry
    decreases |rows|
  {
    if rows == [] then None
    else
      var n := |rows| - 1;
      var prev := LatestOpen(rows[..n], key);
      assert forall i :: 0 <= i < n ==> rows[..n][i] == rows[i];
      if IsOpenOf(rows[n], key) && (prev.None? || rows[prev.value].entry <= rows[n].entry) then
        Some(n)
      else
        prev
  }

  /** The exit details `logExit` writes: exit time, whole minutes stayed,
      the tariff for them, and status completed. */
  function CloseWithTariff(x: Txn, now: int): (y: Txn)
    ensures y.id == x.id && y.plate == x.plate && y.slotId == x.slotId && y.entry == x.entry
    ensures y.exit == Some(now) && y.duration == Some(now - x.entry) && y.payment == Completed
    ensures y.cost == Some(CalculateCost(now - x.entry))
    ensures y.cost.value >= RATE_PER_HOUR && y.cost.value % RATE_PER_HOUR == 0
  {
    x.(exit := Some(now), duration := Some(now - x.entry),
       cost := Some(CalculateCost(now - x.entry)), payment := Completed)
  }

  /** `logExit(plate)`: closes the latest open session of the normalised
      plate, charging the tariff; false, with nothing changed, when the
      vehicle is not parked. */
  function LogExit(t: TxnTable, plate: string, now: int): (c: Change)
    ensures c.ok <==> IsVehicleCurrentlyParked(t, plate)
    ensures !c.ok ==> c.table == t
    ensures c.ok ==> c.table.nextId == t.nextId && |c.table.rows| == |t.rows|
    ensures c.ok ==> var k := LatestOpen(t.rows, NormalizePlate(plate)).value;
      && c.table.rows[k] == CloseWithTariff(t.rows[k], now)
      && (forall i :: 0 <= i < |t.rows| && i != k ==> c.table.rows[i] == t.rows[i])
      && (forall i :: 0 <= i < |t.rows| && IsOpenOf(t.rows[i], NormalizePlate(plate)) ==>
            t.rows[i].entry <= t.rows[k].entry)
  {
    var key := NormalizePlate(plate);
    match LatestOpen(t.rows, key)
    case None => Change(false, t)
    case Some(k) => Change(true, t.(rows := t.rows[k := CloseWithTariff(t.rows[k], now)]))
  }

  /** An exit closes exactly one session: the plate's open count drops by
      one, and ids are untouched. */
  lemma LogExitClosesOne(t: TxnTable, plate: string, now: int)
    requires IsVehicleCurrentlyParked(t, plate)
    ensures var t' := LogExit(t, plate, now).table;
      CountOpen(t'.rows, NormalizePlate(plate)) + 1 == CountOpen(t.rows, NormalizePlate(plate))
  {
    var key := NormalizePlate(plate);
    var c := LogExit(t, plate, now);
    var k := LatestOpen(t.rows, key).value;
    var y := CloseWithTariff(t.rows[k], now);
    assert c.table.rows == t.rows[k := y];
    CountOpenUpdate(t.rows, k, y, key);
    assert IsOpenOf(t.rows[k], key) && !IsOpenOf(y, key);
  }

  /** An exit keeps every id, so the table stays well formed. */
  lemma LogExitKeepsWellFormed(t: TxnTable, plate: string, now: int)
    requires WellFormed(t)
    ensures WellFormed(LogExit(t, plate, now).table)
  {
    var t' := LogExit(t, plate, now).table;
    assert forall i :: 0 <= i < |t.rows| ==> t'.rows[i].id == t.rows[i].id;
  }

  /** An entry followed by an exit closes the session just opened when the
      vehicle was not parked before. */
  lemma EntryThenExit(t: TxnTable, plate: string, slotId: int, now: int, later: int)
    requires !IsVehicleCurrentlyParked(t, plate)
    ensures var t1 := LogEntry(t, plate, slotId, now);
      var c := LogExit(t1, plate, later);
      && c.ok
      && c.table.rows[|t.rows|] == CloseWithTariff(t1.rows[|t.rows|], later)
      && c.table.rows[..|t.rows|] == t.rows
      && !IsVehicleCurrentlyParked(c.table, plate)
  {
    var key := NormalizePlate(plate);
    var t1 := LogEntry(t, plate, slotId, now);
    EntryThenParked(t, plate, slotId, now);
    var k := LatestOpen(t1.rows, key).value;
    assert forall i :: 0 <= i < |t.rows| ==> t1.rows[i] == t.rows[i] && !IsOpenOf(t1.rows[i], key);
    assert k == |t.rows|;
    var c := LogExit(t1, plate, later);
    assert c.table.rows[..|t.rows|] == t.rows by {
      forall i | 0 <= i < |t.rows|
        ensures c.table.rows[i] == t.rows[i]
      {
        assert t1.rows[i] == t.rows[i];
      }
    }
    assert CountOpen(t1.rows, key) == 1 by {
      CountOpenAppend(t.rows, t1.rows[|t.rows|], key);
      assert t1.rows == t.rows + [t1.rows[|t.rows|]];
    }
    LogExitClosesOne(t1, plate, later);
  }

  /** Rows appended after the first `n` do not change their count. */
  lemma {:induction false} CountBelowAppend(rows: seq<Txn>, x: Txn, key: string, n: nat)
    requires n <= |rows|
    ensures CountOpenBelow(rows + [x], key, n) == CountOpenBelow(rows, key, n)
    decreases n
  {
    if n > 0 {
      CountBelowAppend(rows, x, key, n - 1);
      assert (rows + [x])[n - 1] == rows[n - 1];
    }
  }

  /** Counting over an appended row. */
  lemma CountOpenAppend(rows: seq<Txn>, x: Txn, key: string)
    ensures CountOpen(rows + [x], key) == CountOpen(rows, key) + (if IsOpenOf(x, key) then 1 else 0)
  {
    CountBelowAppend(rows, x, key, |rows|);
    assert (rows + [x])[|rows|] == x;
  }

  // ------------------------------------------------------------- history

  /** One `getHistory` row: the transaction with its duration text and cost. */
  datatype HistoryEntry = HistoryEntry(txn: Txn, duration: string, cost: int)

  /** "Ongoing" and 0 for an open session; otherwise the stay recomputed from
      the two times, formatted and charged. */
  function Describe(x: Txn): (e: HistoryEntry)
    ensures e.txn == x
    ensures x.exit.None? ==> e.duration == "Ongoing" && e.cost == 0
    ensures x.exit.Some? ==> ParseDuration(e.duration).Some? && e.cost >= RATE_PER_HOUR
    ensures x.exit.Some? ==> var (h, m) := ParseDuration(e.duration).value;
      h * 60 + m == x.exit.value - x.entry
    ensures x.exit.Some? ==> e.cost == CalculateCost(x.exit.value - x.entry)
  {
    match x.exit
    case None => HistoryEntry(x, "Ongoing", 0)
    case Some(out) =>
      var stay := out - x.entry;
      FormatDurationRoundTrip(stay);
      HistoryEntry(x, FormatDuration(stay), CalculateCost(stay))
  }

  /** Rows whose plate is exactly `plate`, in table order. */
  function {:induction false} OfPlate(rows: seq<Txn>, plate: string): (r: seq<Txn>)
    ensures forall x :: x in r <==> x in rows && x.plate == plate
    ensures |r| <= |rows|
    decreases |rows|
  {
    if rows == [] then []
    else
      var rest := OfPlate(rows[1..], plate);
      assert forall x :: x in rows <==> x == rows[0] || x in rows[1..];
      if rows[0].plate == plate then [rows[0]] + rest else rest
  }

  predicate NewestFirst(s: seq<Txn>) {
    forall i, j :: 0 <= i < j < |s| ==> s[i].entry >= s[j].entry
  }

  /** A row no older than the head of a newest-first list may go in front. */
  lemma ConsNewestFirst(h: Txn, s: seq<Txn>)
    requires NewestFirst(s)
    requires s == [] || h.entry >= s[0].entry
    ensures NewestFirst([h] + s)
  {
    forall i, j | 0 <= i < j < |[h] + s|
      ensures ([h] + s)[i].entry >= ([h] + s)[j].entry
    {
      if i == 0 {
        assert s[0].entry >= s[j - 1].entry || j == 1;
      }
    }
  }

  function {:induction false} InsertByEntry(x: Txn, s: seq<Txn>): (r: seq<Txn>)
    requires NewestFirst(s)
    ensures NewestFirst(r)
    ensures multiset(r) == multiset(s) + multiset{x}
    ensures |r| == |s| + 1
    ensures r[0] == x || (s != [] && r[0] == s[0])
    decreases |s|
  {
    if s == [] || x.entry >= s[0].entry then
      ConsNewestFirst(x, s);
      [x] + s
    else
      var rest := InsertByEntry(x, s[1..]);
      assert s == [s[0]] + s[1..];
      ConsNewestFirst(s[0], rest);
      [s[0]] + rest
  }

  /** `ORDER BY entryTime DESC` as an insertion sort. */
  function {:induction false} SortNewestFirst(s: seq<Txn>): (r: seq<Txn>)
    ensures NewestFirst(r)
    ensures multiset(r) == multiset(s)
    decreases |s|
  {
    if s == [] then []
    else
      assert s == [s[0]] + s[1..];
      InsertByEntry(s[0], SortNewestFirst(s[1..]))
  }

  function Txns(h: seq<HistoryEntry>): (r: seq<Txn>)
    ensures |r| == |h|
    ensures forall i :: 0 <= i < |h| ==> r[i] == h[i].txn
  {
    seq(|h|, i requires 0 <= i < |h| => h[i].txn)
  }

  /** Each row paired with its description, in the same order. */
  function DescribeAll(s: seq<Txn>): (h: seq<HistoryEntry>)
    ensures Txns(h) == s
    ensures forall i :: 0 <= i < |h| ==> h[i] == Describe(s[i])
  {
    seq(|s|, i requires 0 <= i < |s| => Describe(s[i]))
  }

  /** A reordering of a plate's rows holds only rows of that plate. */
  lemma PermutedRowsOfPlate(sorted: seq<Txn>, rows: seq<Txn>, plate: string)
    requires multiset(sorted) == multiset(OfPlate(rows, plate))
    ensures forall i :: 0 <= i < |sorted| ==> sorted[i] in rows && sorted[i].plate == plate
  {
    forall i | 0 <= i < |sorted|
      ensures sorted[i] in rows && sorted[i].plate == plate
    {
      assert sorted[i] in multiset(sorted);
    }
  }

  /** `getHistory(plate)`: every row whose plate equals the argument exactly
      (no normalisation), each once, newest entry first, each described as
      above. */
  function GetHistory(t: TxnTable, plate: string): (h: seq<HistoryEntry>)
    ensures multiset(Txns(h)) == multiset(OfPlate(t.rows, plate))
    ensures forall i :: 0 <= i < |h| ==> h[i].txn in t.rows && h[i].txn.plate == plate
    ensures forall i, j :: 0 <= i < j < |h| ==> h[i].txn.entry >= h[j].txn.entry
    ensures forall i :: 0 <= i < |h| ==> h[i] == Describe(h[i].txn)
  {
    var sorted := SortNewestFirst(OfPlate(t.rows, plate));
    PermutedRowsOfPlate(sorted, t.rows, plate);
    DescribeAll(sorted)
  }

  /** A plate that was never written in exactly that form has no history,
      even when its normalised form is parked. */
  lemma HistoryIsExactMatch(t: TxnTable, plate: string)
    requires forall i :: 0 <= i < |t.rows| ==> t.rows[i].plate != plate
    ensures GetHistory(t, plate) == []
  {
  }

  // ---------------------------------------------------------- statistics

  /** The integer parts of `getTodayStatistics`; the `double` revenue
      rounding and `peakOccupancy` are not modelled. */
  datatype Stats = Stats(vehicles: nat, completed: nat, totalMinutes: int,
                         revenue: int, averageDuration: string)

  /** Whether a row falls in the window: entered at or after `since`, or
      any row when there is no lower bound. */
  predicate InWindow(x: Txn, since: Option<int>) {
    since.None? || x.entry >= since.value
  }

  predicate Counted(x: Txn, since: Option<int>) {
    InWindow(x, since) && x.exit.Some?
  }

  /** Two multiples of the hourly rate add up to one. */
  lemma SumOfRateMultiples(v: int, c: int)
    requires v % RATE_PER_HOUR == 0 && c % RATE_PER_HOUR == 0
    ensures (v + c) % RATE_PER_HOUR == 0
  {
    assert v == RATE_PER_HOUR * (v / RATE_PER_HOUR);
    assert c == RATE_PER_HOUR * (c / RATE_PER_HOUR);
    assert v + c == RATE_PER_HOUR * (v / RATE_PER_HOUR + c / RATE_PER_HOUR);
  }

  /** The whole minutes a session stayed; 0 while it is still open. */
  function Stay(x: Txn): int {
    if x.exit.Some? then x.exit.value - x.entry else 0
  }

  /** The rows the statistics queries read: the completed sessions in the
      window, in table order. */
  function {:induction false} CompletedIn(rows: seq<Txn>, since: Option<int>): (r: seq<Txn>)
    ensures |r| <= |rows|
    decreases |rows|
  {
    if rows == [] then []
    else
      var rest := CompletedIn(rows[1..], since);
      if Counted(rows[0], since) then [rows[0]] + rest else rest
  }

  /** The queries read exactly the completed sessions in the window. */
  lemma {:induction false} CompletedInMembers(rows: seq<Txn>, since: Option<int>)
    ensures forall x :: x in CompletedIn(rows, since) <==> x in rows && Counted(x, since)
    decreases |rows|
  {
    if rows != [] {
      CompletedInMembers(rows[1..], since);
      assert forall x :: x in rows <==> x == rows[0] || x in rows[1..];
    }
  }

  /** The minutes of a list of sessions, added up. */
  function {:induction false} SumStays(xs: seq<Txn>): int
    decreases |xs|
  {
    if xs == [] then 0 else Stay(xs[0]) + SumStays(xs[1..])
  }

  /** The tariffs of a list of sessions, added up. */
  function {:induction false} SumCosts(xs: seq<Txn>): int
    decreases |xs|
  {
    if xs == [] then 0 else CalculateCost(Stay(xs[0])) + SumCosts(xs[1..])
  }

  /** A row appended to the table is read by the queries iff it counts. */
  lemma {:induction false} CompletedInAppend(rows: seq<Txn>, x: Txn, since: Option<int>)
    ensures CompletedIn(rows + [x], since) == CompletedIn(rows, since) + (if Counted(x, since) then [x] else [])
    decreases |rows|
  {
    if rows == [] {
      assert [x][1..] == [];
      assert rows + [x] == [x];
    } else {
      assert (rows + [x])[0] == rows[0];
      assert (rows + [x])[1..] == rows[1..] + [x];
      CompletedInAppend(rows[1..], x, since);
    }
  }

  /** The queries read the two halves of a table independently. */
  lemma {:induction false} CompletedInConcat(a: seq<Txn>, b: seq<Txn>, since: Option<int>)
    ensures CompletedIn(a + b, since) == CompletedIn(a, since) + CompletedIn(b, since)
    decreases |a|
  {
    if a == [] {
      assert a + b == b;
    } else {
      assert (a + b)[0] == a[0];
      assert (a + b)[1..] == a[1..] + b;
      CompletedInConcat(a[1..], b, since);
    }
  }

  /** Adding up over two lists of sessions. */
  lemma {:induction false} SumsConcat(xs: seq<Txn>, ys: seq<Txn>)
    ensures SumStays(xs + ys) == SumStays(xs) + SumStays(ys)
    ensures SumCosts(xs + ys) == SumCosts(xs) + SumCosts(ys)
    decreases |xs|
  {
    if xs == [] {
      assert xs + ys == ys;
    } else {
      assert (xs + ys)[0] == xs[0];
      assert (xs + ys)[1..] == xs[1..] + ys;
      SumsConcat(xs[1..], ys);
    }
  }

  /** Adding up over an appended session. */
  lemma {:induction false} SumsAppend(xs: seq<Txn>, x: Txn)
    ensures SumStays(xs + [x]) == SumStays(xs) + Stay(x)
    ensures SumCosts(xs + [x]) == SumCosts(xs) + CalculateCost(Stay(x))
    decreases |xs|
  {
    if xs == [] {
      assert [x][1..] == [];
      assert xs + [x] == [x];
    } else {
      assert (xs + [x])[0] == xs[0];
      assert (xs + [x])[1..] == xs[1..] + [x];
      SumsAppend(xs[1..], x);
    }
  }

  /** The tariffs of completed sessions add up to a multiple of the hourly
      rate, at least one rate per session. */
  lemma {:induction false} SumCostsBounds(xs: seq<Txn>)
    ensures SumCosts(xs) % RATE_PER_HOUR == 0 && SumCosts(xs) >= RATE_PER_HOUR * |xs|
    decreases |xs|
  {
    if xs != [] {
      SumCostsBounds(xs[1..]);
      SumOfRateMultiples(CalculateCost(Stay(xs[0])), SumCosts(xs[1..]));
    }
  }

  /** The row read last is read iff it counts. */
  lemma CompletedInStep(rows: seq<Txn>, since: Option<int>, n: nat)
    requires 0 < n <= |rows|
    ensures CompletedIn(rows[..n], since)
         == CompletedIn(rows[..n - 1], since) + (if Counted(rows[n - 1], since) then [rows[n - 1]] else [])
  {
    assert rows[..n] == rows[..n - 1] + [rows[n - 1]];
    CompletedInAppend(rows[..n - 1], rows[n - 1], since);
  }

  /** The `while (rs2.next())` loop over the first `n` rows: the count, the
      minutes and the tariffs of the completed sessions among them. */
  function {:induction false} TallyBelow(rows: seq<Txn>, since: Option<int>, n: nat): (r: (nat, int, int))
    requires n <= |rows|
    ensures var c := CompletedIn(rows[..n], since);
      r == (|c|, SumStays(c), SumCosts(c))
    decreases n
  {
    if n == 0 then
      assert rows[..0] == [];
      (0, 0, 0)
    else
      var (k, m, v) := TallyBelow(rows, since, n - 1);
      var x := rows[n - 1];
      CompletedInStep(rows, since, n);
      if Counted(x, since) then
        SumsAppend(CompletedIn(rows[..n - 1], since), x);
        (k + 1, m + Stay(x), v + CalculateCost(Stay(x)))
      else
        assert CompletedIn(rows[..n - 1], since) + [] == CompletedIn(rows[..n - 1], since);
        (k, m, v)
  }

  /** Completed sessions in the window: their count, summed minutes and
      summed tariff. */
  function Tally(rows: seq<Txn>, since: Option<int>): (r: (nat, int, int))
    ensures var c := CompletedIn(rows, since);
      r == (|c|, SumStays(c), SumCosts(c))
    ensures r.0 <= |rows|
    ensures r.0 > 0 <==> exists i :: 0 <= i < |rows| && Counted(rows[i], since)
    ensures r.2 % RATE_PER_HOUR == 0 && r.2 >= RATE_PER_HOUR * r.0
    ensures r.0 == 0 ==> r.1 == 0 && r.2 == 0
  {
    assert rows[..|rows|] == rows;
    var c := CompletedIn(rows, since);
    CompletedInMembers(rows, since);
    SumCostsBounds(c);
    assert |c| > 0 ==> c[0] in c;
    TallyBelow(rows, since, |rows|)
  }

  /** The queries read a table split around one row piece by piece. */
  lemma CompletedAround(pre: seq<Txn>, x: Txn, post: seq<Txn>, since: Option<int>)
    ensures CompletedIn(pre + [x] + post, since)
         == CompletedIn(pre, since) + (if Counted(x, since) then [x] else []) + CompletedIn(post, since)
  {
    CompletedInConcat(pre + [x], post, since);
    CompletedInAppend(pre, x, since);
  }

  /** Replacing a row that does not count by one that does adds that row
      to the ones the queries read: one more session, its stay and its
      tariff. */
  lemma CompletedUpdate(rows: seq<Txn>, k: int, y: Txn, since: Option<int>)
    requires 0 <= k < |rows| && !Counted(rows[k], since) && Counted(y, since)
    ensures var c := CompletedIn(rows, since);
      var c' := CompletedIn(rows[k := y], since);
      && |c'| == |c| + 1
      && SumStays(c') == SumStays(c) + Stay(y)
      && SumCosts(c') == SumCosts(c) + CalculateCost(Stay(y))
  {
    var pre := rows[..k];
    var post := rows[k + 1..];
    assert rows == pre + [rows[k]] + post;
    assert rows[k := y] == pre + [y] + post;
    CompletedAround(pre, rows[k], post, since);
    CompletedAround(pre, y, post, since);
    var cp := CompletedIn(pre, since);
    var cq := CompletedIn(post, since);
    assert cp + [] + cq == cp + cq;
    SumsConcat(cp, cq);
    SumsConcat(cp + [y], cq);
    SumsAppend(cp, y);
  }

  /** Distinct plates entered at or after `since`, collected one by one. */
  function {:induction false} PlatesSince(rows: seq<Txn>, since: int): (r: set<string>)
    ensures forall p :: p in r <==> exists i :: 0 <= i < |rows| && rows[i].entry >= since && rows[i].plate == p
    decreases |rows|
  {
    if rows == [] then {}
    else
      var rest := PlatesSince(rows[1..], since);
      assert forall i :: 1 <= i < |rows| ==> rows[i] == rows[1..][i - 1];
      assert forall i :: 0 <= i < |rows| - 1 ==> rows[1..][i] == rows[i + 1];
      if rows[0].entry >= since then rest + {rows[0].plate} else rest
  }

  /** `getTodayStatistics()` for the day starting at `today`. */
  function TodayStatistics(t: TxnTable, today: int): (s: Stats)
    ensures s.vehicles == |PlatesSince(t.rows, today)|
    ensures var c := CompletedIn(t.rows, Some(today));
      s.completed == |c| && s.totalMinutes == SumStays(c) && s.revenue == SumCosts(c)
    ensures s.completed <= |t.rows|
    ensures s.revenue % RATE_PER_HOUR == 0 && s.revenue >= RATE_PER_HOUR * s.completed
    ensures s.averageDuration == AverageDuration(s.totalMinutes, s.completed)
  {
    var (n, m, v) := Tally(t.rows, Some(today));
    Stats(|PlatesSince(t.rows, today)|, n, m, v, AverageDuration(m, n))
  }

  /** `getAnalyticsData()`'s `averageDuration`: the hours figure of the
      day's average. */
  function AnalyticsAverage(t: TxnTable, today: int): (r: Option<string>)
    ensures var s := TodayStatistics(t, today);
      var avg := if s.completed > 0 then Quot(s.totalMinutes, s.completed) else 0;
      r == Some(IntToString(Quot(avg, 60))) && ParseDecimal(r.value) == Some(Quot(avg, 60))
  {
    var s := TodayStatistics(t, today);
    AnalyticsHoursOfAverage(s.totalMinutes, s.completed);
    AnalyticsHours(s.averageDuration)
  }

  /** `getAnalyticsData()`'s `totalRevenue`: the tariff summed over every
      completed session; zero exactly when no session has completed. */
  function TotalRevenue(t: TxnTable): (r: int)
    ensures r == SumCosts(CompletedIn(t.rows, None))
    ensures r % RATE_PER_HOUR == 0
    ensures r == 0 <==> forall i :: 0 <= i < |t.rows| ==> t.rows[i].exit.None?
    ensures r >= RATE_PER_HOUR * Tally(t.rows, None).0
  {
    Tally(t.rows, None).2
  }

  /** The rows an exit leaves: the latest open session closed in place. */
  lemma LogExitRows(t: TxnTable, plate: string, now: int)
    requires IsVehicleCurrentlyParked(t, plate)
    ensures var k := LatestOpen(t.rows, NormalizePlate(plate)).value;
      LogExit(t, plate, now).table.rows == t.rows[k := CloseWithTariff(t.rows[k], now)]
  {
  }

  /** Rows that agree on plate and entry time hold the same plates. */
  lemma PlatesSinceSameEntries(rows: seq<Txn>, rows': seq<Txn>, since: int)
    requires |rows'| == |rows|
    requires forall i :: 0 <= i < |rows| ==> rows'[i].plate == rows[i].plate && rows'[i].entry == rows[i].entry
    ensures PlatesSince(rows', since) == PlatesSince(rows, since)
  {
    forall p | p in PlatesSince(rows, since)
      ensures p in PlatesSince(rows', since)
    {
      var i :| 0 <= i < |rows| && rows[i].entry >= since && rows[i].plate == p;
      assert rows'[i].entry >= since && rows'[i].plate == p;
    }
    forall p | p in PlatesSince(rows', since)
      ensures p in PlatesSince(rows, since)
    {
      var i :| 0 <= i < |rows'| && rows'[i].entry >= since && rows'[i].plate == p;
      assert rows[i].entry >= since && rows[i].plate == p;
    }
  }

  /** Closing a session that entered today counts it in the day's
      statistics: one more completed session, its stay added to the minutes
      and its tariff to the revenue, and the same number of vehicles. `k`
      names the session the exit closes. */
  lemma ExitAddsToStatistics(t: TxnTable, plate: string, now: int, today: int, k: nat)
    requires LatestOpen(t.rows, NormalizePlate(plate)) == Some(k)
    requires t.rows[k].entry >= today
    ensures var s := TodayStatistics(t, today);
      var s' := TodayStatistics(LogExit(t, plate, now).table, today);
      && s'.vehicles == s.vehicles
      && s'.completed == s.completed + 1
      && s'.totalMinutes == s.totalMinutes + (now - t.rows[k].entry)
      && s'.revenue == s.revenue + CalculateCost(now - t.rows[k].entry)
  {
    LogExitRows(t, plate, now);
    ExitKeepsPlates(t, plate, now, today);
    CloseCountsToday(t, LogExit(t, plate, now).table, k, now, today);
  }

  /** The day's statistics after closing row `k`, which entered today. */
  lemma CloseCountsToday(t: TxnTable, t': TxnTable, k: int, now: int, today: int)
    requires 0 <= k < |t.rows| && t.rows[k].exit.None? && t.rows[k].entry >= today
    requires t'.rows == t.rows[k := CloseWithTariff(t.rows[k], now)]
    ensures var s := TodayStatistics(t, today);
      var s' := TodayStatistics(t', today);
      && s'.completed == s.completed + 1
      && s'.totalMinutes == s.totalMinutes + (now - t.rows[k].entry)
      && s'.revenue == s.revenue + CalculateCost(now - t.rows[k].entry)
  {
    var c := CompletedIn(t.rows, Some(today));
    var c' := CompletedIn(t'.rows, Some(today));
    CloseAddsToWindow(t.rows, k, now, Some(today));
    assert |c'| == |c| + 1;
    assert SumStays(c') == SumStays(c) + (now - t.rows[k].entry);
    assert SumCosts(c') == SumCosts(c) + CalculateCost(now - t.rows[k].entry);
  }

  /** An exit keeps every row's plate and entry time, so the plates seen
      since any moment are the same. */
  lemma ExitKeepsPlates(t: TxnTable, plate: string, now: int, since: int)
    ensures PlatesSince(LogExit(t, plate, now).table.rows, since) == PlatesSince(t.rows, since)
  {
    if IsVehicleCurrentlyParked(t, plate) {
      var k := LatestOpen(t.rows, NormalizePlate(plate)).value;
      LogExitRows(t, plate, now);
      PlatesSinceSameEntries(t.rows, t.rows[k := CloseWithTariff(t.rows[k], now)], since);
    }
  }

  /** Closing an open row of the window in place, as an exit does, adds
      one session, its stay and its tariff to what the queries read. */
  lemma CloseAddsToWindow(rows: seq<Txn>, k: int, now: int, since: Option<int>)
    requires 0 <= k < |rows| && rows[k].exit.None? && InWindow(rows[k], since)
    ensures var c := CompletedIn(rows, since);
      var c' := CompletedIn(rows[k := CloseWithTariff(rows[k], now)], since);
      && |c'| == |c| + 1
      && SumStays(c') == SumStays(c) + (now - rows[k].entry)
      && SumCosts(c') == SumCosts(c) + CalculateCost(now - rows[k].entry)
  {
    var y := CloseWithTariff(rows[k], now);
    var d := now - rows[k].entry;
    assert Stay(y) == d;
    CompletedUpdate(rows, k, y, since);
  }

  /** Every exit adds its tariff to the all-time revenue. */
  lemma ExitAddsToRevenue(t: TxnTable, plate: string, now: int)
    requires IsVehicleCurrentlyParked(t, plate)
    ensures var x := t.rows[LatestOpen(t.rows, NormalizePlate(plate)).value];
      TotalRevenue(LogExit(t, plate, now).table) == TotalRevenue(t) + CalculateCost(now - x.entry)
  {
    var k := LatestOpen(t.rows, NormalizePlate(plate)).value;
    LogExitRows(t, plate, now);
    CloseAddsToWindow(t.rows, k, now, None);
  }

  /** An entry is an open session, so no query over completed sessions
      sees it: the day's completed count, minutes and revenue and the
      all-time revenue stay as they were. */
  lemma EntryKeepsTotals(t: TxnTable, plate: string, slotId: int, now: int, today: int)
    ensures var t' := LogEntry(t, plate, slotId, now);
      && TodayStatistics(t', today).completed == TodayStatistics(t, today).completed
      && TodayStatistics(t', today).totalMinutes == TodayStatistics(t, today).totalMinutes
      && TodayStatistics(t', today).revenue == TodayStatistics(t, today).revenue
      && TotalRevenue(t') == TotalRevenue(t)
  {
    var t' := LogEntry(t, plate, slotId, now);
    var x := t'.rows[|t.rows|];
    assert t'.rows == t.rows + [x];
    CompletedInAppend(t.rows, x, Some(today));
    CompletedInAppend(t.rows, x, None);
    assert CompletedIn(t.rows, Some(today)) + [] == CompletedIn(t.rows, Some(today));
    assert CompletedIn(t.rows, None) + [] == CompletedIn(t.rows, None);
  }
}
