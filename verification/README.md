# Vehicle parking system — a Dafny model of its core

This project models the behaviour of the parking system's back end and of a
few pieces of front-end logic, and proves properties about that model:

- **Slot table** (`Slots`). A map from slot id to "is available", with the
  desktop-era conditional updates `bookSlot`, `releaseSlot` and `addSlot`,
  and the available-slot listing.
- **Web-era transaction table** (`Ledger`). It covers `logEntry`,
  `isVehicleCurrentlyParked`, `logExit` with the tariff, `getHistory`, and
  the integer parts of the day statistics and of the analytics summary.
  Timestamps are whole minutes.
- **Tariff and duration text** (`Tariff`). `calculateCost` and
  `formatDuration`, and the re-parse of the "Hh Mm" text in the analytics.
- **Web controller** (`ParkingApi`) over the store of slots and
  transactions:
  - sync, start-up, slot listing and delete;
  - booking and release;
  - force-release, duplicate-session repair and reset.

  `StoreInvariant` and the start-up lemmas prove that every operation that
  changes the store keeps the two tables in agreement: every open session
  sits in an existing, occupied slot, and every occupied slot holds an open
  session.
- **Booking request constraints** (`Booking`). The `@NotBlank`, `@Pattern`,
  `@NotNull` and `@Positive` rules, plus the accessors.
- **First-generation web controller** (`LegacyApi`). Start-up, `addSlot`
  with `intValue()` (wrap-around for integral ids, truncation and
  saturation for fractional ones), `deleteSlot`, and a release that frees
  the slot of the plate's latest exited session. Its code names methods the
  desktop-era data layer it imports does not declare; the web-era data
  layer stands in for it (see Left out).
- **Desktop-era transaction journal** (`LegacyLedger`). Entry, an exit that
  closes every open row of the exact plate, and the
  `Slot: s, Entry: e, Exit: x` history lines.
- **Swing desk** (`ParkingDesk`). Generate (the QR file name), scan-entry
  (book the lowest available slot), and exit (parse the slot id back out of
  the last history line). This includes a corrected exit, described under
  Findings.
- **User registries.**
  - `Accounts`: hashed passwords, normalised user names, activity flag.
    bcrypt is a `Hasher` parameter.
  - `LegacyAccounts`: plaintext passwords, no normalisation.
- **Sign-up form** (`RegisterForm`). The password-strength meter (score,
  colour, label) and `validateForm`'s ordered checks.
- **Theme context** (`ThemeMode`). Initial mode from storage, toggle,
  setTheme and the persisted copy.
- **Page shell** (`AppShell`). Page, signed-in user, drawer and
  notification bar, with navigation, login, profile save, the drawer's
  open and close, and the notifications the child pages and the QR
  scanner raise.

`Base` holds `Option`, Java's truncating division and 32-bit wrap-around.
`JavaText` holds the string operations of the Java library that the code
relies on: `trim`, ASCII `toUpperCase`/`toLowerCase`, `replace`, `split`,
`startsWith`, `Integer.parseInt` on ASCII digits and integer printing.

Two timing sources become parameters:

- the clock (`now`, `later`);
- the system colour preference (`prefersDark`).

Hashing, the QR decoder's output and the server's login reply are also
parameters.

## Model

| member | source | states |
|---|---|---|
| Base.Quot | src/main/java/org/parking/model/TransactionDAO.java:207 | Java `long` division: the quotient truncated toward zero, with `|q*d| <= |a|` and the remainder smaller than the divisor |
| Base.Wrap32 | src/controller/ApiController.java:144-150 | `Number.intValue()` of an `Integer`, `Long` or `BigInteger` keeps the low 32 bits: the result is an `int` congruent to the input modulo 2^32, and an `int` is unchanged |
| Base.DoubleIntValue | src/controller/ApiController.java:144-150 | `Double.intValue()` gives the `int` nearest the value on zero's side: no further from zero than the value, and within 1 of it unless saturated at an end of the `int` range |
| Base.DoubleIntValueWhole | src/controller/ApiController.java:144-150 | a whole number in `int` range comes out as itself on both the integral and the fractional path |
| JavaText.Trim | src/main/java/org/parking/model/TransactionDAO.java:19 | `trim()` leaves text that neither starts nor ends with a char at or below U+0020, is empty exactly when every char is such a blank, and leaves trimmed text alone |
| JavaText.TrimIsMiddle | src/main/java/org/parking/model/TransactionDAO.java:19 | `trim()` keeps a contiguous run of the input's own chars, with only blanks before and after it |
| JavaText.TrimStartIsSuffix | src/main/java/org/parking/model/TransactionDAO.java:19 | dropping the leading blanks leaves a suffix of the input |
| JavaText.TrimEndIsPrefix | src/main/java/org/parking/model/TransactionDAO.java:19 | dropping the trailing blanks leaves a prefix of the input |
| JavaText.ToUpper | src/main/java/org/parking/model/TransactionDAO.java:19 | `toUpperCase()` on ASCII: same length, each lower-case letter becomes its capital (32 code points down), every other char is kept |
| JavaText.ToLower | src/main/java/org/parking/model/UserDAO.java:32 | `toLowerCase()` on ASCII: same length, each capital becomes its lower-case letter (32 code points up), every other char is kept |
| JavaText.TrimUpperCommute | src/main/java/org/parking/model/TransactionDAO.java:19 | upper-casing before or after `trim()` gives the same text, since case mapping never touches a blank |
| JavaText.TrimLowerCommute | src/main/java/org/parking/model/UserDAO.java:32 | lower-casing before or after `trim()` gives the same text |
| Slots.GetAvailableSlots | src/model/SlotDAO.java:8-20 | exactly the ids whose slot is available, each once, in ascending order |
| Slots.TotalIsAvailablePlusOccupied | src/main/java/org/parking/controller/ApiController.java:236-238 | the number of slots equals the available slots plus the occupied ones |
| Slots.GetSlotById | src/main/java/org/parking/controller/ApiController.java:271-276 | none exactly for a missing id; otherwise the stored availability |
| Slots.BookSlot | src/model/SlotDAO.java:22-30 | succeeds iff the slot exists and is available; afterwards it is occupied and no other slot changes; on failure nothing changes |
| Slots.ReleaseSlot | src/model/SlotDAO.java:32-40 | succeeds iff the slot exists; whatever it was, it is then available and no other slot changes; a missing slot leaves the table as it was |
| Slots.AddSlot | src/model/SlotDAO.java:42-50 | INSERT OR IGNORE: a new id is added as available, an existing slot keeps its availability, other slots are untouched |
| Slots.AddSlots | src/controller/ApiController.java:43-45 | adding a list of ids gives exactly the old ids plus the new ones; old slots keep their state, new ones are available |
| Slots.DeleteSlot | src/controller/ApiController.java:162-174 | deletes only an existing available slot, leaving every other slot as it was; otherwise nothing changes |
| Slots.ReleaseIdempotent | src/model/SlotDAO.java:32-40 | releasing twice leaves the same table as releasing once, and the second release reports whether the slot exists |
| Slots.AddIdempotent | src/model/SlotDAO.java:42-50 | adding the same id twice equals adding it once |
| Slots.BookThenReleaseRestores | src/model/SlotDAO.java:22-40 | booking an available slot and releasing it restores the original table |
| Slots.BookTwiceFails | src/model/SlotDAO.java:22-30 | a second booking of the same slot always fails |
| Tariff.BilledHours | src/main/java/org/parking/model/TransactionDAO.java:295 | the billed hours are at least 1 and are the least whole number of hours covering the stay |
| Tariff.CalculateCost | src/main/java/org/parking/model/TransactionDAO.java:293-297 | every cost is a positive multiple of 50; the billed hours cover the minutes, and none of them could be dropped |
| Tariff.CostMonotone | src/main/java/org/parking/model/TransactionDAO.java:293-297 | a longer stay never costs less |
| Tariff.MinimumChargeNeverApplies | src/main/java/org/parking/model/TransactionDAO.java:296 | the cost is always 50 times the billed hours, so the 25 minimum never takes effect |
| Tariff.FormatDurationRoundTrip | src/main/java/org/parking/model/TransactionDAO.java:287-291 | "Hh Mm" parses back to H and M with H*60+M equal to the minutes, and 0 <= M < 60 for a non-negative stay |
| Tariff.FormatDurationInjective | src/main/java/org/parking/model/TransactionDAO.java:287-291 | two different minute counts never print the same text |
| Tariff.AverageDuration | src/main/java/org/parking/model/TransactionDAO.java:206-207 | the text always parses; with completed sessions its hours and minutes give back the average truncated toward zero; with none it is "0h 0m", which reads as 0 hours 0 minutes |
| Tariff.AnalyticsHoursOfAverage | src/main/java/org/parking/model/TransactionDAO.java:233 | the analytics figure is the decimal text of the hours of the average, and parses back to that number |
| Tariff.AnalyticsHoursOfFormat | src/main/java/org/parking/model/TransactionDAO.java:233 | removing "h" and "m", trimming and splitting "Hh Mm" at blanks yields the hours text first |
| Tariff.ZeroDuration | src/main/java/org/parking/model/TransactionDAO.java:207 | the "0h 0m" shown without completed sessions is exactly the text of 0 minutes, and reads back as 0 hours 0 minutes |
| Tariff.AverageDurationBracket | src/main/java/org/parking/model/TransactionDAO.java:206-207 | the average the text encodes times the session count lies within one session count of the total minutes, on zero's side: truncation, not rounding |
| Booking.Violations | src/main/java/org/parking/dto/BookingRequest.java:9-15 | each message is raised exactly when its constraint fails: plate missing or empty after `trim()`, plate not matching `^[A-Z0-9]{2,10}$`, missing slot id, slot id not positive |
| Booking.ControlCharPlate | src/main/java/org/parking/dto/BookingRequest.java:9-11 | a plate of one control char below U+0020 is blank to `@NotBlank` and off-pattern too, so both plate messages are raised |
| Booking.ValidRequest | src/main/java/org/parking/dto/BookingRequest.java:9-15 | a valid request has a plate of 2 to 10 chars, all from A-Z and 0-9, and a positive slot id |
| Booking.ValidWhenWellFormed | src/main/java/org/parking/dto/BookingRequest.java:10-15 | conversely, every such plate with a positive slot id is valid |
| Booking.BadPlateCharRejected | src/main/java/org/parking/dto/BookingRequest.java:10 | one char outside A-Z and 0-9 (lower-case, blank, symbol) makes the plate fail the pattern |
| Booking.ValidPlateIsNormal | src/main/java/org/parking/dto/BookingRequest.java:10 | a valid plate is already upper-case and trimmed, so the ledger stores it unchanged |
| Booking.Make | src/main/java/org/parking/dto/BookingRequest.java:20-23 | the getters return exactly what the constructor was given |
| Booking.Empty | src/main/java/org/parking/dto/BookingRequest.java:18 | both fields are null, and exactly the two "required" messages are raised |
| Booking.SetPlate | src/main/java/org/parking/dto/BookingRequest.java:27 | the plate is replaced and the slot id kept |
| Booking.SetSlotId | src/main/java/org/parking/dto/BookingRequest.java:29 | the slot id is replaced and the plate kept |
| Ledger.NormalizePlate | src/main/java/org/parking/model/TransactionDAO.java:19 | the stored plate is trimmed, has no lower-case letter, is no longer than the input, and an already normal plate is unchanged |
| Ledger.NormalizePlateContent | src/main/java/org/parking/model/TransactionDAO.java:19 | the stored plate is the input's trimmed middle with its letters upper-cased |
| Ledger.NormalizeIdempotent | src/main/java/org/parking/model/TransactionDAO.java:19 | normalising twice is normalising once |
| Ledger.LogEntry | src/main/java/org/parking/model/TransactionDAO.java:13-27 | one row is appended with the next id, the normalised plate, the slot, the entry time, no exit and status pending; earlier rows and id order are kept |
| Ledger.CountOpen | src/main/java/org/parking/model/TransactionDAO.java:31-38 | the count of open sessions is positive iff some session of the key has no exit time |
| Ledger.IsVehicleCurrentlyParked | src/main/java/org/parking/model/TransactionDAO.java:29-44 | true iff some row of the normalised plate has no exit time |
| Ledger.EntryThenParked | src/main/java/org/parking/model/TransactionDAO.java:13-44 | right after an entry is logged, the vehicle is reported parked |
| Ledger.LatestOpen | src/main/java/org/parking/model/TransactionDAO.java:49-53 | none iff the plate has no open session; otherwise an open session of the plate whose entry time is at least that of every other open session of the plate |
| Ledger.CloseWithTariff | src/main/java/org/parking/model/TransactionDAO.java:60-72 | the closed row keeps id, plate, slot and entry, and gets the exit time, the minutes stayed, the tariff for the minutes stayed and status completed |
| Ledger.LogExit | src/main/java/org/parking/model/TransactionDAO.java:46-81 | succeeds iff the plate is parked; closes only the open session with the latest entry, leaves every other row alone, and changes nothing on failure |
| Ledger.LogExitClosesOne | src/main/java/org/parking/model/TransactionDAO.java:46-81 | an exit lowers the plate's open-session count by exactly one |
| Ledger.LogExitKeepsWellFormed | src/main/java/org/parking/model/TransactionDAO.java:66-74 | an exit keeps the ids increasing and below the next id |
| Ledger.EntryThenExit | src/main/java/org/parking/model/TransactionDAO.java:13-81 | for a plate not parked, entry then exit closes exactly the session just opened with the tariff, and the plate is no longer parked |
| Ledger.Describe | src/main/java/org/parking/model/TransactionDAO.java:99-116 | an open session reports "Ongoing" and cost 0; a closed one reports a duration text whose hours and minutes give back exit minus entry, and exactly the tariff for that stay |
| Ledger.OfPlate | src/main/java/org/parking/model/TransactionDAO.java:86-89 | the rows whose plate equals the argument exactly, with no normalisation |
| Ledger.SortNewestFirst | src/main/java/org/parking/model/TransactionDAO.java:87 | a permutation of its input, ordered by entry time, newest first |
| Ledger.GetHistory | src/main/java/org/parking/model/TransactionDAO.java:83-124 | exactly the rows of the exact plate, each once, newest entry first, each with its description |
| Ledger.HistoryIsExactMatch | src/main/java/org/parking/model/TransactionDAO.java:86-89 | a plate never stored in exactly that spelling has an empty history |
| Ledger.CompletedInMembers | src/main/java/org/parking/model/TransactionDAO.java:181-183 | the sessions the statistics queries read are exactly the rows of the table that entered in the window and have an exit |
| Ledger.CompletedInAppend | src/main/java/org/parking/model/TransactionDAO.java:181-183 | an appended row is read by the queries iff it has an exit and entered in the window |
| Ledger.CompletedInConcat | src/main/java/org/parking/model/TransactionDAO.java:181-183 | the queries read the two halves of a table independently |
| Ledger.SumsConcat | src/main/java/org/parking/model/TransactionDAO.java:191-198 | minutes and tariffs summed over two lists add up |
| Ledger.SumsAppend | src/main/java/org/parking/model/TransactionDAO.java:191-198 | one more session adds its minutes and its tariff to the sums |
| Ledger.SumCostsBounds | src/main/java/org/parking/model/TransactionDAO.java:196 | the summed tariffs are a multiple of 50, at least 50 per session |
| Ledger.CompletedInStep | src/main/java/org/parking/model/TransactionDAO.java:191-202 | each row the loop reads adds itself to the read sessions iff it counts |
| Ledger.TallyBelow | src/main/java/org/parking/model/TransactionDAO.java:187-202 | after the loop has read the first n rows, the count, minutes and revenue are those of the completed sessions among them |
| Ledger.Tally | src/main/java/org/parking/model/TransactionDAO.java:181-202 | the count, the summed minutes and the summed tariff are exactly those of the completed sessions in the window; the count is positive iff there is one; the revenue is a multiple of 50 and at least 50 per session |
| Ledger.CompletedAround | src/main/java/org/parking/model/TransactionDAO.java:181-202 | the queries read a table split around one row piece by piece |
| Ledger.CompletedUpdate | src/main/java/org/parking/model/TransactionDAO.java:181-202 | replacing a row that does not count with one that does adds one session, its minutes and its tariff |
| Ledger.CloseAddsToWindow | src/main/java/org/parking/model/TransactionDAO.java:181-202 | closing an open row of the window as `logExit` does adds one session, its stay and the tariff for that stay |
| Ledger.PlatesSince | src/main/java/org/parking/model/TransactionDAO.java:173-178 | exactly the plates with an entry at or after the start of the day |
| Ledger.TodayStatistics | src/main/java/org/parking/model/TransactionDAO.java:167-207 | vehicles = number of distinct plates entered today; completed, total minutes and revenue are the count, summed stays and summed tariffs of today's completed sessions; revenue a multiple of 50 covering every completed session; average text from the truncated average |
| Ledger.AnalyticsAverage | src/main/java/org/parking/model/TransactionDAO.java:231-233 | the average-duration figure is the decimal text of the whole hours of today's truncated average |
| Ledger.TotalRevenue | src/main/java/org/parking/model/TransactionDAO.java:236-253 | the tariff summed over every session with an exit; a multiple of 50, zero iff no session has exited, and at least 50 per completed session |
| Ledger.LogExitRows | src/main/java/org/parking/model/TransactionDAO.java:49-74 | an exit closes the plate's latest open row in place and leaves every other row |
| Ledger.PlatesSinceSameEntries | src/main/java/org/parking/model/TransactionDAO.java:173-178 | tables that agree on plates and entry times count the same plates |
| Ledger.ExitKeepsPlates | src/main/java/org/parking/model/TransactionDAO.java:66-74 | an exit changes no plate and no entry time, so the day's vehicle count is unchanged |
| Ledger.CloseCountsToday | src/main/java/org/parking/model/TransactionDAO.java:181-202 | closing a row that entered today raises the day's completed count by one, its minutes by the stay and its revenue by the tariff for the stay |
| Ledger.ExitAddsToStatistics | src/main/java/org/parking/model/TransactionDAO.java:167-207 | an exit of a session that entered today: same vehicles, one more completed session, the stay added to the minutes and its tariff to the revenue |
| Ledger.ExitAddsToRevenue | src/main/java/org/parking/model/TransactionDAO.java:236-253 | every exit adds the tariff for its stay to the all-time revenue |
| Ledger.EntryKeepsTotals | src/main/java/org/parking/model/TransactionDAO.java:181-183 | an entry leaves the day's completed count, minutes and revenue, and the all-time revenue, unchanged |
| LegacyLedger.LogEntry | src/model/TransactionDAO.java:9-19 | one open row appended with the plate exactly as given, the slot and the entry time; earlier rows kept |
| LegacyLedger.LogExit | src/model/TransactionDAO.java:21-30 | every open row of exactly that plate gets the exit time; other plates' rows and closed rows are unchanged; afterwards the plate has no open row |
| LegacyLedger.OpenAfterExit | src/model/TransactionDAO.java:23 | a row still open after an exit was not touched and belongs to another plate |
| LegacyLedger.LogExitIdempotent | src/model/TransactionDAO.java:21-30 | a second exit of the same plate changes nothing |
| LegacyLedger.LogExitCommutes | src/model/TransactionDAO.java:23 | exits of two different plates can be applied in either order |
| LegacyLedger.RowsOf | src/model/TransactionDAO.java:35-38 | only rows of exactly that plate, empty iff the plate has no row |
| LegacyLedger.Lines | src/model/TransactionDAO.java:38-41 | one formatted line per row, in order |
| LegacyLedger.GetHistory | src/model/TransactionDAO.java:32-46 | one "Slot: s, Entry: e, Exit: x" line per row of the exact plate in table order, empty iff the plate has no row |
| LegacyLedger.HistoryEndsWithLastRow | src/model/TransactionDAO.java:32-46 | the last history line is the line of the plate's last row in the table |
| LegacyLedger.EntryExtendsHistory | src/model/TransactionDAO.java:9-46 | an entry appends exactly one line to its own plate's history and none to any other plate's |
| ParkingApi.MarkOccupied | src/main/java/org/parking/controller/ApiController.java:100-104 | same slot ids; a slot is available afterwards iff it was and no open session names it |
| ParkingApi.SyncSlotAvailability | src/main/java/org/parking/controller/ApiController.java:92-108 | same slots and transactions; a slot is available iff no transaction without an exit time names it |
| ParkingApi.SyncFixesConsistentStore | src/main/java/org/parking/controller/ApiController.java:92-108 | on tables that already agree, sync changes nothing |
| ParkingApi.InitializeDefaultSlots | src/main/java/org/parking/controller/ApiController.java:76-90 | an empty slot table becomes slots 1 to 10, all available; otherwise the result is the synced table; transactions untouched |
| ParkingApi.InitKeepsConsistent | src/main/java/org/parking/controller/ApiController.java:76-90 | start-up keeps tables that agree in agreement |
| ParkingApi.GetSlots | src/main/java/org/parking/controller/ApiController.java:230-241 | the available ids ascending, the total, and occupied = total minus available (never negative); the first-generation listing (src/controller/ApiController.java:127-137) is the same computation once the web-era data layer stands in for the methods its own data layer lacks |
| ParkingApi.DeleteSlot | src/main/java/org/parking/controller/ApiController.java:265-303 | "does not exist" iff the id is missing, "occupied" iff the slot is taken, and then nothing changes; otherwise exactly that slot is removed |
| ParkingApi.BookSlot | src/main/java/org/parking/controller/ApiController.java:305-346 | invalid requests fail with their violations; a parked plate fails; an unavailable slot fails; on any failure nothing changes; on success only that slot is occupied and one entry is logged; the first-generation booking (src/controller/ApiController.java:177-218) is the same transition once the web-era data layer stands in for the methods its own data layer lacks |
| ParkingApi.FirstOpen | src/main/java/org/parking/controller/ApiController.java:643-656 | none iff the plate has no open session; otherwise the first open session in table order |
| ParkingApi.CloseFree | src/main/java/org/parking/controller/ApiController.java:660-665 | the row keeps id, plate, slot and entry, and is exited now with duration 0, cost 0 and status completed |
| ParkingApi.CloseSession | src/main/java/org/parking/controller/ApiController.java:655-670 | only row k is closed free of charge, and only its slot is made available |
| ParkingApi.ReleaseSlot | src/main/java/org/parking/controller/ApiController.java:626-675 | a missing or blank plate is refused; the upper-cased, trimmed plate with no open session fails; both leave everything unchanged; otherwise its first open session is closed free and its slot freed |
| ParkingApi.ReleaseClosesOne | src/main/java/org/parking/controller/ApiController.java:656-670 | a successful release lowers the plate's open-session count by exactly one |
| ParkingApi.ReleaseSessions | src/main/java/org/parking/controller/ApiController.java:589-603 | same slot ids; a slot is available afterwards iff it was, or an open session of the plate other than the kept one names it |
| ParkingApi.CloseAll | src/main/java/org/parking/controller/ApiController.java:527-545 | every open session of the plate is closed with status completed, every other row is unchanged, and none stays open |
| ParkingApi.ForceRelease | src/main/java/org/parking/controller/ApiController.java:513-562 | fails with no change iff the plate has no open session; otherwise reports their number, closes them all and frees their slots |
| ParkingApi.Cancel | src/main/java/org/parking/controller/ApiController.java:594-599 | the row keeps id, plate, slot and entry, and is exited now with duration 0, cost 0 and status cancelled |
| ParkingApi.CancelDuplicates | src/main/java/org/parking/controller/ApiController.java:587-603 | the kept session stays, every other open session of the plate is cancelled, other rows are unchanged, and exactly one session stays open |
| ParkingApi.FixVehicleInconsistency | src/main/java/org/parking/controller/ApiController.java:565-623 | no session, or exactly one, changes nothing; with more, the newest by entry time is kept, the other n-1 are cancelled, and their slots are freed |
| ParkingApi.ResetAllData | src/main/java/org/parking/controller/ApiController.java:486-510 | no transaction is left, every slot is kept and available, and no plate is parked |
| StoreInvariant.OpenSlotsDistinct | src/main/java/org/parking/controller/ApiController.java:328-331 | when the tables agree, two open sessions never share a slot |
| StoreInvariant.BookKeepsConsistent | src/main/java/org/parking/controller/ApiController.java:305-346 | booking keeps the tables in agreement |
| StoreInvariant.CloseSessionKeepsConsistent | src/main/java/org/parking/controller/ApiController.java:655-670 | closing an open session and freeing its slot keeps the tables in agreement |
| StoreInvariant.ReleaseKeepsConsistent | src/main/java/org/parking/controller/ApiController.java:626-675 | release keeps the tables in agreement |
| StoreInvariant.DeleteKeepsConsistent | src/main/java/org/parking/controller/ApiController.java:265-303 | deleting a slot keeps the tables in agreement |
| StoreInvariant.ResetIsConsistent | src/main/java/org/parking/controller/ApiController.java:486-510 | after a reset the tables agree, whatever they held before |
| StoreInvariant.ForceReleaseKeepsConsistent | src/main/java/org/parking/controller/ApiController.java:513-562 | force-release keeps the tables in agreement |
| StoreInvariant.CancelClosesDuplicates | src/main/java/org/parking/controller/ApiController.java:587-603 | the rows closed by the repair are exactly the open sessions of the plate other than the kept one |
| StoreInvariant.CancelKeepsConsistent | src/main/java/org/parking/controller/ApiController.java:587-603 | cancelling the duplicates and freeing their slots keeps the tables in agreement |
| StoreInvariant.FixKeepsConsistent | src/main/java/org/parking/controller/ApiController.java:565-623 | the duplicate-session repair keeps the tables in agreement |
| StoreInvariant.BookFreeSlot | src/main/java/org/parking/controller/ApiController.java:305-346 | a valid plate that is not parked, asking for an available slot, is booked there |
| StoreInvariant.ReleaseFirstOpen | src/main/java/org/parking/controller/ApiController.java:639-675 | a release of a non-blank plate closes its first open session and frees that session's slot |
| StoreInvariant.BookThenRelease | src/main/java/org/parking/controller/ApiController.java:626-675 | booking a free slot then releasing the same plate frees that slot, restores the slot table, and leaves the plate not parked |
| LegacyApi.AddWhenNoneAvailable | src/controller/ApiController.java:40-48 | with some slot available nothing changes; with none, even if every slot is occupied, the ids are added as new available slots and existing slots keep their state |
| LegacyApi.AddWhenNoneAvailableIdempotent | src/controller/ApiController.java:40-48 | running the start-up twice equals running it once |
| LegacyApi.AddWhenNoneAvailableKeepsConsistent | src/controller/ApiController.java:40-48 | start-up keeps the tables in agreement |
| LegacyApi.InitializeDefaultSlots | src/controller/ApiController.java:40-48 | with some slot available nothing changes; with none, the table gains exactly slots 1 to 10, new ones available, existing ones kept; transactions untouched |
| LegacyApi.DefaultSlotIds | src/controller/ApiController.java:44 | the ids the start-up adds are 1 to 10 |
| LegacyApi.InitKeepsConsistent | src/controller/ApiController.java:40-48 | the start-up keeps tables that agree in agreement |
| LegacyApi.AddSlot | src/controller/ApiController.java:140-159 | 400 "id required" iff the id is missing; 400 "invalid id" iff it is not a number; both change nothing; an integral id is wrapped to 32 bits, a fractional one truncated and saturated, and the result added as in `addSlot` |
| LegacyApi.AddSlotThenListed | src/controller/ApiController.java:140-159 | an id in `int` range is added as given and is a slot afterwards |
| LegacyApi.AddSlotKeepsConsistent | src/controller/ApiController.java:140-159 | adding a slot keeps the tables in agreement |
| LegacyApi.DeleteSlot | src/controller/ApiController.java:162-174 | success iff the slot existed and was available; then exactly that slot is gone, otherwise nothing changes |
| LegacyApi.DeleteSlotAgrees | src/controller/ApiController.java:162-174 | the two controllers' deletes succeed together and leave the same store |
| LegacyApi.LatestExited | src/controller/ApiController.java:241-245 | none iff the plate has no exited session; otherwise one with the latest exit time |
| LegacyApi.ReleaseSlot | src/controller/ApiController.java:221-276 | a missing or blank plate is refused and an unparked plate fails, both with no change; otherwise the exit is logged, and the slot of the latest exited session is freed if it still exists |
| LegacyApi.LatestExitedIsJustClosed | src/controller/ApiController.java:241-245 | when the clock moves forward, the session just closed is the latest exited one |
| LegacyApi.ReleaseFreesClosedSlot | src/controller/ApiController.java:236-256 | with the clock moving forward, the slot released is the slot of the session `logExit` just closed |
| LegacyApi.ReleaseKeepsConsistent | src/controller/ApiController.java:221-276 | with the clock moving forward, a release never reports a failed slot release and keeps the tables in agreement |
| ParkingDesk.QrFileName | src/view/ParkingManagementUI.java:48-54 | nothing for a plate that trims to empty; otherwise "qr_" + trimmed plate + ".png", from which the plate can be read back |
| ParkingDesk.ScanEntry | src/view/ParkingManagementUI.java:65-88 | with no available slot nothing changes; otherwise the lowest available slot is booked, only it changes, and one entry for the decoded text is logged |
| ParkingDesk.PartSlot | src/view/ParkingManagementUI.java:103-108 | a part changes the slot found only when its trimmed text starts with "Slot:" |
| ParkingDesk.ScanParts | src/view/ParkingManagementUI.java:101-109 | the result is the starting value unless some part starts with "Slot:" |
| ParkingDesk.ParseSlot | src/view/ParkingManagementUI.java:99-109 | -1, or a value read from a part that starts with "Slot:" |
| ParkingDesk.SlotPartParses | src/view/ParkingManagementUI.java:104-106 | the part "Slot: n" is recognised and yields n |
| ParkingDesk.SlotValueParses | src/view/ParkingManagementUI.java:106 | removing "Slot:" and trimming leaves text that `parseInt` reads as n |
| ParkingDesk.LineParts | src/view/ParkingManagementUI.java:101 | a history line whose times have no comma splits into exactly its slot, entry and exit parts |
| ParkingDesk.ParseSlotOfLine | src/view/ParkingManagementUI.java:99-109 | reading the slot back from a history line gives the row's slot id when the times have no comma |
| ParkingDesk.TimePartsSkipped | src/view/ParkingManagementUI.java:103-104 | the entry and exit parts never count as a slot part |
| ParkingDesk.Exit | src/view/ParkingManagementUI.java:90-123 | an empty plate, an empty history, an unreadable or missing slot change nothing; otherwise the parsed slot is freed and the plate's open rows are closed |
| ParkingDesk.ReleaseParsed | src/view/ParkingManagementUI.java:110-119 | -1 means "could not determine"; a missing slot fails; both change nothing; otherwise the slot is freed and only then the exit is logged |
| ParkingDesk.ExitUsesLastRow | src/view/ParkingManagementUI.java:96-109 | on a readable journal, exit acts on the slot of the plate's last row |
| ParkingDesk.ExitChecked | src/view/ParkingManagementUI.java:90-123 | the corrected exit refuses, with no change, a plate whose last row has already exited; in every other case it acts as the exit as written |
| ParkingDesk.ScanEntryKeepsConsistent | src/view/ParkingManagementUI.java:72-80 | scan-entry keeps the desk's tables in agreement |
| ParkingDesk.ExitCheckedKeepsConsistent | src/view/ParkingManagementUI.java:110-113 | the corrected exit keeps the desk's tables in agreement |
| ParkingDesk.ExitFreesTakenSlot | src/view/ParkingManagementUI.java:96-113 | as written, an exit of a plate that already left frees a slot another vehicle holds, breaking the agreement |
| ParkingDesk.ExitOfOpenLastRow | src/view/ParkingManagementUI.java:96-113 | when the plate's last row is open, the corrected exit frees that row's slot and closes the plate's open rows |
| ParkingDesk.DeskEntryThenExit | src/view/ParkingManagementUI.java:72-113 | scan-entry then exit of the same plate frees the slot the entry took, restores the slot table, and leaves no open row of the plate |
| Accounts.Key | src/main/java/org/parking/model/UserDAO.java:32 | the key is trimmed, has no upper-case letter, and is no longer than the input |
| Accounts.KeyContent | src/main/java/org/parking/model/UserDAO.java:32 | the key is the name's trimmed middle with its letters lower-cased |
| Accounts.KeyIdempotent | src/main/java/org/parking/model/UserDAO.java:32 | normalising a key again changes nothing |
| Accounts.NewUser | src/main/java/org/parking/model/UserDAO.java:28-37 | the new row is active, has never logged in, stores the hash of the password, and stores the role, the email as given and the creation time |
| Accounts.RegisterUser | src/main/java/org/parking/model/UserDAO.java:16-44 | succeeds iff the normalised name is free, no stored email equals the normalised email, the role is present and the exact email is not stored; on failure nothing changes, on success only the new row is added |
| Accounts.RegisterUserNoEmail | src/main/java/org/parking/model/UserDAO.java:12-14 | the three-argument overload skips the email check: it succeeds iff the name is free and a role is given |
| Accounts.ValidateLogin | src/main/java/org/parking/model/UserDAO.java:46-74 | true iff the normalised name exists, is active and the password matches its hash; a success stamps only that row's last login, a failure changes nothing |
| Accounts.GetUserRole | src/main/java/org/parking/model/UserDAO.java:76-90 | the stored role of an existing user, "user" otherwise |
| Accounts.ChangePassword | src/main/java/org/parking/model/UserDAO.java:140-159 | succeeds iff the old password logs in; then only that row changes, getting the new hash, `last_login` from the login's clock reading and `password_changed_at` from the later one |
| Accounts.DeactivateUser | src/main/java/org/parking/model/UserDAO.java:204-215 | succeeds iff the user exists; then only that row changes, becoming inactive |
| Accounts.RegisterThenLogin | src/main/java/org/parking/model/UserDAO.java:28-67 | after a successful registration, the password logs in under every spelling of the name that normalises the same way |
| Accounts.RegisterThenRole | src/main/java/org/parking/model/UserDAO.java:76-85 | a registered account reports the role it was registered with |
| Accounts.RegisterTwiceFails | src/main/java/org/parking/model/UserDAO.java:18-20 | a name cannot be registered twice, in any spelling that normalises the same way |
| Accounts.DeactivateThenNoLogin | src/main/java/org/parking/model/UserDAO.java:55-58 | after deactivation no password logs in |
| Accounts.ChangeThenLogin | src/main/java/org/parking/model/UserDAO.java:140-159 | after a password change the new password logs in, and a different old password no longer does |
| Accounts.LoginKeepsCredentials | src/main/java/org/parking/model/UserDAO.java:191-202 | a login changes no account's hash, role, email or active flag |
| Accounts.CaseVariantEmailAccepted | src/main/java/org/parking/model/UserDAO.java:176-189 | as written, a second account can register an email that differs from a stored one only in case or blanks |
| Accounts.CaseVariantExample | src/main/java/org/parking/model/UserDAO.java:179 | "Ann@x.io" and "ann@x.io" normalise to the same text while "ann" and "bob" do not, so the case above arises |
| Accounts.RegisterUserChecked | src/main/java/org/parking/model/UserDAO.java:16-44 | the corrected registration refuses an email equal to a stored one after normalising both sides; otherwise it behaves like `registerUser` |
| Accounts.RegisterCheckedKeepsEmailsDistinct | src/main/java/org/parking/model/UserDAO.java:23-25 | the corrected registration keeps all stored emails distinct up to case and surrounding blanks |
| Accounts.CheckedRegisterThenLogin | src/main/java/org/parking/model/UserDAO.java:28-67 | the corrected registration keeps the register-then-login round trip |
| Accounts.CheckedAgreesOnNormalisedEmails | src/main/java/org/parking/model/UserDAO.java:176-189 | where every email is already normalised, the corrected and the written registrations agree |
| LegacyAccounts.RegisterUser | src/model/UserDAO.java:6-17 | succeeds iff the name is not a key; then the row is stored verbatim and no other row changes; otherwise nothing changes |
| LegacyAccounts.ValidateLogin | src/model/UserDAO.java:19-29 | true iff a row has exactly that name and exactly that password |
| LegacyAccounts.RegisterThenLogin | src/model/UserDAO.java:6-29 | a successful registration then logs in with the same credentials |
| LegacyAccounts.DuplicateKeepsPassword | src/model/UserDAO.java:6-17 | a duplicate registration fails, and the old password still logs in while the new one does not |
| LegacyAccounts.NoNormalisation | src/model/UserDAO.java:19-25 | a name that differs in any char, case or blank included, does not log in as the registered one |
| LegacyAccounts.RegisterKeepsOtherLogins | src/model/UserDAO.java:6-17 | registering one name never changes another name's login result |
| LegacyAccounts.AgreesWithHashedLogin | src/model/UserDAO.java:19-29 | for a name in normal form, the plaintext login is the hashed login with the identity hash |
| RegisterForm.CountFive | parking-frontend/src/components/Register.js:40-46 | the score is the sum of 20 for length >= 8, lower, upper, digit and special, each judged alone |
| RegisterForm.GetStrength | parking-frontend/src/components/Register.js:39-47 | the score is 20 times the number of criteria met, at most 100, and 100 iff every criterion is met |
| RegisterForm.GetColor | parking-frontend/src/components/Register.js:50-54 | error iff below 50, success iff at least 75, warning between |
| RegisterForm.GetLabel | parking-frontend/src/components/Register.js:56-62 | Very Weak iff below 40 and Excellent iff at least 100; the bands between are pinned per criteria count by `RegisterForm.MeterByCount` |
| RegisterForm.MeterMonotone | parking-frontend/src/components/Register.js:50-62 | a higher score never gets a weaker label or a worse colour |
| RegisterForm.MeterByCount | parking-frontend/src/components/Register.js:39-62 | 0-1 criteria: Very Weak, error; 2: Weak, error; 3: Good, warning; 4: Strong, success; 5: Excellent, success |
| RegisterForm.Indicator | parking-frontend/src/components/Register.js:49-64 | nothing is shown iff the password is empty; otherwise the score with its colour and label |
| RegisterForm.ValidateForm | parking-frontend/src/components/Register.js:100-154 | accepted iff no check fails; otherwise the reported problem holds and every check before it passes |
| RegisterForm.AcceptedIsExcellent | parking-frontend/src/components/Register.js:123-142 | an accepted form's password scores 100: Excellent, success |
| RegisterForm.AcceptedUsername | parking-frontend/src/components/Register.js:107-152 | an accepted username has at least 3 chars, all from `[A-Za-z0-9_]`; the passwords agree and the terms were accepted |
| RegisterForm.AcceptedEmail | parking-frontend/src/components/Register.js:117-120 | an accepted email has exactly one '@' with text before it, a '.' after it with text on both sides, and no whitespace |
| RegisterForm.EmptyFieldFirst | parking-frontend/src/components/Register.js:101-104 | an empty field is reported before any other check |
| RegisterForm.PasswordsMatch | parking-frontend/src/components/Register.js:192-193 | the tick shows iff the password is non-empty and equals the confirmation, and then the mismatch check passes |
| ThemeMode.Initial | parking-frontend/src/contexts/ThemeContext.js:18-21 | a non-empty saved value is the mode; a missing or empty one gives light; storage agrees |
| ThemeMode.Toggle | parking-frontend/src/contexts/ThemeContext.js:31-33 | light goes to dark, every other mode to light |
| ThemeMode.SetTheme | parking-frontend/src/contexts/ThemeContext.js:35-53 | light and dark are taken as given; auto follows the system preference; any other value changes nothing |
| ThemeMode.ToggleTwice | parking-frontend/src/contexts/ThemeContext.js:32 | from light or dark, two toggles return to the start |
| ThemeMode.ToggleTwiceFromOther | parking-frontend/src/contexts/ThemeContext.js:32 | from any other mode, two toggles end in dark, not at the start |
| ThemeMode.ToggleFlipsDark | parking-frontend/src/contexts/ThemeContext.js:31-33 | after a toggle `isDark` holds iff the mode was light; from light or dark a toggle flips `isDark` |
| ThemeMode.SetThemeIdempotent | parking-frontend/src/contexts/ThemeContext.js:35-53 | setting a mode twice equals setting it once |
| ThemeMode.ChangesKeepSynced | parking-frontend/src/contexts/ThemeContext.js:27-29 | after a toggle or a set, storage holds the current mode |
| ThemeMode.ReloadRestores | parking-frontend/src/contexts/ThemeContext.js:18-29 | starting again from what was stored restores the same mode, after any change |
| AppShell.Initial | parking-frontend/src/App.js:41-48 | the login page, nobody signed in, the drawer closed, and a hidden empty "info" notification |
| AppShell.Navigate | parking-frontend/src/App.js:66-74 | the drawer closes; "logout" signs out to the login page; any other target becomes the page and keeps the user |
| AppShell.Login | parking-frontend/src/App.js:51-64 | an accepted login sets the user and opens the dashboard; a refusal or an error changes nothing |
| AppShell.SaveProfile | parking-frontend/src/App.js:189-196 | the user is replaced, the page is kept, and a "Profile updated!" success notification opens |
| AppShell.OpenDrawer | parking-frontend/src/App.js:110 | the drawer opens and nothing else changes |
| AppShell.CloseDrawer | parking-frontend/src/App.js:115 | the drawer closes and nothing else changes |
| AppShell.DrawerRoundTrip | parking-frontend/src/App.js:110-115 | opening then closing the drawer returns to the state before, up to the drawer being shut |
| AppShell.Notify | parking-frontend/src/App.js:176-183 | a child page's notification replaces the current one as given; nothing else changes |
| AppShell.ScanNotice | parking-frontend/src/App.js:201-207 | the scanner's notice is open, of severity "info", and reads "Scanned: " followed by the data; nothing else changes |
| AppShell.CloseNotification | parking-frontend/src/App.js:214 | the notification is hidden with its text and severity kept; nothing else changes |
| AppShell.NoticeThenClose | parking-frontend/src/App.js:214 | closing the bar after a child's notice hides it and keeps its text and severity |
| AppShell.LogoutHidesChrome | parking-frontend/src/App.js:68-70 | from any state, logging out hides the app bar and drawer and forgets the user |
| AppShell.DrawerEntries | parking-frontend/src/App.js:76-101 | every drawer entry but the last keeps the chrome and the user; the last, logout, hides the chrome |
| AppShell.NoUserWithoutLogin | parking-frontend/src/App.js:51-74 | without an accepted login or a profile save, nobody is ever signed in, whatever pages are visited |
| AppShell.EndsLoggedOut | parking-frontend/src/App.js:66-74 | whatever came before, a final logout ends on the login page with nobody signed in and the drawer shut |

## Left out

- Database plumbing. Connections, SQL text and schema creation are left out.
  The primary keys, `UNIQUE` and `AUTOINCREMENT` are kept as model
  structure: maps by key, and the next-id counter.
- `SQLException` paths. Every `catch (SQLException e)` that only prints or
  returns a default is left out. This includes the web controller's release
  fallback (`src/main/java/org/parking/controller/ApiController.java:676-713`),
  which only runs after such an exception.
- The clock. `LocalDateTime.now()` becomes a parameter. The model chooses
  to keep web-era times as whole minutes on one clock; the table itself
  stores `LocalDateTime` text with seconds and fractions. So the "N/A"
  branch of `getHistory` for an unparsable time does not arise.
  Desktop-era times are opaque text.
- ParkingApi.ForceRelease: one clock reading closes every session. The
  source reads `LocalDateTime.now()` once per row
  (`src/main/java/org/parking/controller/ApiController.java:535`), so rows
  closed across a minute boundary get different exit times. The same
  holds for ParkingApi.CancelDuplicates (line 597 of the same file).
- ParkingApi.FirstOpen: the `SELECT ... WHERE plateNumber = ? AND exitTime
  IS NULL` of `src/main/java/org/parking/controller/ApiController.java:643-646`
  has no `ORDER BY`. The model takes the first open row in table order,
  the order of SQLite's scan of the rowid table; SQL itself leaves the
  order open.
- Ledger.CloseWithTariff: seconds are not modelled. `ChronoUnit.MINUTES.between`
  (`src/main/java/org/parking/model/TransactionDAO.java:62`, and likewise at
  :106, :147, :195 and :246) counts whole minutes elapsed, dropping
  leftover seconds. An entry at 10:00:30 and an exit at 11:01:10 give 60
  minutes and a cost of 50 in the source; as whole-minute readings 600 and
  661 the model bills 61 minutes and 100. Durations, costs, averages and
  revenue are exact only for readings on whole minutes.
- Ledger.TodayStatistics: `today` (`src/main/java/org/parking/model/TransactionDAO.java:169`)
  clears hours, minutes and seconds but keeps the fraction of a second of
  the clock reading, so "today" starts a fraction after midnight. The model
  takes the start of the day as a parameter.
- Floating point. Revenue rounding, `peakOccupancy` and the ×7/×30 revenue
  figures are left out. Costs are whole multiples of 50, so the `double`
  sums are exact and are kept as integers.
- Mock data in `getAnalyticsData` (hourly usage, vehicle types, change
  percentages) and in the settings, users and notifications endpoints.
- bcrypt. Modelled as a `Hasher` parameter. The salt is an argument.
  `Sound`/`Distinguishing` are the assumptions the round-trip lemmas need.
- Accounts.ChangeThenLogin: the 72-byte limit of bcrypt is not modelled.
  `BCryptPasswordEncoder(12)` (`src/main/java/org/parking/model/UserDAO.java:10`)
  reads only a password's first 72 bytes. With older Spring Security, two
  passwords sharing their first 72 bytes match each other's hash, so
  `Distinguishing` does not hold and the old password still logs in.
  Newer versions throw for longer input, so `registerUser` and
  `changePassword` fail instead of storing a hash. No build file fixes the
  version. `encode` is total here and the lemmas hold only for passwords of
  at most 72 bytes.
- LegacyApi.LatestExited: when two exited sessions of a plate share the
  latest exit time, SQL's `ORDER BY exitTime DESC LIMIT 1` may return
  either. The model, and its contract, fix the later row (the last in
  table order).
- JWT, Spring validation binding, CORS, security configuration, the
  exception handler, ZXing and the `/qr/{plate}` endpoint: framework and
  library code.
- `UserDAO.updateUserProfile` and `getUserProfile`. Dynamic SQL with no
  stateable contract.
- The web controller's `addSlot`
  (`src/main/java/org/parking/controller/ApiController.java:243-263`). It is
  the same code as the first-generation one, which `LegacyApi.AddSlot`
  models.
- `getAllTransactions`, the debug/test/health endpoints, `createTestUser`,
  `listUsers` and `debugVehicle`. They are mock, debug or read-only
  listings outside the core.
- The first-generation controller's register, login, history, profile, QR
  and analytics endpoints. Stubs or pass-throughs.
- `org.parking.model.SlotDAO` is not part of this model's sources:
  - its `getSlotById`, `deleteSlot`, `getTotalSlots` and
    `bookSlot(slot, plate)` are modelled on the conditional-update
    semantics of `src/model/SlotDAO.java`;
  - the per-slot list of `getAllSlotsWithStatus` is reduced to its size.
- ParkingApi.GetSlots: reports the slot count and the available ids, not
  the per-slot rows (plate and status) of `getAllSlotsWithStatus`.
- Null arguments. A `null` user name or password raises a
  `NullPointerException` in the source. A non-string `plate` in a release
  request raises a `ClassCastException`. Neither is modelled.
- Ledger.NormalizePlate: `toUpperCase` is modelled on ASCII letters only.
  Java's full Unicode case mapping is not modelled.
- Accounts.Key: `toLowerCase` is modelled on ASCII letters only, as for
  plates.
- Tariff.CalculateCost: minutes are unbounded integers. A 64-bit `long`
  overflow after about 10^13 years is not modelled.
- RegisterForm.ValidateForm: string lengths count chars, while JavaScript
  counts UTF-16 code units. The two differ only outside the Basic
  Multilingual Plane.
- Form submission in `Register.js` (the request and its error display) is
  left out, as are React and MUI rendering and the Swing layout and status
  texts.
- ThemeMode.SetTheme: the 'auto' branch takes the system preference once.
  The media-query listener that keeps following it is left out.
- The first-generation controller's data layer. `src/controller/ApiController.java`
  imports `src/model/SlotDAO.java` and `src/model/TransactionDAO.java`,
  which do not declare `getAllSlotsWithStatus`, `deleteSlot`,
  `bookSlot(int, String)`, `getTotalSlots`, `isVehicleCurrentlyParked` or a
  `logExit` returning a boolean. The model substitutes the web-era
  `org.parking.model` methods of the same names. The claims that its
  listing and booking are the `ParkingApi` transitions, and `LegacyApi`'s
  delete and release, rest on that substitution.
- Ledger.LatestOpen: when two open sessions of a plate share the latest
  entry time, SQL's `ORDER BY entryTime DESC LIMIT 1` may return either;
  the model picks the later row. The contract promises only a session with
  the latest entry time.
- LegacyApi.AddSlot: a fractional id is taken as an exact decimal, not
  rounded to the nearest `double` first, and an exponent too large for a
  `double` (which gives infinity, then `Integer.MAX_VALUE`) is not
  distinguished from a large finite value.
- Concurrency. Each request is one atomic transition, so races between
  `isVehicleCurrentlyParked` and `bookSlot` are out of scope.
- LegacyApi.ReleaseKeepsConsistent: holds under the assumption that every
  earlier exit of the plate is stamped before the current time.
  `ORDER BY exitTime DESC` on text timestamps is modelled on integer
  times.

## Findings

| source | as written | input that shows it | evidently intended | confidence | as-written member | corrected member |
|---|---|---|---|---|---|---|
| src/view/ParkingManagementUI.java:96-118 | exit takes the slot id from the plate's last history line even when that row already has an exit time, and releases it | A parks in slot 1 and exits; B parks in slot 1; exit is pressed again for A: slot 1 is marked free while B is still in it | only a plate whose last row is still open is let out; otherwise nothing is released | high, not executed | ParkingDesk.ExitFreesTakenSlot | ParkingDesk.ExitChecked, ParkingDesk.ExitCheckedKeepsConsistent |
| src/main/java/org/parking/model/UserDAO.java:23-35 | `emailExists` compares stored emails with the lower-cased, trimmed input, but `registerUser` stores the email exactly as typed | register "ann" with "Ann@x.io", then "bob" with "ann@x.io": the lookup finds no "ann@x.io", the exact text differs from the stored one, and both accounts hold the same address | an email is refused when it equals a stored one up to case and surrounding blanks | high, not executed | Accounts.CaseVariantEmailAccepted | Accounts.RegisterUserChecked, Accounts.RegisterCheckedKeepsEmailsDistinct |
