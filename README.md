# Pedometer step ledger

This project models the step ledger of the Android pedometer app `dev.sjaramillo.pedometer`, in Dafny, with proofs.

## How the ledger works

The ledger is a table from a day number (days since 1970-01-01) to a step count. It uses a reserved key, day `-1`, the *sentinel*, to hold the last raw "steps since boot" reading of the hardware step counter.

The first time a day is seen, it is stored as the negative of the current reading, its *offset*. Today's count is then offset + current reading. When the next day is opened, the current reading is added to the latest entry, which turns that day's offset into its final count. A shutdown finalises the ledger the same way, and sets the `correctShutdown` flag. On boot, the saved reading is recovered only if that flag is missing. Then negative offsets are purged and the sentinel is reset to 0.

## What is modelled

* **Legacy SQLite store** `Database` (`LegacyDatabase.Database`).
  * The table has no primary key, so it is a `seq<Row>` in insertion order.
  * Each transaction body is one method, proved to change `rows` exactly as a pure function in `LedgerRows` says.
* **Room store.**
  * `DailyStepsDao` (`Room.DailyStepsDao`) is a `map<int,int>`, because the day column is the primary key. Every query is a function over the map; every write is a method.
  * `StepsRepository` (`Repository.StepsRepository`) holds the DAO.
* **Lifecycle transitions** (`Lifecycle`). What a periodic save, a shutdown and a boot do to the rows, as functions. Lemmas say what the transitions achieve together.
* **Sensor service** `SensorListener` (`Sensor`).
  * Readings above `Int.MAX_VALUE` are dropped.
  * The save throttle, including the 32-bit wrap of `lastSaveSteps + 500`.
  * Today's count as the ongoing notification shows it.
* **Broadcast receivers** (`Receivers`). `BootReceiver.onReceive` and `ShutdownReceiver.onReceive`, acting on the legacy store and the shared `correctShutdown` preference.
* **Backup format** (`Backup`).
  * `writeToFile`'s `date;max(0, getInt(steps))` lines for real days, in ascending date order.
  * `importCsv`'s per-line parse / upsert / count loop over the lines `BufferedReader.readLine` yields.
* **Calendar** (`Calendar`, `DayIndex`).
  * Epoch days in the proleptic Gregorian calendar of ISO 8601:2004, clause 3.2.1.
  * `Util.getUnixDay`, `TimeUtil.getUnixDay`, `Util.getToday`, `DateUtil.getToday`, `dayToLocalDate` and `getDayOfMonth`.

Integers are unbounded except where the source's width matters:
* `Int`/`Long` ranges are constants in `Limits`;
* `WrapInt` models the `Int` wrap-around in the throttle and in the notification arithmetic;
* the import parser range-checks `Long.valueOf` and `Integer.valueOf`.

The clock (`System.currentTimeMillis()`, `LocalDate.now()`) and `today` are parameters. So is the goal preference.

Behaviour of the code, as written, that the proofs exhibit:

* **A shutdown doubles the sentinel when it is the only row.** The sentinel is then the latest entry, so `insertNewDay` adds the reading to it (`Lifecycle.ShutdownOnSentinelOnly`). The next boot resets it to 0.
* **`getTotalWithoutToday` includes today.** The Room repository's version sums the inclusive range `[0, today]` (`Repository.StepsRepository.GetTotalWithoutToday`, `Repository.TotalIncludesToday`). The legacy `totalWithoutToday` does exclude today.
* **The export truncates large counts.** `writeToFile` reads a count with `getInt`, which keeps its low 32 bits, so a day's count that has grown past `Int.MAX_VALUE` is exported as a different number, and 0 when the truncation is negative (`Backup.ExportedStepsTruncates`). `getLastEntries` reads counts the same way (`LegacyDatabase.ReadPair`).
* **The throttle wraps near `Int.MAX_VALUE`.** When the last saved reading is within 500 of `Int.MAX_VALUE`, the threshold becomes negative and every non-negative reading is saved (`Sensor.WrappedThresholdSavesAlways`).

## Model

Source paths below are under `app/src/main/kotlin/dev/sjaramillo/pedometer/` unless they start with `app/src/test`.

| member | source | states |
|---|---|---|
| Limits.Max0 | app/src/main/kotlin/dev/sjaramillo/pedometer/receiver/BootReceiver.kt:36 | `coerceAtLeast(0)`: the result is non-negative, at least `x`, and is either `x` or 0 |
| Limits.WrapInt | app/src/main/kotlin/dev/sjaramillo/pedometer/service/SensorListener.kt:73 | Kotlin `Int` addition wraps: the result is in the `Int` range, is congruent to `x` modulo 2^32, and equals `x` when `x` is already an `Int` |
| Calendar.DaysInMonth | app/src/main/kotlin/dev/sjaramillo/pedometer/util/Util.kt:39-43 | every Gregorian month has 28 to 31 days |
| Calendar.NextDate | app/src/main/kotlin/dev/sjaramillo/pedometer/util/DateUtil.kt:33-35 | the calendar successor of a valid date is a valid date |
| Calendar.ToEpochDay | app/src/main/kotlin/dev/sjaramillo/pedometer/util/DateUtil.kt:26-28 | a date's epoch day lies inside its year: at least the year's first day and below the next year's first |
| Calendar.YearWithin | app/src/main/kotlin/dev/sjaramillo/pedometer/util/DateUtil.kt:33-35 | a day count past the start of year `y` falls in one year not before `y`, at an offset within that year's length |
| Calendar.MonthWithin | app/src/main/kotlin/dev/sjaramillo/pedometer/util/DateUtil.kt:33-35 | a day of the year falls in one month, on a day within that month's length |
| Calendar.CivilFromDays | app/src/main/kotlin/dev/sjaramillo/pedometer/util/DateUtil.kt:33-35 | `LocalDate.ofEpochDay(n)` is a valid date whose epoch day is `n`, for every integer `n` |
| Calendar.EpochIsDayZero | app/src/main/kotlin/dev/sjaramillo/pedometer/util/Util.kt:39-43 | 1970-01-01 is valid and has epoch day 0 |
| Calendar.NextDateIsNextDay | app/src/main/kotlin/dev/sjaramillo/pedometer/util/Util.kt:39-43 | the next calendar date has the next epoch day |
| Calendar.EpochDayStrictlyIncreasing | app/src/main/kotlin/dev/sjaramillo/pedometer/util/Util.kt:42 | an earlier date has a smaller epoch day |
| Calendar.EpochDayInjective | app/src/main/kotlin/dev/sjaramillo/pedometer/util/DateUtil.kt:33-35 | two valid dates with the same epoch day are the same date |
| Calendar.BeforeEpochIsNegative | app/src/main/kotlin/dev/sjaramillo/pedometer/util/Util.kt:42 | dates before 1970-01-01 have negative epoch days |
| Calendar.CivilFromEpochDay | app/src/main/kotlin/dev/sjaramillo/pedometer/util/DateUtil.kt:33-35 | `ofEpochDay(toEpochDay(d)) == d` for every valid date |
| Calendar.CivilFromDaysSuccessor | app/src/main/kotlin/dev/sjaramillo/pedometer/util/DateUtil.kt:33-35 | `ofEpochDay(n + 1)` is the calendar successor of `ofEpochDay(n)` |
| Calendar.DayZeroIsEpoch | app/src/main/kotlin/dev/sjaramillo/pedometer/util/DateUtil.kt:33-35 | `ofEpochDay(0)` is 1970-01-01 |
| DayIndex.UnixDay | app/src/main/kotlin/dev/sjaramillo/pedometer/util/TimeUtil.kt:44-48 | `DAYS.between(1970-01-01, d)`, the body shared by `TimeUtil.getUnixDay` and `Util.getUnixDay` (Util.kt:39-43), is the date's epoch day, so the two agree on every date |
| DayIndex.UtilToday | app/src/main/kotlin/dev/sjaramillo/pedometer/util/Util.kt:30-33 | `Util.getToday()` is the unix day of the current date, and converting it back gives that date |
| DayIndex.DateUtilToday | app/src/main/kotlin/dev/sjaramillo/pedometer/util/DateUtil.kt:26-28 | `DateUtil.getToday()` (`toEpochDay`) equals `Util.getToday()` |
| DayIndex.DayToLocalDate | app/src/main/kotlin/dev/sjaramillo/pedometer/util/DateUtil.kt:33-35 | `dayToLocalDate(day)` is a valid date whose unix day is `day` |
| DayIndex.DayOfMonth | app/src/main/kotlin/dev/sjaramillo/pedometer/util/DateUtil.kt:40-42 | `getDayOfMonth()` lies between 1 and 31 |
| DayIndex.UnixDayOfEpoch | app/src/main/kotlin/dev/sjaramillo/pedometer/util/TimeUtil.kt:45-47 | `getUnixDay(1970-01-01) == 0` |
| DayIndex.UnixDayOctober24th2021 | app/src/test/kotlin/dev/sjaramillo/pedometer/util/TimeUtilTest.kt:21-26 | `getUnixDay(2021-10-24) == 18924` |
| DayIndex.UnixDaySuccessor | app/src/main/kotlin/dev/sjaramillo/pedometer/util/TimeUtil.kt:47 | consecutive calendar dates get consecutive unix days |
| DayIndex.UnixDayStrictlyIncreasing | app/src/main/kotlin/dev/sjaramillo/pedometer/util/Util.kt:42 | `getUnixDay` is strictly increasing in the date |
| DayIndex.UnixDayNegativeBefore1970 | app/src/main/kotlin/dev/sjaramillo/pedometer/util/Util.kt:42 | `getUnixDay` is negative for dates before 1970 |
| DayIndex.DayToLocalDateRoundTrip | app/src/main/kotlin/dev/sjaramillo/pedometer/util/DateUtil.kt:33-35 | `dayToLocalDate(getUnixDay(d)) == d` |
| DayIndex.DayToLocalDateOfZero | app/src/main/kotlin/dev/sjaramillo/pedometer/util/DateUtil.kt:33-35 | `dayToLocalDate(0)` is 1970-01-01 |
| DayIndex.DayToLocalDateSuccessor | app/src/main/kotlin/dev/sjaramillo/pedometer/util/DateUtil.kt:33-35 | `dayToLocalDate(d + 1)` is the calendar successor of `dayToLocalDate(d)` |
| LedgerRows.CountDate | app/src/main/kotlin/dev/sjaramillo/pedometer/db/Database.kt:66-75 | the cursor count of "date = ?" is 0 exactly when no row has the date |
| LedgerRows.GetSteps | app/src/main/kotlin/dev/sjaramillo/pedometer/db/Database.kt:169-183 | `Int.MIN_VALUE` when no row has the date, otherwise the steps of the first such row |
| LedgerRows.MaxDate | app/src/main/kotlin/dev/sjaramillo/pedometer/db/Database.kt:102 | `SELECT MAX(date)` of a non-empty table is a present date that no row exceeds |
| LedgerRows.AddToLast | app/src/main/kotlin/dev/sjaramillo/pedometer/db/Database.kt:100-104 | `addToLastEntry(s)` adds `s` to every row that holds the maximum date, which may be the sentinel; all other rows and every date stay as they were; an empty table is unchanged |
| LedgerRows.SetSteps | app/src/main/kotlin/dev/sjaramillo/pedometer/db/Database.kt:121-122 | "UPDATE ... WHERE date = ?" sets the steps of exactly the rows with that date |
| LedgerRows.Upsert | app/src/main/kotlin/dev/sjaramillo/pedometer/db/Database.kt:115-133 | update by date, and append a row when none was updated; the flag is true iff no row had the date |
| LedgerRows.InsertNewDay | app/src/main/kotlin/dev/sjaramillo/pedometer/db/Database.kt:63-93 | unchanged when the date exists or `steps < 0`; otherwise `addToLastEntry(steps)`, then insert `(date, -steps)` |
| LedgerRows.RemoveNegative | app/src/main/kotlin/dev/sjaramillo/pedometer/db/Database.kt:215-217 | no row is added and every remaining row has `steps >= 0` |
| LedgerRows.RemoveNegativeMembers | app/src/main/kotlin/dev/sjaramillo/pedometer/db/Database.kt:215-217 | a row remains iff it was present with `steps >= 0` |
| LedgerRows.RemoveNegativeCounts | app/src/main/kotlin/dev/sjaramillo/pedometer/db/Database.kt:215-217 | a row with `steps >= 0` remains exactly as many times as it was stored; a row with negative steps does not remain |
| LedgerRows.RemoveNegativeSubMultiset | app/src/main/kotlin/dev/sjaramillo/pedometer/db/Database.kt:215-217 | the delete only removes rows: the rest is a sub-multiset of the table |
| LedgerRows.RemoveNegativeNoDate | app/src/main/kotlin/dev/sjaramillo/pedometer/db/Database.kt:215-217 | a date whose rows are all negative has no row after the purge |
| LedgerRows.CurrentSteps | app/src/main/kotlin/dev/sjaramillo/pedometer/db/Database.kt:276-286 | with one row per date, the sentinel row's saved steps, where a stored `Int.MIN_VALUE` (the "not found" marker of `getSteps`) reads as 0; 0 when there is no sentinel row |
| LedgerRows.TotalWithoutToday | app/src/main/kotlin/dev/sjaramillo/pedometer/db/Database.kt:140-156 | the sum over rows with `steps > 0` and `0 < date < today` is non-negative, and 0 when no row qualifies |
| LedgerRows.CountDays | app/src/main/kotlin/dev/sjaramillo/pedometer/db/Database.kt:227-243 | the number of rows counted is at most the number of rows |
| LedgerRows.DaysWithoutToday | app/src/main/kotlin/dev/sjaramillo/pedometer/db/Database.kt:227-243 | `daysWithoutToday` lies between 0 and the number of rows |
| LedgerRows.Days | app/src/main/kotlin/dev/sjaramillo/pedometer/db/Database.kt:258-259 | `days == daysWithoutToday + 1`, so it is at least 1 and safe to divide by |
| LedgerRows.RealDays | app/src/main/kotlin/dev/sjaramillo/pedometer/db/Database.kt:194 | the "date > 0" filter keeps exactly the rows with a positive date, each at most as often as in the table |
| LedgerRows.ConsAscending | app/src/main/kotlin/dev/sjaramillo/pedometer/ui/SettingsFragment.kt:316 | a row no later than the head of an ascending sequence may be put in front of it |
| LedgerRows.AscendingTail | app/src/main/kotlin/dev/sjaramillo/pedometer/ui/SettingsFragment.kt:316 | the tail of an ascending sequence is ascending |
| LedgerRows.InsertByDate | app/src/main/kotlin/dev/sjaramillo/pedometer/ui/SettingsFragment.kt:316 | inserting into an ascending sequence keeps it ascending; the new head is the inserted row or the old head |
| LedgerRows.InsertByDatePermutes | app/src/main/kotlin/dev/sjaramillo/pedometer/ui/SettingsFragment.kt:316 | the insertion adds exactly that row: the multiset grows by it and nothing else changes |
| LedgerRows.SortByDate | app/src/main/kotlin/dev/sjaramillo/pedometer/ui/SettingsFragment.kt:316 | "ORDER BY date" is an ascending permutation of its input |
| LedgerRows.Reverse | app/src/main/kotlin/dev/sjaramillo/pedometer/db/Database.kt:195 | "DESC" reverses the ascending order, element by element |
| LedgerRows.SortedMembers | app/src/main/kotlin/dev/sjaramillo/pedometer/db/Database.kt:195 | a permutation has the same members as its input |
| LedgerRows.ReverseMembers | app/src/main/kotlin/dev/sjaramillo/pedometer/db/Database.kt:195 | reversing keeps exactly the same members |
| LedgerRows.ReverseDescending | app/src/main/kotlin/dev/sjaramillo/pedometer/db/Database.kt:195 | the reverse of an ascending sequence is descending by date |
| LedgerRows.NewestFirst | app/src/main/kotlin/dev/sjaramillo/pedometer/db/Database.kt:194-195 | "WHERE date > 0 ORDER BY date DESC" has one row per row with a positive date, in descending date order |
| LedgerRows.NewestFirstMembers | app/src/main/kotlin/dev/sjaramillo/pedometer/db/Database.kt:194-195 | the ordered cursor holds exactly the rows with a positive date |
| LedgerRows.RealDaysCount | app/src/main/kotlin/dev/sjaramillo/pedometer/db/Database.kt:194 | the "date > 0" filter keeps as many rows as the table has rows with a positive date |
| LedgerRows.LastEntriesQuery | app/src/main/kotlin/dev/sjaramillo/pedometer/db/Database.kt:192-196 | exactly `min(num, n)` rows when `num >= 0`, where `n` counts the rows with a positive date, and all `n` when `num < 0`; each a present row with a positive date, in descending date order |
| LedgerRows.LastEntriesUnlimited | app/src/main/kotlin/dev/sjaramillo/pedometer/db/Database.kt:195 | with a negative LIMIT, which SQLite reads as no limit, every row with a positive date is returned |
| LedgerRows.LastEntriesPrefix | app/src/main/kotlin/dev/sjaramillo/pedometer/db/Database.kt:192-196 | LIMIT keeps the leading rows of the ordered cursor |
| LedgerRows.LastEntriesAreNewest | app/src/main/kotlin/dev/sjaramillo/pedometer/db/Database.kt:185-196 | the rows are the newest: a positive-date row later than the `i`th returned row is among the rows returned before it |
| LedgerRows.UniqueGetStepsOf | app/src/main/kotlin/dev/sjaramillo/pedometer/db/Database.kt:169-183 | with one row per date, `getSteps(date)` returns the steps of every row stored under that date |
| LedgerRows.UniqueGetSteps | app/src/main/kotlin/dev/sjaramillo/pedometer/db/Database.kt:169-183 | with one row per date, `getSteps` returns that row's steps |
| LedgerRows.AddToLastKeepsUnique | app/src/main/kotlin/dev/sjaramillo/pedometer/db/Database.kt:100-104 | `addToLastEntry` keeps at most one row per date |
| LedgerRows.UpsertKeepsUnique | app/src/main/kotlin/dev/sjaramillo/pedometer/db/Database.kt:115-133 | the backup upsert keeps at most one row per date |
| LedgerRows.InsertNewDayKeepsUnique | app/src/main/kotlin/dev/sjaramillo/pedometer/db/Database.kt:63-93 | `insertNewDay` keeps at most one row per date |
| LedgerRows.RemoveNegativeKeepsUnique | app/src/main/kotlin/dev/sjaramillo/pedometer/db/Database.kt:215-217 | the purge keeps at most one row per date |
| LedgerRows.SetStepsLookup | app/src/main/kotlin/dev/sjaramillo/pedometer/db/Database.kt:121-122 | after the UPDATE, `getSteps` of the date is the new value if the date was present; other dates read as before |
| LedgerRows.AppendLookup | app/src/main/kotlin/dev/sjaramillo/pedometer/db/Database.kt:125 | an INSERT is visible to `getSteps` only for a date that had no row |
| LedgerRows.UpsertLookup | app/src/main/kotlin/dev/sjaramillo/pedometer/db/Database.kt:115-133 | after `insertDayFromBackup(date, steps)`, `getSteps(date) == steps` and every other date reads as before |
| LedgerRows.UpsertDates | app/src/main/kotlin/dev/sjaramillo/pedometer/db/Database.kt:115-133 | the upsert adds the date and no other |
| LedgerRows.SaveThenCurrent | app/src/main/kotlin/dev/sjaramillo/pedometer/db/Database.kt:266-286 | after `saveCurrentSteps(s)`, `currentSteps == s` |
| LedgerRows.SaveCurrent | app/src/main/kotlin/dev/sjaramillo/pedometer/db/Database.kt:266-274 | `saveCurrentSteps` leaves a sentinel row; it adds at most that one row and leaves every row of another date as it was |
| LedgerRows.SaveKeepsNonNegative | app/src/main/kotlin/dev/sjaramillo/pedometer/db/Database.kt:266-286 | saving a non-negative reading keeps every count non-negative |
| LedgerRows.SaveKeepsDays | app/src/main/kotlin/dev/sjaramillo/pedometer/db/Database.kt:266-274 | `saveCurrentSteps` changes no real day |
| LedgerRows.AddToLastLookup | app/src/main/kotlin/dev/sjaramillo/pedometer/db/Database.kt:100-104 | with one row per date, the latest date reads `s` higher and every other date is unchanged |
| LedgerRows.NewDayStartsAtZero | app/src/main/kotlin/dev/sjaramillo/pedometer/db/Database.kt:75-85 | after `insertNewDay(date, steps)` on a new date, `getSteps(date) == -steps` |
| LedgerRows.NewDayClosesLatest | app/src/main/kotlin/dev/sjaramillo/pedometer/db/Database.kt:75-85 | opening a new day adds `steps` to the previous latest date and leaves the other dates alone |
| LedgerRows.RemoveNegativeKeeps | app/src/main/kotlin/dev/sjaramillo/pedometer/db/Database.kt:215-217 | a non-negative row survives the purge and is looked up with its value |
| LedgerRows.RemoveNegativeDrops | app/src/main/kotlin/dev/sjaramillo/pedometer/db/Database.kt:215-217 | the date of a negative row has no row after the purge |
| LegacyDatabase.Database.constructor | app/src/main/kotlin/dev/sjaramillo/pedometer/db/Database.kt:37-40 | a freshly created table is empty |
| LegacyDatabase.Database.AddToLastEntry | app/src/main/kotlin/dev/sjaramillo/pedometer/db/Database.kt:100-104 | the new rows are `AddToLast` of the old rows |
| LegacyDatabase.Database.InsertNewDay | app/src/main/kotlin/dev/sjaramillo/pedometer/db/Database.kt:63-93 | the transaction yields `LedgerRows.InsertNewDay` of the old rows and keeps dates unique |
| LegacyDatabase.Database.UpdateSteps | app/src/main/kotlin/dev/sjaramillo/pedometer/db/Database.kt:121-122 | the update sets the date's rows and returns 0 iff no row had the date |
| LegacyDatabase.Database.InsertDayFromBackup | app/src/main/kotlin/dev/sjaramillo/pedometer/db/Database.kt:115-133 | returns true iff the date was absent; afterwards `getSteps(date) == steps`, other dates are unchanged, and dates stay unique |
| LegacyDatabase.Database.RemoveNegativeEntries | app/src/main/kotlin/dev/sjaramillo/pedometer/db/Database.kt:215-217 | the DELETE leaves `RemoveNegative` of the old rows |
| LegacyDatabase.Database.SaveCurrentSteps | app/src/main/kotlin/dev/sjaramillo/pedometer/db/Database.kt:266-274 | update the sentinel or insert it; afterwards `currentSteps == steps` |
| LegacyDatabase.Database.GetLastEntries | app/src/main/kotlin/dev/sjaramillo/pedometer/db/Database.kt:185-206 | returns the pairs of the query's cursor rows, in cursor order: `min(num, n)` pairs (all `n` when `num < 0`), each read from a stored row with a positive date, with an `Int` count, newest first |
| LegacyDatabase.CopyCursor | app/src/main/kotlin/dev/sjaramillo/pedometer/db/Database.kt:197-203 | the cursor loop copies every row, in order, as a (date, steps) pair |
| LegacyDatabase.ReadPair | app/src/main/kotlin/dev/sjaramillo/pedometer/db/Database.kt:201 | `getLong(0)` keeps the date; `getInt(1)` gives an `Int`, equal to the stored count when that count is an `Int` |
| LegacyDatabase.Pairs | app/src/main/kotlin/dev/sjaramillo/pedometer/db/Database.kt:201 | one pair per cursor row, the row read as `ReadPair` |
| LegacyDatabase.LastEntryPairs | app/src/main/kotlin/dev/sjaramillo/pedometer/db/Database.kt:185-206 | the result has exactly `min(num, n)` pairs when `num >= 0` and all `n` otherwise, `n` counting the rows with a positive date. Each pair is read from a present row with a positive date and has an `Int` count; when every stored count is an `Int`, each pair is a present row. The pairs are newest first, and every such row's pair is there when `num < 0` |
| LegacyDatabase.LastEntryPairsAreNewest | app/src/main/kotlin/dev/sjaramillo/pedometer/db/Database.kt:185-206 | the pairs are the newest: the pair of a positive-date row later than the `i`th pair appears among the pairs before it |
| LegacyDatabase.SetStepsAbsent | app/src/main/kotlin/dev/sjaramillo/pedometer/db/Database.kt:121-123 | an UPDATE of an absent date changes nothing |
| Lifecycle.Save | app/src/main/kotlin/dev/sjaramillo/pedometer/service/SensorListener.kt:80-84 | open today when `getSteps(today)` is `Int.MIN_VALUE`, then save the reading; afterwards `currentSteps` is the reading |
| Lifecycle.Boot | app/src/main/kotlin/dev/sjaramillo/pedometer/receiver/BootReceiver.kt:33-43 | after the boot writes, the sentinel reads 0 and no row has negative steps |
| Lifecycle.Shutdown | app/src/main/kotlin/dev/sjaramillo/pedometer/receiver/ShutdownReceiver.kt:38-47 | the shutdown writes add at most one row and change no existing row's date; with a non-negative saved reading, today has an entry afterwards |
| Lifecycle.SameDaySaveKeepsDays | app/src/main/kotlin/dev/sjaramillo/pedometer/service/SensorListener.kt:80-84 | a save on a day that already has an entry changes no real day |
| Lifecycle.NewDaySaveStartsAtZero | app/src/main/kotlin/dev/sjaramillo/pedometer/service/SensorListener.kt:80-84 | the first save of a new day stores offset `-reading`, so offset + reading is 0 |
| Lifecycle.DayCountIsReadingDifference | app/src/main/kotlin/dev/sjaramillo/pedometer/db/Database.kt:46-62 | a day opened at reading `r1`, saved again, and closed by the next day's first save at `r3` ends up holding `r3 - r1` |
| Lifecycle.MaxDateIs | app/src/main/kotlin/dev/sjaramillo/pedometer/db/Database.kt:102 | `MAX(date)` is a present date that no row exceeds |
| Lifecycle.SaveStepKeepsUnique | app/src/main/kotlin/dev/sjaramillo/pedometer/service/SensorListener.kt:80-84 | a save keeps one row per date |
| Lifecycle.SaveKeepsBound | app/src/main/kotlin/dev/sjaramillo/pedometer/service/SensorListener.kt:80-84 | a save adds no date beyond today and the sentinel |
| Lifecycle.NewDaySaveDates | app/src/main/kotlin/dev/sjaramillo/pedometer/service/SensorListener.kt:80-84 | a save adds no date other than today and the sentinel |
| Lifecycle.CleanBootKeepsRows | app/src/main/kotlin/dev/sjaramillo/pedometer/receiver/BootReceiver.kt:33 | with `correctShutdown` set, no recovery happens: every non-negative real day keeps its value |
| Lifecycle.UncleanBootRecovers | app/src/main/kotlin/dev/sjaramillo/pedometer/receiver/BootReceiver.kt:33-39 | without the flag, `max(currentSteps, 0)` is added to the latest day |
| Lifecycle.ShutdownKeepsSentinel | app/src/main/kotlin/dev/sjaramillo/pedometer/receiver/ShutdownReceiver.kt:38-47 | shutdown leaves the sentinel unchanged when a real day is the latest entry |
| Lifecycle.ShutdownOnSentinelOnly | app/src/main/kotlin/dev/sjaramillo/pedometer/receiver/ShutdownReceiver.kt:40-42 | with only the sentinel in the table, shutdown doubles the sentinel |
| Lifecycle.ShutdownThenBootCountsOnce | app/src/main/kotlin/dev/sjaramillo/pedometer/receiver/ShutdownReceiver.kt:35-46 | shutdown, then a boot with the flag set, equals a boot that recovers the reading: it is counted once |
| Lifecycle.BootWithoutFlagCountsTwice | app/src/main/kotlin/dev/sjaramillo/pedometer/receiver/BootReceiver.kt:33-39 | without the flag a shutdown and a boot would add the reading to today twice |
| Lifecycle.RemoveNegativeAppend | app/src/main/kotlin/dev/sjaramillo/pedometer/db/Database.kt:215-217 | a new day's negative offset is purged on boot |
| Lifecycle.CleanRebootKeepsTodaysCount | app/src/main/kotlin/dev/sjaramillo/pedometer/receiver/ShutdownReceiver.kt:43-45 | after a clean reboot today holds offset + saved reading, the count shown before, and the sentinel is 0 |
| Receivers.Preferences.constructor | app/src/main/kotlin/dev/sjaramillo/pedometer/receiver/BootReceiver.kt:33 | an absent `correctShutdown` reads as false |
| Receivers.OnBootReceive | app/src/main/kotlin/dev/sjaramillo/pedometer/receiver/BootReceiver.kt:27-53 | other actions change nothing and start no service; on `BOOT_COMPLETED` the rows become `Boot(old rows, old flag)`, the flag is cleared, the sentinel is 0, and no row is negative |
| Receivers.OnShutdownReceive | app/src/main/kotlin/dev/sjaramillo/pedometer/receiver/ShutdownReceiver.kt:32-48 | sets the flag; the rows become `Shutdown(old rows, today)` |
| Receivers.Reboot | app/src/main/kotlin/dev/sjaramillo/pedometer/receiver/ShutdownReceiver.kt:35-46 | both receivers in turn leave the rows a recovering boot would, with the flag cleared |
| Sensor.FloatToInt | app/src/main/kotlin/dev/sjaramillo/pedometer/service/SensorListener.kt:64 | `Float.toInt()` truncates toward zero and saturates at the `Int` range |
| Sensor.SaveDue | app/src/main/kotlin/dev/sjaramillo/pedometer/service/SensorListener.kt:73-75 | when the threshold does not overflow, a save is due iff the reading is more than 500 above the last saved one, or positive and more than an hour has passed |
| Sensor.NotificationFor | app/src/main/kotlin/dev/sjaramillo/pedometer/service/SensorListener.kt:208-221 | waiting text iff no positive reading; goal reached iff count >= goal; an unseen day counts 0 |
| Sensor.SensorListener.constructor | app/src/main/kotlin/dev/sjaramillo/pedometer/service/SensorListener.kt:192-194 | `steps`, `lastSaveSteps` and `lastSaveTime` start at 0 |
| Sensor.SensorListener.UpdateIfNecessary | app/src/main/kotlin/dev/sjaramillo/pedometer/service/SensorListener.kt:72-93 | saves iff the throttle condition holds at the first clock read `now`; a save performs `Lifecycle.Save` and records the reading and the second clock read `saveTime`; otherwise nothing changes |
| Sensor.SensorListener.OnSensorChanged | app/src/main/kotlin/dev/sjaramillo/pedometer/service/SensorListener.kt:60-67 | a reading above `Int.MAX_VALUE` changes nothing; otherwise `steps` is the truncated reading, and a save happens iff it is due at `now`, recording `saveTime` |
| Sensor.SensorListener.GetNotification | app/src/main/kotlin/dev/sjaramillo/pedometer/service/SensorListener.kt:196-221 | falls back to the saved reading only when `steps == 0`, then shows `NotificationFor(today's offset, steps, goal)` |
| Sensor.NoSaveRightAfterSave | app/src/main/kotlin/dev/sjaramillo/pedometer/service/SensorListener.kt:73-75 | no save until the reading passes the last saved reading by 500 or an hour passes |
| Sensor.StepThresholdSaves | app/src/main/kotlin/dev/sjaramillo/pedometer/service/SensorListener.kt:73 | a reading more than 500 above the last save is saved |
| Sensor.HourlySave | app/src/main/kotlin/dev/sjaramillo/pedometer/service/SensorListener.kt:74 | a positive reading is saved once an hour has passed |
| Sensor.ZeroReadingNeedsThreshold | app/src/main/kotlin/dev/sjaramillo/pedometer/service/SensorListener.kt:73-75 | a zero reading is saved only when the wrapped threshold is negative |
| Sensor.WrappedThresholdSavesAlways | app/src/main/kotlin/dev/sjaramillo/pedometer/service/SensorListener.kt:73 | within 500 of `Int.MAX_VALUE` the threshold wraps and every non-negative reading is saved |
| Sensor.NotificationShowsTodaysCount | app/src/main/kotlin/dev/sjaramillo/pedometer/service/SensorListener.kt:209-218 | without overflow the count is offset + reading; goal reached iff it is >= goal, otherwise `goal - offset - steps` remain |
| Sensor.UnseenDayShowsZero | app/src/main/kotlin/dev/sjaramillo/pedometer/service/SensorListener.kt:209 | a day with no entry shows 0 steps and the whole goal remaining |
| Sensor.FirstSaveOfDayShowsZero | app/src/main/kotlin/dev/sjaramillo/pedometer/service/SensorListener.kt:80-84 | right after the first save of a day, the notification shows 0 |
| Keys.SomeKey | app/src/main/kotlin/dev/sjaramillo/pedometer/data/DailyStepsDao.kt:28 | a non-empty key set has a member |
| Keys.HasLeast | app/src/main/kotlin/dev/sjaramillo/pedometer/data/DailyStepsDao.kt:21 | a non-empty key set has a least element |
| Keys.HasGreatest | app/src/main/kotlin/dev/sjaramillo/pedometer/data/DailyStepsDao.kt:28 | a non-empty key set has a greatest element |
| Keys.Least | app/src/main/kotlin/dev/sjaramillo/pedometer/data/DailyStepsDao.kt:21 | the least key is present and below every key |
| Keys.Greatest | app/src/main/kotlin/dev/sjaramillo/pedometer/data/DailyStepsDao.kt:28 | `MAX(day)` is present and above every key |
| Keys.Ascending | app/src/main/kotlin/dev/sjaramillo/pedometer/data/DailyStepsDao.kt:7 | the keys in strictly ascending order, each once |
| Keys.Descending | app/src/main/kotlin/dev/sjaramillo/pedometer/data/DailyStepsDao.kt:13 | "ORDER BY day DESC" lists the keys strictly descending, each once |
| Keys.SumSplit | app/src/main/kotlin/dev/sjaramillo/pedometer/data/DailyStepsDao.kt:21 | a SUM over two key sets, one wholly below the other, is the sum of the two SUMs |
| Keys.SumSingle | app/src/main/kotlin/dev/sjaramillo/pedometer/data/DailyStepsDao.kt:21 | the SUM over one key is its value |
| Keys.SumNonNegative | app/src/main/kotlin/dev/sjaramillo/pedometer/data/DailyStepsDao.kt:21 | a SUM of non-negative values is non-negative |
| Keys.SubsetSize | app/src/main/kotlin/dev/sjaramillo/pedometer/data/DailyStepsDao.kt:25 | a COUNT over a subset of the keys is at most the number of keys |
| Room.PositiveDays | app/src/main/kotlin/dev/sjaramillo/pedometer/data/DailyStepsDao.kt:7 | the "day > 0" filter keeps exactly the positive keys |
| Room.EntriesOf | app/src/main/kotlin/dev/sjaramillo/pedometer/data/DailyStepsDao.kt:7 | each listed day becomes its `DailySteps(day, steps)` entity |
| Room.AllEntries | app/src/main/kotlin/dev/sjaramillo/pedometer/data/DailyStepsDao.kt:7-8 | `getAll()` lists every positive day once, with its value, in ascending order |
| Room.StepsOf | app/src/main/kotlin/dev/sjaramillo/pedometer/data/DailyStepsDao.kt:10-11 | `getSteps(day)` is null iff the day has no entry, otherwise the stored value |
| Room.Limit | app/src/main/kotlin/dev/sjaramillo/pedometer/data/DailyStepsDao.kt:13 | `LIMIT num` keeps a prefix of length `num`, or everything when `num` is negative or too large |
| Room.LastEntries | app/src/main/kotlin/dev/sjaramillo/pedometer/data/DailyStepsDao.kt:13-14 | `min(num, count)` entries with positive days, or all when `num < 0`, in strictly descending day order, with their stored values |
| Room.LastEntriesAreNewest | app/src/main/kotlin/dev/sjaramillo/pedometer/data/DailyStepsDao.kt:13 | no positive day newer than a returned entry is skipped |
| Room.DescendingPrefix | app/src/main/kotlin/dev/sjaramillo/pedometer/data/DailyStepsDao.kt:13 | in a strictly descending list, a larger member comes earlier |
| Room.Best | app/src/main/kotlin/dev/sjaramillo/pedometer/data/DailyStepsDao.kt:17 | "ORDER BY steps DESC LIMIT 1" picks a listed day with the greatest steps |
| Room.Record | app/src/main/kotlin/dev/sjaramillo/pedometer/data/DailyStepsDao.kt:16-18 | `getRecord()` is absent iff there is no positive day; otherwise a positive day whose steps are >= every positive day's |
| Room.RangeDays | app/src/main/kotlin/dev/sjaramillo/pedometer/data/DailyStepsDao.kt:21 | "day >= start AND day <= end" keeps exactly the keys in the inclusive range |
| Room.RangeSum | app/src/main/kotlin/dev/sjaramillo/pedometer/data/DailyStepsDao.kt:20-22 | `getStepsFromDayRange` is 0 over an empty range and non-negative when every value in range is |
| Room.DaysWithoutToday | app/src/main/kotlin/dev/sjaramillo/pedometer/data/DailyStepsDao.kt:24-26 | the count of entries with `steps > 0` and `0 < day < today` lies between 0 and the number of entries |
| Room.AddToMax | app/src/main/kotlin/dev/sjaramillo/pedometer/data/DailyStepsDao.kt:28-29 | `addToLastEntry(s)` adds `s` to the maximum key, sentinel included, and leaves every other entry and the key set alone |
| Room.InsertAll | app/src/main/kotlin/dev/sjaramillo/pedometer/data/DailyStepsDao.kt:31-32 | a REPLACE insert has exactly the old days and the entities' days as keys |
| Room.InsertAllStep | app/src/main/kotlin/dev/sjaramillo/pedometer/data/DailyStepsDao.kt:31-32 | one more entity replaces its day's value |
| Room.InsertAllKeeps | app/src/main/kotlin/dev/sjaramillo/pedometer/data/DailyStepsDao.kt:31-32 | a day no entity names keeps its value |
| Room.InsertAllLast | app/src/main/kotlin/dev/sjaramillo/pedometer/data/DailyStepsDao.kt:31-32 | the last entity given for a day is the value left there |
| Room.PresentCount | app/src/main/kotlin/dev/sjaramillo/pedometer/data/DailyStepsDao.kt:34-35 | the number of entities whose day exists is at most their number, and 0 iff none exists |
| Room.UpdateAll | app/src/main/kotlin/dev/sjaramillo/pedometer/data/DailyStepsDao.kt:34-35 | `@Update` adds and removes no key |
| Room.UpdateAllKeeps | app/src/main/kotlin/dev/sjaramillo/pedometer/data/DailyStepsDao.kt:34-35 | a day no entity names keeps its value through `@Update` |
| Room.UpdateAllLast | app/src/main/kotlin/dev/sjaramillo/pedometer/data/DailyStepsDao.kt:34-35 | an existing day takes the last value given for it |
| Room.PresentCountStep | app/src/main/kotlin/dev/sjaramillo/pedometer/data/DailyStepsDao.kt:35 | one more entity adds 1 to the update count iff its day exists |
| Room.UpdateAllStep | app/src/main/kotlin/dev/sjaramillo/pedometer/data/DailyStepsDao.kt:35 | one more entity overwrites its day iff the day exists |
| Room.NonNegative | app/src/main/kotlin/dev/sjaramillo/pedometer/data/DailyStepsDao.kt:37-38 | exactly the entries with `steps >= 0` remain, with their values |
| Room.DailyStepsDao.AddToLastEntry | app/src/main/kotlin/dev/sjaramillo/pedometer/data/DailyStepsDao.kt:28-29 | the table becomes `AddToMax` of the old table |
| Room.DailyStepsDao.Insert | app/src/main/kotlin/dev/sjaramillo/pedometer/data/DailyStepsDao.kt:31-32 | the vararg insert loop yields `InsertAll` of the old table |
| Room.DailyStepsDao.Update | app/src/main/kotlin/dev/sjaramillo/pedometer/data/DailyStepsDao.kt:34-35 | the vararg update loop yields `UpdateAll` and returns the number of entities whose day existed |
| Room.DailyStepsDao.RemoveNegativeEntries | app/src/main/kotlin/dev/sjaramillo/pedometer/data/DailyStepsDao.kt:37-38 | the table becomes `NonNegative` of the old table |
| Room.RangeSumSplit | app/src/main/kotlin/dev/sjaramillo/pedometer/data/DailyStepsDao.kt:20-22 | `range(a, b) + range(b + 1, c) == range(a, c)` |
| Room.RangeSumOneDay | app/src/main/kotlin/dev/sjaramillo/pedometer/data/DailyStepsDao.kt:20-22 | the range of one day is its value, or 0 without an entry |
| Room.InsertReplaces | app/src/main/kotlin/dev/sjaramillo/pedometer/data/DailyStepsDao.kt:31-32 | inserting one entity maps its day to its value |
| Room.UpdateAbsent | app/src/main/kotlin/dev/sjaramillo/pedometer/data/DailyStepsDao.kt:34-35 | an update of an absent day returns 0 and changes nothing |
| Room.UpdatePresent | app/src/main/kotlin/dev/sjaramillo/pedometer/data/DailyStepsDao.kt:34-35 | an update of a present day returns 1 and overwrites it |
| Repository.NewDay | app/src/main/kotlin/dev/sjaramillo/pedometer/data/StepsRepository.kt:66-73 | a present day leaves the table unchanged; an absent one adds `steps` to the previous maximum day, keeps the other days, and stores `-steps` for the day |
| Repository.StepsRepository.constructor | app/src/main/kotlin/dev/sjaramillo/pedometer/data/StepsRepository.kt:6-8 | the repository works on the given DAO |
| Repository.StepsRepository.GetSteps | app/src/main/kotlin/dev/sjaramillo/pedometer/data/StepsRepository.kt:17-19 | `Long.MIN_VALUE` when the day has no entry, otherwise the stored value |
| Repository.StepsRepository.GetTotalWithoutToday | app/src/main/kotlin/dev/sjaramillo/pedometer/data/StepsRepository.kt:25-27 | the sum over days 0 up to and including today: the total before today plus today's own value, and non-negative when those entries are |
| Repository.StepsRepository.GetStepsSinceBoot | app/src/main/kotlin/dev/sjaramillo/pedometer/data/StepsRepository.kt:32-34 | the sentinel's value, or 0 without a sentinel |
| Repository.StepsRepository.GetDays | app/src/main/kotlin/dev/sjaramillo/pedometer/data/StepsRepository.kt:36-38 | at least 1 and at most the number of entries plus 1 |
| Repository.StepsRepository.UpdateStepsSinceBoot | app/src/main/kotlin/dev/sjaramillo/pedometer/data/StepsRepository.kt:40-43 | the sentinel becomes `steps`, and no other day reads differently |
| Repository.StepsRepository.AddToLastEntry | app/src/main/kotlin/dev/sjaramillo/pedometer/data/StepsRepository.kt:45-47 | delegates to the DAO's `addToLastEntry` |
| Repository.StepsRepository.InsertNewDay | app/src/main/kotlin/dev/sjaramillo/pedometer/data/StepsRepository.kt:66-73 | the table becomes `NewDay(old table, day, steps)` |
| Repository.StepsRepository.InsertDayFromBackup | app/src/main/kotlin/dev/sjaramillo/pedometer/data/StepsRepository.kt:84-92 | returns true iff the day was absent; either way the day then maps to `steps` and nothing else changes |
| Repository.StepsRepository.RemoveNegativeEntries | app/src/main/kotlin/dev/sjaramillo/pedometer/data/StepsRepository.kt:95-97 | the table keeps exactly the non-negative entries |
| Repository.NewDayStartsAtZero | app/src/main/kotlin/dev/sjaramillo/pedometer/data/StepsRepository.kt:49-73 | right after opening an absent day, `getSteps(day) + steps == 0` |
| Repository.NewDayKeepsSinceBoot | app/src/main/kotlin/dev/sjaramillo/pedometer/data/StepsRepository.kt:66-73 | opening a day leaves the sentinel alone when a real day is the maximum |
| Repository.TotalIncludesToday | app/src/main/kotlin/dev/sjaramillo/pedometer/data/StepsRepository.kt:25-27 | `getTotalWithoutToday` is the total before today plus today's own value |
| Backup.DigitChar | app/src/main/kotlin/dev/sjaramillo/pedometer/ui/SettingsFragment.kt:320-321 | a digit value prints as the matching ASCII digit |
| Backup.NatToString | app/src/main/kotlin/dev/sjaramillo/pedometer/ui/SettingsFragment.kt:321 | a natural prints as a non-empty run of digits |
| Backup.IntToString | app/src/main/kotlin/dev/sjaramillo/pedometer/ui/SettingsFragment.kt:320 | an integer prints as digits with an optional minus sign, and with no sign when it is non-negative |
| Backup.DigitValue | app/src/main/kotlin/dev/sjaramillo/pedometer/ui/SettingsFragment.kt:262-263 | a digit character has a value from 0 to 9 |
| Backup.ParseSigned | app/src/main/kotlin/dev/sjaramillo/pedometer/ui/SettingsFragment.kt:262-263 | `Long.valueOf` / `Integer.valueOf` succeed only with a value in the type's range |
| Backup.DigitsOfNat | app/src/main/kotlin/dev/sjaramillo/pedometer/ui/SettingsFragment.kt:321 | reading the printed digits of `n` gives `n` |
| Backup.ParsePrinted | app/src/main/kotlin/dev/sjaramillo/pedometer/ui/SettingsFragment.kt:262-263 | a printed in-range number parses back to itself |
| Backup.PrintedParsesToItself | app/src/main/kotlin/dev/sjaramillo/pedometer/ui/SettingsFragment.kt:262-263 | whenever a printed number parses, it parses to itself |
| Backup.Split | app/src/main/kotlin/dev/sjaramillo/pedometer/ui/SettingsFragment.kt:259 | `split(";")` yields at least one field and no field holds a `;` |
| Backup.SplitNoSeparator | app/src/main/kotlin/dev/sjaramillo/pedometer/ui/SettingsFragment.kt:259 | text without `;` is one field |
| Backup.SplitFirst | app/src/main/kotlin/dev/sjaramillo/pedometer/ui/SettingsFragment.kt:259 | the text before the first `;` is the first field, and the rest is split the same way |
| Backup.ParseLine | app/src/main/kotlin/dev/sjaramillo/pedometer/ui/SettingsFragment.kt:259-264 | a parsed line gives a `Long` day and an `Int` step count; a line with fewer than two fields fails |
| Backup.ExportLineParses | app/src/main/kotlin/dev/sjaramillo/pedometer/ui/SettingsFragment.kt:320-321 | an exported line with a `Long` date parses back to the date and the exported count `max(0, getInt(steps))`, and holds no line break |
| Backup.ExportedSteps | app/src/main/kotlin/dev/sjaramillo/pedometer/ui/SettingsFragment.kt:321 | `Math.max(0, c.getInt(1))` is an `Int` between 0 and `Int.MAX_VALUE`, and `max(0, steps)` when the stored count is an `Int` |
| Backup.ExportedStepsTruncates | app/src/main/kotlin/dev/sjaramillo/pedometer/ui/SettingsFragment.kt:321 | a stored count of `Int.MAX_VALUE + 1` is exported as 0, and one of `2^32 + 5` as 5 |
| Backup.ExportLine | app/src/main/kotlin/dev/sjaramillo/pedometer/ui/SettingsFragment.kt:320-321 | an exported line splits at `;` into exactly two fields, the printed date and the printed exported count |
| Backup.ExportLineParsesOnlyInRange | app/src/main/kotlin/dev/sjaramillo/pedometer/ui/SettingsFragment.kt:320-321 | an exported line parses iff its date is a `Long`; the exported count always is an `Int` |
| Backup.ExtraFieldsIgnored | app/src/main/kotlin/dev/sjaramillo/pedometer/ui/SettingsFragment.kt:259-264 | fields after the second do not affect the parse |
| Backup.MissingFieldIgnored | app/src/main/kotlin/dev/sjaramillo/pedometer/ui/SettingsFragment.kt:259-272 | a line without `;` lacks a field and is ignored |
| Backup.LineEnd | app/src/main/kotlin/dev/sjaramillo/pedometer/ui/SettingsFragment.kt:258 | the first line ends at the first `\n` or `\r`, or at the end of the text |
| Backup.ReadLines | app/src/main/kotlin/dev/sjaramillo/pedometer/ui/SettingsFragment.kt:258 | `readLine` yields lines that hold no line break |
| Backup.JoinedAppend | app/src/main/kotlin/dev/sjaramillo/pedometer/ui/SettingsFragment.kt:320-321 | writing one more line appends it and `\n` |
| Backup.ReadWritten | app/src/main/kotlin/dev/sjaramillo/pedometer/ui/SettingsFragment.kt:258 | reading back text written as `\n`-terminated lines gives exactly those lines |
| Backup.LineEndOf | app/src/main/kotlin/dev/sjaramillo/pedometer/ui/SettingsFragment.kt:258 | the first line of `l + "\n" + rest` ends after `l` |
| Backup.ExportRows | app/src/main/kotlin/dev/sjaramillo/pedometer/ui/SettingsFragment.kt:316 | the export cursor is exactly the rows with `date > 0`, each as often as it is stored (same multiset, so the length is the count of real-day rows), in ascending date order |
| Backup.ExportLines | app/src/main/kotlin/dev/sjaramillo/pedometer/ui/SettingsFragment.kt:318-323 | the file has one line per exported row, in the same order |
| Backup.ExportLinesAppend | app/src/main/kotlin/dev/sjaramillo/pedometer/ui/SettingsFragment.kt:319-322 | each cursor step appends that row's line |
| Backup.ExportLinesClean | app/src/main/kotlin/dev/sjaramillo/pedometer/ui/SettingsFragment.kt:320-321 | no exported line holds a line break |
| Backup.WriteToFile | app/src/main/kotlin/dev/sjaramillo/pedometer/ui/SettingsFragment.kt:315-323 | the cursor loop writes exactly the exported text of the table, each count read through `getInt` |
| Backup.ImportLine | app/src/main/kotlin/dev/sjaramillo/pedometer/ui/SettingsFragment.kt:259-272 | one line adds exactly 1 to the three counters, and leaves `ignored` unchanged iff it parses |
| Backup.ImportAllStep | app/src/main/kotlin/dev/sjaramillo/pedometer/ui/SettingsFragment.kt:258-273 | the import of one more line is one more `ImportLine` step |
| Backup.ImportAll | app/src/main/kotlin/dev/sjaramillo/pedometer/ui/SettingsFragment.kt:258-273 | `inserted + overwritten + ignored` is the number of lines, and `ignored == 0` iff every line parses |
| Backup.ImportOne | app/src/main/kotlin/dev/sjaramillo/pedometer/ui/SettingsFragment.kt:259-272 | the loop body upserts a parsed line through `insertDayFromBackup` and bumps the matching counter, or counts the line as ignored |
| Backup.ImportLines | app/src/main/kotlin/dev/sjaramillo/pedometer/ui/SettingsFragment.kt:258-273 | the read loop ends with `ImportAll`'s table and counts |
| Backup.ImportCsv | app/src/main/kotlin/dev/sjaramillo/pedometer/ui/SettingsFragment.kt:252-273 | importing the file's lines upserts each parsed line, counts each line once as inserted, overwritten or ignored, and ends with `ImportAll`'s table and counts |
| Backup.ImportMessage | app/src/main/kotlin/dev/sjaramillo/pedometer/ui/SettingsFragment.kt:285-290 | the message reports `inserted + overwritten`, and notes overwritten or ignored lines iff their counts are positive |
| Backup.ImportedValue | app/src/main/kotlin/dev/sjaramillo/pedometer/ui/SettingsFragment.kt:261-269 | a day whose parsed lines all carry `v` reads `v` after the import |
| Backup.ExportTextLines | app/src/main/kotlin/dev/sjaramillo/pedometer/ui/SettingsFragment.kt:318-323 | reading the exported file back gives exactly the exported lines |
| Backup.ExportedValuesAgree | app/src/main/kotlin/dev/sjaramillo/pedometer/ui/SettingsFragment.kt:320-321 | with one row per date, every exported line for a row's date carries that row's exported count |
| Backup.ExportedLinePresent | app/src/main/kotlin/dev/sjaramillo/pedometer/ui/SettingsFragment.kt:316-323 | a real day with a `Long` date has an exported line that parses to its date and exported count |
| Backup.ImportOfExportRestores | app/src/main/kotlin/dev/sjaramillo/pedometer/ui/SettingsFragment.kt:234-238 | importing an exported file into any table restores every exported day to its exported count `max(0, getInt(steps))`, overwriting what was there |
| Backup.ExportedLineOf | app/src/main/kotlin/dev/sjaramillo/pedometer/ui/SettingsFragment.kt:320-321 | with one row per date, the exported line for a date carries that row's exported count |
| Backup.SameDateSameRow | app/src/main/kotlin/dev/sjaramillo/pedometer/db/Database.kt:115-133 | with one row per date, two rows with the same date are the same row |

## Left out

- Sensor.FloatToInt: the sensor's `Float` reading is an exact real. Float rounding of large counts is not modelled, and neither is NaN, which `toInt()` maps to 0.
- LedgerRows.TotalWithoutToday: the sum is unbounded. SQLite's 64-bit `SUM` and `getInt`'s truncation of the result to 32 bits are not modelled. The same holds for `Room.RangeSum`, `LedgerRows.GetSteps` (`getInt` on a stored value) and the `Long` additions of `Room.AddToMax`.
- LedgerRows.AddToLast: a row's steps plus `s` is not wrapped to SQLite's 64-bit integer range.
- Sensor.NotificationFor: it models the content of the notification (count, goal, remaining). Locale formatting, strings and the builder are not modelled.
- Room.Record: an empty table yields `None`. What Room does with a non-null `DailySteps` return type and no row is not modelled; the source marks it as unverified.
- Room.Best: ties on the maximum steps go to the first day in ascending order. SQL leaves the order among ties unspecified.
- Room.AllEntries: `getAll` has no ORDER BY. The model returns the days in ascending order, SQLite's rowid-scan order for the primary key, which SQL does not guarantee.
- LedgerRows.SortByDate: the legacy `ORDER BY date` is a stable insertion sort. SQLite's order among equal dates is unspecified.
- LedgerRows.GetSteps: the first row in table order stands for the row SQLite's cursor returns first.
- Lifecycle.ShutdownKeepsSentinel: "shutdown never changes the sentinel" holds only when a real day is the latest entry, and it is stated with that requirement. `Lifecycle.ShutdownOnSentinelOnly` shows that with only the sentinel present, shutdown doubles it.
- Lifecycle.ShutdownThenBootCountsOnce: stated for a non-negative saved reading. When today is unseen, it also requires a positive reading, so that the new day's offset row is purged on boot.
- Backup.ParseSigned: only ASCII digits are accepted. The other Unicode decimal digits `Long.valueOf` and `Integer.valueOf` also accept are not modelled.
- Calendar.CivilFromDays: every integer is a day. `LocalDate`'s year limit of ±999999999 is not modelled.
- DayIndex.UtilToday: `LocalDate.now()` and the default time zone are a `Date` parameter.
- Clock reads (`System.currentTimeMillis()`) and `Util.today` are parameters `now` and `today`. `updateIfNecessary` reads the clock twice, once for the condition and once after the writes; these are the separate parameters `now` and `saveTime`, and the model puts no relation between them. The goal preference is the `goal` parameter, whose default is `Sensor.DefaultGoal`.
- File I/O and permissions: storage checks, `BufferedReader`/`BufferedWriter`, `IOException` handling and the alert dialogs of `importCsv` and `writeToFile` are not modelled. The file content is a string parameter or result.
- Notification building, sensor registration, alarms, `StepsUpdaterJob`, `StepsCounterWorker`, `AppUpdatedReceiver` and `startForegroundService` are platform plumbing. `OnBootReceive` returns whether the service is started.
- Concurrency: the `Database` open counter and the synchronized singletons are not modelled. Each transaction body is one atomic method.
- `TimeUtil.today` and `TimeUtil.tomorrow`: they depend on wall-clock time and local-time-zone `Calendar` arithmetic.
- Repository methods that callers reference but `StepsRepository` does not define (`getStepsToday`, `getRecord`, `getStepsFromDayRange`, `getTotalDays`) are not part of this model.
- Presentation code (`HomeFragment`, `OverviewFragment`, the statistics screens, the dialogs) and the floating-point distance conversions are not part of this model.
- `StepsRepository.getLastEntries`, the DAO getters other than those with rows above, and the legacy getters `Database.getSteps`, `Database.getCurrentSteps`, `Database.getTotalWithoutToday` and `Database.getDays` (`LegacyDatabase.Database.GetSteps`, `CurrentSteps`, `TotalWithoutToday`, `Days`) are plain delegations without a contract of their own; the functions they delegate to carry the rows.
