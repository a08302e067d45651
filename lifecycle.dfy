/**
 * The ledger's lifecycle transitions as functions of the rows: a periodic
 * save by the sensor service, the shutdown finalisation and the boot
 * recovery. The receiver and service methods are proved to perform exactly
 * these transitions; the lemmas say what the transitions achieve together.
 */
module Lifecycle {
  import opened Limits
  import opened LedgerRows

  /** The store writes of a save in `updateIfNecessary`: open today if it is new, then record the reading. */
  function Save(rows: seq<Row>, today: int, steps: int): (r: seq<Row>)
    ensures steps != IntMin ==> CurrentSteps(r) == steps
  {
    var started := if GetSteps(rows, today) == IntMin then InsertNewDay(rows, today, steps) else rows;
    if steps != IntMin then
      SaveThenCurrent(started, steps);
      SaveCurrent(started, steps)
    else
      SaveCurrent(started, steps)
  }

  /** BootReceiver's store writes after `BOOT_COMPLETED`. */
  function Boot(rows: seq<Row>, correctShutdown: bool): (r: seq<Row>)
    ensures CurrentSteps(r) == 0
    ensures forall i :: 0 <= i < |r| ==> r[i].steps >= 0
  {
    var recovered := if !correctShutdown then AddToLast(rows, Max0(CurrentSteps(rows))) else rows;
    var cleaned := RemoveNegative(recovered);
    SaveThenCurrent(cleaned, 0);
    SaveKeepsNonNegative(cleaned, 0);
    SaveCurrent(cleaned, 0)
  }

  /** ShutdownReceiver's store writes: open today if it is new, otherwise close the last entry with the saved reading. */
  function Shutdown(rows: seq<Row>, today: int): (r: seq<Row>)
    ensures |rows| <= |r| <= |rows| + 1
    ensures forall i :: 0 <= i < |rows| ==> r[i].date == rows[i].date
    ensures CurrentSteps(rows) >= 0 ==> HasDate(r, today)
  {
    var cur := CurrentSteps(rows);
    if GetSteps(rows, today) == IntMin then
      var r := InsertNewDay(rows, today, cur);
      if HasDate(rows, today) then
        var i :| 0 <= i < |rows| && rows[i].date == today;
        assert r[i].date == today;
        r
      else if cur >= 0 then
        assert r[|rows|].date == today;
        r
      else r
    else
      var r := AddToLast(rows, cur);
      var i :| 0 <= i < |rows| && rows[i].date == today;
      assert r[i].date == today;
      r
  }

  // ---------------------------------------------------------------------------
  // Saves

  /** A save on a day that already has a row touches only the sentinel. */
  lemma SameDaySaveKeepsDays(rows: seq<Row>, today: int, steps: int, d: int)
    requires GetSteps(rows, today) != IntMin && d != Sentinel
    ensures GetSteps(Save(rows, today, steps), d) == GetSteps(rows, d)
  {
    SaveKeepsDays(rows, steps, d);
  }

  /** The first save of a new day opens it at `-steps`, so the day's shown count starts at 0. */
  lemma NewDaySaveStartsAtZero(rows: seq<Row>, today: int, steps: int)
    requires !HasDate(rows, today) && today != Sentinel && steps >= 0
    ensures GetSteps(Save(rows, today, steps), today) + steps == 0
  {
    NewDayStartsAtZero(rows, today, steps);
    SaveKeepsDays(InsertNewDay(rows, today, steps), steps, today);
  }

  /**
   * The offset scheme over one day, within one boot: the day is opened by a
   * save at reading `r1`, any number of same-day saves follow (here one, at
   * `r2`), and the first save of the next day at reading `r3` closes it.
   * The closed day then holds `r3 - r1`, the steps the sensor counted
   * between the two day changes.
   */
  lemma DayCountIsReadingDifference(rows: seq<Row>, day: int, next: int, r1: int, r2: int, r3: int)
    requires UniqueDates(rows)
    requires Sentinel < day && next != Sentinel && next != day
    requires forall i :: 0 <= i < |rows| ==> rows[i].date < day
    requires !HasDate(rows, next)
    requires 0 <= r1 <= IntMax && 0 <= r2 && 0 <= r3
    ensures GetSteps(Save(Save(Save(rows, day, r1), day, r2), next, r3), day) == r3 - r1
  {
    var s1 := Save(rows, day, r1);
    assert !HasDate(rows, day);
    NewDaySaveStartsAtZero(rows, day, r1);
    SaveStepKeepsUnique(rows, day, r1);
    SaveKeepsBound(rows, day, r1, day);
    NewDaySaveDates(rows, day, r1, next);
    var s2 := Save(s1, day, r2);
    SameDaySaveKeepsDays(s1, day, r2, day);
    SaveStepKeepsUnique(s1, day, r2);
    SaveKeepsBound(s1, day, r2, day);
    NewDaySaveDates(s1, day, r2, next);
    assert GetSteps(s2, day) == -r1;
    MaxDateIs(s2, day);
    NewDayClosesLatest(s2, next, r3, day);
    SaveKeepsDays(InsertNewDay(s2, next, r3), r3, day);
  }

  /** The latest date is `d` when `d` is present and nothing is later. */
  lemma MaxDateIs(rows: seq<Row>, d: int)
    requires GetSteps(rows, d) != IntMin
    requires forall i :: 0 <= i < |rows| ==> rows[i].date <= d
    ensures rows != [] && MaxDate(rows) == d
  {
  }

  lemma SaveStepKeepsUnique(rows: seq<Row>, today: int, steps: int)
    requires UniqueDates(rows)
    ensures UniqueDates(Save(rows, today, steps))
  {
    var started := if GetSteps(rows, today) == IntMin then InsertNewDay(rows, today, steps) else rows;
    InsertNewDayKeepsUnique(rows, today, steps);
    UpsertKeepsUnique(started, Sentinel, steps);
  }

  /** A save adds no date above `bound` when today and the sentinel are within it. */
  lemma SaveKeepsBound(rows: seq<Row>, today: int, steps: int, bound: int)
    requires forall i :: 0 <= i < |rows| ==> rows[i].date <= bound
    requires today <= bound && Sentinel <= bound
    ensures forall i :: 0 <= i < |Save(rows, today, steps)| ==> Save(rows, today, steps)[i].date <= bound
  {
    var started := if GetSteps(rows, today) == IntMin then InsertNewDay(rows, today, steps) else rows;
    if started != rows {
      var a := AddToLast(rows, steps);
      assert started == a + [Row(today, -steps)];
      assert forall i :: 0 <= i < |a| ==> a[i].date <= bound;
    }
    assert forall i :: 0 <= i < |started| ==> started[i].date <= bound;
    if HasDate(started, Sentinel) {
      assert Save(rows, today, steps) == SetSteps(started, Sentinel, steps);
    } else {
      assert Save(rows, today, steps) == started + [Row(Sentinel, steps)];
    }
  }

  /** A save adds no date other than today's and the sentinel's. */
  lemma NewDaySaveDates(rows: seq<Row>, today: int, steps: int, d: int)
    requires d != Sentinel && d != today
    ensures HasDate(Save(rows, today, steps), d) <==> HasDate(rows, d)
  {
    var started := if GetSteps(rows, today) == IntMin then InsertNewDay(rows, today, steps) else rows;
    UpsertDates(started, Sentinel, steps, d);
    if HasDate(rows, d) {
      var k :| 0 <= k < |rows| && rows[k].date == d;
      assert started[k].date == d;
    }
    if HasDate(started, d) {
      var k :| 0 <= k < |started| && started[k].date == d;
      if started != rows {
        assert k < |rows|;
        assert rows[k].date == d;
      }
    }
  }

  // ---------------------------------------------------------------------------
  // Shutdown and boot

  /** A clean boot keeps every non-negative real row as it was: no recovery is added. */
  lemma CleanBootKeepsRows(rows: seq<Row>, i: int)
    requires UniqueDates(rows) && 0 <= i < |rows|
    requires rows[i].date != Sentinel && rows[i].steps >= 0
    ensures GetSteps(Boot(rows, true), rows[i].date) == rows[i].steps
  {
    RemoveNegativeKeeps(rows, i);
    SaveKeepsDays(RemoveNegative(rows), 0, rows[i].date);
  }

  /**
   * An unclean boot adds the saved reading, clamped at 0, to the latest
   * entry before the negative rows are purged.
   */
  lemma UncleanBootRecovers(rows: seq<Row>, i: int)
    requires UniqueDates(rows) && 0 <= i < |rows|
    requires rows[i].date != Sentinel && rows[i].date == MaxDate(rows)
    requires rows[i].steps + Max0(CurrentSteps(rows)) >= 0
    ensures GetSteps(Boot(rows, false), rows[i].date) == rows[i].steps + Max0(CurrentSteps(rows))
  {
    var s := Max0(CurrentSteps(rows));
    var a := AddToLast(rows, s);
    AddToLastKeepsUnique(rows, s);
    RemoveNegativeKeeps(a, i);
    SaveKeepsDays(RemoveNegative(a), 0, rows[i].date);
  }

  /** Shutdown leaves the sentinel alone whenever a real day is the latest entry. */
  lemma ShutdownKeepsSentinel(rows: seq<Row>, today: int)
    requires UniqueDates(rows) && rows != [] && MaxDate(rows) != Sentinel && today != Sentinel
    ensures GetSteps(Shutdown(rows, today), Sentinel) == GetSteps(rows, Sentinel)
  {
    var cur := CurrentSteps(rows);
    AddToLastLookup(rows, cur, Sentinel);
    if GetSteps(rows, today) == IntMin && !HasDate(rows, today) && cur >= 0 {
      NewDayClosesLatest(rows, today, cur, Sentinel);
    }
  }

  /**
   * When the sentinel is the only row, the unseen-day branch of shutdown
   * adds the reading to the sentinel itself: its value doubles until the
   * next boot resets it.
   */
  lemma ShutdownOnSentinelOnly(cur: int, today: int)
    requires cur > 0 && today != Sentinel
    ensures GetSteps(Shutdown([Row(Sentinel, cur)], today), Sentinel) == 2 * cur
  {
    var rows := [Row(Sentinel, cur)];
    assert GetSteps(rows, Sentinel) == cur;
    assert CurrentSteps(rows) == cur;
    assert !HasDate(rows, today);
    var a := AddToLast(rows, cur);
    assert a == [Row(Sentinel, 2 * cur)];
    assert Shutdown(rows, today) == a + [Row(today, -cur)];
  }

  /**
   * A clean shutdown followed by a boot equals a crash followed by a
   * recovering boot: the saved reading reaches the ledger exactly once,
   * because shutdown adds it and sets `correctShutdown`, which makes the
   * boot skip its own recovery.
   */
  lemma ShutdownThenBootCountsOnce(rows: seq<Row>, today: int)
    requires CurrentSteps(rows) >= 0
    requires GetSteps(rows, today) == IntMin ==> !HasDate(rows, today) && CurrentSteps(rows) > 0
    ensures Boot(Shutdown(rows, today), true) == Boot(rows, false)
  {
    var cur := CurrentSteps(rows);
    var a := AddToLast(rows, cur);
    assert Boot(rows, false) == SaveCurrent(RemoveNegative(a), 0);
    if GetSteps(rows, today) == IntMin {
      assert Shutdown(rows, today) == a + [Row(today, -cur)];
      RemoveNegativeAppend(a, Row(today, -cur));
    } else {
      assert Shutdown(rows, today) == a;
    }
  }

  /** Were the flag ignored, a shutdown and a boot would add the reading twice. */
  lemma BootWithoutFlagCountsTwice(rows: seq<Row>, today: int, i: int)
    requires UniqueDates(rows) && 0 <= i < |rows|
    requires rows[i].date == today && today == MaxDate(rows) && today != Sentinel
    requires rows[i].steps != IntMin && CurrentSteps(rows) > 0 && rows[i].steps >= 0
    ensures GetSteps(Boot(Shutdown(rows, today), false), today) == rows[i].steps + 2 * CurrentSteps(rows)
  {
    var cur := CurrentSteps(rows);
    UniqueGetSteps(rows, i);
    var s := Shutdown(rows, today);
    assert s == AddToLast(rows, cur);
    AddToLastKeepsUnique(rows, cur);
    UniqueGetSteps(s, i);
    assert s[i].steps == rows[i].steps + cur;
    assert MaxDate(s) == today by {
      var m :| 0 <= m < |s| && s[m].date == MaxDate(s);
      assert s[m].date == rows[m].date;
    }
    AddToLastLookup(rows, cur, Sentinel);
    assert CurrentSteps(s) == cur;
    UncleanBootRecovers(s, i);
  }

  lemma {:induction false} RemoveNegativeAppend(rows: seq<Row>, x: Row)
    requires x.steps < 0
    ensures RemoveNegative(rows + [x]) == RemoveNegative(rows)
  {
    if rows != [] {
      assert (rows + [x])[1..] == rows[1..] + [x];
      RemoveNegativeAppend(rows[1..], x);
    }
  }

  /**
   * The count shown for today survives a clean reboot: before shutdown it is
   * offset + saved reading; after the boot the row holds that sum and the
   * sensor restarts from 0.
   */
  lemma CleanRebootKeepsTodaysCount(rows: seq<Row>, today: int, i: int)
    requires UniqueDates(rows) && 0 <= i < |rows|
    requires rows[i].date == today && today == MaxDate(rows) && today != Sentinel
    requires rows[i].steps != IntMin && rows[i].steps + CurrentSteps(rows) >= 0
    ensures GetSteps(Boot(Shutdown(rows, today), true), today) == rows[i].steps + CurrentSteps(rows)
    ensures CurrentSteps(Boot(Shutdown(rows, today), true)) == 0
  {
    var cur := CurrentSteps(rows);
    UniqueGetSteps(rows, i);
    var s := Shutdown(rows, today);
    assert s == AddToLast(rows, cur);
    AddToLastKeepsUnique(rows, cur);
    assert s[i].steps == rows[i].steps + cur;
    CleanBootKeepsRows(s, i);
  }
}
