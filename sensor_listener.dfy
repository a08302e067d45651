/**
 * The step service `SensorListener`: the reading filter, the save throttle
 * and the today-count of the ongoing notification. The companion object's
 * `steps`, `lastSaveSteps` and `lastSaveTime` are fields of one class; the
 * clock and `Util.today` are passed in as `now` and `today`.
 */
module Sensor {
  import opened Limits
  import opened LedgerRows
  import LegacyDatabase
  import Lifecycle

  /** `SAVE_OFFSET_STEPS`. */
  const SaveOffsetSteps: int := 500
  /** `SAVE_OFFSET_TIME` = `AlarmManager.INTERVAL_HOUR`, in milliseconds. */
  const SaveOffsetTime: int := 3_600_000
  /** `Int.MAX_VALUE` as the float it is promoted to in the filter. */
  const IntMaxAsFloat: real := 2147483648.0
  /** The default of the "goal" preference. */
  const DefaultGoal: int := 10000

  /** `Float.toInt()` on a number: truncation toward zero, saturating at the `Int` range. */
  function FloatToInt(v: real): (r: int)
    ensures IsInt(r)
    ensures v >= 0.0 && v <= IntMax as real ==> r as real <= v < r as real + 1.0
    ensures v < 0.0 && v >= IntMin as real ==> r as real - 1.0 < v <= r as real
    ensures v > IntMax as real ==> r == IntMax
    ensures v < IntMin as real ==> r == IntMin
  {
    if v > IntMax as real then IntMax
    else if v < IntMin as real then IntMin
    else if v >= 0.0 then v.Floor
    else -((-v).Floor)
  }

  /** The condition of `updateIfNecessary`, with the `Int` addition wrapping. */
  predicate SaveDue(steps: int, lastSaveSteps: int, lastSaveTime: int, now: int)
    ensures IsInt(lastSaveSteps + SaveOffsetSteps) ==>
              (SaveDue(steps, lastSaveSteps, lastSaveTime, now) <==>
               steps > lastSaveSteps + SaveOffsetSteps || (steps > 0 && now > lastSaveTime + SaveOffsetTime))
  {
    steps > WrapInt(lastSaveSteps + SaveOffsetSteps) || (steps > 0 && now > lastSaveTime + SaveOffsetTime)
  }

  /** What the notification shows. */
  datatype Notification =
    | Waiting                                          // no reading yet
    | GoalReached(goal: int, count: int)               // progress bar full, "goal reached" text
    | Remaining(goal: int, count: int, left: int)      // progress bar, "N steps to go" text

  /** The content `getNotification` builds from today's offset, the reading and the goal. */
  function NotificationFor(todayOffset: int, steps: int, goal: int): (n: Notification)
    ensures steps <= 0 <==> n == Waiting
    ensures n.GoalReached? ==> n.count >= goal && n.goal == goal
    ensures n.Remaining? ==> n.count < goal && n.goal == goal
    ensures steps > 0 && todayOffset == IntMin ==> n.count == 0
  {
    if steps > 0 then
      var offset := if todayOffset == IntMin then -steps else todayOffset;
      var count := WrapInt(offset + steps);
      if count >= goal then GoalReached(goal, count)
      else Remaining(goal, count, WrapInt(WrapInt(goal - offset) - steps))
    else
      Waiting
  }

  class SensorListener {
    const db: LegacyDatabase.Database
    var steps: int
    var lastSaveSteps: int
    var lastSaveTime: int

    constructor (db: LegacyDatabase.Database)
      ensures this.db == db && steps == 0 && lastSaveSteps == 0 && lastSaveTime == 0
    {
      this.db := db;
      steps := 0;
      lastSaveSteps := 0;
      lastSaveTime := 0;
    }

    /**
     * `updateIfNecessary`: when a save is due, open today if it has no
     * entry, store the reading in the sentinel and remember what was saved
     * and when. Returns whether it saved. The clock is read twice: `now`
     * for the condition, `saveTime` after the writes for `lastSaveTime`.
     */
    method UpdateIfNecessary(now: int, saveTime: int, today: int) returns (updated: bool)
      modifies this, db
      ensures updated <==> SaveDue(old(steps), old(lastSaveSteps), old(lastSaveTime), now)
      ensures steps == old(steps)
      ensures updated ==> db.rows == Lifecycle.Save(old(db.rows), today, steps) && lastSaveSteps == steps && lastSaveTime == saveTime
      ensures !updated ==> db.rows == old(db.rows) && lastSaveSteps == old(lastSaveSteps) && lastSaveTime == old(lastSaveTime)
    {
      if SaveDue(steps, lastSaveSteps, lastSaveTime, now) {
        if db.GetSteps(today) == IntMin {
          db.InsertNewDay(today, steps);
        }
        db.SaveCurrentSteps(steps);
        lastSaveSteps := steps;
        lastSaveTime := saveTime;
        updated := true;
      } else {
        updated := false;
      }
    }

    /** `onSensorChanged`: drop readings above `Int.MAX_VALUE`, otherwise take the reading and save if due. */
    method OnSensorChanged(value: real, now: int, saveTime: int, today: int)
      modifies this, db
      ensures value > IntMaxAsFloat ==> steps == old(steps) && db.rows == old(db.rows) &&
                                        lastSaveSteps == old(lastSaveSteps) && lastSaveTime == old(lastSaveTime)
      ensures value <= IntMaxAsFloat ==> steps == FloatToInt(value)
      ensures value <= IntMaxAsFloat && SaveDue(FloatToInt(value), old(lastSaveSteps), old(lastSaveTime), now) ==>
                db.rows == Lifecycle.Save(old(db.rows), today, steps) && lastSaveSteps == steps && lastSaveTime == saveTime
      ensures value <= IntMaxAsFloat && !SaveDue(FloatToInt(value), old(lastSaveSteps), old(lastSaveTime), now) ==>
                db.rows == old(db.rows) && lastSaveSteps == old(lastSaveSteps) && lastSaveTime == old(lastSaveTime)
    {
      if value > IntMaxAsFloat {
        return;
      }
      steps := FloatToInt(value);
      var _ := UpdateIfNecessary(now, saveTime, today);
    }

    /**
     * The content part of `getNotification`: fall back to the saved reading
     * when no reading arrived yet, then show today's count against the goal.
     */
    method GetNotification(today: int, goal: int) returns (n: Notification)
      modifies this
      ensures steps == if old(steps) == 0 then db.CurrentSteps() else old(steps)
      ensures lastSaveSteps == old(lastSaveSteps) && lastSaveTime == old(lastSaveTime)
      ensures n == NotificationFor(db.GetSteps(today), steps, goal)
    {
      var todayOffset := db.GetSteps(today);
      if steps == 0 {
        steps := db.CurrentSteps();
      }
      if steps > 0 {
        if todayOffset == IntMin {
          todayOffset := -steps;
        }
        var count := WrapInt(todayOffset + steps);
        if count >= goal {
          n := GoalReached(goal, count);
        } else {
          n := Remaining(goal, count, WrapInt(WrapInt(goal - todayOffset) - steps));
        }
      } else {
        n := Waiting;
      }
    }
  }

  // ---------------------------------------------------------------------------
  // The throttle

  /** Right after a save, nothing is saved again until the reading grows by more than 500 or an hour passes. */
  lemma NoSaveRightAfterSave(steps: int, saveTime: int, reading: int, now: int)
    requires IsInt(steps + SaveOffsetSteps) && reading <= steps + SaveOffsetSteps && now <= saveTime + SaveOffsetTime
    ensures !SaveDue(reading, steps, saveTime, now)
  {
  }

  /** A reading more than 500 above the last save is always saved, whatever the time. */
  lemma StepThresholdSaves(lastSaveSteps: int, lastSaveTime: int, reading: int, now: int)
    requires IsInt(lastSaveSteps + SaveOffsetSteps) && reading > lastSaveSteps + SaveOffsetSteps
    ensures SaveDue(reading, lastSaveSteps, lastSaveTime, now)
  {
  }

  /** A positive reading is saved once an hour has passed, even if it has not grown. */
  lemma HourlySave(lastSaveSteps: int, lastSaveTime: int, reading: int, now: int)
    requires reading > 0 && now > lastSaveTime + SaveOffsetTime
    ensures SaveDue(reading, lastSaveSteps, lastSaveTime, now)
  {
  }

  /** A zero reading is saved only when it passes the step threshold. */
  lemma ZeroReadingNeedsThreshold(lastSaveSteps: int, lastSaveTime: int, now: int)
    ensures SaveDue(0, lastSaveSteps, lastSaveTime, now) <==> WrapInt(lastSaveSteps + SaveOffsetSteps) < 0
  {
  }

  /**
   * With a last saved reading within 500 of `Int.MAX_VALUE` the threshold
   * `lastSaveSteps + 500` wraps to a negative number, so every non-negative
   * reading is saved at once.
   */
  lemma WrappedThresholdSavesAlways(lastSaveSteps: int, lastSaveTime: int, reading: int, now: int)
    requires IsInt(lastSaveSteps) && lastSaveSteps > IntMax - SaveOffsetSteps && reading >= 0
    ensures SaveDue(reading, lastSaveSteps, lastSaveTime, now)
  {
    assert WrapInt(lastSaveSteps + SaveOffsetSteps) == lastSaveSteps + SaveOffsetSteps - 0x1_0000_0000;
  }

  // ---------------------------------------------------------------------------
  // The notification

  /** With today known and no overflow, the count shown is offset + reading and the remainder is goal - count. */
  lemma NotificationShowsTodaysCount(todayOffset: int, steps: int, goal: int)
    requires steps > 0 && todayOffset != IntMin
    requires IsInt(todayOffset + steps) && IsInt(goal - todayOffset) && IsInt(goal - todayOffset - steps)
    ensures todayOffset + steps >= goal ==> NotificationFor(todayOffset, steps, goal) == GoalReached(goal, todayOffset + steps)
    ensures todayOffset + steps < goal ==>
              NotificationFor(todayOffset, steps, goal) == Remaining(goal, todayOffset + steps, goal - todayOffset - steps)
  {
  }

  /** A day without an entry shows 0 steps, and the whole goal as remaining when the goal is positive. */
  lemma UnseenDayShowsZero(steps: int, goal: int)
    requires steps > 0 && IsInt(goal) && goal > 0
    ensures NotificationFor(IntMin, steps, goal) == Remaining(goal, 0, goal)
  {
  }

  /**
   * The first save of a new day and the notification it triggers agree: the
   * ledger's offset for today cancels the reading, so 0 steps are shown.
   */
  lemma FirstSaveOfDayShowsZero(rows: seq<Row>, today: int, steps: int, goal: int)
    requires !HasDate(rows, today) && today != Sentinel && 0 < steps <= IntMax && IsInt(goal)
    ensures NotificationFor(GetSteps(Lifecycle.Save(rows, today, steps), today), steps, goal).count == 0
  {
    Lifecycle.NewDaySaveStartsAtZero(rows, today, steps);
  }
}
