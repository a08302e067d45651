/**
 * `StepsRepository`: the Room-side facade over `DailyStepsDao`. Getters turn
 * Room's nullable answers into defaults; the writers are short sequences of
 * DAO calls. `DateUtil.getToday()` is passed in as `today`.
 */
module Repository {
  import opened Limits
  import opened Keys
  import opened Room

  const SinceBootDay: int := -1

  /** The table after `insertNewDay(day, steps)`: unchanged if `day` exists, else close the latest day and open `day` at `-steps`. */
  function NewDay(t: map<int, int>, day: int, steps: int): (r: map<int, int>)
    ensures day in t ==> r == t
    ensures day !in t ==> r.Keys == t.Keys + {day} && r[day] == -steps
    ensures day !in t && t != map[] ==> r[Greatest(t.Keys)] == t[Greatest(t.Keys)] + steps
    ensures day !in t ==> forall k :: k in t && (exists j :: j in t && j > k) ==> r[k] == t[k]
  {
    if day in t then t else AddToMax(t, steps)[day := -steps]
  }

  class StepsRepository {
    const dao: DailyStepsDao

    constructor (dao: DailyStepsDao)
      ensures this.dao == dao
    {
      this.dao := dao;
    }

    /** `getSteps(day)`: the stored value, `Long.MIN_VALUE` when the day has no entry. */
    function GetSteps(day: int): (r: int)
      reads dao
      ensures day !in dao.table ==> r == LongMin
      ensures day in dao.table ==> r == dao.table[day]
      ensures r == LongMin <==> day !in dao.table || dao.table[day] == LongMin
    {
      match dao.GetSteps(day)
      case Some(s) => s
      case None => LongMin
    }

    function GetLastEntries(num: int): seq<DailySteps>
      reads dao
    {
      dao.GetLastEntries(num)
    }

    /** `getTotalWithoutToday()`: the range sum from day 0 up to and including today. */
    function GetTotalWithoutToday(today: int): (r: int)
      reads dao
      ensures today >= 0 ==> r == RangeSum(dao.table, 0, today - 1) + if today in dao.table then dao.table[today] else 0
      ensures (forall k :: k in dao.table && 0 <= k <= today ==> dao.table[k] >= 0) ==> r >= 0
    {
      var total := dao.GetStepsFromDayRange(0, today);
      if today >= 0 then TotalIncludesToday(dao.table, today); total else total
    }

    /** `getStepsSinceBoot()`: the sentinel's value, 0 without a sentinel entry. */
    function GetStepsSinceBoot(): (r: int)
      reads dao
      ensures SinceBootDay !in dao.table ==> r == 0
      ensures SinceBootDay in dao.table ==> r == dao.table[SinceBootDay]
    {
      match dao.GetSteps(SinceBootDay)
      case Some(s) => s
      case None => 0
    }

    /** `getDays()`: the earlier counted days plus today. */
    function GetDays(today: int): (r: int)
      reads dao
      ensures 1 <= r <= |dao.table| + 1
    {
      dao.GetDaysWithoutToday(today) + 1
    }

    /** `updateStepsSinceBoot(steps)`: REPLACE-insert the sentinel entry. */
    method UpdateStepsSinceBoot(steps: int)
      modifies dao
      ensures dao.table == old(dao.table)[SinceBootDay := steps]
      ensures GetStepsSinceBoot() == steps
      ensures forall d :: d != SinceBootDay ==> GetSteps(d) == old(GetSteps(d))
    {
      InsertReplaces(dao.table, DailySteps(SinceBootDay, steps));
      dao.Insert([DailySteps(SinceBootDay, steps)]);
    }

    method AddToLastEntry(steps: int)
      modifies dao
      ensures dao.table == AddToMax(old(dao.table), steps)
    {
      dao.AddToLastEntry(steps);
    }

    /**
     * `insertNewDay(day, steps)`: when `day` has no entry, add `steps` to the
     * latest entry and insert `day` with `-steps`. Unlike the legacy store,
     * a negative `steps` is not rejected.
     */
    method InsertNewDay(day: int, steps: int)
      modifies dao
      ensures dao.table == NewDay(old(dao.table), day, steps)
    {
      if dao.GetSteps(day) == None {
        AddToLastEntry(steps);
        InsertReplaces(dao.table, DailySteps(day, -steps));
        dao.Insert([DailySteps(day, -steps)]);
      }
    }

    /** `insertDayFromBackup(day, steps)`: update by key, insert when no row was updated. */
    method InsertDayFromBackup(day: int, steps: int) returns (created: bool)
      modifies dao
      ensures created <==> day !in old(dao.table)
      ensures dao.table == old(dao.table)[day := steps]
      ensures GetSteps(day) == steps
    {
      var e := DailySteps(day, steps);
      if day in dao.table { UpdatePresent(dao.table, e); } else { UpdateAbsent(dao.table, e); }
      var updatedRows := dao.Update([e]);
      if updatedRows == 0 {
        InsertReplaces(dao.table, e);
        dao.Insert([e]);
        return true;
      }
      return false;
    }

    method RemoveNegativeEntries()
      modifies dao
      ensures dao.table == NonNegative(old(dao.table))
    {
      dao.RemoveNegativeEntries();
    }
  }

  // ---------------------------------------------------------------------------
  // Lemmas

  /** Right after opening a new day, its offset plus the reading is 0. */
  lemma NewDayStartsAtZero(t: map<int, int>, day: int, steps: int)
    requires day !in t
    ensures NewDay(t, day, steps)[day] + steps == 0
  {
  }

  /** Opening a new day leaves the sentinel alone when a real day is the latest entry. */
  lemma NewDayKeepsSinceBoot(t: map<int, int>, day: int, steps: int)
    requires day !in t && SinceBootDay in t && exists j :: j in t && j > SinceBootDay
    requires day != SinceBootDay
    ensures NewDay(t, day, steps)[SinceBootDay] == t[SinceBootDay]
  {
  }

  /**
   * Despite its name, `getTotalWithoutToday` includes today's entry: it is
   * the total of the days before today plus today's value.
   */
  lemma TotalIncludesToday(t: map<int, int>, today: int)
    requires today >= 0
    ensures RangeSum(t, 0, today) == RangeSum(t, 0, today - 1) + if today in t then t[today] else 0
  {
    RangeSumSplit(t, 0, today - 1, today);
    RangeSumOneDay(t, today);
  }
}
