/**
 * The legacy SQLite wrapper `Database`. Each transaction body is one method
 * that changes `rows` exactly as the matching LedgerRows function says.
 */
module LegacyDatabase {
  import opened Limits
  import opened LedgerRows

  class Database {
    /** The table's rows in insertion order (the table has no primary key). */
    var rows: seq<Row>

    constructor ()
      ensures rows == []
    {
      rows := [];
    }

    function GetSteps(date: int): int
      reads this
    {
      LedgerRows.GetSteps(rows, date)
    }

    function CurrentSteps(): int
      reads this
    {
      LedgerRows.CurrentSteps(rows)
    }

    function TotalWithoutToday(today: int): int
      reads this
    {
      LedgerRows.TotalWithoutToday(rows, today)
    }

    function Days(today: int): int
      reads this
    {
      LedgerRows.Days(rows, today)
    }

    /** `addToLastEntry`: one UPDATE statement on the rows holding MAX(date). */
    method AddToLastEntry(steps: int)
      modifies this
      ensures rows == AddToLast(old(rows), steps)
    {
      rows := AddToLast(rows, steps);
    }

    /** `insertNewDay`, one transaction: query the date, then close the last day and insert the offset row. */
    method InsertNewDay(date: int, steps: int)
      modifies this
      ensures rows == LedgerRows.InsertNewDay(old(rows), date, steps)
      ensures UniqueDates(old(rows)) ==> UniqueDates(rows)
    {
      if UniqueDates(rows) { InsertNewDayKeepsUnique(rows, date, steps); }
      var count := CountDate(rows, date);
      if count == 0 && steps >= 0 {
        AddToLastEntry(steps);
        rows := rows + [Row(date, -steps)];
      }
    }

    /** The "UPDATE ... WHERE date = ?" of an upsert, returning the number of rows it touched. */
    method UpdateSteps(date: int, steps: int) returns (updatedRows: nat)
      modifies this
      ensures rows == SetSteps(old(rows), date, steps)
      ensures updatedRows == 0 <==> !HasDate(old(rows), date)
    {
      updatedRows := CountDate(rows, date);
      rows := SetSteps(rows, date, steps);
    }

    /** `insertDayFromBackup`, one transaction: update the date's rows, insert when none was updated. */
    method InsertDayFromBackup(date: int, steps: int) returns (newEntryCreated: bool)
      modifies this
      ensures (rows, newEntryCreated) == Upsert(old(rows), date, steps)
      ensures newEntryCreated <==> !HasDate(old(rows), date)
      ensures LedgerRows.GetSteps(rows, date) == steps
      ensures forall d :: d != date ==> LedgerRows.GetSteps(rows, d) == LedgerRows.GetSteps(old(rows), d)
      ensures UniqueDates(old(rows)) ==> UniqueDates(rows)
    {
      ghost var before := rows;
      if UniqueDates(rows) { UpsertKeepsUnique(rows, date, steps); }
      forall d ensures LedgerRows.GetSteps(Upsert(before, date, steps).0, d) ==
                       if d == date then steps else LedgerRows.GetSteps(before, d) {
        UpsertLookup(before, date, steps, d);
      }
      newEntryCreated := false;
      var updatedRows := UpdateSteps(date, steps);
      if updatedRows == 0 {
        SetStepsAbsent(before, date, steps);
        rows := rows + [Row(date, steps)];
        newEntryCreated := true;
      }
    }

    /** `removeNegativeEntries`: one DELETE statement. */
    method RemoveNegativeEntries()
      modifies this
      ensures rows == RemoveNegative(old(rows))
    {
      rows := RemoveNegative(rows);
    }

    /** `saveCurrentSteps`: update the sentinel row, insert it when none was updated. */
    method SaveCurrentSteps(steps: int)
      modifies this
      ensures rows == SaveCurrent(old(rows), steps)
      ensures steps != IntMin ==> LedgerRows.CurrentSteps(rows) == steps
    {
      ghost var before := rows;
      if steps != IntMin { SaveThenCurrent(before, steps); }
      var updatedRows := UpdateSteps(Sentinel, steps);
      if updatedRows == 0 {
        SetStepsAbsent(before, Sentinel, steps);
        rows := rows + [Row(Sentinel, steps)];
      }
    }

    /**
     * `getLastEntries`: walks the cursor of "date > 0 ORDER BY date DESC LIMIT num"
     * and copies each row into the result list as a (date, steps) pair.
     */
    method GetLastEntries(num: int) returns (result: seq<(int, int)>)
      ensures result == Pairs(LastEntriesQuery(rows, num))
      ensures |result| == if 0 <= num < RealCount(rows) then num else RealCount(rows)
      ensures forall k :: 0 <= k < |result| ==> result[k].0 > 0 && IsInt(result[k].1)
      ensures forall k :: 0 <= k < |result| ==> exists y :: y in rows && y.date > 0 && ReadPair(y) == result[k]
      ensures forall k, l :: 0 <= k < l < |result| ==> result[k].0 >= result[l].0
    {
      result := CopyCursor(LastEntriesQuery(rows, num));
      LastEntryPairs(rows, num);
    }
  }

  /** One cursor row as `getLastEntries` reads it: `getLong(0)`, and `getInt(1)`, which keeps the low 32 bits. */
  function ReadPair(x: Row): (p: (int, int))
    ensures p.0 == x.date && IsInt(p.1)
    ensures IsInt(x.steps) ==> p.1 == x.steps
  {
    (x.date, WrapInt(x.steps))
  }

  /** The do/while loop of `getLastEntries`: one `(date, steps)` pair per cursor row. */
  method CopyCursor(c: seq<Row>) returns (result: seq<(int, int)>)
    ensures result == Pairs(c)
  {
    result := [];
    var i := 0;
    while i < |c|
      invariant 0 <= i <= |c|
      invariant |result| == i
      invariant forall k :: 0 <= k < i ==> result[k] == ReadPair(c[k])
    {
      result := result + [ReadPair(c[i])];
      i := i + 1;
    }
  }

  /** The `(date, steps)` pairs of the cursor's rows, in cursor order. */
  function Pairs(c: seq<Row>): (r: seq<(int, int)>)
    ensures |r| == |c|
    ensures forall k :: 0 <= k < |c| ==> r[k] == ReadPair(c[k])
  {
    seq(|c|, k requires 0 <= k < |c| => ReadPair(c[k]))
  }

  /**
   * What `getLastEntries(num)` returns: `num` pairs, or all when there are
   * fewer real-day rows or `num` is negative; each read from a stored row
   * with a positive date, newest first, and every such row when `num` is
   * negative. When no stored count has left the `Int` range, each pair is
   * a stored row.
   */
  lemma LastEntryPairs(rows: seq<Row>, num: int)
    ensures |Pairs(LastEntriesQuery(rows, num))| == if 0 <= num < RealCount(rows) then num else RealCount(rows)
    ensures forall k :: 0 <= k < |Pairs(LastEntriesQuery(rows, num))| ==>
              Pairs(LastEntriesQuery(rows, num))[k].0 > 0 && IsInt(Pairs(LastEntriesQuery(rows, num))[k].1)
    ensures forall k :: 0 <= k < |Pairs(LastEntriesQuery(rows, num))| ==>
              exists y :: y in rows && y.date > 0 && ReadPair(y) == Pairs(LastEntriesQuery(rows, num))[k]
    ensures (forall y :: y in rows ==> IsInt(y.steps)) ==>
              forall k :: 0 <= k < |Pairs(LastEntriesQuery(rows, num))| ==>
                Row(Pairs(LastEntriesQuery(rows, num))[k].0, Pairs(LastEntriesQuery(rows, num))[k].1) in rows
    ensures forall k, l :: 0 <= k < l < |Pairs(LastEntriesQuery(rows, num))| ==>
              Pairs(LastEntriesQuery(rows, num))[k].0 >= Pairs(LastEntriesQuery(rows, num))[l].0
    ensures num < 0 ==> forall x :: x in rows && x.date > 0 ==> ReadPair(x) in Pairs(LastEntriesQuery(rows, num))
  {
    var c := LastEntriesQuery(rows, num);
    if num < 0 { LastEntriesUnlimited(rows, num); }
    PairsOfCursor(rows, c, num < 0);
  }

  /** The pairs read off a cursor of real-day rows keep the cursor's rows and order. */
  lemma PairsOfCursor(rows: seq<Row>, c: seq<Row>, complete: bool)
    requires forall i :: 0 <= i < |c| ==> c[i] in rows && c[i].date > 0
    requires forall i, j :: 0 <= i < j < |c| ==> c[i].date >= c[j].date
    requires complete ==> forall x :: x in rows && x.date > 0 ==> x in c
    ensures forall k :: 0 <= k < |Pairs(c)| ==> Pairs(c)[k].0 > 0 && IsInt(Pairs(c)[k].1)
    ensures forall k :: 0 <= k < |Pairs(c)| ==> exists y :: y in rows && y.date > 0 && ReadPair(y) == Pairs(c)[k]
    ensures (forall y :: y in rows ==> IsInt(y.steps)) ==>
              forall k :: 0 <= k < |Pairs(c)| ==> Row(Pairs(c)[k].0, Pairs(c)[k].1) in rows
    ensures forall k, l :: 0 <= k < l < |Pairs(c)| ==> Pairs(c)[k].0 >= Pairs(c)[l].0
    ensures complete ==> forall x :: x in rows && x.date > 0 ==> ReadPair(x) in Pairs(c)
  {
    var result := Pairs(c);
    forall k | 0 <= k < |Pairs(c)|
      ensures exists y :: y in rows && y.date > 0 && ReadPair(y) == Pairs(c)[k]
    {
      var y := c[k];
      assert y in rows && y.date > 0 && ReadPair(y) == Pairs(c)[k];
    }
    if forall y :: y in rows ==> IsInt(y.steps) {
      forall k | 0 <= k < |result| ensures Row(result[k].0, result[k].1) in rows {
        assert c[k] in rows;
        assert Row(result[k].0, result[k].1) == c[k];
      }
    }
    forall x | complete && x in rows && x.date > 0 ensures ReadPair(x) in result {
      var k :| 0 <= k < |c| && c[k] == x;
      assert result[k] == ReadPair(x);
    }
  }

  /** `getLastEntries` returns the newest pairs: a real-day row later than the `i`th pair comes before it. */
  lemma LastEntryPairsAreNewest(rows: seq<Row>, num: int, x: Row, i: int)
    requires x in rows && x.date > 0 && 0 <= i
    ensures i < |Pairs(LastEntriesQuery(rows, num))| && x.date > Pairs(LastEntriesQuery(rows, num))[i].0 ==>
              ReadPair(x) in Pairs(LastEntriesQuery(rows, num))[..i]
  {
    var c := LastEntriesQuery(rows, num);
    if i < |c| && x.date > Pairs(c)[i].0 {
      LastEntriesAreNewest(rows, num, x, i);
      PairsOfPrefix(c, x, i);
    }
  }

  /** A row among the first `i` of a cursor gives its pair among the first `i` pairs. */
  lemma PairsOfPrefix(c: seq<Row>, x: Row, i: int)
    requires 0 <= i <= |c| && x in c[..i]
    ensures ReadPair(x) in Pairs(c)[..i]
  {
    var j :| 0 <= j < i && c[..i][j] == x;
    assert Pairs(c)[..i][j] == ReadPair(x);
  }

  /** When no row holds `date`, the UPDATE of an upsert changes nothing. */
  lemma SetStepsAbsent(rows: seq<Row>, date: int, steps: int)
    requires !HasDate(rows, date)
    ensures SetSteps(rows, date, steps) == rows
  {
  }
}
