/**
 * The legacy step table as a value: the SQLite table `steps (date INTEGER,
 * steps INTEGER)` has no primary key, so it is a sequence of rows in
 * insertion order. Date -1 is the reserved row holding the last raw
 * "steps since boot" sensor value; every other date is a day index.
 *
 * The functions here state what each SQL statement of the Database class
 * does to the rows; the class's methods are proved against them.
 */
module LedgerRows {
  import opened Limits

  datatype Row = Row(date: int, steps: int)

  /** The reserved date of the "steps since boot" row. */
  const Sentinel: int := -1

  predicate HasDate(rows: seq<Row>, date: int) {
    exists i :: 0 <= i < |rows| && rows[i].date == date
  }

  /** At most one row per date: the invariant every operation of the ledger keeps. */
  predicate UniqueDates(rows: seq<Row>) {
    forall i, j :: 0 <= i < j < |rows| ==> rows[i].date != rows[j].date
  }

  /** Number of rows the query "date = ?" returns. */
  function CountDate(rows: seq<Row>, date: int): (n: nat)
    ensures n == 0 <==> !HasDate(rows, date)
    ensures n <= |rows|
  {
    if rows == [] then 0
    else (if rows[0].date == date then 1 else 0) + CountDate(rows[1..], date)
  }

  /** `getSteps`: the steps of the first row for `date`, or `Int.MIN_VALUE` when there is none. */
  function GetSteps(rows: seq<Row>, date: int): (r: int)
    ensures !HasDate(rows, date) ==> r == IntMin
    ensures HasDate(rows, date) ==>
      exists i :: 0 <= i < |rows| && rows[i].date == date && rows[i].steps == r
                  && forall j :: 0 <= j < i ==> rows[j].date != date
  {
    if rows == [] then IntMin
    else if rows[0].date == date then rows[0].steps
    else
      GetSteps(rows[1..], date)
  }

  /** `MAX(date)` of a non-empty table. */
  function MaxDate(rows: seq<Row>): (m: int)
    requires rows != []
    ensures HasDate(rows, m)
    ensures forall i :: 0 <= i < |rows| ==> rows[i].date <= m
  {
    if |rows| == 1 then rows[0].date
    else
      var rest := MaxDate(rows[1..]);
      assert forall i :: 1 <= i < |rows| ==> rows[i] == rows[1..][i - 1];
      if rows[0].date >= rest then rows[0].date else rest
  }

  /**
   * `addToLastEntry`: "UPDATE SET steps = steps + s WHERE date = (SELECT MAX(date))".
   * Every row holding the largest date gains `s`; all other rows, and an
   * empty table, are left as they were.
   */
  function AddToLast(rows: seq<Row>, s: int): (r: seq<Row>)
    ensures |r| == |rows|
    ensures forall i :: 0 <= i < |rows| ==> r[i].date == rows[i].date
    ensures forall i :: 0 <= i < |rows| && (forall j :: 0 <= j < |rows| ==> rows[j].date <= rows[i].date) ==>
              r[i].steps == rows[i].steps + s
    ensures forall i, j :: 0 <= i < |rows| && 0 <= j < |rows| && rows[i].date < rows[j].date ==> r[i] == rows[i]
  {
    if rows == [] then []
    else
      var m := MaxDate(rows);
      seq(|rows|, i requires 0 <= i < |rows| =>
        if rows[i].date == m then Row(m, rows[i].steps + s) else rows[i])
  }

  /** Every row for `date` set to `steps`: "UPDATE SET steps = ? WHERE date = ?". */
  function SetSteps(rows: seq<Row>, date: int, steps: int): (r: seq<Row>)
    ensures |r| == |rows|
    ensures forall i :: 0 <= i < |rows| ==> r[i].date == rows[i].date
    ensures forall i :: 0 <= i < |rows| ==> r[i].steps == if rows[i].date == date then steps else rows[i].steps
  {
    seq(|rows|, i requires 0 <= i < |rows| => if rows[i].date == date then Row(date, steps) else rows[i])
  }

  /**
   * The update-else-insert pattern shared by `insertDayFromBackup` and
   * `saveCurrentSteps`: set every row for `date` to `steps`; if no row was
   * updated, append one. The flag is true iff a row was created.
   */
  function Upsert(rows: seq<Row>, date: int, steps: int): (res: (seq<Row>, bool))
    ensures res.1 <==> !HasDate(rows, date)
    ensures res.1 ==> res.0 == rows + [Row(date, steps)]
    ensures !res.1 ==> res.0 == SetSteps(rows, date, steps)
  {
    var updatedRows := CountDate(rows, date);
    if updatedRows == 0 then (rows + [Row(date, steps)], true)
    else (SetSteps(rows, date, steps), false)
  }

  /** `insertNewDay`: for an unseen date and `steps >= 0`, close the latest day and open `date` at offset `-steps`. */
  function InsertNewDay(rows: seq<Row>, date: int, steps: int): (r: seq<Row>)
    ensures HasDate(rows, date) || steps < 0 ==> r == rows
    ensures !HasDate(rows, date) && steps >= 0 ==> r == AddToLast(rows, steps) + [Row(date, -steps)]
  {
    if CountDate(rows, date) == 0 && steps >= 0 then AddToLast(rows, steps) + [Row(date, -steps)]
    else rows
  }

  /** `removeNegativeEntries`: "DELETE WHERE steps < 0"; the rest keep their table order. */
  function RemoveNegative(rows: seq<Row>): (r: seq<Row>)
    ensures |r| <= |rows|
    ensures forall i :: 0 <= i < |r| ==> r[i].steps >= 0
  {
    if rows == [] then []
    else if rows[0].steps < 0 then RemoveNegative(rows[1..])
    else [rows[0]] + RemoveNegative(rows[1..])
  }

  /** A row remains after `removeNegativeEntries` iff it was present with `steps >= 0`. */
  lemma {:induction false} RemoveNegativeMembers(rows: seq<Row>)
    ensures forall x :: x in RemoveNegative(rows) <==> x in rows && x.steps >= 0
  {
    if rows != [] {
      RemoveNegativeMembers(rows[1..]);
      assert rows == [rows[0]] + rows[1..];
    }
  }

  /** Each row with `steps >= 0` remains as often as it was stored; the others are gone. */
  lemma {:induction false} RemoveNegativeCounts(rows: seq<Row>, x: Row)
    ensures multiset(RemoveNegative(rows))[x] == if x.steps >= 0 then multiset(rows)[x] else 0
  {
    if rows != [] {
      RemoveNegativeCounts(rows[1..], x);
      assert rows == [rows[0]] + rows[1..];
    }
  }

  /** Deleting only removes rows: what remains is a sub-multiset of the table. */
  lemma RemoveNegativeSubMultiset(rows: seq<Row>)
    ensures multiset(RemoveNegative(rows)) <= multiset(rows)
  {
    forall x ensures multiset(RemoveNegative(rows))[x] <= multiset(rows)[x] {
      RemoveNegativeCounts(rows, x);
    }
  }

  /** `saveCurrentSteps`: store the raw sensor value in the sentinel row. */
  function SaveCurrent(rows: seq<Row>, steps: int): (r: seq<Row>)
    ensures HasDate(r, Sentinel)
    ensures |rows| <= |r| <= |rows| + 1
    ensures forall i :: 0 <= i < |rows| && rows[i].date != Sentinel ==> r[i] == rows[i]
  {
    var r := Upsert(rows, Sentinel, steps).0;
    if HasDate(rows, Sentinel) then
      var i :| 0 <= i < |rows| && rows[i].date == Sentinel;
      assert r[i].date == Sentinel;
      r
    else
      assert r[|rows|].date == Sentinel;
      r
  }

  /** `currentSteps`: the saved sensor value, or 0 when no sentinel row exists. */
  function CurrentSteps(rows: seq<Row>): (r: int)
    ensures !HasDate(rows, Sentinel) ==> r == 0
    ensures UniqueDates(rows) ==>
      forall i :: 0 <= i < |rows| && rows[i].date == Sentinel ==>
        r == if rows[i].steps == IntMin then 0 else rows[i].steps
  {
    UniqueGetStepsOf(rows, Sentinel);
    var re := GetSteps(rows, Sentinel);
    if re == IntMin then 0 else re
  }

  /** Rows counted by the statistics: a positive count on a real day before today. */
  predicate CountedDay(x: Row, today: int) {
    x.steps > 0 && x.date > 0 && x.date < today
  }

  /** `totalWithoutToday`: "SUM(steps) WHERE steps > 0 AND date > 0 AND date < today" (SUM of nothing reads as 0). */
  function TotalWithoutToday(rows: seq<Row>, today: int): (r: int)
    ensures r >= 0
    ensures (forall i :: 0 <= i < |rows| ==> !CountedDay(rows[i], today)) ==> r == 0
  {
    if rows == [] then 0
    else (if CountedDay(rows[0], today) then rows[0].steps else 0) + TotalWithoutToday(rows[1..], today)
  }

  /** "COUNT(*) WHERE steps > 0 AND date < today AND date > 0". */
  function CountDays(rows: seq<Row>, today: int): (n: nat)
    ensures n <= |rows|
  {
    if rows == [] then 0
    else (if CountedDay(rows[0], today) then 1 else 0) + CountDays(rows[1..], today)
  }

  /** `daysWithoutToday`: the count above, coerced to at least 0. */
  function DaysWithoutToday(rows: seq<Row>, today: int): (r: int)
    ensures 0 <= r <= |rows|
  {
    var re := CountDays(rows, today);
    if re < 0 then 0 else re
  }

  /** `days`: the counted days plus today, so it is safe to divide by. */
  function Days(rows: seq<Row>, today: int): (r: int)
    ensures r == DaysWithoutToday(rows, today) + 1
    ensures 1 <= r <= |rows| + 1
  {
    DaysWithoutToday(rows, today) + 1
  }

  // ---------------------------------------------------------------------------
  // Ordered queries: "WHERE date > 0 ORDER BY date"

  /** Rows for real days ("date > 0"), in table order. */
  function RealDays(rows: seq<Row>): (r: seq<Row>)
    ensures multiset(r) <= multiset(rows)
    ensures forall x :: x in r <==> x in rows && x.date > 0
  {
    if rows == [] then []
    else
      assert rows == [rows[0]] + rows[1..];
      if rows[0].date > 0 then [rows[0]] + RealDays(rows[1..])
      else RealDays(rows[1..])
  }

  /** The number of rows with `date > 0`, the row count of "WHERE date > 0". */
  function RealCount(rows: seq<Row>): nat {
    if rows == [] then 0 else (if rows[0].date > 0 then 1 else 0) + RealCount(rows[1..])
  }

  lemma {:induction false} RealDaysCount(rows: seq<Row>)
    ensures |RealDays(rows)| == RealCount(rows)
  {
    if rows != [] {
      RealDaysCount(rows[1..]);
    }
  }

  predicate Ascending(rows: seq<Row>) {
    forall i, j :: 0 <= i < j < |rows| ==> rows[i].date <= rows[j].date
  }

  /** A row dated no later than the head of an ascending sequence can be put in front. */
  lemma ConsAscending(h: Row, s: seq<Row>)
    requires Ascending(s) && (s != [] ==> h.date <= s[0].date)
    ensures Ascending([h] + s)
  {
    var r := [h] + s;
    forall i, j | 0 <= i < j < |r| ensures r[i].date <= r[j].date {
      assert r[j] == s[j - 1];
      if i > 0 {
        assert r[i] == s[i - 1];
      } else {
        assert s[0].date <= s[j - 1].date;
      }
    }
  }

  lemma AscendingTail(s: seq<Row>)
    requires Ascending(s) && s != []
    ensures Ascending(s[1..])
  {
    forall i, j | 0 <= i < j < |s| - 1 ensures s[1..][i].date <= s[1..][j].date {
      assert s[1..][i] == s[i + 1] && s[1..][j] == s[j + 1];
    }
  }

  function InsertByDate(x: Row, sorted: seq<Row>): (r: seq<Row>)
    requires Ascending(sorted)
    ensures Ascending(r)
    ensures r != [] && (r[0] == x || (sorted != [] && r[0] == sorted[0]))
  {
    if sorted == [] || x.date <= sorted[0].date then
      ConsAscending(x, sorted);
      [x] + sorted
    else
      assert sorted == [sorted[0]] + sorted[1..];
      AscendingTail(sorted);
      var rest := InsertByDate(x, sorted[1..]);
      ConsAscending(sorted[0], rest);
      [sorted[0]] + rest
  }

  /** Inserting adds exactly the one row. */
  lemma {:induction false} InsertByDatePermutes(x: Row, sorted: seq<Row>)
    requires Ascending(sorted)
    ensures multiset(InsertByDate(x, sorted)) == multiset(sorted) + multiset{x}
  {
    if sorted != [] && x.date > sorted[0].date {
      assert sorted == [sorted[0]] + sorted[1..];
      AscendingTail(sorted);
      InsertByDatePermutes(x, sorted[1..]);
    }
  }

  /** "ORDER BY date": a stable sort by date. */
  function SortByDate(rows: seq<Row>): (r: seq<Row>)
    ensures Ascending(r)
    ensures multiset(r) == multiset(rows)
  {
    if rows == [] then []
    else
      assert rows == [rows[0]] + rows[1..];
      InsertByDatePermutes(rows[0], SortByDate(rows[1..]));
      InsertByDate(rows[0], SortByDate(rows[1..]))
  }

  function Reverse(rows: seq<Row>): (r: seq<Row>)
    ensures |r| == |rows|
    ensures forall i :: 0 <= i < |rows| ==> r[i] == rows[|rows| - 1 - i]
  {
    if rows == [] then [] else Reverse(rows[1..]) + [rows[0]]
  }

  /** A sort keeps exactly the members of its input. */
  lemma SortedMembers(rows: seq<Row>, sorted: seq<Row>)
    requires multiset(sorted) == multiset(rows)
    ensures forall x :: x in sorted <==> x in rows
  {
    forall x ensures x in sorted <==> x in rows {
      assert x in sorted <==> x in multiset(sorted);
      assert x in rows <==> x in multiset(rows);
    }
  }

  /** Reversing keeps exactly the members. */
  lemma ReverseMembers(rows: seq<Row>)
    ensures forall x :: x in Reverse(rows) <==> x in rows
  {
    var r := Reverse(rows);
    forall x | x in rows ensures x in r {
      var j :| 0 <= j < |rows| && rows[j] == x;
      assert r[|rows| - 1 - j] == x;
    }
  }

  /** Reversing an ascending sequence gives a descending one. */
  lemma ReverseDescending(sorted: seq<Row>)
    requires Ascending(sorted)
    ensures forall i, j :: 0 <= i < j < |Reverse(sorted)| ==> Reverse(sorted)[i].date >= Reverse(sorted)[j].date
  {
    var r := Reverse(sorted);
    forall i, j | 0 <= i < j < |r| ensures r[i].date >= r[j].date {
      assert r[i] == sorted[|sorted| - 1 - i] && r[j] == sorted[|sorted| - 1 - j];
    }
  }

  /** "WHERE date > 0 ORDER BY date DESC": the real-day rows, newest first. */
  function NewestFirst(rows: seq<Row>): (r: seq<Row>)
    ensures |r| == RealCount(rows)
    ensures forall i, j :: 0 <= i < j < |r| ==> r[i].date >= r[j].date
  {
    var days := RealDays(rows);
    var sorted := SortByDate(days);
    assert |sorted| == |multiset(sorted)| == |multiset(days)| == |days|;
    RealDaysCount(rows);
    ReverseDescending(sorted);
    Reverse(sorted)
  }

  /** The ordered cursor holds exactly the real-day rows. */
  lemma NewestFirstMembers(rows: seq<Row>)
    ensures forall x :: x in NewestFirst(rows) <==> x in rows && x.date > 0
  {
    var days := RealDays(rows);
    var sorted := SortByDate(days);
    SortedMembers(days, sorted);
    ReverseMembers(sorted);
  }

  /**
   * The cursor of `getLastEntries`: "WHERE date > 0 ORDER BY date DESC LIMIT num",
   * the first `num` rows of the ordered cursor. SQLite reads a negative LIMIT as "no limit".
   */
  function LastEntriesQuery(rows: seq<Row>, num: int): (r: seq<Row>)
    ensures |r| == if 0 <= num < RealCount(rows) then num else RealCount(rows)
    ensures forall i :: 0 <= i < |r| ==> r[i] in rows && r[i].date > 0
    ensures forall i, j :: 0 <= i < j < |r| ==> r[i].date >= r[j].date
  {
    var all := NewestFirst(rows);
    var r := if 0 <= num < |all| then all[..num] else all;
    NewestFirstMembers(rows);
    PrefixOfCursor(rows, all, r);
    r
  }

  /** A prefix of the ordered cursor keeps its order and holds only real-day rows. */
  lemma PrefixOfCursor(rows: seq<Row>, all: seq<Row>, r: seq<Row>)
    requires forall a, b :: 0 <= a < b < |all| ==> all[a].date >= all[b].date
    requires forall x :: x in all ==> x in rows && x.date > 0
    requires |r| <= |all| && r == all[..|r|]
    ensures forall i :: 0 <= i < |r| ==> r[i] in rows && r[i].date > 0
    ensures forall i, j :: 0 <= i < j < |r| ==> r[i].date >= r[j].date
  {
    forall i | 0 <= i < |r| ensures r[i] in rows && r[i].date > 0 {
      assert r[i] == all[i];
      assert all[i] in all;
    }
  }

  /** Without a limit (a negative `num`), every real-day row is returned. */
  lemma LastEntriesUnlimited(rows: seq<Row>, num: int)
    requires num < 0
    ensures forall x :: x in rows && x.date > 0 ==> x in LastEntriesQuery(rows, num)
  {
    NewestFirstMembers(rows);
    assert LastEntriesQuery(rows, num) == NewestFirst(rows);
  }

  /** In a sequence descending by date, a member later than the `i`th element sits at an index before `i`. */
  lemma DescendingHasLaterFirst(all: seq<Row>, x: Row, i: int) returns (j: int)
    requires forall a, b :: 0 <= a < b < |all| ==> all[a].date >= all[b].date
    requires x in all && 0 <= i < |all| && x.date > all[i].date
    ensures 0 <= j < i && all[j] == x
  {
    j :| 0 <= j < |all| && all[j] == x;
  }

  /** The query returns the newest rows: a real-day row later than the `i`th returned one is returned before it. */
  lemma LastEntriesAreNewest(rows: seq<Row>, num: int, x: Row, i: int)
    requires x in rows && x.date > 0 && 0 <= i
    ensures i < |LastEntriesQuery(rows, num)| && x.date > LastEntriesQuery(rows, num)[i].date ==>
              x in LastEntriesQuery(rows, num)[..i]
  {
    var all := NewestFirst(rows);
    var r := LastEntriesQuery(rows, num);
    if i < |r| && x.date > r[i].date {
      NewestFirstMembers(rows);
      LastEntriesPrefix(rows, num);
      var j := DescendingHasLaterFirst(all, x, i);
      assert r[..i][j] == x;
    }
  }

  /** LIMIT keeps the leading rows of the ordered cursor. */
  lemma LastEntriesPrefix(rows: seq<Row>, num: int)
    ensures forall k :: 0 <= k < |LastEntriesQuery(rows, num)| ==> LastEntriesQuery(rows, num)[k] == NewestFirst(rows)[k]
  {
  }

  // ---------------------------------------------------------------------------
  // Invariant: every operation keeps at most one row per date

  lemma UniqueGetSteps(rows: seq<Row>, i: int)
    requires UniqueDates(rows) && 0 <= i < |rows|
    ensures GetSteps(rows, rows[i].date) == rows[i].steps
  {
  }

  /** Under unique dates, `getSteps` of a stored date returns that row's count. */
  lemma UniqueGetStepsOf(rows: seq<Row>, date: int)
    ensures UniqueDates(rows) ==>
      forall i :: 0 <= i < |rows| && rows[i].date == date ==> GetSteps(rows, date) == rows[i].steps
  {
    if UniqueDates(rows) {
      forall i | 0 <= i < |rows| && rows[i].date == date
        ensures GetSteps(rows, date) == rows[i].steps
      {
        UniqueGetSteps(rows, i);
      }
    }
  }

  lemma AddToLastKeepsUnique(rows: seq<Row>, s: int)
    requires UniqueDates(rows)
    ensures UniqueDates(AddToLast(rows, s))
  {
  }

  lemma UpsertKeepsUnique(rows: seq<Row>, date: int, steps: int)
    requires UniqueDates(rows)
    ensures UniqueDates(Upsert(rows, date, steps).0)
  {
  }

  lemma InsertNewDayKeepsUnique(rows: seq<Row>, date: int, steps: int)
    requires UniqueDates(rows)
    ensures UniqueDates(InsertNewDay(rows, date, steps))
  {
    if !HasDate(rows, date) && steps >= 0 {
      var a := AddToLast(rows, steps);
      AddToLastKeepsUnique(rows, steps);
      assert forall i :: 0 <= i < |a| ==> a[i].date != date;
    }
  }

  lemma {:induction false} RemoveNegativeKeepsUnique(rows: seq<Row>)
    requires UniqueDates(rows)
    ensures UniqueDates(RemoveNegative(rows))
  {
    if rows != [] {
      RemoveNegativeKeepsUnique(rows[1..]);
      RemoveNegativeMembers(rows[1..]);
      var rest := RemoveNegative(rows[1..]);
      forall i | 0 <= i < |rest| ensures rest[i].date != rows[0].date {
        assert rest[i] in rows[1..];
      }
    }
  }

  // ---------------------------------------------------------------------------
  // Lookups after each operation

  /** Rows for other dates keep their lookup when the rows for `date` are set. */
  lemma {:induction false} SetStepsLookup(rows: seq<Row>, date: int, steps: int, d: int)
    ensures GetSteps(SetSteps(rows, date, steps), d) ==
            if d == date && HasDate(rows, date) then steps else GetSteps(rows, d)
  {
    var r := SetSteps(rows, date, steps);
    if rows != [] {
      assert r[1..] == SetSteps(rows[1..], date, steps);
      SetStepsLookup(rows[1..], date, steps, d);
      if rows[0].date != d && !HasDate(rows[1..], d) {
        assert !HasDate(rows, d) by {
          forall i | 0 <= i < |rows| ensures rows[i].date != d {
            if i > 0 { assert rows[i] == rows[1..][i - 1]; }
          }
        }
      }
      if rows[0].date != d && HasDate(rows[1..], d) {
        var k :| 0 <= k < |rows[1..]| && rows[1..][k].date == d;
        assert rows[k + 1].date == d;
      }
      if d == date && rows[0].date != date && !HasDate(rows[1..], date) {
        assert !HasDate(rows, date) by {
          forall i | 0 <= i < |rows| ensures rows[i].date != d {
            if i > 0 { assert rows[i] == rows[1..][i - 1]; }
          }
        }
      }
    }
  }

  /** Appending a row leaves the lookup of every date already present unchanged. */
  lemma {:induction false} AppendLookup(rows: seq<Row>, x: Row, d: int)
    ensures GetSteps(rows + [x], d) == if HasDate(rows, d) then GetSteps(rows, d) else if x.date == d then x.steps else IntMin
  {
    if rows == [] {
    } else {
      assert (rows + [x])[1..] == rows[1..] + [x];
      AppendLookup(rows[1..], x, d);
      if rows[0].date != d {
        if HasDate(rows[1..], d) {
          var k :| 0 <= k < |rows[1..]| && rows[1..][k].date == d;
          assert rows[k + 1].date == d;
        } else {
          assert !HasDate(rows, d) by {
            forall i | 0 <= i < |rows| ensures rows[i].date != d {
              if i > 0 { assert rows[i] == rows[1..][i - 1]; }
            }
          }
        }
      }
    }
  }

  /** After an upsert the date holds `steps`, and every other date keeps its lookup. */
  lemma UpsertLookup(rows: seq<Row>, date: int, steps: int, d: int)
    ensures GetSteps(Upsert(rows, date, steps).0, d) == if d == date then steps else GetSteps(rows, d)
  {
    if HasDate(rows, date) {
      SetStepsLookup(rows, date, steps, d);
    } else {
      AppendLookup(rows, Row(date, steps), d);
      if d != date && !HasDate(rows, d) {
      }
    }
  }

  lemma UpsertDates(rows: seq<Row>, date: int, steps: int, d: int)
    ensures HasDate(Upsert(rows, date, steps).0, d) <==> d == date || HasDate(rows, d)
  {
    var r := Upsert(rows, date, steps).0;
    if HasDate(rows, d) {
      var k :| 0 <= k < |rows| && rows[k].date == d;
      assert r[k].date == d;
    }
    if d == date && !HasDate(rows, date) {
      assert r[|rows|].date == d;
    }
  }

  /** After `saveCurrentSteps(s)`, `currentSteps` reads back `s` (the sentinel value itself is never `Int.MIN_VALUE`). */
  lemma SaveThenCurrent(rows: seq<Row>, s: int)
    requires s != IntMin
    ensures CurrentSteps(SaveCurrent(rows, s)) == s
  {
    UpsertLookup(rows, Sentinel, s, Sentinel);
  }

  /** Saving a non-negative sensor value keeps every count non-negative. */
  lemma SaveKeepsNonNegative(rows: seq<Row>, s: int)
    requires s >= 0 && forall i :: 0 <= i < |rows| ==> rows[i].steps >= 0
    ensures forall i :: 0 <= i < |SaveCurrent(rows, s)| ==> SaveCurrent(rows, s)[i].steps >= 0
  {
    var r := SaveCurrent(rows, s);
    if HasDate(rows, Sentinel) {
      assert r == SetSteps(rows, Sentinel, s);
    } else {
      assert r == rows + [Row(Sentinel, s)];
    }
  }

  /** Saving the sensor value changes the lookup of no real day. */
  lemma SaveKeepsDays(rows: seq<Row>, s: int, d: int)
    requires d != Sentinel
    ensures GetSteps(SaveCurrent(rows, s), d) == GetSteps(rows, d)
  {
    UpsertLookup(rows, Sentinel, s, d);
  }

  /** Adding to the last entry changes the lookup of dates below the maximum not at all. */
  lemma AddToLastLookup(rows: seq<Row>, s: int, d: int)
    requires UniqueDates(rows)
    ensures rows != [] && d == MaxDate(rows) ==> GetSteps(AddToLast(rows, s), d) == GetSteps(rows, d) + s
    ensures rows == [] || d != MaxDate(rows) ==> GetSteps(AddToLast(rows, s), d) == GetSteps(rows, d)
  {
    var r := AddToLast(rows, s);
    AddToLastKeepsUnique(rows, s);
    if HasDate(rows, d) {
      var k :| 0 <= k < |rows| && rows[k].date == d;
      UniqueGetSteps(rows, k);
      UniqueGetSteps(r, k);
      if rows != [] && d != MaxDate(rows) {
        var j :| 0 <= j < |rows| && rows[j].date == MaxDate(rows);
        assert rows[k].date < rows[j].date;
      }
    } else {
      assert !HasDate(r, d);
    }
  }

  /**
   * The negative-offset scheme: a new day opens at `-steps`, so today's count
   * `GetSteps(today) + reading` starts at zero.
   */
  lemma NewDayStartsAtZero(rows: seq<Row>, date: int, steps: int)
    requires !HasDate(rows, date) && steps >= 0
    ensures GetSteps(InsertNewDay(rows, date, steps), date) + steps == 0
  {
    var a := AddToLast(rows, steps);
    assert !HasDate(a, date);
    AppendLookup(a, Row(date, -steps), date);
  }

  /**
   * Closing a day: when `date` is new, the latest day (the one with the
   * maximum date) gains the reading. If its row held the offset `-r0` of the
   * reading `r0` at which it began, it now holds `steps - r0`, the steps taken
   * on it. Every other date keeps its value.
   */
  lemma NewDayClosesLatest(rows: seq<Row>, date: int, steps: int, d: int)
    requires UniqueDates(rows) && rows != [] && !HasDate(rows, date) && steps >= 0
    requires d != date
    ensures GetSteps(InsertNewDay(rows, date, steps), d) ==
            GetSteps(rows, d) + (if d == MaxDate(rows) then steps else 0)
  {
    var a := AddToLast(rows, steps);
    AddToLastLookup(rows, steps, d);
    AppendLookup(a, Row(date, -steps), d);
    if !HasDate(a, d) {
      assert !HasDate(rows, d);
    }
  }

  /** After `removeNegativeEntries` a non-negative row is still found with its value. */
  lemma RemoveNegativeKeeps(rows: seq<Row>, i: int)
    requires UniqueDates(rows) && 0 <= i < |rows| && rows[i].steps >= 0
    ensures GetSteps(RemoveNegative(rows), rows[i].date) == rows[i].steps
  {
    var r := RemoveNegative(rows);
    RemoveNegativeKeepsUnique(rows);
    RemoveNegativeMembers(rows);
    assert rows[i] in r;
    var k :| 0 <= k < |r| && r[k] == rows[i];
    UniqueGetSteps(r, k);
  }

  /** After `removeNegativeEntries` the date of a negative row has no row at all. */
  lemma RemoveNegativeDrops(rows: seq<Row>, i: int)
    requires UniqueDates(rows) && 0 <= i < |rows| && rows[i].steps < 0
    ensures !HasDate(RemoveNegative(rows), rows[i].date)
  {
    RemoveNegativeNoDate(rows, rows[i].date);
  }

  /** A date all of whose rows are negative has no row after `removeNegativeEntries`. */
  lemma {:induction false} RemoveNegativeNoDate(rows: seq<Row>, d: int)
    requires forall j :: 0 <= j < |rows| && rows[j].date == d ==> rows[j].steps < 0
    ensures !HasDate(RemoveNegative(rows), d)
  {
    if rows != [] {
      var tail := rows[1..];
      assert forall j :: 0 <= j < |tail| ==> tail[j] == rows[j + 1];
      RemoveNegativeNoDate(tail, d);
      if rows[0].steps >= 0 {
        var r := RemoveNegative(rows);
        assert r == [rows[0]] + RemoveNegative(tail);
        assert forall k :: 1 <= k < |r| ==> r[k] == RemoveNegative(tail)[k - 1];
      }
    }
  }
}
