/**
 * The Room table `daily_steps` and its DAO. `day` is the primary key, so the
 * table is a map from day to steps; the sentinel day `-1` holds the last
 * sensor reading. The queries are functions of the map; the DAO class is
 * the mutable table and each of its methods one statement.
 */
module Room {
  import opened Keys

  datatype Option<T> = None | Some(value: T)

  /** The entity `DailySteps(day, steps)`. */
  datatype DailySteps = DailySteps(day: int, steps: int)

  /** The days of real entries, `day > 0`. */
  function PositiveDays(t: map<int, int>): (r: set<int>)
    ensures forall k :: k in r <==> k in t && k > 0
  {
    set k | k in t && k > 0
  }

  /** The entries of a list of days, in that order. */
  function EntriesOf(t: map<int, int>, ks: seq<int>): (r: seq<DailySteps>)
    requires forall i :: 0 <= i < |ks| ==> ks[i] in t
    ensures |r| == |ks|
    ensures forall i :: 0 <= i < |r| ==> r[i] == DailySteps(ks[i], t[ks[i]])
  {
    seq(|ks|, i requires 0 <= i < |ks| => DailySteps(ks[i], t[ks[i]]))
  }

  /** `getAll`: the real entries, in ascending day order (the primary-key order of the scan). */
  function AllEntries(t: map<int, int>): (r: seq<DailySteps>)
    ensures forall i, j :: 0 <= i < j < |r| ==> r[i].day < r[j].day
    ensures forall i :: 0 <= i < |r| ==> r[i].day > 0 && r[i].day in t && r[i].steps == t[r[i].day]
    ensures forall k :: k in t && k > 0 ==> exists i :: 0 <= i < |r| && r[i].day == k
  {
    var ks := Ascending(PositiveDays(t));
    var r := EntriesOf(t, ks);
    assert forall k :: k in t && k > 0 ==> k in ks;
    r
  }

  /** `getSteps`: the stored value, or null (`None`) when the day has no entry. */
  function StepsOf(t: map<int, int>, day: int): (r: Option<int>)
    ensures r.None? <==> day !in t
    ensures r.Some? ==> r.value == t[day]
  {
    if day in t then Some(t[day]) else None
  }

  /** The first `num` of `ks`, or all of them when `num` is negative or too large (SQL `LIMIT`). */
  function Limit(ks: seq<int>, num: int): (r: seq<int>)
    ensures |r| == if 0 <= num < |ks| then num else |ks|
    ensures r == ks[..|r|]
  {
    if 0 <= num < |ks| then ks[..num] else ks
  }

  /**
   * `getLastEntries(num)`: the real entries in descending day order, at most
   * `num` of them when `num >= 0` (a negative SQL `LIMIT` is no limit).
   */
  function LastEntries(t: map<int, int>, num: int): (r: seq<DailySteps>)
    ensures |r| == if 0 <= num < |PositiveDays(t)| then num else |PositiveDays(t)|
    ensures forall i, j :: 0 <= i < j < |r| ==> r[i].day > r[j].day
    ensures forall i :: 0 <= i < |r| ==> r[i].day > 0 && r[i].day in t && r[i].steps == t[r[i].day]
  {
    var ks := Descending(PositiveDays(t));
    var lim := Limit(ks, num);
    assert forall i :: 0 <= i < |lim| ==> lim[i] == ks[i];
    EntriesOf(t, lim)
  }

  /** `getLastEntries` returns the newest real days: any real day later than a returned one is returned before it. */
  lemma LastEntriesAreNewest(t: map<int, int>, num: int, k: int, i: int)
    requires k in t && k > 0
    requires 0 <= i < |LastEntries(t, num)| && k > LastEntries(t, num)[i].day
    ensures exists j :: 0 <= j < i && LastEntries(t, num)[j].day == k
  {
    var ks := Descending(PositiveDays(t));
    var r := LastEntries(t, num);
    var lim := Limit(ks, num);
    assert forall a :: 0 <= a < |lim| ==> r[a].day == ks[a];
    DescendingPrefix(ks, i, k);
    var j :| 0 <= j < i && ks[j] == k;
    assert r[j].day == k;
  }

  /** In a strictly descending list, a member greater than the `i`th comes before it. */
  lemma DescendingPrefix(ks: seq<int>, i: int, k: int)
    requires forall a, b :: 0 <= a < b < |ks| ==> ks[a] > ks[b]
    requires 0 <= i < |ks| && k in ks && k > ks[i]
    ensures exists j :: 0 <= j < i && ks[j] == k
  {
    var j :| 0 <= j < |ks| && ks[j] == k;
    assert j < i;
  }

  /** The entry with most steps among `ks`, the first one on a tie. */
  function Best(t: map<int, int>, ks: seq<int>): (r: int)
    requires ks != [] && forall i :: 0 <= i < |ks| ==> ks[i] in t
    ensures r in ks
    ensures forall i :: 0 <= i < |ks| ==> t[ks[i]] <= t[r]
  {
    if |ks| == 1 then ks[0]
    else
      var b := Best(t, ks[1..]);
      if t[ks[0]] >= t[b] then ks[0] else b
  }

  /**
   * `getRecord`: an entry with `day > 0` whose steps are at least those of
   * every other such entry. With no real entry there is no record.
   */
  function Record(t: map<int, int>): (r: Option<DailySteps>)
    ensures r.None? <==> PositiveDays(t) == {}
    ensures r.Some? ==> r.value.day > 0 && r.value.day in t && r.value.steps == t[r.value.day]
    ensures r.Some? ==> forall k :: k in t && k > 0 ==> t[k] <= r.value.steps
  {
    var ks := Ascending(PositiveDays(t));
    if ks == [] then None
    else
      var b := Best(t, ks);
      assert forall k :: k in t && k > 0 ==> k in ks;
      Some(DailySteps(b, t[b]))
  }

  /** The days `start <= day <= end` that have an entry. */
  function RangeDays(t: map<int, int>, start: int, end: int): (r: set<int>)
    ensures forall k :: k in r <==> k in t && start <= k <= end
  {
    set k | k in t && start <= k <= end
  }

  /**
   * `getStepsFromDayRange(start, end)`: SUM over the inclusive range; with no
   * entry in range SQL's NULL reads as 0.
   */
  function RangeSum(t: map<int, int>, start: int, end: int): (r: int)
    ensures RangeDays(t, start, end) == {} ==> r == 0
    ensures (forall k :: k in t && start <= k <= end ==> t[k] >= 0) ==> r >= 0
  {
    var ks := RangeDays(t, start, end);
    SumNonNegative(t, ks);
    Sum(t, ks)
  }

  /** `getDaysWithoutToday(today)`: the entries with `steps > 0` and `0 < day < today`. */
  function DaysWithoutToday(t: map<int, int>, today: int): (r: int)
    ensures 0 <= r <= |t|
  {
    var ds := set k | k in t && t[k] > 0 && 0 < k < today;
    SubsetSize(ds, t.Keys);
    |ds|
  }

  /** `addToLastEntry(s)`: add `s` to the entry of the greatest day; an empty table stays empty. */
  function AddToMax(t: map<int, int>, s: int): (r: map<int, int>)
    ensures r.Keys == t.Keys
    ensures t != map[] ==> r[Greatest(t.Keys)] == t[Greatest(t.Keys)] + s
    ensures forall k :: k in t && (exists j :: j in t && j > k) ==> r[k] == t[k]
  {
    if t == map[] then t
    else
      var m := Greatest(t.Keys);
      t[m := t[m] + s]
  }

  /** Whether no entry after index `i` has the same day: entry `i` is the one that takes effect. */
  predicate LastFor(es: seq<DailySteps>, i: int)
    requires 0 <= i < |es|
  {
    forall j :: i < j < |es| ==> es[j].day != es[i].day
  }

  /** The days named by a list of entities. */
  function DaysOf(es: seq<DailySteps>): set<int> {
    set i | 0 <= i < |es| :: es[i].day
  }

  lemma DaysOfSnoc(es: seq<DailySteps>, e: DailySteps)
    ensures DaysOf(es + [e]) == DaysOf(es) + {e.day}
  {
    var s := es + [e];
    assert s[|es|] == e;
    forall k | k in DaysOf(s) ensures k in DaysOf(es) + {e.day} {
      var i :| 0 <= i < |s| && s[i].day == k;
      if i < |es| { assert s[i] == es[i]; }
    }
    forall k | k in DaysOf(es) ensures k in DaysOf(s) {
      var i :| 0 <= i < |es| && es[i].day == k;
      assert s[i] == es[i];
    }
  }

  /** `insert(vararg)` with REPLACE on conflict: each entity in turn becomes its day's value. */
  function InsertAll(t: map<int, int>, es: seq<DailySteps>): (r: map<int, int>)
    ensures r.Keys == t.Keys + DaysOf(es)
  {
    if es == [] then
      assert DaysOf(es) == {};
      t
    else
      var init := es[..|es| - 1];
      var e := es[|es| - 1];
      assert es == init + [e];
      DaysOfSnoc(init, e);
      InsertAll(t, init)[e.day := e.steps]
  }

  /** One more argument to `insert` replaces its day. */
  lemma InsertAllStep(t: map<int, int>, es: seq<DailySteps>, e: DailySteps)
    ensures InsertAll(t, es + [e]) == InsertAll(t, es)[e.day := e.steps]
  {
    assert (es + [e])[..|es|] == es;
  }

  /** A day no entity names keeps its value through `insert`. */
  lemma {:induction false} InsertAllKeeps(t: map<int, int>, es: seq<DailySteps>, k: int)
    requires k in t && k !in DaysOf(es)
    ensures InsertAll(t, es)[k] == t[k]
  {
    if es != [] {
      var init := es[..|es| - 1];
      assert es == init + [es[|es| - 1]];
      DaysOfSnoc(init, es[|es| - 1]);
      InsertAllKeeps(t, init, k);
    }
  }

  /** The last entity given for a day is the value `insert` leaves there. */
  lemma {:induction false} InsertAllLast(t: map<int, int>, es: seq<DailySteps>, i: int)
    requires 0 <= i < |es| && LastFor(es, i)
    ensures es[i].day in InsertAll(t, es)
    ensures InsertAll(t, es)[es[i].day] == es[i].steps
  {
    var init := es[..|es| - 1];
    if i < |es| - 1 {
      assert init[i] == es[i];
      forall j | i < j < |init| ensures init[j].day != init[i].day {
        assert init[j] == es[j];
      }
      InsertAllLast(t, init, i);
    }
  }

  /** The number of entities whose day has an entry in `t`. */
  function PresentCount(t: map<int, int>, es: seq<DailySteps>): (n: nat)
    ensures n <= |es|
    ensures n == 0 <==> forall i :: 0 <= i < |es| ==> es[i].day !in t
  {
    if es == [] then 0
    else
      var init := es[..|es| - 1];
      assert forall i :: 0 <= i < |init| ==> init[i] == es[i];
      PresentCount(t, init) + if es[|es| - 1].day in t then 1 else 0
  }

  /** `update(vararg)`: each entity whose day exists overwrites it, in order; no entry is added. */
  function UpdateAll(t: map<int, int>, es: seq<DailySteps>): (r: map<int, int>)
    ensures r.Keys == t.Keys
  {
    var all := InsertAll(t, es);
    map k | k in t :: all[k]
  }

  /** A day no entity names keeps its value through `update`. */
  lemma UpdateAllKeeps(t: map<int, int>, es: seq<DailySteps>, k: int)
    requires k in t && k !in DaysOf(es)
    ensures UpdateAll(t, es)[k] == t[k]
  {
    InsertAllKeeps(t, es, k);
  }

  /** An existing day takes the last value `update` is given for it. */
  lemma UpdateAllLast(t: map<int, int>, es: seq<DailySteps>, i: int)
    requires 0 <= i < |es| && LastFor(es, i) && es[i].day in t
    ensures UpdateAll(t, es)[es[i].day] == es[i].steps
  {
    InsertAllLast(t, es, i);
  }

  lemma PresentCountStep(t: map<int, int>, es: seq<DailySteps>, e: DailySteps)
    ensures PresentCount(t, es + [e]) == PresentCount(t, es) + if e.day in t then 1 else 0
  {
    assert (es + [e])[..|es|] == es;
  }

  /** One more argument to `update` changes its day only if the day exists. */
  lemma UpdateAllStep(t: map<int, int>, es: seq<DailySteps>, e: DailySteps)
    ensures UpdateAll(t, es + [e]) == if e.day in t then UpdateAll(t, es)[e.day := e.steps] else UpdateAll(t, es)
  {
    InsertAllStep(t, es, e);
  }

  /** `removeNegativeEntries`: keep exactly the entries with `steps >= 0`. */
  function NonNegative(t: map<int, int>): (r: map<int, int>)
    ensures forall k :: k in r <==> k in t && t[k] >= 0
    ensures forall k :: k in r ==> r[k] == t[k]
  {
    map k | k in t && t[k] >= 0 :: t[k]
  }

  class DailyStepsDao {
    var table: map<int, int>

    constructor ()
      ensures table == map[]
    {
      table := map[];
    }

    function GetAll(): seq<DailySteps>
      reads this
    {
      AllEntries(table)
    }

    function GetSteps(day: int): Option<int>
      reads this
    {
      StepsOf(table, day)
    }

    function GetLastEntries(num: int): seq<DailySteps>
      reads this
    {
      LastEntries(table, num)
    }

    function GetRecord(): Option<DailySteps>
      reads this
    {
      Record(table)
    }

    function GetStepsFromDayRange(start: int, end: int): int
      reads this
    {
      RangeSum(table, start, end)
    }

    function GetDaysWithoutToday(today: int): int
      reads this
    {
      DaysWithoutToday(table, today)
    }

    method AddToLastEntry(steps: int)
      modifies this
      ensures table == AddToMax(old(table), steps)
    {
      table := AddToMax(table, steps);
    }

    /** The generated insert: one REPLACE per argument, in order. */
    method Insert(entries: seq<DailySteps>)
      modifies this
      ensures table == InsertAll(old(table), entries)
    {
      var t0 := table;
      var i := 0;
      while i < |entries|
        invariant 0 <= i <= |entries|
        invariant table == InsertAll(t0, entries[..i])
      {
        assert entries[..i + 1] == entries[..i] + [entries[i]];
        InsertAllStep(t0, entries[..i], entries[i]);
        table := table[entries[i].day := entries[i].steps];
        i := i + 1;
      }
      assert entries[..|entries|] == entries;
    }

    /** The generated update: one UPDATE by primary key per argument, summing the rows changed. */
    method Update(entries: seq<DailySteps>) returns (count: int)
      modifies this
      ensures table == UpdateAll(old(table), entries)
      ensures count == PresentCount(old(table), entries)
    {
      var t0 := table;
      var m := table;
      count := 0;
      var i := 0;
      while i < |entries|
        invariant 0 <= i <= |entries|
        invariant m == UpdateAll(t0, entries[..i])
        invariant count == PresentCount(t0, entries[..i])
      {
        var e := entries[i];
        assert entries[..i + 1] == entries[..i] + [e];
        UpdateAllStep(t0, entries[..i], e);
        PresentCountStep(t0, entries[..i], e);
        if e.day in m {
          m := m[e.day := e.steps];
          count := count + 1;
        }
        i := i + 1;
      }
      assert entries[..|entries|] == entries;
      table := m;
    }

    method RemoveNegativeEntries()
      modifies this
      ensures table == NonNegative(old(table))
    {
      table := NonNegative(table);
    }
  }

  // ---------------------------------------------------------------------------
  // Lemmas

  /** Range sums add up over adjacent inclusive ranges. */
  lemma RangeSumSplit(t: map<int, int>, a: int, b: int, c: int)
    requires a - 1 <= b <= c
    ensures RangeSum(t, a, b) + RangeSum(t, b + 1, c) == RangeSum(t, a, c)
  {
    var lo := RangeDays(t, a, b);
    var hi := RangeDays(t, b + 1, c);
    assert lo + hi == RangeDays(t, a, c);
    SumSplit(t, lo, hi);
  }

  /** The range of a single day sums to that day's value, or 0 without an entry. */
  lemma RangeSumOneDay(t: map<int, int>, d: int)
    ensures RangeSum(t, d, d) == if d in t then t[d] else 0
  {
    if d in t {
      assert RangeDays(t, d, d) == {d};
      SumSingle(t, d);
    } else {
      assert RangeDays(t, d, d) == {};
    }
  }

  /** After `insert`, a day maps to the last value inserted for it. */
  lemma InsertReplaces(t: map<int, int>, e: DailySteps)
    ensures InsertAll(t, [e]) == t[e.day := e.steps]
  {
    assert [e][..0] == [];
  }

  /** `update` on an absent day returns 0 and changes nothing. */
  lemma UpdateAbsent(t: map<int, int>, e: DailySteps)
    requires e.day !in t
    ensures UpdateAll(t, [e]) == t && PresentCount(t, [e]) == 0
  {
    InsertReplaces(t, e);
  }

  /** `update` on a present day returns 1 and overwrites it. */
  lemma UpdatePresent(t: map<int, int>, e: DailySteps)
    requires e.day in t
    ensures UpdateAll(t, [e]) == t[e.day := e.steps] && PresentCount(t, [e]) == 1
  {
    InsertReplaces(t, e);
    assert [e][..0] == [];
  }
}
