/**
 * Epoch-day arithmetic in the proleptic Gregorian calendar (the calendar of
 * ISO 8601:2004, clause 3.2.1, extended to every year). Day 0 is 1970-01-01.
 *
 * `ToEpochDay` plays the part of `LocalDate.toEpochDay` and `CivilFromDays`
 * the part of `LocalDate.ofEpochDay`; both are closed forms over whole
 * 400-year cycles of 146097 days, with `/` and `%` taken as floor division
 * (Dafny's Euclidean operators agree with floor division for a positive
 * divisor).
 */
module Calendar {

  datatype Date = Date(year: int, month: int, day: int)

  const Epoch: Date := Date(1970, 1, 1)

  /** Days in one full Gregorian cycle of 400 years. */
  const DaysPerCycle: int := 146097

  predicate IsLeapYear(y: int) {
    y % 4 == 0 && (y % 100 != 0 || y % 400 == 0)
  }

  function DaysInYear(y: int): int {
    if IsLeapYear(y) then 366 else 365
  }

  function DaysInMonth(y: int, m: int): (n: int)
    requires 1 <= m <= 12
    ensures 28 <= n <= 31
  {
    if m == 2 then (if IsLeapYear(y) then 29 else 28)
    else if m == 4 || m == 6 || m == 9 || m == 11 then 30
    else 31
  }

  predicate ValidDate(d: Date) {
    1 <= d.month <= 12 && 1 <= d.day <= DaysInMonth(d.year, d.month)
  }

  /** Days of year `y` that lie before the first day of month `m` (m == 13: the whole year). */
  function DaysBeforeMonth(y: int, m: int): int
    requires 1 <= m <= 13
  {
    var common :=
      if m == 1 then 0 else if m == 2 then 31 else if m == 3 then 59
      else if m == 4 then 90 else if m == 5 then 120 else if m == 6 then 151
      else if m == 7 then 181 else if m == 8 then 212 else if m == 9 then 243
      else if m == 10 then 273 else if m == 11 then 304 else if m == 12 then 334
      else 365;
    if m > 2 && IsLeapYear(y) then common + 1 else common
  }

  /** Leap years among the years 1 .. y-1 (negative counts below year 1). */
  function LeapYearsBefore(y: int): int {
    (y - 1) / 4 - (y - 1) / 100 + (y - 1) / 400
  }

  /** Days from 1970-01-01 to the first day of year `y`. */
  function DaysBeforeYear(y: int): int {
    365 * (y - 1970) + LeapYearsBefore(y) - LeapYearsBefore(1970)
  }

  /** `LocalDate.toEpochDay`: days from 1970-01-01 to `d`. */
  function ToEpochDay(d: Date): (r: int)
    requires ValidDate(d)
    ensures DaysBeforeYear(d.year) <= r < DaysBeforeYear(d.year) + DaysInYear(d.year)
  {
    MonthBounds(d.year, d.month);
    DaysBeforeYear(d.year) + DaysBeforeMonth(d.year, d.month) + d.day - 1
  }

  /** The calendar day that follows `d`. */
  function NextDate(d: Date): (n: Date)
    requires ValidDate(d)
    ensures ValidDate(n)
  {
    if d.day < DaysInMonth(d.year, d.month) then Date(d.year, d.month, d.day + 1)
    else if d.month < 12 then Date(d.year, d.month + 1, 1)
    else Date(d.year + 1, 1, 1)
  }

  /** Strict chronological order on dates. */
  predicate Before(a: Date, b: Date) {
    a.year < b.year
    || (a.year == b.year && a.month < b.month)
    || (a.year == b.year && a.month == b.month && a.day < b.day)
  }

  // ---------------------------------------------------------------------------
  // Facts about the year and month tables

  /** Floor division by a fixed divisor grows by one exactly at its multiples. */
  lemma FloorStep(y: int, k: int)
    requires k == 4 || k == 100 || k == 400
    ensures y / k == (y - 1) / k + (if y % k == 0 then 1 else 0)
  {
    var q, r := (y - 1) / k, (y - 1) % k;
    assert y - 1 == k * q + r && 0 <= r < k;
    if r == k - 1 {
      assert y == k * (q + 1);
    } else {
      assert y == k * q + (r + 1) && 0 < r + 1 < k;
    }
  }

  lemma MultipleOf(y: int, big: int, small: int)
    requires (big == 400 && small == 100) || (big == 100 && small == 4)
    requires y % big == 0
    ensures y % small == 0
  {
    var z := (big / small) * (y / big);
    assert y == big * (y / big);
    assert y == small * z;
  }

  /** A multiple of 400 is a multiple of 100, and a multiple of 100 one of 4. */
  lemma DivisibilityChain(y: int)
    ensures y % 400 == 0 ==> y % 100 == 0
    ensures y % 100 == 0 ==> y % 4 == 0
  {
    if y % 400 == 0 {
      MultipleOf(y, 400, 100);
    }
    if y % 100 == 0 {
      MultipleOf(y, 100, 4);
    }
  }

  /** The leap-year count grows by one past each leap year. */
  lemma LeapStep(y: int)
    ensures LeapYearsBefore(y + 1) == LeapYearsBefore(y) + (if IsLeapYear(y) then 1 else 0)
  {
    FloorStep(y, 4);
    FloorStep(y, 100);
    FloorStep(y, 400);
    DivisibilityChain(y);
  }

  lemma YearStep(y: int)
    ensures DaysBeforeYear(y + 1) == DaysBeforeYear(y) + DaysInYear(y)
  {
    LeapStep(y);
  }

  /** Whole 400-year cycles from 1970: every cycle has exactly 146097 days. */
  lemma CycleStart(q: int)
    ensures DaysBeforeYear(1970 + 400 * q) == DaysPerCycle * q
  {
    var y := 1970 + 400 * q;
    assert y - 1 == 4 * (492 + 100 * q) + 1;
    assert (y - 1) / 4 == 492 + 100 * q;
    assert y - 1 == 100 * (19 + 4 * q) + 69;
    assert (y - 1) / 100 == 19 + 4 * q;
    assert y - 1 == 400 * (4 + q) + 369;
    assert (y - 1) / 400 == 4 + q;
    assert LeapYearsBefore(1970) == 477;
  }

  lemma MonthStep(y: int, m: int)
    requires 1 <= m <= 12
    ensures DaysBeforeMonth(y, m + 1) == DaysBeforeMonth(y, m) + DaysInMonth(y, m)
  {
  }

  lemma MonthBounds(y: int, m: int)
    requires 1 <= m <= 12
    ensures 0 <= DaysBeforeMonth(y, m)
    ensures DaysBeforeMonth(y, m) + DaysInMonth(y, m) <= DaysInYear(y)
  {
  }

  lemma {:induction false} YearsMonotone(a: int, b: int)
    requires a <= b
    ensures DaysBeforeYear(a) + 365 * (b - a) <= DaysBeforeYear(b)
    decreases b - a
  {
    if a < b {
      YearsMonotone(a, b - 1);
      YearStep(b - 1);
    }
  }

  // ---------------------------------------------------------------------------
  // From an epoch day back to a date

  /** Walks forward from year `y` until `r` days lie inside one year. */
  function YearWithin(y: int, r: int): (res: (int, int))
    requires 0 <= r
    ensures y <= res.0 && 0 <= res.1 < DaysInYear(res.0)
    ensures DaysBeforeYear(res.0) + res.1 == DaysBeforeYear(y) + r
    decreases r
  {
    if r < DaysInYear(y) then (y, r)
    else
      YearStep(y);
      YearWithin(y + 1, r - DaysInYear(y))
  }

  /** Walks forward from month `m` until day-of-year `doy` lies inside one month. */
  function MonthWithin(y: int, m: int, doy: int): (res: (int, int))
    requires 1 <= m <= 12
    requires DaysBeforeMonth(y, m) <= doy < DaysInYear(y)
    ensures m <= res.0 <= 12 && 1 <= res.1 <= DaysInMonth(y, res.0)
    ensures DaysBeforeMonth(y, res.0) + res.1 - 1 == doy
    decreases 12 - m
  {
    MonthStep(y, m);
    if doy < DaysBeforeMonth(y, m) + DaysInMonth(y, m) || m == 12 then (m, doy - DaysBeforeMonth(y, m) + 1)
    else MonthWithin(y, m + 1, doy)
  }

  /** `LocalDate.ofEpochDay`: the date whose epoch day is `n`. */
  function CivilFromDays(n: int): (d: Date)
    ensures ValidDate(d) && ToEpochDay(d) == n
  {
    var q, r := n / DaysPerCycle, n % DaysPerCycle;
    CycleStart(q);
    var yd := YearWithin(1970 + 400 * q, r);
    var md := MonthWithin(yd.0, 1, yd.1);
    Date(yd.0, md.0, md.1)
  }

  // ---------------------------------------------------------------------------
  // Properties

  lemma EpochIsDayZero()
    ensures ValidDate(Epoch) && ToEpochDay(Epoch) == 0
  {
  }

  /** Consecutive calendar dates have consecutive epoch days. */
  lemma NextDateIsNextDay(d: Date)
    requires ValidDate(d)
    ensures ToEpochDay(NextDate(d)) == ToEpochDay(d) + 1
  {
    if d.day == DaysInMonth(d.year, d.month) {
      if d.month < 12 {
        MonthStep(d.year, d.month);
      } else {
        YearStep(d.year);
      }
    }
  }

  /** `ToEpochDay` is strictly increasing in the date. */
  lemma EpochDayStrictlyIncreasing(a: Date, b: Date)
    requires ValidDate(a) && ValidDate(b) && Before(a, b)
    ensures ToEpochDay(a) < ToEpochDay(b)
  {
    if a.year < b.year {
      EarlierYearSmaller(a, b);
    } else if a.month < b.month {
      MonthBounds(a.year, a.month);
      MonthsMonotone(a.year, a.month + 1, b.month);
    }
  }

  /** A date in an earlier year has a smaller epoch day. */
  lemma EarlierYearSmaller(a: Date, b: Date)
    requires ValidDate(a) && ValidDate(b) && a.year < b.year
    ensures ToEpochDay(a) < ToEpochDay(b)
  {
    YearStep(a.year);
    YearsMonotone(a.year + 1, b.year);
    assert ToEpochDay(a) < DaysBeforeYear(a.year + 1) <= DaysBeforeYear(b.year) <= ToEpochDay(b);
  }

  lemma {:induction false} MonthsMonotone(y: int, a: int, b: int)
    requires 1 <= a <= b <= 12
    ensures DaysBeforeMonth(y, a) <= DaysBeforeMonth(y, b)
    decreases b - a
  {
    if a < b {
      MonthsMonotone(y, a, b - 1);
      MonthStep(y, b - 1);
    }
  }

  /** Two valid dates with the same epoch day are the same date. */
  lemma EpochDayInjective(a: Date, b: Date)
    requires ValidDate(a) && ValidDate(b) && ToEpochDay(a) == ToEpochDay(b)
    ensures a == b
  {
    if Before(a, b) {
      EpochDayStrictlyIncreasing(a, b);
    } else if Before(b, a) {
      EpochDayStrictlyIncreasing(b, a);
    }
  }

  /** Dates before 1970-01-01 have negative epoch days. */
  lemma BeforeEpochIsNegative(d: Date)
    requires ValidDate(d) && Before(d, Epoch)
    ensures ToEpochDay(d) < 0
  {
    EpochDayStrictlyIncreasing(d, Epoch);
  }

  /** Round trip: converting a date to its epoch day and back gives the date. */
  lemma CivilFromEpochDay(d: Date)
    requires ValidDate(d)
    ensures CivilFromDays(ToEpochDay(d)) == d
  {
    EpochDayInjective(CivilFromDays(ToEpochDay(d)), d);
  }

  /** The date of day n + 1 is the calendar successor of the date of day n. */
  lemma CivilFromDaysSuccessor(n: int)
    ensures CivilFromDays(n + 1) == NextDate(CivilFromDays(n))
  {
    var d := CivilFromDays(n);
    NextDateIsNextDay(d);
    EpochDayInjective(CivilFromDays(n + 1), NextDate(d));
  }

  lemma DayZeroIsEpoch()
    ensures CivilFromDays(0) == Epoch
  {
    CivilFromEpochDay(Epoch);
  }
}

/**
 * The app's day index: the number of days elapsed since 1970-01-01.
 * Util.getUnixDay and TimeUtil.getUnixDay share one body
 * (`ChronoUnit.DAYS.between(1970-01-01, date)`), modelled once as `UnixDay`;
 * the clock read by `LocalDate.now()` is the parameter `now`.
 */
module DayIndex {
  import opened Calendar

  /** `ChronoUnit.DAYS.between(a, b)` for dates. */
  function DaysBetween(a: Date, b: Date): int
    requires ValidDate(a) && ValidDate(b)
  {
    ToEpochDay(b) - ToEpochDay(a)
  }

  /** Util.getUnixDay / TimeUtil.getUnixDay; agrees with `LocalDate.toEpochDay`. */
  function UnixDay(d: Date): (r: int)
    requires ValidDate(d)
    ensures r == ToEpochDay(d)
  {
    EpochIsDayZero();
    DaysBetween(Epoch, d)
  }

  /** Util.getToday: the unix day of the current local date. */
  function UtilToday(now: Date): (r: int)
    requires ValidDate(now)
    ensures CivilFromDays(r) == now
  {
    CivilFromEpochDay(now);
    UnixDay(now)
  }

  /** DateUtil.getToday: today's epoch day. */
  function DateUtilToday(now: Date): (r: int)
    requires ValidDate(now)
    ensures r == UtilToday(now)
  {
    ToEpochDay(now)
  }

  /** DateUtil.dayToLocalDate. */
  function DayToLocalDate(day: int): (d: Date)
    ensures ValidDate(d) && UnixDay(d) == day
  {
    CivilFromDays(day)
  }

  /** DateUtil.getDayOfMonth: the day of the month of the current date. */
  function DayOfMonth(now: Date): (r: int)
    requires ValidDate(now)
    ensures 1 <= r <= 31
  {
    now.day
  }

  lemma UnixDayOfEpoch()
    ensures UnixDay(Epoch) == 0
  {
  }

  /** The case pinned by TimeUtilTest: 2021-10-24 is day 18924. */
  lemma UnixDayOctober24th2021()
    ensures ValidDate(Date(2021, 10, 24)) && UnixDay(Date(2021, 10, 24)) == 18924
  {
    assert LeapYearsBefore(2021) == 490;
  }

  lemma UnixDaySuccessor(d: Date)
    requires ValidDate(d)
    ensures UnixDay(NextDate(d)) == UnixDay(d) + 1
  {
    NextDateIsNextDay(d);
  }

  lemma UnixDayStrictlyIncreasing(a: Date, b: Date)
    requires ValidDate(a) && ValidDate(b) && Before(a, b)
    ensures UnixDay(a) < UnixDay(b)
  {
    EpochDayStrictlyIncreasing(a, b);
  }

  lemma UnixDayNegativeBefore1970(d: Date)
    requires ValidDate(d) && Before(d, Epoch)
    ensures UnixDay(d) < 0
  {
    BeforeEpochIsNegative(d);
  }

  lemma DayToLocalDateRoundTrip(d: Date)
    requires ValidDate(d)
    ensures DayToLocalDate(UnixDay(d)) == d
  {
    CivilFromEpochDay(d);
  }

  lemma DayToLocalDateOfZero()
    ensures DayToLocalDate(0) == Epoch
  {
    DayZeroIsEpoch();
  }

  lemma DayToLocalDateSuccessor(day: int)
    ensures DayToLocalDate(day + 1) == NextDate(DayToLocalDate(day))
  {
    CivilFromDaysSuccessor(day);
  }
}
