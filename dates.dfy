/**
 * Proleptic Gregorian calendar arithmetic: the part of dayjs that the calendar
 * component relies on (`daysInMonth`, `get('day')`, `set('date', k)`,
 * `add`/`subtract` by days and by months), on plain calendar dates with no
 * time of day and no time zone.
 */
module Dates {

  /** A calendar date; `month` is 1..12 (dayjs numbers months 0..11, which only shifts the encoding). */
  datatype Date = Date(year: int, month: int, day: int)

  predicate IsLeapYear(y: int) {
    (y % 4 == 0 && y % 100 != 0) || y % 400 == 0
  }

  function DaysInYear(y: int): int {
    if IsLeapYear(y) then 366 else 365
  }

  /** dayjs `daysInMonth()`. */
  function DaysInMonth(y: int, m: int): (n: int)
    requires 1 <= m <= 12
    ensures 28 <= n <= 31
    ensures n == 29 <==> m == 2 && IsLeapYear(y)
  {
    if m == 2 then (if IsLeapYear(y) then 29 else 28)
    else if m == 4 || m == 6 || m == 9 || m == 11 then 30
    else 31
  }

  predicate ValidDate(d: Date) {
    1 <= d.month <= 12 && 1 <= d.day <= DaysInMonth(d.year, d.month)
  }

  /** Days of year `y` that lie before the first of month `m`. */
  function DaysBeforeMonth(y: int, m: int): int
    requires 1 <= m <= 12
  {
    var common := [0, 31, 59, 90, 120, 151, 181, 212, 243, 273, 304, 334][m - 1];
    if m > 2 && IsLeapYear(y) then common + 1 else common
  }

  /** Days from 0000-01-01 to the first of year `y` (negative for years before 0). */
  function DaysBeforeYear(y: int): int {
    365 * y + (y + 3) / 4 - (y + 99) / 100 + (y + 399) / 400
  }

  /** Days elapsed since 0000-01-01 (proleptic Gregorian, astronomical year numbering). */
  function DayNumber(d: Date): int
    requires ValidDate(d)
  {
    DaysBeforeYear(d.year) + DaysBeforeMonth(d.year, d.month) + d.day - 1
  }

  /** dayjs `get('day')`: 0 is Sunday, 6 is Saturday. 0000-01-01 was a Saturday. */
  function Weekday(d: Date): (w: int)
    requires ValidDate(d)
    ensures 0 <= w < 7
  {
    (DayNumber(d) + 6) % 7
  }

  /** The day after `d`. */
  function NextDay(d: Date): (r: Date)
    requires ValidDate(d)
    ensures ValidDate(r)
    ensures r.year == d.year || (r.year == d.year + 1 && r.month == 1 && r.day == 1)
  {
    if d.day < DaysInMonth(d.year, d.month) then Date(d.year, d.month, d.day + 1)
    else if d.month < 12 then Date(d.year, d.month + 1, 1)
    else Date(d.year + 1, 1, 1)
  }

  /** The day before `d`. */
  function PreviousDay(d: Date): (r: Date)
    requires ValidDate(d)
    ensures ValidDate(r)
    ensures r.year == d.year || (r.year == d.year - 1 && r.month == 12 && r.day == 31)
  {
    if d.day > 1 then Date(d.year, d.month, d.day - 1)
    else if d.month > 1 then Date(d.year, d.month - 1, DaysInMonth(d.year, d.month - 1))
    else Date(d.year - 1, 12, 31)
  }

  /** dayjs `add(n, 'day')` (and `subtract(n, 'day')` as `add(-n, 'day')`): step one day at a time. */
  function AddDays(d: Date, n: int): (r: Date)
    requires ValidDate(d)
    ensures ValidDate(r)
    decreases if n >= 0 then n else -n
  {
    if n == 0 then d
    else if n > 0 then AddDays(NextDay(d), n - 1)
    else AddDays(PreviousDay(d), n + 1)
  }

  function Min(a: int, b: int): int {
    if a <= b then a else b
  }

  /**
   * dayjs `add(n, 'month')`: move the month by `n` (carrying into the year) and
   * clamp the day to the length of the target month.
   */
  function AddMonths(d: Date, n: int): (r: Date)
    requires ValidDate(d)
    ensures ValidDate(r)
    ensures r.day <= d.day
  {
    var t := d.year * 12 + (d.month - 1) + n;
    var y := t / 12;
    var m := t % 12 + 1;
    Date(y, m, Min(d.day, DaysInMonth(y, m)))
  }

  // ---------------------------------------------------------------------------
  // Day numbers

  /** Below `y + 1` there is one more multiple of 4 than below `y` exactly when 4 divides `y`. */
  lemma StepFour(y: int)
    ensures (y + 4) / 4 == (y + 3) / 4 + (if y % 4 == 0 then 1 else 0)
  {
    var q, r := y / 4, y % 4;
    assert y == 4 * q + r;
    assert (y + 4) / 4 == q + 1;
    assert (y + 3) / 4 == if r == 0 then q else q + 1;
  }

  lemma StepHundred(y: int)
    ensures (y + 100) / 100 == (y + 99) / 100 + (if y % 100 == 0 then 1 else 0)
  {
    var q, r := y / 100, y % 100;
    assert y == 100 * q + r;
    assert (y + 100) / 100 == q + 1;
    assert (y + 99) / 100 == if r == 0 then q else q + 1;
  }

  lemma StepFourHundred(y: int)
    ensures (y + 400) / 400 == (y + 399) / 400 + (if y % 400 == 0 then 1 else 0)
  {
    var q, r := y / 400, y % 400;
    assert y == 400 * q + r;
    assert (y + 400) / 400 == q + 1;
    assert (y + 399) / 400 == if r == 0 then q else q + 1;
  }

  /** Every multiple of 400 is a multiple of 100, and every multiple of 100 a multiple of 4. */
  lemma DivisibilityChain(y: int)
    ensures y % 400 == 0 ==> y % 100 == 0
    ensures y % 100 == 0 ==> y % 4 == 0
  {
    if y % 400 == 0 {
      var q := y / 400;
      assert y == 100 * (4 * q);
    }
    if y % 100 == 0 {
      var q := y / 100;
      assert y == 4 * (25 * q);
    }
  }

  /** Consecutive years are `DaysInYear` apart. */
  lemma YearStep(y: int)
    ensures DaysBeforeYear(y + 1) == DaysBeforeYear(y) + DaysInYear(y)
  {
    StepFour(y);
    StepHundred(y);
    StepFourHundred(y);
    DivisibilityChain(y);
    var leap := (y + 4) / 4 - (y + 3) / 4 - ((y + 100) / 100 - (y + 99) / 100) + (y + 400) / 400 - (y + 399) / 400;
    assert leap == if IsLeapYear(y) then 1 else 0;
    assert DaysBeforeYear(y + 1) - DaysBeforeYear(y) == 365 + leap;
  }

  lemma MonthStep(y: int, m: int)
    requires 1 <= m < 12
    ensures DaysBeforeMonth(y, m + 1) == DaysBeforeMonth(y, m) + DaysInMonth(y, m)
  {
  }

  /** The first day of a month has day number `DaysBeforeYear + DaysBeforeMonth`, and the day number grows by the day of month. */
  lemma DayNumberInMonth(y: int, m: int, k: int)
    requires 1 <= m <= 12 && 1 <= k <= DaysInMonth(y, m)
    ensures DayNumber(Date(y, m, k)) == DayNumber(Date(y, m, 1)) + k - 1
  {
  }

  /** `NextDay` advances the day number by exactly one. */
  lemma NextDayNumber(d: Date)
    requires ValidDate(d)
    ensures DayNumber(NextDay(d)) == DayNumber(d) + 1
  {
    if d.day == DaysInMonth(d.year, d.month) {
      if d.month < 12 {
        MonthStep(d.year, d.month);
      } else {
        YearStep(d.year);
      }
    }
  }

  /** `PreviousDay` and `NextDay` undo each other. */
  lemma NextPreviousDay(d: Date)
    requires ValidDate(d)
    ensures NextDay(PreviousDay(d)) == d
    ensures PreviousDay(NextDay(d)) == d
  {
  }

  lemma PreviousDayNumber(d: Date)
    requires ValidDate(d)
    ensures DayNumber(PreviousDay(d)) == DayNumber(d) - 1
  {
    NextPreviousDay(d);
    NextDayNumber(PreviousDay(d));
  }

  /** `AddDays(d, n)` is exactly `n` days away from `d`. */
  lemma {:induction false} AddDaysNumber(d: Date, n: int)
    requires ValidDate(d)
    ensures DayNumber(AddDays(d, n)) == DayNumber(d) + n
    decreases if n >= 0 then n else -n
  {
    if n > 0 {
      NextDayNumber(d);
      AddDaysNumber(NextDay(d), n - 1);
    } else if n < 0 {
      PreviousDayNumber(d);
      AddDaysNumber(PreviousDay(d), n + 1);
    }
  }

  /** Going one day further forward is one more `NextDay`. */
  lemma {:induction false} AddDaysForward(d: Date, n: nat)
    requires ValidDate(d)
    ensures AddDays(d, n + 1) == NextDay(AddDays(d, n))
    decreases n
  {
    if n > 0 {
      AddDaysForward(NextDay(d), n - 1);
    }
  }

  /** Going one day further back is one more `PreviousDay`. */
  lemma {:induction false} AddDaysBackward(d: Date, n: nat)
    requires ValidDate(d)
    ensures AddDays(d, -(n + 1)) == PreviousDay(AddDays(d, -(n as int)))
    decreases n
  {
    if n > 0 {
      AddDaysBackward(PreviousDay(d), n - 1);
    }
  }

  /** The day after `AddDays(d, -(n + 1))` is `AddDays(d, -n)`. */
  lemma NextOfBackward(d: Date, n: nat)
    requires ValidDate(d)
    ensures NextDay(AddDays(d, -(n + 1))) == AddDays(d, -(n as int))
  {
    AddDaysBackward(d, n);
    NextPreviousDay(AddDays(d, -(n as int)));
  }

  /** Adding a multiple of 7 does not change a remainder modulo 7. */
  lemma ModSevenShift(q: int, x: int)
    ensures (7 * q + x) % 7 == x % 7
  {
  }

  lemma ModSevenAdd(a: int, b: int)
    ensures (a + b) % 7 == (a % 7 + b) % 7
  {
    ModSevenShift(a / 7, a % 7 + b);
  }

  /** The weekday advances by one, modulo 7, from one day to the next. */
  lemma WeekdayStep(d: Date)
    requires ValidDate(d)
    ensures Weekday(NextDay(d)) == (Weekday(d) + 1) % 7
  {
    NextDayNumber(d);
    ModSevenAdd(DayNumber(d) + 6, 1);
  }

  /** Anchor: 1 January 2024 was a Monday, and 1 February 2024 a Thursday. */
  lemma WeekdayAnchors()
    ensures Weekday(Date(2024, 1, 1)) == 1
    ensures Weekday(Date(2024, 2, 1)) == 4
    ensures Weekday(Date(2000, 1, 1)) == 6
  {
  }

  // ---------------------------------------------------------------------------
  // Month navigation

  /** From the first of a month, `add(1, 'month')` lands on the first of the following month, wrapping December into January. */
  lemma AddOneMonthFromFirst(d: Date)
    requires ValidDate(d) && d.day == 1
    ensures AddMonths(d, 1) == if d.month == 12 then Date(d.year + 1, 1, 1) else Date(d.year, d.month + 1, 1)
  {
  }

  /** From the first of a month, `subtract(1, 'month')` lands on the first of the preceding month, wrapping January into December. */
  lemma SubtractOneMonthFromFirst(d: Date)
    requires ValidDate(d) && d.day == 1
    ensures AddMonths(d, -1) == if d.month == 1 then Date(d.year - 1, 12, 1) else Date(d.year, d.month - 1, 1)
  {
  }

  /** On firsts of months, one month forward and one back are inverse moves. */
  lemma MonthRoundTrip(d: Date)
    requires ValidDate(d) && d.day == 1
    ensures AddMonths(AddMonths(d, 1), -1) == d
    ensures AddMonths(AddMonths(d, -1), 1) == d
  {
    AddOneMonthFromFirst(d);
    SubtractOneMonthFromFirst(d);
    AddOneMonthFromFirst(AddMonths(d, -1));
    SubtractOneMonthFromFirst(AddMonths(d, 1));
  }

  /** Away from the first, `add(1, 'month')` keeps the day when it fits and clamps it otherwise (31 January goes to the end of February). */
  lemma AddMonthClamps(d: Date)
    requires ValidDate(d) && d.month < 12
    ensures AddMonths(d, 1).month == d.month + 1 && AddMonths(d, 1).year == d.year
    ensures AddMonths(d, 1).day == Min(d.day, DaysInMonth(d.year, d.month + 1))
  {
  }
}
