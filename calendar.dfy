/**
 * The month grid of the calendar component: the displayed month's days, padded
 * in front with the end of the previous month and at the back with the start of
 * the next one, cut into weeks of seven; and the component's `currentDate`
 * state with its previous/next month navigation.
 */
module Calendar {
  import opened Dates

  /** One cell of the grid: a date and whether it is greyed out. */
  datatype CalendarDay = CalendarDay(date: Date, disabled: bool)

  /** One row of the grid: `week` is its 1-based position. */
  datatype CalendarWeek = CalendarWeek(week: int, days: seq<CalendarDay>)

  function Reverse<T>(s: seq<T>): (r: seq<T>)
    ensures |r| == |s|
  {
    if s == [] then [] else Reverse(s[1..]) + [s[0]]
  }

  lemma {:induction false} ReverseAt<T>(s: seq<T>, k: int)
    requires 0 <= k < |s|
    ensures Reverse(s)[k] == s[|s| - 1 - k]
  {
    if k < |s| - 1 {
      ReverseAt(s[1..], k);
    }
  }

  // ---------------------------------------------------------------------------
  // The three runs of dates

  /** Every day of `current`'s month, `current.set('date', i + 1)` for i in 0 .. daysInMonth - 1. */
  function DaysOfMonth(current: Date): seq<Date>
    requires ValidDate(current)
  {
    seq(DaysInMonth(current.year, current.month), i => Date(current.year, current.month, i + 1))
  }

  /** `current.subtract(i + 1, 'day')` for i below `current`'s weekday, then reversed. */
  function PreviousMonthFill(current: Date): seq<Date>
    requires ValidDate(current)
  {
    Reverse(seq(Weekday(current), i => AddDays(current, -(i + 1))))
  }

  function LastDayOfMonth(current: Date): (r: Date)
    requires ValidDate(current)
    ensures ValidDate(r)
    ensures r.year == current.year && r.month == current.month
  {
    Date(current.year, current.month, DaysInMonth(current.year, current.month))
  }

  /** `lastDay.add(i + 1, 'day')` for i below `7 - (lastWeekDay + 1)`. */
  function NextMonthFill(current: Date): seq<Date>
    requires ValidDate(current)
  {
    var last := LastDayOfMonth(current);
    seq(7 - (Weekday(last) + 1), i => AddDays(last, i + 1))
  }

  function Mark(dates: seq<Date>, disabled: bool): (r: seq<CalendarDay>)
    ensures |r| == |dates|
    ensures forall i :: 0 <= i < |r| ==> r[i].date == dates[i] && r[i].disabled == disabled
  {
    seq(|dates|, i requires 0 <= i < |dates| => CalendarDay(dates[i], disabled))
  }

  /** The flat list of cells: padding before and after is disabled, the month itself enabled. */
  function CalendarDays(current: Date): seq<CalendarDay>
    requires ValidDate(current)
  {
    Mark(PreviousMonthFill(current), true)
    + Mark(DaysOfMonth(current), false)
    + Mark(NextMonthFill(current), true)
  }

  // ---------------------------------------------------------------------------
  // Cutting the list into weeks

  /** The week pushed at index `7 * k`: `original.slice(7k, 7k + 7)`, numbered `k + 1`. */
  function WeekAt(days: seq<CalendarDay>, k: nat): CalendarWeek
    requires 7 * k < |days|
  {
    CalendarWeek(k + 1, days[7 * k .. Min(7 * k + 7, |days|)])
  }

  /** What the `reduce` builds: one week per index that is a multiple of 7. */
  function ChunkWeeks(days: seq<CalendarDay>): seq<CalendarWeek> {
    seq((|days| + 6) / 7, k requires 0 <= k < (|days| + 6) / 7 => WeekAt(days, k))
  }

  /** The grid the component renders for `current`. */
  function CalendarWeeks(current: Date): seq<CalendarWeek>
    requires ValidDate(current)
  {
    ChunkWeeks(CalendarDays(current))
  }

  /**
   * The `reduce` over the cells: at every index that is a multiple of 7 it pushes
   * the week starting there, numbered `i / 7 + 1`.
   */
  method Chunk(days: seq<CalendarDay>) returns (weeks: seq<CalendarWeek>)
    ensures weeks == ChunkWeeks(days)
  {
    weeks := [];
    var i := 0;
    while i < |days|
      invariant 0 <= i <= |days|
      invariant |weeks| == (i + 6) / 7
      invariant forall k :: 0 <= k < |weeks| ==> 7 * k < |days| && weeks[k] == WeekAt(days, k)
    {
      if i % 7 == 0 {
        weeks := weeks + [CalendarWeek(i / 7 + 1, days[i .. Min(i + 7, |days|)])];
      }
      i := i + 1;
    }
  }

  function Flatten(weeks: seq<CalendarWeek>): seq<CalendarDay> {
    if weeks == [] then [] else weeks[0].days + Flatten(weeks[1..])
  }

  /** Concatenating the weeks from week `j` on gives the cells from `7 * j` on. */
  lemma {:induction false} FlattenSuffix(days: seq<CalendarDay>, j: nat)
    requires j <= (|days| + 6) / 7
    ensures Flatten(ChunkWeeks(days)[j..]) == days[Min(7 * j, |days|)..]
    decreases (|days| + 6) / 7 - j
  {
    var weeks := ChunkWeeks(days);
    if j < |weeks| {
      FlattenSuffix(days, j + 1);
      assert weeks[j..][1..] == weeks[j + 1..];
      assert days[7 * j..] == days[7 * j .. Min(7 * j + 7, |days|)] + days[Min(7 * j + 7, |days|)..];
    }
  }

  /** Chunking loses and repeats nothing: the weeks' days, in order, are the cells. */
  lemma FlattenChunkWeeks(days: seq<CalendarDay>)
    ensures Flatten(ChunkWeeks(days)) == days
  {
    FlattenSuffix(days, 0);
    assert ChunkWeeks(days)[0..] == ChunkWeeks(days);
  }

  /** When the cell count is a multiple of 7, every week is full and weeks are numbered 1, 2, ... */
  lemma ChunkWeeksShape(days: seq<CalendarDay>)
    requires |days| % 7 == 0
    ensures |ChunkWeeks(days)| == |days| / 7
    ensures forall k :: 0 <= k < |days| / 7 ==>
      ChunkWeeks(days)[k].week == k + 1 && ChunkWeeks(days)[k].days == days[7 * k .. 7 * k + 7]
  {
  }

  // ---------------------------------------------------------------------------
  // Properties of the cells

  /** The front padding has one cell per weekday before day 1: none when the month starts on a Sunday; they are the days right before day 1, ascending. */
  lemma PreviousMonthFillDates(current: Date)
    requires ValidDate(current)
    ensures |PreviousMonthFill(current)| == Weekday(current)
    ensures Weekday(current) == 0 ==> PreviousMonthFill(current) == []
    ensures forall k :: 0 <= k < Weekday(current) ==>
      PreviousMonthFill(current)[k] == AddDays(current, -(Weekday(current) - k))
  {
    var n := Weekday(current);
    var back := seq(n, i => AddDays(current, -(i + 1)));
    forall k | 0 <= k < n
      ensures PreviousMonthFill(current)[k] == AddDays(current, -(n - k))
    {
      ReverseAt(back, k);
    }
  }

  /** The weekday of the month's last day, from the weekday of its first day. */
  lemma LastWeekday(current: Date)
    requires ValidDate(current) && current.day == 1
    ensures Weekday(LastDayOfMonth(current)) == (Weekday(current) + DaysInMonth(current.year, current.month) - 1) % 7
  {
    var n := DaysInMonth(current.year, current.month);
    DayNumberInMonth(current.year, current.month, n);
    ModSevenAdd(DayNumber(current) + 6, n - 1);
  }

  /** The back padding has `6 - lastWeekDay` cells, none when the month ends on a Saturday; they are the days right after the last day. */
  lemma NextMonthFillDates(current: Date)
    requires ValidDate(current)
    ensures |NextMonthFill(current)| == 6 - Weekday(LastDayOfMonth(current))
    ensures Weekday(LastDayOfMonth(current)) == 6 ==> NextMonthFill(current) == []
    ensures forall k :: 0 <= k < |NextMonthFill(current)| ==>
      NextMonthFill(current)[k] == AddDays(LastDayOfMonth(current), k + 1)
  {
  }

  /** The length of the flat list. */
  lemma CalendarDaysLength(current: Date)
    requires ValidDate(current)
    ensures |CalendarDays(current)| == Weekday(current) + DaysInMonth(current.year, current.month) + |NextMonthFill(current)|
  {
    PreviousMonthFillDates(current);
  }

  /** The first `Weekday(current)` cells: the front padding, disabled. */
  lemma FrontCells(current: Date)
    requires ValidDate(current)
    ensures forall i :: 0 <= i < Weekday(current) ==>
      i < |CalendarDays(current)| && CalendarDays(current)[i] == CalendarDay(AddDays(current, -(Weekday(current) - i)), true)
  {
    var front := Mark(PreviousMonthFill(current), true);
    var rest := Mark(DaysOfMonth(current), false) + Mark(NextMonthFill(current), true);
    assert CalendarDays(current) == front + rest;
    PreviousMonthFillDates(current);
  }

  /** The next `DaysInMonth` cells: days 1, 2, ... of the displayed month, enabled. */
  lemma MonthCells(current: Date)
    requires ValidDate(current)
    ensures var lead, n := Weekday(current), DaysInMonth(current.year, current.month);
      forall i :: lead <= i < lead + n ==>
        i < |CalendarDays(current)| && CalendarDays(current)[i] == CalendarDay(Date(current.year, current.month, i - lead + 1), false)
  {
    var lead, n := Weekday(current), DaysInMonth(current.year, current.month);
    var front := Mark(PreviousMonthFill(current), true);
    var middle := Mark(DaysOfMonth(current), false);
    var back := Mark(NextMonthFill(current), true);
    assert CalendarDays(current) == front + middle + back;
    PreviousMonthFillDates(current);
    forall i | lead <= i < lead + n
      ensures CalendarDays(current)[i] == middle[i - lead]
    {
    }
  }

  /** The remaining cells: the days after the month's last day, disabled. */
  lemma BackCells(current: Date)
    requires ValidDate(current)
    ensures var lead, n := Weekday(current), DaysInMonth(current.year, current.month);
      forall i :: lead + n <= i < |CalendarDays(current)| ==>
        CalendarDays(current)[i] == CalendarDay(AddDays(LastDayOfMonth(current), i - lead - n + 1), true)
  {
    var lead, n := Weekday(current), DaysInMonth(current.year, current.month);
    var front := Mark(PreviousMonthFill(current), true) + Mark(DaysOfMonth(current), false);
    var back := Mark(NextMonthFill(current), true);
    assert CalendarDays(current) == front + back;
    PreviousMonthFillDates(current);
    NextMonthFillDates(current);
    forall i | lead + n <= i < |CalendarDays(current)|
      ensures CalendarDays(current)[i] == back[i - lead - n]
    {
    }
  }

  /** Where each run sits in the flat list, and what its cells hold. */
  lemma CalendarDaysLayout(current: Date)
    requires ValidDate(current)
    ensures var lead, n := Weekday(current), DaysInMonth(current.year, current.month);
      var cells := CalendarDays(current);
      && |cells| == lead + n + |NextMonthFill(current)|
      && (forall i :: 0 <= i < lead ==>
            cells[i] == CalendarDay(AddDays(current, -(lead - i)), true))
      && (forall i :: lead <= i < lead + n ==>
            cells[i] == CalendarDay(Date(current.year, current.month, i - lead + 1), false))
      && (forall i :: lead + n <= i < |cells| ==>
            cells[i] == CalendarDay(AddDays(LastDayOfMonth(current), i - lead - n + 1), true))
  {
    CalendarDaysLength(current);
    FrontCells(current);
    MonthCells(current);
    BackCells(current);
  }

  /** Cell `i` lies `i` days after the first cell: the dates run consecutively. */
  lemma CellDayNumbers(current: Date)
    requires ValidDate(current) && current.day == 1
    ensures var cells := CalendarDays(current);
      forall i :: 0 <= i < |cells| ==>
        ValidDate(cells[i].date) && DayNumber(cells[i].date) == DayNumber(current) - Weekday(current) + i
  {
    CalendarDaysLayout(current);
    var lead, n := Weekday(current), DaysInMonth(current.year, current.month);
    var cells := CalendarDays(current);
    var last := LastDayOfMonth(current);
    DayNumberInMonth(current.year, current.month, n);
    forall i | 0 <= i < |cells|
      ensures DayNumber(cells[i].date) == DayNumber(current) - lead + i
    {
      if i < lead {
        AddDaysNumber(current, -(lead - i));
      } else if i < lead + n {
        DayNumberInMonth(current.year, current.month, i - lead + 1);
      } else {
        AddDaysNumber(last, i - lead - n + 1);
      }
    }
  }

  /** Each cell's date is the day after the previous cell's date. */
  lemma CellsConsecutive(current: Date)
    requires ValidDate(current) && current.day == 1
    ensures var cells := CalendarDays(current);
      forall i :: 0 <= i < |cells| - 1 ==> ValidDate(cells[i].date) && NextDay(cells[i].date) == cells[i + 1].date
  {
    CalendarDaysLayout(current);
    CellDayNumbers(current);
    var lead, n := Weekday(current), DaysInMonth(current.year, current.month);
    var cells := CalendarDays(current);
    var last := LastDayOfMonth(current);
    forall i | 0 <= i < |cells| - 1
      ensures NextDay(cells[i].date) == cells[i + 1].date
    {
      if i < lead {
        NextOfBackward(current, lead - i - 1);
      } else if i < lead + n - 1 {
      } else {
        AddDaysForward(last, i - lead - n + 1);
      }
    }
  }

  /** No date appears twice, so the date can key a cell. */
  lemma CellsDistinct(current: Date)
    requires ValidDate(current) && current.day == 1
    ensures var cells := CalendarDays(current);
      forall i, j :: 0 <= i < j < |cells| ==> cells[i].date != cells[j].date
  {
    CellDayNumbers(current);
  }

  /** A cell is disabled exactly when its date lies outside the displayed month. */
  lemma DisabledIffOutsideMonth(current: Date)
    requires ValidDate(current) && current.day == 1
    ensures var cells := CalendarDays(current);
      forall i :: 0 <= i < |cells| ==>
        (cells[i].disabled <==> !(cells[i].date.year == current.year && cells[i].date.month == current.month))
  {
    CalendarDaysLayout(current);
    CellDayNumbers(current);
    var lead, n := Weekday(current), DaysInMonth(current.year, current.month);
    var cells := CalendarDays(current);
    forall i | 0 <= i < |cells| && (i < lead || lead + n <= i)
      ensures !(cells[i].date.year == current.year && cells[i].date.month == current.month)
    {
      var d := cells[i].date;
      if d.year == current.year && d.month == current.month {
        DayNumberInMonth(current.year, current.month, d.day);
        DayNumberInMonth(current.year, current.month, n);
      }
    }
  }

  /** Cell `i` falls on weekday `i % 7`, so each column of the grid is one weekday, Sunday first. */
  lemma CellWeekdays(current: Date)
    requires ValidDate(current) && current.day == 1
    ensures var cells := CalendarDays(current);
      forall i :: 0 <= i < |cells| ==> ValidDate(cells[i].date) && Weekday(cells[i].date) == i % 7
  {
    CellDayNumbers(current);
    var cells := CalendarDays(current);
    var q := (DayNumber(current) + 6) / 7;
    assert DayNumber(current) + 6 - Weekday(current) == 7 * q;
    forall i | 0 <= i < |cells|
      ensures Weekday(cells[i].date) == i % 7
    {
      assert DayNumber(cells[i].date) + 6 == 7 * q + i;
      ModSevenShift(q, i);
    }
  }

  /** Padding a run of 28..31 days, starting on weekday `lead`, out to whole weeks gives 4 to 6 weeks. */
  lemma WholeWeeks(lead: int, n: int)
    requires 0 <= lead < 7 && 28 <= n <= 31
    ensures (lead + n + 6 - (lead + n - 1) % 7) % 7 == 0
    ensures 28 <= lead + n + 6 - (lead + n - 1) % 7 <= 42
  {
    var m := lead + n - 1;
    var q := m / 7;
    assert m == 7 * q + m % 7;
    assert lead + n + 6 - m % 7 == 7 * (q + 1);
  }

  /** The grid holds whole weeks: from 4 to 6 of them, starting on a Sunday and ending on a Saturday. */
  lemma CellCount(current: Date)
    requires ValidDate(current) && current.day == 1
    ensures var cells := CalendarDays(current);
      && |cells| % 7 == 0
      && 28 <= |cells| <= 42
      && ValidDate(cells[0].date) && ValidDate(cells[|cells| - 1].date)
      && Weekday(cells[0].date) == 0
      && Weekday(cells[|cells| - 1].date) == 6
  {
    var lead, n := Weekday(current), DaysInMonth(current.year, current.month);
    CalendarDaysLayout(current);
    LastWeekday(current);
    NextMonthFillDates(current);
    WholeWeeks(lead, n);
    var cells := CalendarDays(current);
    assert |cells| == lead + n + 6 - (lead + n - 1) % 7;
    CellWeekdays(current);
    var k := |cells| - 1;
    assert k % 7 == 6 by {
      ModSevenShift(|cells| / 7 - 1, 6);
    }
  }

  /** The rows: 4 to 6 full weeks numbered 1..n, which concatenate back to the cells. */
  lemma CalendarWeeksShape(current: Date)
    requires ValidDate(current) && current.day == 1
    ensures var weeks := CalendarWeeks(current);
      && 4 <= |weeks| <= 6
      && Flatten(weeks) == CalendarDays(current)
      && (forall w :: 0 <= w < |weeks| ==> weeks[w].week == w + 1 && |weeks[w].days| == 7)
  {
    var cells := CalendarDays(current);
    CellCount(current);
    ChunkWeeksShape(cells);
    FlattenChunkWeeks(cells);
  }

  /** Cells whose weekday follows their position, cut into weeks, put weekday `c` in column `c`. */
  lemma AlignedColumns(days: seq<CalendarDay>)
    requires |days| % 7 == 0
    requires forall i :: 0 <= i < |days| ==> ValidDate(days[i].date) && Weekday(days[i].date) == i % 7
    ensures var weeks := ChunkWeeks(days);
      forall w, c :: 0 <= w < |weeks| && 0 <= c < 7 ==>
        c < |weeks[w].days| && ValidDate(weeks[w].days[c].date) && Weekday(weeks[w].days[c].date) == c
  {
    ChunkWeeksShape(days);
    var weeks := ChunkWeeks(days);
    forall w, c | 0 <= w < |weeks| && 0 <= c < 7
      ensures c < |weeks[w].days| && weeks[w].days[c] == days[7 * w + c] && (7 * w + c) % 7 == c
    {
      ModSevenShift(w, c);
    }
  }

  /** Column `c` of every row is weekday `c`, matching the Sunday-first header. */
  lemma CalendarWeekColumns(current: Date)
    requires ValidDate(current) && current.day == 1
    ensures var weeks := CalendarWeeks(current);
      forall w, c :: 0 <= w < |weeks| && 0 <= c < 7 ==>
        c < |weeks[w].days| && ValidDate(weeks[w].days[c].date) && Weekday(weeks[w].days[c].date) == c
  {
    CellCount(current);
    CellWeekdays(current);
    AlignedColumns(CalendarDays(current));
  }

  /** February 2024 starts on a Thursday: four cells of January, 29 days, two of March, five weeks. */
  lemma February2024()
    ensures |PreviousMonthFill(Date(2024, 2, 1))| == 4
    ensures |NextMonthFill(Date(2024, 2, 1))| == 2
    ensures |CalendarWeeks(Date(2024, 2, 1))| == 5
  {
    var first := Date(2024, 2, 1);
    WeekdayAnchors();
    PreviousMonthFillDates(first);
    LastWeekday(first);
    NextMonthFillDates(first);
    CalendarDaysLayout(first);
  }

  // ---------------------------------------------------------------------------
  // The component's state

  class CalendarView {
    /** The displayed month, always held as its first day. */
    var currentDate: Date

    ghost predicate Valid()
      reads this
    {
      ValidDate(currentDate) && currentDate.day == 1
    }

    /** `dayjs().set('date', 1)`: the first of the month `today` lies in. */
    constructor (today: Date)
      requires ValidDate(today)
      ensures Valid()
      ensures currentDate == Date(today.year, today.month, 1)
    {
      currentDate := Date(today.year, today.month, 1);
    }

    /** `handlePreviousMoth`: `currentDate.subtract(1, 'month')`. */
    method PreviousMonth()
      requires Valid()
      modifies this
      ensures Valid()
      ensures currentDate == AddMonths(old(currentDate), -1)
      ensures currentDate == if old(currentDate).month == 1
        then Date(old(currentDate).year - 1, 12, 1)
        else Date(old(currentDate).year, old(currentDate).month - 1, 1)
    {
      SubtractOneMonthFromFirst(currentDate);
      currentDate := AddMonths(currentDate, -1);
    }

    /** `handleNextMoth`: `currentDate.add(1, 'month')`. */
    method NextMonth()
      requires Valid()
      modifies this
      ensures Valid()
      ensures currentDate == AddMonths(old(currentDate), 1)
      ensures currentDate == if old(currentDate).month == 12
        then Date(old(currentDate).year + 1, 1, 1)
        else Date(old(currentDate).year, old(currentDate).month + 1, 1)
    {
      AddOneMonthFromFirst(currentDate);
      currentDate := AddMonths(currentDate, 1);
    }

    /** The `useMemo` body: build the cells for `currentDate` and cut them into weeks. */
    method Weeks() returns (weeks: seq<CalendarWeek>)
      requires Valid()
      ensures weeks == CalendarWeeks(currentDate)
      ensures 4 <= |weeks| <= 6
      ensures forall w :: 0 <= w < |weeks| ==> weeks[w].week == w + 1 && |weeks[w].days| == 7
      ensures Flatten(weeks) == CalendarDays(currentDate)
    {
      var calendarDays := Mark(PreviousMonthFill(currentDate), true)
        + Mark(DaysOfMonth(currentDate), false)
        + Mark(NextMonthFill(currentDate), true);
      weeks := Chunk(calendarDays);
      CalendarWeeksShape(currentDate);
    }
  }
}
