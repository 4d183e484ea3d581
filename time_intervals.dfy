/**
 * The weekly availability form's schema: exactly seven weekday rows, of which
 * the enabled ones are kept, converted to minutes after midnight, and checked
 * for at least one hour between start and end.
 *
 * The conversion of an "HH:MM" string to minutes is not part of this model:
 * it is the parameter `toMinutes` wherever it is needed.
 */
module TimeIntervals {
  import opened Results

  /** One row of the form as entered. */
  datatype IntervalInput = IntervalInput(weekDay: int, enabled: bool, startTime: string, endTime: string)

  /** One row of the schema's output. */
  datatype Interval = Interval(weekDay: int, startTimeInMinutes: int, endTimeInMinutes: int)

  /** The first issue the schema reports, which is the one the form shows. */
  datatype IntervalsError =
    | WrongLength        // `.length(7)` fails
    | NoWeekDaySelected  // no row is enabled
    | GapTooShort        // some kept row ends less than an hour after it starts

  function Message(e: IntervalsError): string {
    match e
    case WrongLength => "Array must contain exactly 7 element(s)"
    case NoWeekDaySelected => "Você precisa selecionar pelo menos um dia da semana!"
    case GapTooShort => "O Horário de términio deve ser pelo menos 1h de distancia do inicio"
  }

  /** `intervals.filter((interval) => interval.enabled)`. */
  function KeepEnabled(xs: seq<IntervalInput>): (r: seq<IntervalInput>)
    ensures |r| <= |xs|
    ensures forall i :: 0 <= i < |r| ==> r[i].enabled
  {
    if xs == [] then []
    else (if xs[0].enabled then [xs[0]] else []) + KeepEnabled(xs[1..])
  }

  /** The number of enabled rows. */
  function CountEnabled(xs: seq<IntervalInput>): (n: nat)
    ensures n <= |xs|
  {
    if xs == [] then 0
    else (if xs[0].enabled then 1 else 0) + CountEnabled(xs[1..])
  }

  /** The kept row's week day, with its times converted. */
  function ToInterval(toMinutes: string -> int, x: IntervalInput): Interval {
    Interval(x.weekDay, toMinutes(x.startTime), toMinutes(x.endTime))
  }

  /** The `map` step. */
  function ToIntervals(toMinutes: string -> int, xs: seq<IntervalInput>): seq<Interval> {
    seq(|xs|, i requires 0 <= i < |xs| => ToInterval(toMinutes, xs[i]))
  }

  /** `interval.endTimeInMinutes - 60 >= interval.startTimeInMinutes`. */
  predicate HasHourGap(interval: Interval) {
    interval.endTimeInMinutes - 60 >= interval.startTimeInMinutes
  }

  /** The schema of the `intervals` field, step by step. */
  function ValidateIntervals(toMinutes: string -> int, intervals: seq<IntervalInput>): Result<seq<Interval>, IntervalsError> {
    if |intervals| != 7 then Err(WrongLength)
    else
      var kept := KeepEnabled(intervals);
      if |kept| == 0 then Err(NoWeekDaySelected)
      else
        var converted := ToIntervals(toMinutes, kept);
        if forall i :: 0 <= i < |converted| ==> HasHourGap(converted[i]) then Ok(converted)
        else Err(GapTooShort)
  }

  const DefaultStartTime: string := "08:00"
  const DefaultEndTime: string := "18:00"

  /** The form's default value: Sunday to Saturday, Monday to Friday enabled, 08:00 to 18:00 each. */
  function DefaultIntervals(): seq<IntervalInput> {
    [
      IntervalInput(0, false, DefaultStartTime, DefaultEndTime),
      IntervalInput(1, true, DefaultStartTime, DefaultEndTime),
      IntervalInput(2, true, DefaultStartTime, DefaultEndTime),
      IntervalInput(3, true, DefaultStartTime, DefaultEndTime),
      IntervalInput(4, true, DefaultStartTime, DefaultEndTime),
      IntervalInput(5, true, DefaultStartTime, DefaultEndTime),
      IntervalInput(6, false, DefaultStartTime, DefaultEndTime)
    ]
  }

  // ---------------------------------------------------------------------------
  // The filter

  /** Filtering distributes over concatenation: kept rows stay in their input order. */
  lemma {:induction false} KeepEnabledAppend(a: seq<IntervalInput>, b: seq<IntervalInput>)
    ensures KeepEnabled(a + b) == KeepEnabled(a) + KeepEnabled(b)
  {
    if a != [] {
      var head := if a[0].enabled then [a[0]] else [];
      assert (a + b)[0] == a[0];
      assert (a + b)[1..] == a[1..] + b;
      assert KeepEnabled(a + b) == head + KeepEnabled(a[1..] + b);
      KeepEnabledAppend(a[1..], b);
      assert KeepEnabled(a + b) == head + (KeepEnabled(a[1..]) + KeepEnabled(b));
    } else {
      assert a + b == b;
    }
  }

  /** When every row is enabled the filter keeps them all. */
  lemma {:induction false} KeepEnabledAll(xs: seq<IntervalInput>)
    requires forall i :: 0 <= i < |xs| ==> xs[i].enabled
    ensures KeepEnabled(xs) == xs
  {
    if xs != [] {
      assert forall i :: 1 <= i < |xs| ==> xs[i] == xs[1..][i - 1];
      KeepEnabledAll(xs[1..]);
    }
  }

  /** As many rows are kept as are enabled. */
  lemma {:induction false} KeepEnabledLength(xs: seq<IntervalInput>)
    ensures |KeepEnabled(xs)| == CountEnabled(xs)
  {
    if xs != [] {
      KeepEnabledLength(xs[1..]);
    }
  }

  /** Nothing is kept exactly when no row is enabled. */
  lemma {:induction false} KeepEnabledEmpty(xs: seq<IntervalInput>)
    ensures KeepEnabled(xs) == [] <==> forall i :: 0 <= i < |xs| ==> !xs[i].enabled
  {
    if xs != [] {
      KeepEnabledEmpty(xs[1..]);
      assert forall i :: 1 <= i < |xs| ==> xs[i] == xs[1..][i - 1];
    }
  }

  /** An enabled row `i` is kept, at the position given by the number of enabled rows before it. */
  lemma {:induction false} KeepEnabledAt(xs: seq<IntervalInput>, i: int)
    requires 0 <= i < |xs| && xs[i].enabled
    ensures CountEnabled(xs[..i]) < |KeepEnabled(xs)|
    ensures KeepEnabled(xs)[CountEnabled(xs[..i])] == xs[i]
  {
    if i > 0 {
      KeepEnabledAt(xs[1..], i - 1);
      assert xs[..i][1..] == xs[1..][..i - 1];
      assert xs[..i][0] == xs[0];
    }
  }

  /** Every kept row is some enabled input row. */
  lemma {:induction false} KeptComesFromInput(xs: seq<IntervalInput>, j: int)
    requires 0 <= j < |KeepEnabled(xs)|
    ensures exists i :: 0 <= i < |xs| && xs[i].enabled && KeepEnabled(xs)[j] == xs[i]
  {
    if xs[0].enabled && j == 0 {
      assert KeepEnabled(xs)[0] == xs[0];
    } else {
      var j' := if xs[0].enabled then j - 1 else j;
      assert KeepEnabled(xs)[j] == KeepEnabled(xs[1..])[j'];
      KeptComesFromInput(xs[1..], j');
      var i :| 0 <= i < |xs[1..]| && xs[1..][i].enabled && KeepEnabled(xs[1..])[j'] == xs[1..][i];
      assert xs[i + 1] == xs[1..][i];
    }
  }

  /** Rows that are disabled take no part: changing anything about them except the flag changes nothing kept. */
  lemma {:induction false} KeepEnabledIgnoresDisabled(xs: seq<IntervalInput>, ys: seq<IntervalInput>)
    requires |xs| == |ys|
    requires forall i :: 0 <= i < |xs| ==> xs[i].enabled == ys[i].enabled
    requires forall i :: 0 <= i < |xs| && xs[i].enabled ==> xs[i] == ys[i]
    ensures KeepEnabled(xs) == KeepEnabled(ys)
  {
    if xs != [] {
      assert forall i :: 1 <= i < |xs| ==> xs[i] == xs[1..][i - 1] && ys[i] == ys[1..][i - 1];
      KeepEnabledIgnoresDisabled(xs[1..], ys[1..]);
    }
  }

  // ---------------------------------------------------------------------------
  // The whole schema

  /**
   * What the schema accepts and rejects: a wrong length first, then "no day
   * selected", then the one-hour rule over the enabled rows only; an accepted
   * value holds one converted interval per enabled row, in row order.
   */
  lemma ValidateIntervalsSpec(toMinutes: string -> int, intervals: seq<IntervalInput>)
    ensures var r := ValidateIntervals(toMinutes, intervals);
      && (|intervals| != 7 <==> r == Err(WrongLength))
      && (r == Err(NoWeekDaySelected) <==>
            |intervals| == 7 && forall i :: 0 <= i < 7 ==> !intervals[i].enabled)
      && (r == Err(GapTooShort) <==>
            |intervals| == 7 && (exists i :: 0 <= i < 7 && intervals[i].enabled) &&
            exists i :: 0 <= i < 7 && intervals[i].enabled &&
              toMinutes(intervals[i].endTime) - 60 < toMinutes(intervals[i].startTime))
      && (r.Ok? <==>
            |intervals| == 7 && (exists i :: 0 <= i < 7 && intervals[i].enabled) &&
            forall i :: 0 <= i < 7 && intervals[i].enabled ==>
              toMinutes(intervals[i].endTime) - 60 >= toMinutes(intervals[i].startTime))
  {
    if |intervals| == 7 {
      var kept := KeepEnabled(intervals);
      KeepEnabledEmpty(intervals);
      var converted := ToIntervals(toMinutes, kept);
      if exists i :: 0 <= i < 7 && intervals[i].enabled &&
          toMinutes(intervals[i].endTime) - 60 < toMinutes(intervals[i].startTime) {
        var i :| 0 <= i < 7 && intervals[i].enabled &&
          toMinutes(intervals[i].endTime) - 60 < toMinutes(intervals[i].startTime);
        KeepEnabledAt(intervals, i);
        assert !HasHourGap(converted[CountEnabled(intervals[..i])]);
      } else {
        forall j | 0 <= j < |converted|
          ensures HasHourGap(converted[j])
        {
          KeptComesFromInput(intervals, j);
        }
      }
    }
  }

  /** An accepted value has one entry per enabled row, and row `i`, if enabled, appears converted at the position counting the enabled rows before it. */
  lemma ValidateIntervalsOutput(toMinutes: string -> int, intervals: seq<IntervalInput>)
    requires ValidateIntervals(toMinutes, intervals).Ok?
    ensures var out := ValidateIntervals(toMinutes, intervals).value;
      && |out| == CountEnabled(intervals)
      && (forall i :: 0 <= i < |intervals| && intervals[i].enabled ==>
            CountEnabled(intervals[..i]) < |out| &&
            out[CountEnabled(intervals[..i])] ==
              Interval(intervals[i].weekDay, toMinutes(intervals[i].startTime), toMinutes(intervals[i].endTime)))
      && (forall j :: 0 <= j < |out| ==> HasHourGap(out[j]))
  {
    KeepEnabledLength(intervals);
    forall i | 0 <= i < |intervals| && intervals[i].enabled
      ensures CountEnabled(intervals[..i]) < |KeepEnabled(intervals)|
      ensures KeepEnabled(intervals)[CountEnabled(intervals[..i])] == intervals[i]
    {
      KeepEnabledAt(intervals, i);
    }
  }

  /** The outcome does not depend on the week day or times of disabled rows. */
  lemma DisabledRowsIgnored(toMinutes: string -> int, xs: seq<IntervalInput>, ys: seq<IntervalInput>)
    requires |xs| == |ys|
    requires forall i :: 0 <= i < |xs| ==> xs[i].enabled == ys[i].enabled
    requires forall i :: 0 <= i < |xs| && xs[i].enabled ==> xs[i] == ys[i]
    ensures ValidateIntervals(toMinutes, xs) == ValidateIntervals(toMinutes, ys)
  {
    KeepEnabledIgnoresDisabled(xs, ys);
  }

  /**
   * A gap of 59 minutes on an enabled row is rejected, whatever the other rows
   * hold; a gap of exactly one hour is accepted when every other enabled row
   * keeps the gap too.
   */
  lemma HourGapBoundary(toMinutes: string -> int, intervals: seq<IntervalInput>, k: int)
    requires |intervals| == 7 && 0 <= k < 7 && intervals[k].enabled
    ensures toMinutes(intervals[k].endTime) == toMinutes(intervals[k].startTime) + 59 ==>
      ValidateIntervals(toMinutes, intervals) == Err(GapTooShort)
    ensures (&& toMinutes(intervals[k].endTime) == toMinutes(intervals[k].startTime) + 60
             && forall i :: 0 <= i < 7 && i != k && intervals[i].enabled ==>
                  toMinutes(intervals[i].endTime) - 60 >= toMinutes(intervals[i].startTime))
      ==> ValidateIntervals(toMinutes, intervals).Ok?
  {
    ValidateIntervalsSpec(toMinutes, intervals);
  }

  /** The default value has seven rows, row `i` for weekday `i`, enabled exactly Monday to Friday, all from 08:00 to 18:00. */
  lemma DefaultIntervalsShape()
    ensures |DefaultIntervals()| == 7
    ensures forall i :: 0 <= i < 7 ==>
      && DefaultIntervals()[i].weekDay == i
      && (DefaultIntervals()[i].enabled <==> 1 <= i <= 5)
      && DefaultIntervals()[i].startTime == DefaultStartTime == "08:00"
      && DefaultIntervals()[i].endTime == DefaultEndTime == "18:00"
  {
  }

  /** The default value keeps its Monday to Friday rows. */
  lemma DefaultIntervalsKept()
    ensures KeepEnabled(DefaultIntervals()) == DefaultIntervals()[1..6]
  {
    var d := DefaultIntervals();
    var middle := d[1..6];
    assert d == [d[0]] + middle + [d[6]];
    KeepEnabledAppend([d[0]], middle);
    KeepEnabledAppend([d[0]] + middle, [d[6]]);
    KeepEnabledAll(middle);
    assert KeepEnabled([d[0]]) == [] && KeepEnabled([d[6]]) == [];
  }

  /** The schema accepts a seven-row input whose kept rows convert to intervals that all keep the one-hour gap. */
  lemma AcceptedWhenGapsHold(toMinutes: string -> int, intervals: seq<IntervalInput>, kept: seq<IntervalInput>, out: seq<Interval>)
    requires |intervals| == 7 && KeepEnabled(intervals) == kept && kept != []
    requires ToIntervals(toMinutes, kept) == out
    requires forall j :: 0 <= j < |out| ==> HasHourGap(out[j])
    ensures ValidateIntervals(toMinutes, intervals) == Ok(out)
  {
  }

  /** The Monday to Friday rows of the default value, converted. */
  lemma DefaultKeptConverted(toMinutes: string -> int)
    requires toMinutes(DefaultStartTime) == 480 && toMinutes(DefaultEndTime) == 1080
    ensures ToIntervals(toMinutes, DefaultIntervals()[1..6]) == [
      Interval(1, 480, 1080), Interval(2, 480, 1080), Interval(3, 480, 1080),
      Interval(4, 480, 1080), Interval(5, 480, 1080)]
  {
    var kept := DefaultIntervals()[1..6];
    var converted := ToIntervals(toMinutes, kept);
    assert kept == [
      IntervalInput(1, true, DefaultStartTime, DefaultEndTime), IntervalInput(2, true, DefaultStartTime, DefaultEndTime),
      IntervalInput(3, true, DefaultStartTime, DefaultEndTime), IntervalInput(4, true, DefaultStartTime, DefaultEndTime),
      IntervalInput(5, true, DefaultStartTime, DefaultEndTime)];
    assert forall j :: 0 <= j < 5 ==> converted[j] == Interval(j + 1, 480, 1080);
  }

  /** With 08:00 as 480 and 18:00 as 1080 minutes, the default value passes and yields Monday to Friday, 480 to 1080. */
  lemma DefaultIntervalsAccepted(toMinutes: string -> int)
    requires toMinutes(DefaultStartTime) == 480 && toMinutes(DefaultEndTime) == 1080
    ensures ValidateIntervals(toMinutes, DefaultIntervals()) == Ok([
      Interval(1, 480, 1080), Interval(2, 480, 1080), Interval(3, 480, 1080),
      Interval(4, 480, 1080), Interval(5, 480, 1080)])
  {
    DefaultIntervalsKept();
    DefaultKeptConverted(toMinutes);
    AcceptedWhenGapsHold(toMinutes, DefaultIntervals(), DefaultIntervals()[1..6], [
      Interval(1, 480, 1080), Interval(2, 480, 1080), Interval(3, 480, 1080),
      Interval(4, 480, 1080), Interval(5, 480, 1080)]);
  }

  /** All rows disabled: rejected with "select at least one week day". */
  lemma AllDisabledRejected(toMinutes: string -> int, intervals: seq<IntervalInput>)
    requires |intervals| == 7 && forall i :: 0 <= i < 7 ==> !intervals[i].enabled
    ensures ValidateIntervals(toMinutes, intervals) == Err(NoWeekDaySelected)
    ensures Message(ValidateIntervals(toMinutes, intervals).error) == "Você precisa selecionar pelo menos um dia da semana!"
  {
    KeepEnabledEmpty(intervals);
  }
}
