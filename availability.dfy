/** `CalculateAvailability#perform` (availability.rb, lines 21-60) over the slot generator, the
    evaluator and the range merger, with the work-hour rule of `find_time_argument` (lines 122-123). */
module Availability {
  import opened Types
  import opened SlotGenerator
  import opened Evaluator
  import opened RangeMerger

  datatype HourError = InvalidNumber

  /** The hour a `--start`/`--end` digit becomes: a digit outside 0..24 raises `InvalidNumberError`
      (line 122); otherwise it goes through `Time.utc(2022, 03, 19, digit)` (line 123) and reaches the
      generator as that time's `.hour` (lines 28-29), so 24 arrives as 0 of the next day. */
  function WorkHour(digit: int): (r: Result<int, HourError>)
    ensures r.Err? <==> digit < 0 || digit > 24
    ensures r.Ok? ==> 0 <= r.value < 24
    ensures r.Ok? && digit < 24 ==> r.value == digit
    ensures digit == 24 ==> r == Ok(0)
  {
    if digit < 0 || digit > 24 then Err(InvalidNumber) else Ok(digit % 24)
  }

  /** `day_start` and `day_end` (lines 28-29) for a day given as the instant of its midnight. */
  function DayStart(calculator: Calculator, day: int): int
  {
    day + SecondsPerHour * calculator.workStart
  }

  function DayEnd(calculator: Calculator, day: int): int
  {
    day + SecondsPerHour * calculator.workEnd
  }

  /** The block `i` of a window and its verdict (lines 39-40). */
  function DayVerdicts(calculator: Calculator, times: seq<int>): seq<Verdict>
    requires |times| > 0
  {
    var slots := SlotsOf(times);
    seq(|slots|, i requires 0 <= i < |slots| =>
      Verdict(slots[i], IsAvailable(calculator.users, calculator.searchNames, slots[i])))
  }

  /** What one day prints, from a fresh `current_range`: `None` when the day-end
      `print_time(current_range)` (line 56) is reached with `nil`. */
  function WindowReport(calculator: Calculator, dayStart: int, dayEnd: int): Option<seq<TimeRange>>
  {
    Flush(Run(Idle, DayVerdicts(calculator, WorkingTimes(dayStart, dayEnd))))
  }

  function DayReport(calculator: Calculator, day: int): Option<seq<TimeRange>>
  {
    WindowReport(calculator, DayStart(calculator, day), DayEnd(calculator, day))
  }

  /** The ranges printed per day, and whether the run ended by raising at line 103. */
  datatype Report = Report(days: seq<seq<TimeRange>>, crashed: bool)

  /** The report of each day, in order. */
  function DayReports(calculator: Calculator, days: seq<int>): seq<Option<seq<TimeRange>>>
  {
    seq(|days|, i requires 0 <= i < |days| => DayReport(calculator, days[i]))
  }

  /** The days are walked in order (line 27); the first day whose flush fails ends the run. */
  function Collect(reports: seq<Option<seq<TimeRange>>>): Report
    decreases |reports|
  {
    if |reports| == 0 then Report([], false)
    else match reports[0]
      case None => Report([], true)
      case Some(rs) =>
        var rest := Collect(reports[1..]);
        Report([rs] + rest.days, rest.crashed)
  }

  function PerformReport(calculator: Calculator, days: seq<int>): Report
  {
    Collect(DayReports(calculator, days))
  }

  function Prepend(printed: seq<seq<TimeRange>>, rest: Report): Report
  {
    Report(printed + rest.days, rest.crashed)
  }

  lemma CollectUnfold(reports: seq<Option<seq<TimeRange>>>, d: nat)
    requires d < |reports|
    ensures reports[d].None? ==> Collect(reports[d..]) == Report([], true)
    ensures reports[d].Some? ==> Collect(reports[d..]) == Prepend([reports[d].value], Collect(reports[d + 1..]))
  {
    assert reports[d..][0] == reports[d];
    assert reports[d..][1..] == reports[d + 1..];
  }

  /** The walk of lines 36-54 over `working_times`: break at the first instant equal to the last one,
      ask the evaluator about each block, and apply the merger's transition, printing a range each
      time a non-contiguous available block replaces it. */
  method MergeDay(calculator: Calculator, times: seq<int>, current0: Option<TimeRange>)
      returns (current: Option<TimeRange>, emitted: seq<TimeRange>)
    requires |times| > 0
    ensures Merger(current, emitted) == Run(Merger(current0, []), DayVerdicts(calculator, times))
  {
    ghost var vs := DayVerdicts(calculator, times);
    ghost var k := BreakIndex(times, 0);
    current := current0;
    emitted := [];
    var index := 0;
    while index < |times|
      invariant 0 <= index <= k
      invariant Merger(current, emitted) == Run(Merger(current0, []), vs[..index])
      decreases |times| - index
    {
      var startTime := times[index];
      if startTime == times[|times| - 1] {
        break;
      }
      var timeBlock := TimeRange(startTime, times[index + 1]);
      var available := TimeAvailable(calculator, timeBlock);
      VerdictAt(calculator, times, index);
      RunPrefixStep(Merger(current0, []), vs, index);
      ghost var before := Merger(current, emitted);
      if available {
        if current.None? {
          current := Some(timeBlock);
        } else if timeBlock.begin == current.value.end {
          current := Some(TimeRange(current.value.begin, timeBlock.end));
        } else {
          emitted := emitted + [current.value];
          current := Some(timeBlock);
        }
      }
      assert Merger(current, emitted) == Step(before, Verdict(timeBlock, available));
      index := index + 1;
    }
    VerdictAt(calculator, times, 0);
    assert vs[..index] == vs;
  }

  /** Block `index` before the break and its verdict. */
  lemma VerdictAt(calculator: Calculator, times: seq<int>, index: nat)
    requires index < |times|
    ensures |DayVerdicts(calculator, times)| == BreakIndex(times, 0)
    ensures index < BreakIndex(times, 0) ==>
      DayVerdicts(calculator, times)[index] ==
        Verdict(TimeRange(times[index], times[index + 1]),
                IsAvailable(calculator.users, calculator.searchNames, TimeRange(times[index], times[index + 1])))
  {
  }

  /** Lines 26-59 over the given days: `current_range` starts `nil` (line 26), each day's
      `working_times` is built (lines 28-34) and walked, the open range is printed at day end
      (line 56) and reset (line 57). Printing `nil` raises, which ends the run. */
  method Perform(calculator: Calculator, days: seq<int>) returns (printed: seq<seq<TimeRange>>, crashed: bool)
    ensures Report(printed, crashed) == PerformReport(calculator, days)
  {
    printed := [];
    crashed := false;
    ghost var reports := DayReports(calculator, days);
    var current: Option<TimeRange> := None;
    var d := 0;
    while d < |days|
      invariant 0 <= d <= |days|
      invariant current == None
      invariant Prepend(printed, Collect(reports[d..])) == Collect(reports)
    {
      var day := days[d];
      var dayStart := DayStart(calculator, day);
      var dayEnd := DayEnd(calculator, day);
      var workingTimes := BuildWorkingTimes(dayStart, dayEnd);
      assert Merger(current, []) == Idle;
      ghost var vs := DayVerdicts(calculator, workingTimes);
      var emitted;
      current, emitted := MergeDay(calculator, workingTimes, current);
      assert Merger(current, emitted) == Run(Idle, vs);
      assert reports[d] == Flush(Merger(current, emitted));
      CollectUnfold(reports, d);
      if current.None? {
        crashed := true;
        return;
      }
      ghost var rest := Collect(reports[d + 1..]);
      assert (printed + [reports[d].value]) + rest.days == printed + ([reports[d].value] + rest.days);
      printed := printed + [emitted + [current.value]];
      current := None;
      d := d + 1;
    }
    assert reports[d..] == [];
  }

  /** Instant `t` lies in a block of the window that the evaluator finds available. */
  predicate InAvailableSlot(calculator: Calculator, slots: seq<TimeRange>, t: int)
  {
    exists i :: 0 <= i < |slots| && IsAvailable(calculator.users, calculator.searchNames, slots[i])
      && slots[i].begin <= t < slots[i].end
  }

  lemma DayVerdictsChained(calculator: Calculator, dayStart: int, dayEnd: int)
    ensures Chained(DayVerdicts(calculator, WorkingTimes(dayStart, dayEnd)))
  {
    SlotsTileWindow(dayStart, dayEnd);
  }

  lemma DayVerdictsSlots(calculator: Calculator, times: seq<int>)
    requires |times| > 0
    ensures var vs := DayVerdicts(calculator, times); var slots := SlotsOf(times);
      && |vs| == |slots|
      && forall k :: 0 <= k < |vs| ==> vs[k].slot == slots[k] && (vs[k].free <==> IsAvailable(calculator.users, calculator.searchNames, slots[k]))
  {
  }

  /** The evaluator finds none of `slots` available. */
  predicate NothingAvailable(calculator: Calculator, slots: seq<TimeRange>)
  {
    forall i :: 0 <= i < |slots| ==> !IsAvailable(calculator.users, calculator.searchNames, slots[i])
  }

  /** The day-end flush fails exactly when no block is available. */
  lemma VerdictsFailIff(calculator: Calculator, times: seq<int>)
    requires |times| > 0
    ensures Flush(Run(Idle, DayVerdicts(calculator, times))).None? <==> NothingAvailable(calculator, SlotsOf(times))
  {
    var slots := SlotsOf(times);
    var vs := DayVerdicts(calculator, times);
    DayVerdictsSlots(calculator, times);
    IdleUntilFirstFree(vs);
    if AnyFree(vs) {
      var k :| 0 <= k < |vs| && vs[k].free;
      assert IsAvailable(calculator.users, calculator.searchNames, slots[k]);
    } else {
      forall i | 0 <= i < |slots| ensures !IsAvailable(calculator.users, calculator.searchNames, slots[i]) {
        assert !vs[i].free;
      }
    }
  }

  /** The printed ranges cover exactly the instants of the available blocks. */
  lemma VerdictsCoverage(calculator: Calculator, times: seq<int>)
    requires |times| > 0 && Chained(DayVerdicts(calculator, times))
    ensures var r := Flush(Run(Idle, DayVerdicts(calculator, times)));
      r.Some? ==> forall x :: InRanges(r.value, x) <==> InAvailableSlot(calculator, SlotsOf(times), x)
  {
    var slots := SlotsOf(times);
    var vs := DayVerdicts(calculator, times);
    DayVerdictsSlots(calculator, times);
    MergedRanges(vs);
    var r := Flush(Run(Idle, vs));
    if r.Some? {
      forall x ensures InRanges(r.value, x) <==> InAvailableSlot(calculator, slots, x) {
        FreeSlotIsAvailableSlot(calculator, vs, slots, x);
      }
    }
  }

  lemma FreeSlotIsAvailableSlot(calculator: Calculator, vs: seq<Verdict>, slots: seq<TimeRange>, x: int)
    requires |vs| == |slots|
    requires forall k :: 0 <= k < |vs| ==> vs[k].slot == slots[k] && (vs[k].free <==> IsAvailable(calculator.users, calculator.searchNames, slots[k]))
    ensures InFreeSlot(vs, x) <==> InAvailableSlot(calculator, slots, x)
  {
    if InFreeSlot(vs, x) {
      var k :| 0 <= k < |vs| && vs[k].free && vs[k].slot.begin <= x < vs[k].slot.end;
      assert slots[k] == vs[k].slot;
    }
    if InAvailableSlot(calculator, slots, x) {
      var k :| 0 <= k < |slots| && IsAvailable(calculator.users, calculator.searchNames, slots[k])
        && slots[k].begin <= x < slots[k].end;
      assert vs[k].slot == slots[k];
    }
  }

  /** Blocks inside `[lo, hi]` give printed ranges inside `[lo, hi]`, chronological and neither
      overlapping nor touching. */
  lemma VerdictsWithin(calculator: Calculator, times: seq<int>, lo: int, hi: int)
    requires |times| > 0 && Chained(DayVerdicts(calculator, times))
    requires forall k :: 0 <= k < |SlotsOf(times)| ==> lo <= SlotsOf(times)[k].begin && SlotsOf(times)[k].end <= hi
    ensures var r := Flush(Run(Idle, DayVerdicts(calculator, times)));
      r.Some? ==>
        && Chronological(r.value)
        && (forall j :: 0 <= j < |r.value| ==> lo <= r.value[j].begin && r.value[j].end <= hi)
  {
    var vs := DayVerdicts(calculator, times);
    DayVerdictsSlots(calculator, times);
    MergedRanges(vs);
    MergedWithin(vs, lo, hi);
  }

  /** The day-end flush fails exactly when no block of the window is available. */
  lemma WindowFailsIffNothingAvailable(calculator: Calculator, dayStart: int, dayEnd: int)
    ensures WindowReport(calculator, dayStart, dayEnd).None? <==>
      NothingAvailable(calculator, SlotsOf(WorkingTimes(dayStart, dayEnd)))
  {
    VerdictsFailIff(calculator, WorkingTimes(dayStart, dayEnd));
  }

  /** The printed ranges cover exactly the instants of the available blocks. */
  lemma WindowCoverage(calculator: Calculator, dayStart: int, dayEnd: int)
    ensures var slots := SlotsOf(WorkingTimes(dayStart, dayEnd));
      var r := WindowReport(calculator, dayStart, dayEnd);
      r.Some? ==> forall x :: InRanges(r.value, x) <==> InAvailableSlot(calculator, slots, x)
  {
    DayVerdictsChained(calculator, dayStart, dayEnd);
    VerdictsCoverage(calculator, WorkingTimes(dayStart, dayEnd));
  }

  /** The printed ranges are chronological, neither overlap nor touch, and lie inside
      `[dayStart, Last(working_times)]`. */
  lemma WindowBounds(calculator: Calculator, dayStart: int, dayEnd: int)
    ensures var t := WorkingTimes(dayStart, dayEnd);
      var r := WindowReport(calculator, dayStart, dayEnd);
      r.Some? ==>
        && Chronological(r.value)
        && (forall j :: 0 <= j < |r.value| ==> dayStart <= r.value[j].begin && r.value[j].end <= Last(t))
  {
    var t := WorkingTimes(dayStart, dayEnd);
    WorkingTimesSteps(dayStart, dayEnd);
    WorkingTimesIncrease(dayStart, dayEnd);
    SlotsWithin(t);
    DayVerdictsChained(calculator, dayStart, dayEnd);
    VerdictsWithin(calculator, t, dayStart, Last(t));
  }

  /** An empty window (`day_start >= day_end`) has no block, so its day-end flush fails. */
  lemma EmptyWindowCrashes(calculator: Calculator, dayStart: int, dayEnd: int)
    requires dayStart >= dayEnd
    ensures WindowReport(calculator, dayStart, dayEnd) == None
  {
    SlotsTileWindow(dayStart, dayEnd);
    assert DayVerdicts(calculator, WorkingTimes(dayStart, dayEnd)) == [];
  }

  /** Instant `x` lies in one of the first `n` quarter-hour blocks from `dayStart` that the evaluator
      finds available. */
  predicate InAvailableQuarter(calculator: Calculator, dayStart: int, n: int, x: int)
  {
    exists i :: 0 <= i < n && IsAvailable(calculator.users, calculator.searchNames, QuarterBlock(dayStart, i))
      && QuarterBlock(dayStart, i).begin <= x < QuarterBlock(dayStart, i).end
  }

  /** A day with whole work hours `workStart < workEnd` evaluates its `4 * (workEnd - workStart)`
      quarter-hour blocks, and its flush fails exactly when none of them is available. */
  lemma DayFailsIffNothingAvailable(calculator: Calculator, day: int)
    requires calculator.workStart < calculator.workEnd
    ensures var ds := DayStart(calculator, day); var n := 4 * (calculator.workEnd - calculator.workStart);
      DayReport(calculator, day).None? <==>
        forall i :: 0 <= i < n ==> !IsAvailable(calculator.users, calculator.searchNames, QuarterBlock(ds, i))
  {
    var ds := DayStart(calculator, day);
    var de := DayEnd(calculator, day);
    var n := 4 * (calculator.workEnd - calculator.workStart);
    var slots := SlotsOf(WorkingTimes(ds, de));
    HourWindow(day, calculator.workStart, calculator.workEnd);
    assert |slots| == n;
    SlotsOnGrid(ds, de);
    SlotsAreQuarters(calculator, slots, ds, n);
    WindowFailsIffNothingAvailable(calculator, ds, de);
    assert DayReport(calculator, day) == WindowReport(calculator, ds, de);
  }

  lemma SlotsAreQuarters(calculator: Calculator, slots: seq<TimeRange>, ds: int, n: int)
    requires |slots| == n
    requires forall i :: 0 <= i < |slots| ==> slots[i] == QuarterBlock(ds, i)
    ensures NothingAvailable(calculator, slots)
        <==> (forall i :: 0 <= i < n ==> !IsAvailable(calculator.users, calculator.searchNames, QuarterBlock(ds, i)))
  {
    if NothingAvailable(calculator, slots) {
      forall i | 0 <= i < n ensures !IsAvailable(calculator.users, calculator.searchNames, QuarterBlock(ds, i)) {
        assert slots[i] == QuarterBlock(ds, i);
      }
    }
  }

  /** The ranges a day with whole work hours prints cover exactly its available quarter-hour blocks. */
  lemma DayCoverage(calculator: Calculator, day: int)
    requires calculator.workStart < calculator.workEnd
    ensures var ds := DayStart(calculator, day); var n := 4 * (calculator.workEnd - calculator.workStart);
      var r := DayReport(calculator, day);
      r.Some? ==> forall x :: InRanges(r.value, x) <==> InAvailableQuarter(calculator, ds, n, x)
  {
    var ds := DayStart(calculator, day);
    var de := DayEnd(calculator, day);
    var n := 4 * (calculator.workEnd - calculator.workStart);
    var slots := SlotsOf(WorkingTimes(ds, de));
    HourWindow(day, calculator.workStart, calculator.workEnd);
    assert |slots| == n;
    SlotsOnGrid(ds, de);
    WindowCoverage(calculator, ds, de);
    var r := WindowReport(calculator, ds, de);
    assert DayReport(calculator, day) == r;
    if r.Some? {
      RangesCoverQuarters(calculator, r.value, slots, ds, n);
    }
  }

  lemma RangesCoverQuarters(calculator: Calculator, rs: seq<TimeRange>, slots: seq<TimeRange>, ds: int, n: int)
    requires |slots| == n
    requires forall i :: 0 <= i < |slots| ==> slots[i] == QuarterBlock(ds, i)
    requires forall x :: InRanges(rs, x) <==> InAvailableSlot(calculator, slots, x)
    ensures forall x :: InRanges(rs, x) <==> InAvailableQuarter(calculator, ds, n, x)
  {
    forall x ensures InRanges(rs, x) <==> InAvailableQuarter(calculator, ds, n, x) {
      SlotQuarter(calculator, slots, ds, n, x);
    }
  }

  lemma SlotQuarter(calculator: Calculator, slots: seq<TimeRange>, ds: int, n: int, x: int)
    requires |slots| == n
    requires forall i :: 0 <= i < |slots| ==> slots[i] == QuarterBlock(ds, i)
    ensures InAvailableSlot(calculator, slots, x) <==> InAvailableQuarter(calculator, ds, n, x)
  {
    if InAvailableQuarter(calculator, ds, n, x) {
      var i :| 0 <= i < n && IsAvailable(calculator.users, calculator.searchNames, QuarterBlock(ds, i))
        && QuarterBlock(ds, i).begin <= x < QuarterBlock(ds, i).end;
      assert slots[i] == QuarterBlock(ds, i);
    }
    if InAvailableSlot(calculator, slots, x) {
      var i :| 0 <= i < |slots| && IsAvailable(calculator.users, calculator.searchNames, slots[i])
        && slots[i].begin <= x < slots[i].end;
      assert slots[i] == QuarterBlock(ds, i);
    }
  }

  /** The ranges a day with work hours `0 <= workStart < workEnd <= 24` prints are chronological,
      neither overlap nor touch, and lie inside its working window, hence inside that day: no range
      spans two days. */
  lemma DayBounds(calculator: Calculator, day: int)
    requires 0 <= calculator.workStart < calculator.workEnd <= 24
    ensures var ds := DayStart(calculator, day); var de := DayEnd(calculator, day);
      var r := DayReport(calculator, day);
      r.Some? ==>
        && Chronological(r.value)
        && (forall j :: 0 <= j < |r.value| ==> day <= ds <= r.value[j].begin && r.value[j].end <= de <= day + 24 * SecondsPerHour)
  {
    var ds := DayStart(calculator, day);
    var de := DayEnd(calculator, day);
    WindowInDay(calculator, day);
    HourWindow(day, calculator.workStart, calculator.workEnd);
    assert Last(WorkingTimes(ds, de)) == de;
    WindowBounds(calculator, ds, de);
    var r := WindowReport(calculator, ds, de);
    assert DayReport(calculator, day) == r;
    if r.Some? {
      forall j | 0 <= j < |r.value| ensures ds <= r.value[j].begin && r.value[j].end <= de {
      }
    }
  }

  lemma WindowInDay(calculator: Calculator, day: int)
    requires 0 <= calculator.workStart < calculator.workEnd <= 24
    ensures day <= DayStart(calculator, day) < DayEnd(calculator, day) <= day + 24 * SecondsPerHour
  {
    HourOffsets(0, calculator.workStart);
    HourOffsets(calculator.workEnd, 24);
  }

  /** What the fold over the days' reports keeps: the printed days are the first reports in order,
      and the run ends early exactly at the first failing report. */
  lemma {:induction false} CollectStopsAtFirstFailure(reports: seq<Option<seq<TimeRange>>>)
    ensures var r := Collect(reports);
      && |r.days| <= |reports|
      && (forall i :: 0 <= i < |r.days| ==> reports[i] == Some(r.days[i]))
      && (r.crashed <==> |r.days| < |reports|)
      && (r.crashed ==> reports[|r.days|] == None)
    decreases |reports|
  {
    if |reports| > 0 && reports[0].Some? {
      CollectStopsAtFirstFailure(reports[1..]);
      var r := Collect(reports);
      var rest := Collect(reports[1..]);
      assert r.days == [reports[0].value] + rest.days;
      forall i | 0 < i < |r.days| ensures reports[i] == Some(r.days[i]) {
        assert reports[1..][i - 1] == reports[i];
      }
      if r.crashed {
        assert reports[1..][|rest.days|] == reports[|r.days|];
      }
    }
  }

  /** Per-day correspondence of a run: the days printed are the reports of the first days in order,
      and the run ends early exactly when the next day's flush fails. */
  lemma PerformReportDays(calculator: Calculator, days: seq<int>)
    ensures var r := PerformReport(calculator, days);
      && |r.days| <= |days|
      && (forall i :: 0 <= i < |r.days| ==> DayReport(calculator, days[i]) == Some(r.days[i]))
      && (r.crashed <==> |r.days| < |days|)
      && (r.crashed ==> DayReport(calculator, days[|r.days|]) == None)
  {
    CollectStopsAtFirstFailure(DayReports(calculator, days));
  }

  /** `--end=24` gives hour 0, so every day's window is empty and the first day's flush fails. */
  lemma EndHour24Crashes(calculator: Calculator, days: seq<int>)
    requires WorkHour(24) == Ok(calculator.workEnd) && 0 <= calculator.workStart
    requires |days| > 0
    ensures PerformReport(calculator, days) == Report([], true)
  {
    EmptyWindowCrashes(calculator, DayStart(calculator, days[0]), DayEnd(calculator, days[0]));
    assert DayReports(calculator, days)[0] == None;
  }
}
