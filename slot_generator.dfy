/** The slot generator of `CalculateAvailability#perform` (availability.rb, lines 28-39): the
    `working_times` array of one day and the 15-minute blocks formed from its consecutive pairs. */
module SlotGenerator {
  import opened Types

  /** The width of one block: `15 * 60` seconds (line 32). */
  const Quantum: int := 15 * 60

  const SecondsPerHour: int := 60 * 60

  /** The array the loop of lines 30-34 builds: it starts at `dayStart` and pushes
      `last + Quantum` for as long as the last instant is before `dayEnd`. */
  function WorkingTimes(dayStart: int, dayEnd: int): seq<int>
    decreases dayEnd - dayStart
  {
    if dayStart >= dayEnd then [dayStart] else [dayStart] + WorkingTimes(dayStart + Quantum, dayEnd)
  }

  /** Lines 30-34: `working_times = [day_start]`, then `push(working_times[-1] + 900)` while
      `working_times[-1] < day_end`. */
  method BuildWorkingTimes(dayStart: int, dayEnd: int) returns (times: seq<int>)
    ensures times == WorkingTimes(dayStart, dayEnd)
  {
    times := [dayStart];
    while Last(times) < dayEnd
      invariant |times| > 0
      invariant times[..|times| - 1] + WorkingTimes(Last(times), dayEnd) == WorkingTimes(dayStart, dayEnd)
      decreases dayEnd - Last(times)
    {
      var newTime := Last(times) + Quantum;
      ghost var prev := times;
      times := times + [newTime];
      assert times[..|times| - 1] == prev;
      assert prev == prev[..|prev| - 1] + [Last(prev)];
    }
    assert times == times[..|times| - 1] + [Last(times)];
  }

  predicate StrictlyIncreasing(times: seq<int>)
  {
    forall i, j :: 0 <= i < j < |times| ==> times[i] < times[j]
  }

  /** What the generator promises of the instants of one day: they start at `dayStart`, step by
      `Quantum`, every one but the last is before `dayEnd`, and the last is the first at or past it. */
  lemma {:induction false} WorkingTimesSteps(dayStart: int, dayEnd: int)
    ensures var t := WorkingTimes(dayStart, dayEnd);
      && |t| > 0
      && t[0] == dayStart
      && (forall i :: 0 <= i < |t| - 1 ==> t[i + 1] == t[i] + Quantum && t[i] < dayEnd)
      && Last(t) >= dayEnd
      && (dayStart < dayEnd ==> Last(t) < dayEnd + Quantum)
    decreases dayEnd - dayStart
  {
    if dayStart < dayEnd {
      var rest := WorkingTimes(dayStart + Quantum, dayEnd);
      WorkingTimesSteps(dayStart + Quantum, dayEnd);
      var t := [dayStart] + rest;
      assert WorkingTimes(dayStart, dayEnd) == t;
      forall i | 0 <= i < |t| - 1 ensures t[i + 1] == t[i] + Quantum && t[i] < dayEnd {
        if i > 0 {
          assert t[i] == rest[i - 1] && t[i + 1] == rest[i];
        }
      }
    }
  }

  /** Instants that step forward by `Quantum` are strictly increasing. */
  lemma {:induction false} StepsIncrease(t: seq<int>)
    requires forall i :: 0 <= i < |t| - 1 ==> t[i + 1] == t[i] + Quantum
    ensures StrictlyIncreasing(t)
    decreases |t|
  {
    if |t| > 1 {
      var rest := t[1..];
      forall i | 0 <= i < |rest| - 1 ensures rest[i + 1] == rest[i] + Quantum {
        assert rest[i + 1] == t[i + 2] && rest[i] == t[i + 1];
      }
      StepsIncrease(rest);
      forall i, j | 0 <= i < j < |t| ensures t[i] < t[j] {
        assert t[j] == rest[j - 1];
        if i > 0 {
          assert t[i] == rest[i - 1];
        } else if j > 1 {
          assert rest[0] < rest[j - 1];
        }
      }
    }
  }

  lemma WorkingTimesIncrease(dayStart: int, dayEnd: int)
    ensures StrictlyIncreasing(WorkingTimes(dayStart, dayEnd))
  {
    WorkingTimesSteps(dayStart, dayEnd);
    StepsIncrease(WorkingTimes(dayStart, dayEnd));
  }

  /** A window that is not a whole number of blocks long ends on the first block boundary past it;
      one that is `n` blocks long ends exactly at its end, after `n + 1` instants. */
  lemma {:induction false} AlignedWindow(dayStart: int, n: nat)
    ensures |WorkingTimes(dayStart, dayStart + Quantum * n)| == n + 1
    ensures Last(WorkingTimes(dayStart, dayStart + Quantum * n)) == dayStart + Quantum * n
    decreases n
  {
    if n > 0 {
      AlignedWindow(dayStart + Quantum, n - 1);
      assert dayStart + Quantum + Quantum * (n - 1) == dayStart + Quantum * n;
    }
  }

  /** Instant `i` of the walk is `dayStart + i * Quantum`. */
  lemma {:induction false} WorkingTimesGrid(dayStart: int, dayEnd: int)
    ensures forall i :: 0 <= i < |WorkingTimes(dayStart, dayEnd)| ==> WorkingTimes(dayStart, dayEnd)[i] == dayStart + Quantum * i
    decreases dayEnd - dayStart
  {
    if dayStart < dayEnd {
      WorkingTimesGrid(dayStart + Quantum, dayEnd);
      var t := WorkingTimes(dayStart, dayEnd);
      var rest := WorkingTimes(dayStart + Quantum, dayEnd);
      forall i | 0 < i < |t| ensures t[i] == dayStart + Quantum * i {
        assert t == [dayStart] + rest;
        assert 0 <= i - 1 < |rest|;
        assert rest[i - 1] == dayStart + Quantum + Quantum * (i - 1);
        assert t[i] == rest[i - 1];
      }
    }
  }

  /** The index at which `break if start_time == working_times[-1]` (line 37) leaves the walk:
      the first index, from `from` on, holding the same instant as the last element. */
  function BreakIndex(times: seq<int>, from: nat): (k: nat)
    requires from < |times|
    ensures from <= k < |times| && times[k] == Last(times)
    ensures forall j :: from <= j < k ==> times[j] != Last(times)
    decreases |times| - from
  {
    if times[from] == Last(times) then from else BreakIndex(times, from + 1)
  }

  /** The blocks `(start_time..working_times[index + 1])` of line 39, one per index before the break. */
  function SlotsOf(times: seq<int>): seq<TimeRange>
    requires |times| > 0
  {
    var k := BreakIndex(times, 0);
    seq(k, i requires 0 <= i < k => TimeRange(times[i], times[i + 1]))
  }

  lemma BreakAtLast(times: seq<int>)
    requires |times| > 0 && StrictlyIncreasing(times)
    ensures BreakIndex(times, 0) == |times| - 1
  {
    assert forall j :: 0 <= j < |times| - 1 ==> times[j] < Last(times);
  }

  /** Slot timing: the blocks of a day tile `[dayStart, Last(times)]` back to back, each one
      `Quantum` wide and starting before `dayEnd`; an empty window has no block at all. */
  lemma SlotsTileWindow(dayStart: int, dayEnd: int)
    ensures var t := WorkingTimes(dayStart, dayEnd); var slots := SlotsOf(t);
      && |slots| == |t| - 1
      && (dayStart >= dayEnd <==> slots == [])
      && (forall i :: 0 <= i < |slots| ==> slots[i] == TimeRange(t[i], t[i + 1]))
      && (forall i :: 0 <= i < |slots| ==> slots[i].end == slots[i].begin + Quantum && slots[i].begin < dayEnd)
      && (forall i :: 0 < i < |slots| ==> slots[i].begin == slots[i - 1].end)
      && (|slots| > 0 ==> slots[0].begin == dayStart && Last(slots).end == Last(t) && Last(t) >= dayEnd)
  {
    WorkingTimesSteps(dayStart, dayEnd);
    WorkingTimesIncrease(dayStart, dayEnd);
    BreakAtLast(WorkingTimes(dayStart, dayEnd));
  }

  /** For a window of whole hours `startHour < endHour` there are exactly `4 * (endHour - startHour)`
      blocks and the last instant is the end of the window. */
  lemma HourWindow(day: int, startHour: int, endHour: int)
    requires startHour < endHour
    ensures var t := WorkingTimes(day + SecondsPerHour * startHour, day + SecondsPerHour * endHour);
      && |SlotsOf(t)| == 4 * (endHour - startHour)
      && Last(t) == day + SecondsPerHour * endHour
  {
    var dayStart := day + SecondsPerHour * startHour;
    var n := 4 * (endHour - startHour);
    assert day + SecondsPerHour * endHour == dayStart + Quantum * n;
    AlignedWindow(dayStart, n);
    SlotsTileWindow(dayStart, dayStart + Quantum * n);
  }

  /** The quarter-hour block number `i` of a window starting at `dayStart`. */
  function QuarterBlock(dayStart: int, i: int): TimeRange
  {
    TimeRange(dayStart + Quantum * i, dayStart + Quantum * (i + 1))
  }

  /** The blocks of a window are its quarter-hour blocks numbered from 0. */
  lemma SlotsOnGrid(dayStart: int, dayEnd: int)
    ensures var slots := SlotsOf(WorkingTimes(dayStart, dayEnd));
      forall i :: 0 <= i < |slots| ==> slots[i] == QuarterBlock(dayStart, i)
  {
    var t := WorkingTimes(dayStart, dayEnd);
    SlotsTileWindow(dayStart, dayEnd);
    WorkingTimesGrid(dayStart, dayEnd);
    var slots := SlotsOf(t);
    forall i | 0 <= i < |slots| ensures slots[i] == QuarterBlock(dayStart, i) {
      assert slots[i] == TimeRange(t[i], t[i + 1]);
      assert t[i + 1] == dayStart + Quantum * (i + 1);
    }
  }

  lemma HourOffsets(a: int, b: int)
    requires a <= b
    ensures SecondsPerHour * a <= SecondsPerHour * b
  {
  }

  /** Every block lies between the first and the last instant. */
  lemma SlotsWithin(times: seq<int>)
    requires |times| > 0 && StrictlyIncreasing(times)
    ensures forall k :: 0 <= k < |SlotsOf(times)| ==> times[0] <= SlotsOf(times)[k].begin && SlotsOf(times)[k].end <= Last(times)
  {
    var slots := SlotsOf(times);
    BreakAtLast(times);
    forall k | 0 <= k < |slots| ensures times[0] <= slots[k].begin && slots[k].end <= Last(times) {
      assert slots[k] == TimeRange(times[k], times[k + 1]);
      assert k == 0 || times[0] < times[k];
      assert k + 1 == |times| - 1 || times[k + 1] < times[|times| - 1];
    }
  }
}
