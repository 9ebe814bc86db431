/** Whole runs of one working window on small inputs, for any window start `d`: one requested user
    and windows of two or four blocks. */
module Scenarios {
  import opened Types
  import opened SlotGenerator
  import opened Evaluator
  import opened RangeMerger
  import opened Availability

  /** With the only user requested, a block is available exactly when none of their events covers it. */
  lemma SoleUserVerdict(u: User, block: TimeRange)
    ensures IsAvailable([u], [u.name], block) <==> !Busy(u.events, block)
  {
    assert [u][..0] == [];
    assert SearchUsers([u], [u.name]) == [u];
    assert FreeNames([u], block) == (if Busy(u.events, block) then [] else [u.name]);
  }

  lemma SingleEventBusy(e: Event, block: TimeRange)
    ensures Busy([e], block) <==> Covers(e, block)
  {
    if Covers(e, block) {
      assert e in [e];
    }
  }

  /** The verdicts of a window of `n` blocks from `d`. */
  lemma WindowVerdicts(calculator: Calculator, d: int, n: nat)
    ensures var vs := DayVerdicts(calculator, WorkingTimes(d, d + Quantum * n));
      && |vs| == n
      && forall i :: 0 <= i < n ==>
         vs[i] == Verdict(QuarterBlock(d, i), IsAvailable(calculator.users, calculator.searchNames, QuarterBlock(d, i)))
  {
    var t := WorkingTimes(d, d + Quantum * n);
    AlignedWindow(d, n);
    SlotsTileWindow(d, d + Quantum * n);
    SlotsOnGrid(d, d + Quantum * n);
    DayVerdictsSlots(calculator, t);
    var vs := DayVerdicts(calculator, t);
    var slots := SlotsOf(t);
    forall i | 0 <= i < n
      ensures vs[i] == Verdict(QuarterBlock(d, i), IsAvailable(calculator.users, calculator.searchNames, QuarterBlock(d, i)))
    {
      assert vs[i].slot == slots[i] == QuarterBlock(d, i);
    }
  }

  lemma RunTwo(vs: seq<Verdict>)
    requires |vs| == 2
    ensures Run(Idle, vs) == Step(Step(Idle, vs[0]), vs[1])
  {
    RunSnoc(Idle, [], vs[0]);
    assert [] + [vs[0]] == [vs[0]];
    RunSnoc(Idle, [vs[0]], vs[1]);
    assert [vs[0]] + [vs[1]] == vs;
  }

  lemma RunFour(vs: seq<Verdict>)
    requires |vs| == 4
    ensures Run(Idle, vs) == Step(Step(Step(Step(Idle, vs[0]), vs[1]), vs[2]), vs[3])
  {
    RunSnoc(Idle, [], vs[0]);
    assert [] + [vs[0]] == [vs[0]];
    RunSnoc(Idle, [vs[0]], vs[1]);
    assert [vs[0]] + [vs[1]] == [vs[0], vs[1]];
    RunSnoc(Idle, [vs[0], vs[1]], vs[2]);
    assert [vs[0], vs[1]] + [vs[2]] == [vs[0], vs[1], vs[2]];
    RunSnoc(Idle, [vs[0], vs[1], vs[2]], vs[3]);
    assert [vs[0], vs[1], vs[2]] + [vs[3]] == vs;
  }

  /** 13:00-13:30, one requested user with no events: one range over the whole window. */
  lemma FreeUserWholeWindow(id: int, x: string, workStart: int, workEnd: int, d: int)
    ensures var calculator := Calculator([User(id, x, [])], [x], workStart, workEnd);
      WindowReport(calculator, d, d + Quantum * 2) == Some([TimeRange(d, d + Quantum * 2)])
  {
    var u := User(id, x, []);
    var calculator := Calculator([u], [x], workStart, workEnd);
    var vs := DayVerdicts(calculator, WorkingTimes(d, d + Quantum * 2));
    WindowVerdicts(calculator, d, 2);
    SoleUserVerdict(u, QuarterBlock(d, 0));
    SoleUserVerdict(u, QuarterBlock(d, 1));
    RunTwo(vs);
    assert Run(Idle, vs) == Merger(Some(TimeRange(d, d + Quantum * 2)), []);
    assert WindowReport(calculator, d, d + Quantum * 2) == Flush(Run(Idle, vs));
    assert [] + [TimeRange(d, d + Quantum * 2)] == [TimeRange(d, d + Quantum * 2)];
  }

  /** Same window, the user busy for exactly 13:00-13:15: only 13:15-13:30 is reported. */
  lemma FirstBlockBusy(id: int, x: string, workStart: int, workEnd: int, d: int)
    ensures var calculator := Calculator([User(id, x, [Event(id, d, d + Quantum)])], [x], workStart, workEnd);
      WindowReport(calculator, d, d + Quantum * 2) == Some([TimeRange(d + Quantum, d + Quantum * 2)])
  {
    var e := Event(id, d, d + Quantum);
    var u := User(id, x, [e]);
    var calculator := Calculator([u], [x], workStart, workEnd);
    var vs := DayVerdicts(calculator, WorkingTimes(d, d + Quantum * 2));
    WindowVerdicts(calculator, d, 2);
    SoleUserVerdict(u, QuarterBlock(d, 0));
    SoleUserVerdict(u, QuarterBlock(d, 1));
    SingleEventBusy(e, QuarterBlock(d, 0));
    SingleEventBusy(e, QuarterBlock(d, 1));
    assert !vs[0].free && vs[1].free;
    RunTwo(vs);
    assert Run(Idle, vs) == Merger(Some(QuarterBlock(d, 1)), []);
    assert WindowReport(calculator, d, d + Quantum * 2) == Flush(Run(Idle, vs));
    assert [] + [QuarterBlock(d, 1)] == [TimeRange(d + Quantum, d + Quantum * 2)];
  }

  /** Two requested users, the second busy for the whole window: no block is available, so
      the day-end flush reaches `print_time(nil)` and fails. */
  lemma SecondUserBusyAllWindow(x: string, y: string, workStart: int, workEnd: int, d: int)
    requires x != y
    ensures var calculator := Calculator([User(1, x, []), User(2, y, [Event(2, d, d + Quantum * 2)])], [x, y], workStart, workEnd);
      WindowReport(calculator, d, d + Quantum * 2) == None
  {
    var e := Event(2, d, d + Quantum * 2);
    var users := [User(1, x, []), User(2, y, [e])];
    var calculator := Calculator(users, [x, y], workStart, workEnd);
    var slots := SlotsOf(WorkingTimes(d, d + Quantum * 2));
    AlignedWindow(d, 2);
    SlotsTileWindow(d, d + Quantum * 2);
    SlotsOnGrid(d, d + Quantum * 2);
    WindowFailsIffNothingAvailable(calculator, d, d + Quantum * 2);
    assert |slots| == 2;
    forall i | 0 <= i < |slots| ensures !IsAvailable(users, [x, y], slots[i]) {
      assert slots[i] == QuarterBlock(d, i);
      if i == 0 {
        BusyNamesakeBlocks(users, x, y, QuarterBlock(d, 0));
      } else {
        BusyNamesakeBlocks(users, x, y, QuarterBlock(d, 1));
      }
    }
    assert NothingAvailable(calculator, slots);
  }

  lemma BusyNamesakeBlocks(users: seq<User>, x: string, y: string, block: TimeRange)
    requires |users| == 2 && users[1].name == y && |users[1].events| == 1 && Covers(users[1].events[0], block)
    requires users[0].name != y
    ensures !IsAvailable(users, [x, y], block)
  {
    assert users[1].events[0] in users[1].events;
    assert forall u :: u in users && u.name == y ==> u == users[1];
    assert !FreeUserNamed(users, y, block);
    AvailableNameMembership(users, [x, y], block, y);
    assert y in multiset([x, y]);
  }

  /** 13:00-14:00, the user busy for exactly 13:15-13:30: 13:00-13:15 and 13:30-14:00. The busy
      block leaves the open range alone; the range is printed when the next available block
      does not continue it. */
  lemma SecondBlockBusy(id: int, x: string, workStart: int, workEnd: int, d: int)
    ensures var calculator := Calculator([User(id, x, [Event(id, d + Quantum, d + Quantum * 2)])], [x], workStart, workEnd);
      WindowReport(calculator, d, d + Quantum * 4) ==
        Some([TimeRange(d, d + Quantum), TimeRange(d + Quantum * 2, d + Quantum * 4)])
  {
    var e := Event(id, d + Quantum, d + Quantum * 2);
    var u := User(id, x, [e]);
    var calculator := Calculator([u], [x], workStart, workEnd);
    var vs := DayVerdicts(calculator, WorkingTimes(d, d + Quantum * 4));
    WindowVerdicts(calculator, d, 4);
    SoleUserVerdict(u, QuarterBlock(d, 0));
    SoleUserVerdict(u, QuarterBlock(d, 1));
    SoleUserVerdict(u, QuarterBlock(d, 2));
    SoleUserVerdict(u, QuarterBlock(d, 3));
    SingleEventBusy(e, QuarterBlock(d, 0));
    SingleEventBusy(e, QuarterBlock(d, 1));
    SingleEventBusy(e, QuarterBlock(d, 2));
    SingleEventBusy(e, QuarterBlock(d, 3));
    assert vs[0].free && !vs[1].free && vs[2].free && vs[3].free;
    RunFour(vs);
    assert Step(Idle, vs[0]) == Merger(Some(QuarterBlock(d, 0)), []);
    assert Step(Step(Step(Idle, vs[0]), vs[1]), vs[2]) == Merger(Some(QuarterBlock(d, 2)), [QuarterBlock(d, 0)]);
    assert Run(Idle, vs) == Merger(Some(TimeRange(d + Quantum * 2, d + Quantum * 4)), [QuarterBlock(d, 0)]);
    assert WindowReport(calculator, d, d + Quantum * 4) == Flush(Run(Idle, vs));
    assert QuarterBlock(d, 0) == TimeRange(d, d + Quantum);
    assert [QuarterBlock(d, 0)] + [TimeRange(d + Quantum * 2, d + Quantum * 4)]
        == [TimeRange(d, d + Quantum), TimeRange(d + Quantum * 2, d + Quantum * 4)];
  }
}
