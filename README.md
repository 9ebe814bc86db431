# Availability calculator: a verified Dafny model

`availability.rb` prints, for each of a fixed list of days, the time ranges during a working
window in which every requested user is free. This project models its core:

- the **slot generator** of `CalculateAvailability#perform`. It grows `working_times` from
  `day_start` in steps of 15 minutes while the last instant is before `day_end`. It then walks
  consecutive pairs as blocks and stops at the first instant equal to the last one.
- the **availability evaluator** `CalculateAvailability#time_available?`. It selects the users
  whose name is requested, and drops every user with an event that *contains* the block. The
  verdict compares the sorted names of those who remain with the sorted requested names.
- the **range merger** of `perform`. The mutable `current_range` is opened, extended or emitted
  and replaced on each available block. It is flushed with `print_time` at the end of each day
  and then reset.

Modules follow those parts:

- `Types`: the records.
- `NameOrder`: Ruby's string order and `Array#sort`.
- `SlotGenerator`: the `working_times` loop and the blocks cut from it.
- `Evaluator`: `time_available?`.
- `RangeMerger`: the `current_range` state machine.
- `Availability`: the per-day and per-run loops of `perform`, and the hour argument check.
- `Scenarios`: concrete days worked end to end.

How the model stands for the program:

- Instants are integer seconds on a UTC axis. A day is given as the instant of its midnight, and
  the working window of a day runs from `day + 3600 * workStart` to `day + 3600 * workEnd`.
  `workStart` and `workEnd` are the `Time#hour` values of the two hour arguments.
- `WorkHour` models the argument check of line 122 and the hour that `Time.utc(2022, 03, 19, h)`
  then carries. Hour 24 is accepted and reaches the window as hour 0. With the default start of
  13, an end of 24 therefore gives an empty window on every day (`EndHour24Crashes`).
- The loops that change state are methods proved against functions:
  - `SlotGenerator.BuildWorkingTimes` builds `working_times` with a `while` loop.
  - `Evaluator.TimeAvailable` accumulates `available_users` with a loop.
  - `Availability.MergeDay` walks the blocks of one day and updates `current_range`.
  - `Availability.Perform` walks the days.
  Each method's `ensures` ties its result to a specification function: `WorkingTimes`,
  `IsAvailable`, `RangeMerger.Run` and `PerformReport`. The lemmas state what those functions
  promise.
- What `print_time` receives is collected as data. A day's ranges are returned as a sequence.
  The whole run is returned as a `Report`: the printed days, and whether the run raised.
- The verdict's sorted-list comparison is modelled literally, as `Evaluator.SortedVerdict` over
  an insertion sort (`NameOrder.Sort`). A sorted arrangement of a multiset of strings is unique
  (`NameOrder.SortedUnique`), so the comparison is multiset equality, and `Evaluator.IsAvailable`
  states it that way. `Evaluator.VerdictIsMultisetEquality` connects the two.

**A day with no available block raises.** Such a day reaches the
day-end `print_time(current_range)` of line 56 with `current_range` still `nil`. `print_time` then
evaluates `nil.begin` at line 103 and raises `NoMethodError`. That ends the whole run, and the
remaining days are never printed. The model follows the code:

- `RangeMerger.Flush` of an idle merger is `None`.
- `Availability.Perform` stops with `crashed == true` at the first such day.

The same applies to a run in which a requested user is busy for the whole window: that day
raises. It does not print an empty list of ranges.

## Model

| member | source | states |
|---|---|---|
| SlotGenerator.WorkingTimes | availability.rb:30-34 | defines `working_times`: `day_start`, then a step of 900 seconds at a time for as long as the last instant is before `day_end`; its properties are the lemmas below |
| SlotGenerator.BuildWorkingTimes | availability.rb:30-34 | the while loop that pushes `last + 15 * 60` while the last instant is before `day_end` builds exactly `WorkingTimes(dayStart, dayEnd)` |
| SlotGenerator.WorkingTimesSteps | availability.rb:30-34 | `working_times` starts at `day_start`; consecutive instants differ by exactly 900 seconds; every instant but the last is before `day_end`; the last is at or after `day_end`, and less than 900 seconds after it when the window is not empty |
| SlotGenerator.WorkingTimesIncrease | availability.rb:30-34 | `working_times` is strictly increasing |
| SlotGenerator.WorkingTimesGrid | availability.rb:30-34 | instant `i` of `working_times` is `day_start + 900 * i` |
| SlotGenerator.AlignedWindow | availability.rb:30-34 | a window of `n` whole quarter hours gives `n + 1` instants, the last of which is `day_end` |
| SlotGenerator.BreakIndex | availability.rb:36-37 | the walk over `working_times` breaks at the first index whose instant equals the last one, and at no earlier index |
| SlotGenerator.SlotsOf | availability.rb:36-39 | defines the blocks of the walk: the range of instant `i` to instant `i + 1` for every index before the `break`; `SlotsTileWindow` and `SlotsOnGrid` say what they are |
| SlotGenerator.BreakAtLast | availability.rb:36-37 | on strictly increasing instants the `break` is reached only at the last index, so every consecutive pair becomes a block |
| SlotGenerator.SlotsTileWindow | availability.rb:28-39 | the blocks are the consecutive pairs of `working_times`; there is one fewer block than instants, and none when `day_start >= day_end`; each block lasts 900 seconds and begins before `day_end`; each block begins where the previous one ends; the first begins at `day_start` and the last ends at the last instant |
| SlotGenerator.HourWindow | availability.rb:28-39 | for whole hours `start < end` there are exactly `4 * (end - start)` blocks, and the last instant is `day_end` |
| SlotGenerator.SlotsOnGrid | availability.rb:28-39 | block `i` of a window is the quarter hour `[day_start + 900 * i, day_start + 900 * (i + 1)]` |
| SlotGenerator.SlotsWithin | availability.rb:36-39 | every block lies between the first and the last instant of `working_times` |
| Evaluator.Covers | availability.rb:92-93 | defines `cover?` of the event's inclusive range over the block's: the block is not empty and lies inside the event, both ends included |
| Evaluator.CoversIsContainment | availability.rb:92-93 | `Covers` holds exactly when the block's range is not empty and every instant of it is an instant of the event's range |
| Evaluator.Busy | availability.rb:91-94 | defines `user.events.any?`: some event of the user covers the block |
| Evaluator.SearchUsers | availability.rb:87 | defines the `select` over the user map's values: the requested users, in map order |
| Evaluator.SearchUsersSelects | availability.rb:87 | `select` keeps every user whose name is requested, as often as the user map holds them, and no other user |
| Evaluator.FreeNames | availability.rb:88-97 | defines `available_users`: the names, in order, of the selected users that no event makes busy; `AvailableNameMembership` and `AvailableCountBound` state what it holds |
| Evaluator.SortedVerdict | availability.rb:99 | defines the comparison `available_users.sort == search_names.sort` literally |
| Evaluator.IsAvailable | availability.rb:99 | defines the verdict as the multiset equality of `available_users` and `search_names`; `VerdictIsMultisetEquality` proves it equal to the literal comparison |
| Evaluator.TimeAvailable | availability.rb:86-100 | the loop that pushes the name of each selected user with no covering event, followed by the comparison of sorted lists, returns exactly `IsAvailable` |
| Evaluator.VerdictIsMultisetEquality | availability.rb:99 | `available_users.sort == search_names.sort` holds exactly when the two name lists are equal as multisets |
| NameOrder.Sort | availability.rb:99 | the sorted names are a permutation of the input and are in order |
| NameOrder.SortedUnique | availability.rb:99 | two sorted lists with the same elements and multiplicities are equal, whatever algorithm sorted them |
| NameOrder.SortEqualIff | availability.rb:99 | `a.sort == b.sort` exactly when `a` and `b` are equal as multisets |
| NameOrder.InsertSorted | availability.rb:99 | inserting a name into a sorted list keeps it sorted |
| NameOrder.NotAfterTotal | availability.rb:99 | any two strings are comparable by the order `sort` uses |
| NameOrder.NotAfterAntisymmetric | availability.rb:99 | two strings that are each not after the other are equal |
| NameOrder.NotAfterTransitive | availability.rb:99 | the order `sort` uses is transitive |
| Evaluator.AvailableNameMembership | availability.rb:87-97 | a name is in `available_users` exactly when it is requested and some user with that name has no event covering the block |
| Evaluator.AvailableNamesSnoc | availability.rb:87-97 | one more user at the end of the user map adds their name at the end of `available_users` exactly when they are requested and free, and adds nothing otherwise |
| Evaluator.ContainmentExamples | availability.rb:91-94 | an event blocks a block only when it contains it, both ends included: an event ending exactly where the block begins, or only partly overlapping it, does not block it; a containing event does |
| Evaluator.AvailableCountBound | availability.rb:87-97 | a name occurs in `available_users` at most as often as there are users with that name |
| Evaluator.OverRequestedNameNeverAvailable | availability.rb:87-99 | a name requested more often than users bear it makes every block unavailable |
| Evaluator.UnknownNameNeverAvailable | availability.rb:87-99 | a requested name that no user bears makes every block unavailable |
| Evaluator.EmptyRequestAlwaysAvailable | availability.rb:87-99 | with no requested names, `available_users` is empty and every block is available |
| Evaluator.NameOrderIrrelevant | availability.rb:87-99 | reordering the requested names leaves every verdict unchanged |
| Evaluator.UnrequestedEventsIrrelevant | availability.rb:87-96 | the events of users whose name is not requested never change a verdict |
| Evaluator.NonCoveringEventIrrelevant | availability.rb:91-96 | adding to any user an event that does not cover the block leaves its verdict unchanged |
| Evaluator.AvailableNamesNoDup | availability.rb:87-97 | when no two users share a name, `available_users` has no duplicates |
| Evaluator.AvailableIffEveryRequestedUserFree | availability.rb:87-99 | with distinct user names and distinct requested names, a block is available exactly when every requested name belongs to a user with no event covering it |
| Evaluator.AvailableMeansDistinctRequest | availability.rb:87-99 | with distinct user names, an available block implies that no name was requested twice |
| Evaluator.MonotoneInEvents | availability.rb:87-96 | with distinct user names, giving users more events never turns an unavailable block into an available one |
| Evaluator.MonotoneNeedsUniqueNames | availability.rb:87-99 | with two users of the same name, giving one of them a covering event turns an unavailable block into an available one: the previous property needs distinct names |
| RangeMerger.Step | availability.rb:40-53 | defines one pass of the loop body over a block and its verdict; `StepTransitions` states its transitions |
| RangeMerger.StepTransitions | availability.rb:40-53 | an unavailable block changes nothing; after an available block a range is open and ends at the block's end; a block beginning where `current_range` ends keeps the range's begin and emits nothing; any other available block starts a new range at the block; the only range ever emitted is the one that was open, and it is emitted exactly when an available block does not continue it |
| RangeMerger.Run | availability.rb:36-54 | defines the merger's state after a day's blocks, the passes applied in order |
| RangeMerger.Flush | availability.rb:56 | defines the day-end `print_time(current_range)`: the emitted ranges and the open one, or the raise of line 103 when no range is open |
| RangeMerger.FlushOutput | availability.rb:56 | the flush fails exactly when no range is open; otherwise it prints the ranges already emitted, in order, followed by the open one |
| RangeMerger.SkipKeepsInvariant | availability.rb:40 | the merger invariant survives an unavailable block |
| RangeMerger.OpenFirstKeepsInvariant | availability.rb:41-44 | the merger invariant survives opening the first range at an available block |
| RangeMerger.ExtendKeepsInvariant | availability.rb:46-49 | the merger invariant survives extending `current_range` by a contiguous available block |
| RangeMerger.OpenNewKeepsInvariant | availability.rb:51-52 | the merger invariant survives emitting `current_range` and replacing it with a non-contiguous available block |
| RangeMerger.StepKeepsInvariant | availability.rb:40-53 | one pass of the loop body over a block that follows the previous one keeps the invariant: chronological, non-touching output; no open range exactly while no block was available; covered instants equal to those of the available blocks; range ends on available block boundaries |
| RangeMerger.RunKeepsInvariant | availability.rb:36-54 | the invariant holds after every block of a day |
| RangeMerger.IdleUntilFirstFree | availability.rb:40-44 | `current_range` is still `nil` after the blocks exactly when none was available, and then nothing has been emitted |
| RangeMerger.MergedRanges | availability.rb:36-57 | the day-end flush fails exactly when every block was unavailable; otherwise the printed ranges are chronological and neither overlap nor touch, they cover exactly the instants of the available blocks, and each begins and ends on a boundary of an available block |
| RangeMerger.MergedWithin | availability.rb:36-57 | blocks inside `[lo, hi]` give printed ranges inside `[lo, hi]` |
| RangeMerger.ChainedOrdered | availability.rb:36-39 | on back-to-back blocks, an earlier block ends no later than a later block begins |
| RangeMerger.BusySlotNotReported | availability.rb:36-57 | no instant of an unavailable block lies in a printed range |
| Availability.WorkHour | availability.rb:122-123 | inputs below 0 or above 24 are rejected; the hour carried is in 0..23; it equals the input below 24, and 24 gives hour 0 |
| Availability.DayStart | availability.rb:28 | defines `day_start`: the day's midnight plus `workStart` whole hours |
| Availability.DayEnd | availability.rb:29 | defines `day_end`: the day's midnight plus `workEnd` whole hours |
| Availability.DayVerdicts | availability.rb:36-40 | defines what the merger sees on a day: each block before the `break`, paired with the evaluator's verdict for it |
| Availability.MergeDay | availability.rb:36-54 | walking a day's `working_times` with `break` at the last instant, asking `time_available?` of each block and updating `current_range`, yields exactly the merger run over that day's verdicts |
| Availability.Perform | availability.rb:26-59 | the loop over the days, with `current_range` reset after each day-end flush, yields exactly `PerformReport`: each day's ranges from a fresh merger, in order, stopping with `crashed` at the first day whose flush raises |
| Availability.Collect | availability.rb:27-57 | defines the run over the days' reports: each day's ranges in order, stopping with a raise at the first day whose flush fails; `CollectStopsAtFirstFailure` states this |
| Availability.CollectStopsAtFirstFailure | availability.rb:27-57 | the printed days are the first days' reports in order; the run raises exactly when fewer days than given were printed, and then the next day's flush is the failing one |
| Availability.PerformReportDays | availability.rb:27-57 | the same, stated about the days: printed day `i` is `DayReport(days[i])`, and a raise happens at the first day with nothing available |
| Availability.DayVerdictsChained | availability.rb:36-39 | the blocks a day hands the merger are non-empty and back to back |
| Availability.VerdictsFailIff | availability.rb:36-57 | for any `working_times`, the day-end flush fails exactly when no block is available |
| Availability.VerdictsCoverage | availability.rb:36-57 | for any `working_times` whose blocks are back to back, the printed ranges cover exactly the instants of the available blocks |
| Availability.VerdictsWithin | availability.rb:36-57 | blocks inside `[lo, hi]` give chronological, non-touching printed ranges inside `[lo, hi]` |
| Availability.WindowFailsIffNothingAvailable | availability.rb:28-57 | a window's flush (which raises at line 103) fails exactly when no block of the window is available |
| Availability.WindowCoverage | availability.rb:28-57 | a window's printed ranges cover exactly the instants of its available blocks |
| Availability.WindowBounds | availability.rb:28-57 | a window's printed ranges are chronological, neither overlap nor touch, and lie within `[day_start, last instant]` |
| Availability.EmptyWindowCrashes | availability.rb:30-56 | when `day_start >= day_end` no block is evaluated, and the day-end flush raises at line 103 |
| Availability.DayFailsIffNothingAvailable | availability.rb:28-57 | for whole hours `workStart < workEnd`, a day's flush fails exactly when none of its `4 * (workEnd - workStart)` quarter hours is available |
| Availability.DayCoverage | availability.rb:28-57 | for whole hours `workStart < workEnd`, a day's printed ranges cover exactly the instants of its available quarter hours |
| Availability.DayBounds | availability.rb:28-57 | for hours `0 <= workStart < workEnd <= 24`, a day's printed ranges are chronological and non-touching and lie inside its working window, hence inside that calendar day: no range spans two days |
| Availability.EndHour24Crashes | availability.rb:122-123 | an end argument of 24 carries hour 0, so with a start hour of 0 or more the first day's window is empty and the run raises before printing any day |
| Scenarios.FreeUserWholeWindow | availability.rb:36-57 | one requested user with no events over a half-hour window: one range, the whole window |
| Scenarios.FirstBlockBusy | availability.rb:36-57 | the user busy for the first quarter hour: one range, the second quarter hour |
| Scenarios.SecondUserBusyAllWindow | availability.rb:36-57 | the second of two requested users busy for the whole window: no block is available, and the day-end flush raises at line 103 |
| Scenarios.SecondBlockBusy | availability.rb:36-57 | a one-hour window with the user busy for the second quarter hour: the first quarter hour, then the last half hour, as two separate ranges |

## Left out

- The loaders `parse_users` and `parse_events` (lines 64-84) read JSON files and parse dates.
  The model takes their result as given: the user map's values in insertion order, each user
  carrying their events. For the same reason it does not model the crash on an event whose
  `user_id` is unknown (line 82). `all_events` is not used by the core and is not modelled.
- `print_time` (lines 102-108) formats with `strftime` and writes with `puts`. So do the headers
  of lines 22-23 and the blank line of line 58. The model records the range `print_time` receives
  and, for `nil`, the raise of line 103. It models no formatting and no output.
- The command-line handling (lines 111-136) is left out: `ARGV`, the names argument and
  `NoNamesError`, the default hours 13 and 21, and `String#to_i` parsing. Its only rule on
  values, the 0..24 check of line 122, is `Availability.WorkHour`. `Availability.Perform` takes
  the resulting hours as plain integers in `Calculator`.
- The hard-coded list of three days of July 2021 (line 25) is an input: a sequence of midnight
  instants.
- Ruby `Time` and calendar arithmetic are left out, including `Time.utc(year, month, day, hour)`.
  Instants are integer seconds, and a day's working window is shifted from its midnight by whole
  hours. There are no time zones, leap seconds or fractional seconds.
- Strings are sequences of characters compared by code point. For UTF-8 strings this is the
  order of Ruby's byte-wise comparison; strings in other encodings are not modelled.
- Evaluator.AvailableIffEveryRequestedUserFree: requires that no two users share a name and no
  name is requested twice. Without those the verdict also counts names, and the equivalence
  fails. A name requested twice but borne by one free user is unavailable
  (`Evaluator.OverRequestedNameNeverAvailable`). One request answered by two free users of that
  name is unavailable too (`Evaluator.MonotoneNeedsUniqueNames`).
- Evaluator.MonotoneInEvents: requires that no two users share a name. Without that it is
  false, as `Evaluator.MonotoneNeedsUniqueNames` shows.
- Availability.DayFailsIffNothingAvailable, Availability.DayCoverage and Availability.DayBounds
  are stated for whole hours with `workStart < workEnd`. Any other window is empty
  (`Availability.EmptyWindowCrashes`).
