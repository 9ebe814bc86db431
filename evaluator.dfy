/** The availability evaluator `CalculateAvailability#time_available?` (availability.rb, lines 86-100). */
module Evaluator {
  import opened Types
  import opened NameOrder

  /** `(event.start_time.to_i..event.end_time.to_i).cover?(time_block.begin.to_i..time_block.end.to_i)`
      (lines 92-93). `Range#cover?` given an inclusive range is true when that range is not empty
      and lies inside the receiver, both ends included: containment, not overlap. */
  predicate Covers(e: Event, block: TimeRange)
  {
    block.begin <= block.end && e.start <= block.begin && block.end <= e.end
  }

  /** Instant `t` lies in the inclusive integer range `lo..hi`. */
  predicate Within(t: int, lo: int, hi: int)
  {
    lo <= t <= hi
  }

  /** `Range#cover?` with a range argument is containment of the argument's values: the event's
      range covers the block exactly when the block's range is not empty and every instant of it
      is an instant of the event's range. */
  lemma CoversIsContainment(e: Event, block: TimeRange)
    ensures Covers(e, block) <==>
      block.begin <= block.end && forall t :: Within(t, block.begin, block.end) ==> Within(t, e.start, e.end)
  {
    if block.begin <= block.end && forall t :: Within(t, block.begin, block.end) ==> Within(t, e.start, e.end) {
      assert Within(block.begin, block.begin, block.end);
      assert Within(block.end, block.begin, block.end);
    }
  }

  /** `user.events.any? { ... }` (line 91): some event of the user covers the block. */
  predicate Busy(events: seq<Event>, block: TimeRange)
  {
    exists e :: e in events && Covers(e, block)
  }

  /** `all_users.values.select { |user| search_names.include?(user.name) }` (line 87). */
  function SearchUsers(users: seq<User>, names: seq<string>): seq<User>
    decreases |users|
  {
    if |users| == 0 then []
    else SearchUsers(users[..|users| - 1], names) + (if Last(users).name in names then [Last(users)] else [])
  }

  /** `select` keeps every user whose name is requested, as often as the user map holds them, and
      no other. */
  lemma {:induction false} SearchUsersSelects(users: seq<User>, names: seq<string>)
    ensures forall u :: multiset(SearchUsers(users, names))[u] == if u.name in names then multiset(users)[u] else 0
    decreases |users|
  {
    if |users| > 0 {
      SearchUsersSelects(users[..|users| - 1], names);
      assert users == users[..|users| - 1] + [Last(users)];
    }
  }

  /** The `available_users` array of lines 88-97: the names, in order, of the given users that no
      event of theirs makes busy for the block. */
  function FreeNames(users: seq<User>, block: TimeRange): seq<string>
    decreases |users|
  {
    if |users| == 0 then []
    else FreeNames(users[..|users| - 1], block) + (if !Busy(Last(users).events, block) then [Last(users).name] else [])
  }

  function AvailableNames(users: seq<User>, names: seq<string>, block: TimeRange): seq<string>
  {
    FreeNames(SearchUsers(users, names), block)
  }

  /** The comparison of line 99: `available_users.sort == search_names.sort`. */
  predicate SortedVerdict(users: seq<User>, names: seq<string>, block: TimeRange)
  {
    Sort(AvailableNames(users, names, block)) == Sort(names)
  }

  /** What the verdict means: the free requested users' names and the requested names are the
      same names with the same multiplicities (VerdictIsMultisetEquality). */
  predicate IsAvailable(users: seq<User>, names: seq<string>, block: TimeRange)
  {
    multiset(AvailableNames(users, names, block)) == multiset(names)
  }

  /** Lines 86-100, with the `each` loop that pushes the name of every requested user who is free. */
  method TimeAvailable(calculator: Calculator, block: TimeRange) returns (available: bool)
    ensures available == IsAvailable(calculator.users, calculator.searchNames, block)
  {
    var searchUsers := SearchUsers(calculator.users, calculator.searchNames);
    var availableUsers: seq<string> := [];
    var i := 0;
    while i < |searchUsers|
      invariant 0 <= i <= |searchUsers|
      invariant availableUsers == FreeNames(searchUsers[..i], block)
    {
      var user := searchUsers[i];
      var isUnavailable := Busy(user.events, block);
      assert searchUsers[..i + 1][..i] == searchUsers[..i];
      if !isUnavailable {
        availableUsers := availableUsers + [user.name];
      }
      i := i + 1;
    }
    assert searchUsers[..i] == searchUsers;
    available := Sort(availableUsers) == Sort(calculator.searchNames);
    VerdictIsMultisetEquality(calculator.users, calculator.searchNames, block);
  }

  /** Sorted-list equality is multiset equality: the comparison of line 99 is true exactly when the
      free requested users' names and the requested names are the same names with the same
      multiplicities. */
  lemma VerdictIsMultisetEquality(users: seq<User>, names: seq<string>, block: TimeRange)
    ensures SortedVerdict(users, names, block) <==> multiset(AvailableNames(users, names, block)) == multiset(names)
  {
    SortEqualIff(AvailableNames(users, names, block), names);
  }

  /** One more user at the end of the user map adds their name at the end when they are requested
      and free, and nothing otherwise. */
  lemma AvailableNamesSnoc(users: seq<User>, names: seq<string>, block: TimeRange)
    requires |users| > 0
    ensures var u := Last(users);
      AvailableNames(users, names, block)
        == AvailableNames(users[..|users| - 1], names, block)
           + (if u.name in names && !Busy(u.events, block) then [u.name] else [])
  {
    var prefix := users[..|users| - 1];
    var u := Last(users);
    var sel := SearchUsers(prefix, names);
    if u.name in names {
      var sel' := sel + [u];
      assert sel'[..|sel'| - 1] == sel;
    } else {
      assert SearchUsers(users, names) == sel + [];
      assert sel + [] == sel;
    }
  }

  /** Some user with this name has no event covering the block. */
  predicate FreeUserNamed(users: seq<User>, x: string, block: TimeRange)
  {
    exists u :: u in users && u.name == x && !Busy(u.events, block)
  }

  /** A name is among the available names exactly when it is requested and some user of that
      name is free for the block. */
  lemma {:induction false} AvailableNameMembership(users: seq<User>, names: seq<string>, block: TimeRange, x: string)
    ensures x in AvailableNames(users, names, block) <==> x in names && FreeUserNamed(users, x, block)
    decreases |users|
  {
    if |users| > 0 {
      var prefix := users[..|users| - 1];
      var u := Last(users);
      AvailableNamesSnoc(users, names, block);
      AvailableNameMembership(prefix, names, block, x);
      assert users == prefix + [u];
      if FreeUserNamed(users, x, block) {
        var w :| w in users && w.name == x && !Busy(w.events, block);
        if w != u {
          assert w in prefix;
        }
      }
      if FreeUserNamed(prefix, x, block) {
        var w :| w in prefix && w.name == x && !Busy(w.events, block);
        assert w in users;
      }
    }
  }

  /** How many users carry the given name. */
  function CountNamed(users: seq<User>, x: string): (n: nat)
    ensures n <= |users|
    decreases |users|
  {
    if |users| == 0 then 0
    else CountNamed(users[..|users| - 1], x) + (if Last(users).name == x then 1 else 0)
  }

  lemma {:induction false} AvailableCountBound(users: seq<User>, names: seq<string>, block: TimeRange, x: string)
    ensures multiset(AvailableNames(users, names, block))[x] <= CountNamed(users, x)
    decreases |users|
  {
    if |users| > 0 {
      AvailableNamesSnoc(users, names, block);
      AvailableCountBound(users[..|users| - 1], names, block, x);
    }
  }

  /** A name requested more often than there are users with that name (in particular an unknown
      name) makes every block unavailable. */
  lemma OverRequestedNameNeverAvailable(users: seq<User>, names: seq<string>, block: TimeRange, x: string)
    requires multiset(names)[x] > CountNamed(users, x)
    ensures !IsAvailable(users, names, block)
  {
    AvailableCountBound(users, names, block, x);
    assert multiset(AvailableNames(users, names, block))[x] != multiset(names)[x];
  }

  lemma UnknownNameNeverAvailable(users: seq<User>, names: seq<string>, block: TimeRange, x: string)
    requires x in names
    requires forall u :: u in users ==> u.name != x
    ensures !IsAvailable(users, names, block)
  {
    AvailableNameMembership(users, names, block, x);
    assert !FreeUserNamed(users, x, block);
    assert multiset(AvailableNames(users, names, block))[x] == 0 < multiset(names)[x];
  }

  /** With no requested names no user is selected, and the verdict is true for every block. */
  lemma {:induction false} EmptyRequestAlwaysAvailable(users: seq<User>, block: TimeRange)
    ensures AvailableNames(users, [], block) == []
    ensures IsAvailable(users, [], block)
    decreases |users|
  {
    if |users| > 0 {
      AvailableNamesSnoc(users, [], block);
      EmptyRequestAlwaysAvailable(users[..|users| - 1], block);
    }
  }

  /** The selection only asks whether a name is requested, so it is the same for any two
      requests with the same names. */
  lemma {:induction false} SearchUsersByMembership(users: seq<User>, names: seq<string>, names': seq<string>)
    requires forall x :: x in names <==> x in names'
    ensures SearchUsers(users, names) == SearchUsers(users, names')
    decreases |users|
  {
    if |users| > 0 {
      SearchUsersByMembership(users[..|users| - 1], names, names');
    }
  }

  /** The verdict does not depend on the order of the requested names. */
  lemma NameOrderIrrelevant(users: seq<User>, names: seq<string>, names': seq<string>, block: TimeRange)
    requires multiset(names) == multiset(names')
    ensures IsAvailable(users, names, block) == IsAvailable(users, names', block)
  {
    assert forall x :: x in names <==> x in names' by {
      forall x ensures x in names <==> x in names' {
        assert x in names <==> x in multiset(names);
        assert x in names' <==> x in multiset(names');
      }
    }
    SearchUsersByMembership(users, names, names');
  }

  /** Two user maps whose users agree on their names, and agree on being busy for the block
      wherever the user is requested. */
  predicate SameRequestedBusyness(users: seq<User>, other: seq<User>, names: seq<string>, block: TimeRange)
  {
    && |users| == |other|
    && forall i :: 0 <= i < |users| ==>
         users[i].name == other[i].name
         && (users[i].name in names ==> Busy(users[i].events, block) == Busy(other[i].events, block))
  }

  /** The available names depend only on which requested users are busy for the block. */
  lemma {:induction false} AvailableNamesByBusyness(users: seq<User>, other: seq<User>, names: seq<string>, block: TimeRange)
    requires SameRequestedBusyness(users, other, names, block)
    ensures AvailableNames(users, names, block) == AvailableNames(other, names, block)
    decreases |users|
  {
    if |users| > 0 {
      var n := |users| - 1;
      assert SameRequestedBusyness(users[..n], other[..n], names, block) by {
        forall i | 0 <= i < n ensures users[..n][i] == users[i] && other[..n][i] == other[i] { }
      }
      AvailableNamesByBusyness(users[..n], other[..n], names, block);
      AvailableNamesSnoc(users, names, block);
      AvailableNamesSnoc(other, names, block);
    }
  }

  /** The events of users whose name is not requested never change the verdict. */
  lemma UnrequestedEventsIrrelevant(users: seq<User>, other: seq<User>, names: seq<string>, block: TimeRange)
    requires |users| == |other|
    requires forall i :: 0 <= i < |users| ==>
      users[i].name == other[i].name && (users[i].name in names ==> users[i].events == other[i].events)
    ensures IsAvailable(users, names, block) == IsAvailable(other, names, block)
  {
    AvailableNamesByBusyness(users, other, names, block);
  }

  /** Containment, not overlap: an event that does not contain the block (one that only overlaps
      it, or ends exactly where it begins) can be added to any user without changing the verdict. */
  lemma NonCoveringEventIrrelevant(users: seq<User>, names: seq<string>, block: TimeRange, i: nat, e: Event)
    requires i < |users|
    requires !Covers(e, block)
    ensures IsAvailable(users[i := users[i].(events := users[i].events + [e])], names, block)
         == IsAvailable(users, names, block)
  {
    var other := users[i := users[i].(events := users[i].events + [e])];
    assert Busy(other[i].events, block) == Busy(users[i].events, block) by {
      if Busy(other[i].events, block) {
        var w :| w in other[i].events && Covers(w, block);
        assert w in users[i].events;
      }
      if Busy(users[i].events, block) {
        var w :| w in users[i].events && Covers(w, block);
        assert w in other[i].events;
      }
    }
    AvailableNamesByBusyness(users, other, names, block);
  }

  lemma ContainmentExamples(e: Event, block: TimeRange)
    requires block.begin < block.end
    ensures e.end == block.begin ==> !Covers(e, block)
    ensures e.start > block.begin || e.end < block.end ==> !Covers(e, block)
    ensures e.start <= block.begin && block.end <= e.end ==> Covers(e, block)
  {
  }

  predicate NoDup(s: seq<string>)
  {
    forall i, j :: 0 <= i < j < |s| ==> s[i] != s[j]
  }

  /** No two users share a name. */
  predicate UniqueNames(users: seq<User>)
  {
    forall i, j :: 0 <= i < j < |users| ==> users[i].name != users[j].name
  }

  lemma {:induction false} NoDupCounts(s: seq<string>)
    requires NoDup(s)
    ensures forall x :: multiset(s)[x] == if x in s then 1 else 0
    decreases |s|
  {
    if |s| > 0 {
      var n := |s| - 1;
      assert s == s[..n] + [s[n]];
      assert NoDup(s[..n]);
      NoDupCounts(s[..n]);
      assert s[n] !in s[..n];
    }
  }

  lemma CountsNoDup(s: seq<string>)
    requires forall x :: multiset(s)[x] <= 1
    ensures NoDup(s)
  {
    forall i, j | 0 <= i < j < |s| ensures s[i] != s[j] {
      assert s == s[..j] + s[j..];
      assert s[i] in s[..j] && s[j] in s[j..];
      assert multiset(s)[s[j]] == multiset(s[..j])[s[j]] + multiset(s[j..])[s[j]];
    }
  }

  lemma {:induction false} AvailableNamesNoDup(users: seq<User>, names: seq<string>, block: TimeRange)
    requires UniqueNames(users)
    ensures NoDup(AvailableNames(users, names, block))
    decreases |users|
  {
    if |users| > 0 {
      var n := |users| - 1;
      var prefix := users[..n];
      assert UniqueNames(prefix);
      AvailableNamesNoDup(prefix, names, block);
      AvailableNamesSnoc(users, names, block);
      var u := users[n];
      AvailableNameMembership(prefix, names, block, u.name);
      forall w | w in prefix ensures w.name != u.name {
        var k :| 0 <= k < n && prefix[k] == w;
        assert users[k].name != users[n].name;
      }
    }
  }

  /** When no two users share a name and no name is requested twice, the verdict is true exactly
      when every requested name belongs to a user with no event covering the block. */
  lemma AvailableIffEveryRequestedUserFree(users: seq<User>, names: seq<string>, block: TimeRange)
    requires UniqueNames(users) && NoDup(names)
    ensures IsAvailable(users, names, block) <==> forall x :: x in names ==> FreeUserNamed(users, x, block)
  {
    var avail := AvailableNames(users, names, block);
    AvailableNamesNoDup(users, names, block);
    NoDupCounts(avail);
    NoDupCounts(names);
    forall x ensures x in avail <==> x in names && FreeUserNamed(users, x, block) {
      AvailableNameMembership(users, names, block, x);
    }
    if forall x :: x in names ==> FreeUserNamed(users, x, block) {
      assert forall x :: multiset(avail)[x] == multiset(names)[x];
      assert multiset(avail) == multiset(names);
    }
    if multiset(avail) == multiset(names) {
      forall x | x in names ensures FreeUserNamed(users, x, block) {
        assert multiset(names)[x] == 1;
      }
    }
  }

  /** If the verdict is true and no two users share a name, then no name was requested twice. */
  lemma AvailableMeansDistinctRequest(users: seq<User>, names: seq<string>, block: TimeRange)
    requires UniqueNames(users)
    requires IsAvailable(users, names, block)
    ensures NoDup(names)
  {
    var avail := AvailableNames(users, names, block);
    AvailableNamesNoDup(users, names, block);
    NoDupCounts(avail);
    CountsNoDup(names);
  }

  /** Every user keeps their name and their events, and may have more events. */
  predicate MoreEvents(users: seq<User>, more: seq<User>)
  {
    && |users| == |more|
    && forall i :: 0 <= i < |users| ==>
         users[i].name == more[i].name && forall e :: e in users[i].events ==> e in more[i].events
  }

  /** Monotone in events: when no two users share a name, adding events never turns a false
      verdict into a true one. */
  lemma MonotoneInEvents(users: seq<User>, more: seq<User>, names: seq<string>, block: TimeRange)
    requires UniqueNames(users) && MoreEvents(users, more)
    requires IsAvailable(more, names, block)
    ensures IsAvailable(users, names, block)
  {
    assert UniqueNames(more);
    AvailableMeansDistinctRequest(more, names, block);
    AvailableIffEveryRequestedUserFree(more, names, block);
    AvailableIffEveryRequestedUserFree(users, names, block);
    forall x | x in names ensures FreeUserNamed(users, x, block) {
      assert FreeUserNamed(more, x, block);
      var w :| w in more && w.name == x && !Busy(w.events, block);
      var k :| 0 <= k < |more| && more[k] == w;
      assert users[k] in users;
      forall e | e in users[k].events ensures !Covers(e, block) {
        assert e in more[k].events;
      }
    }
  }

  lemma TwoFreeNamesakes(x: string, block: TimeRange)
    ensures AvailableNames([User(1, x, []), User(2, x, [])], [x], block) == [x, x]
  {
    var users := [User(1, x, []), User(2, x, [])];
    assert !Busy(users[0].events, block) && !Busy(users[1].events, block);
    AvailableNamesSnoc(users, [x], block);
    AvailableNamesSnoc(users[..1], [x], block);
    assert users[..1][..0] == [];
  }

  lemma OneFreeNamesake(x: string, block: TimeRange, e: Event)
    requires Covers(e, block)
    ensures AvailableNames([User(1, x, []), User(2, x, [e])], [x], block) == [x]
  {
    var more := [User(1, x, []), User(2, x, [e])];
    assert Busy(more[1].events, block);
    AvailableNamesSnoc(more, [x], block);
    AvailableNamesSnoc(more[..1], [x], block);
    assert more[..1][..0] == [];
  }

  /** Without distinct user names the monotonicity fails: with two users named `x` and `x`
      requested once, the verdict is false while both are free and true once an event makes one
      of them busy. */
  lemma MonotoneNeedsUniqueNames(x: string, block: TimeRange, e: Event)
    requires Covers(e, block)
    ensures var users := [User(1, x, []), User(2, x, [])];
      var more := [User(1, x, []), User(2, x, [e])];
      && MoreEvents(users, more)
      && !IsAvailable(users, [x], block)
      && IsAvailable(more, [x], block)
  {
    var users := [User(1, x, []), User(2, x, [])];
    var more := [User(1, x, []), User(2, x, [e])];
    TwoFreeNamesakes(x, block);
    OneFreeNamesake(x, block, e);
    assert multiset([x, x])[x] == 2;
  }
}
