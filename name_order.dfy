/** Ruby's `Array#sort` on an array of strings, and the fact that `a.sort == b.sort` holds exactly
    when `a` and `b` hold the same names with the same multiplicities. */
module NameOrder {

  /** `a <= b` under Ruby's `String#<=>`: lexicographic on characters, a proper prefix first.
      (Ruby compares the UTF-8 bytes; byte order of UTF-8 agrees with code-point order.) */
  predicate NotAfter(a: string, b: string)
    decreases |a|
  {
    |a| == 0 || (|b| > 0 && (a[0] < b[0] || (a[0] == b[0] && NotAfter(a[1..], b[1..]))))
  }

  lemma {:induction false} NotAfterReflexive(a: string)
    ensures NotAfter(a, a)
  {
    if |a| > 0 {
      NotAfterReflexive(a[1..]);
    }
  }

  lemma {:induction false} NotAfterTotal(a: string, b: string)
    ensures NotAfter(a, b) || NotAfter(b, a)
  {
    if |a| > 0 && |b| > 0 && a[0] == b[0] {
      NotAfterTotal(a[1..], b[1..]);
    }
  }

  lemma {:induction false} NotAfterAntisymmetric(a: string, b: string)
    requires NotAfter(a, b) && NotAfter(b, a)
    ensures a == b
  {
    if |a| > 0 {
      NotAfterAntisymmetric(a[1..], b[1..]);
      assert a == [a[0]] + a[1..];
      assert b == [b[0]] + b[1..];
    }
  }

  lemma {:induction false} NotAfterTransitive(a: string, b: string, c: string)
    requires NotAfter(a, b) && NotAfter(b, c)
    ensures NotAfter(a, c)
  {
    if |a| > 0 && a[0] == b[0] && b[0] == c[0] {
      NotAfterTransitive(a[1..], b[1..], c[1..]);
    }
  }

  predicate Sorted(s: seq<string>)
  {
    forall i, j :: 0 <= i < j < |s| ==> NotAfter(s[i], s[j])
  }

  /** Places `x` in front of the first element it does not come after. */
  function Insert(x: string, s: seq<string>): (r: seq<string>)
    ensures multiset(r) == multiset(s) + multiset{x}
    decreases |s|
  {
    if |s| == 0 then [x]
    else if NotAfter(x, s[0]) then [x] + s
    else
      assert s == [s[0]] + s[1..];
      [s[0]] + Insert(x, s[1..])
  }

  lemma {:induction false} InsertSorted(x: string, s: seq<string>)
    requires Sorted(s)
    ensures Sorted(Insert(x, s))
    decreases |s|
  {
    if |s| == 0 {
    } else if NotAfter(x, s[0]) {
      forall j | 0 < j < |s| ensures NotAfter(x, s[j]) {
        NotAfterTransitive(x, s[0], s[j]);
      }
    } else {
      NotAfterTotal(x, s[0]);
      SortedTail(s);
      InsertSorted(x, s[1..]);
      HeadBeforeInserted(x, s);
      PrependSorted(s[0], Insert(x, s[1..]));
    }
  }

  /** The head of a sorted sequence comes before every element once `x`, which is after it, is
      inserted into the tail. */
  lemma HeadBeforeInserted(x: string, s: seq<string>)
    requires Sorted(s) && |s| > 0 && NotAfter(s[0], x)
    ensures forall j :: 0 <= j < |Insert(x, s[1..])| ==> NotAfter(s[0], Insert(x, s[1..])[j])
  {
    var tail := s[1..];
    var ins := Insert(x, tail);
    forall j | 0 <= j < |ins| ensures NotAfter(s[0], ins[j]) {
      assert ins[j] in multiset(tail) + multiset{x};
      if ins[j] != x {
        assert ins[j] in tail;
        var k :| 0 <= k < |tail| && tail[k] == ins[j];
        assert s[k + 1] == ins[j];
      }
    }
  }

  lemma PrependSorted(y: string, s: seq<string>)
    requires Sorted(s)
    requires forall j :: 0 <= j < |s| ==> NotAfter(y, s[j])
    ensures Sorted([y] + s)
  {
    var r := [y] + s;
    forall i, j | 0 <= i < j < |r| ensures NotAfter(r[i], r[j]) {
      assert r[j] == s[j - 1];
      if i > 0 {
        assert r[i] == s[i - 1];
      }
    }
  }

  /** `Array#sort`: an insertion sort. Any sorting algorithm gives this same result, since a
      sorted arrangement of a given multiset of names is unique (SortedUnique). */
  function Sort(s: seq<string>): (r: seq<string>)
    ensures multiset(r) == multiset(s)
    ensures Sorted(r)
    decreases |s|
  {
    if |s| == 0 then []
    else
      assert s == [s[0]] + s[1..];
      var rest := Sort(s[1..]);
      InsertSorted(s[0], rest);
      Insert(s[0], rest)
  }

  lemma SortedHead(a: seq<string>, x: string)
    requires Sorted(a) && x in a
    ensures NotAfter(a[0], x)
  {
    var i :| 0 <= i < |a| && a[i] == x;
    if i == 0 {
      NotAfterReflexive(x);
    }
  }

  lemma SortedTail(a: seq<string>)
    requires Sorted(a) && |a| > 0
    ensures Sorted(a[1..])
  {
    var tail := a[1..];
    forall i, j | 0 <= i < j < |tail| ensures NotAfter(tail[i], tail[j]) {
      assert tail[i] == a[i + 1] && tail[j] == a[j + 1];
    }
  }

  lemma MultisetTail(a: seq<string>)
    requires |a| > 0
    ensures multiset(a[1..]) == multiset(a) - multiset{a[0]}
  {
    assert a == [a[0]] + a[1..];
  }

  /** A sorted arrangement of a multiset of names is unique. */
  lemma {:induction false} SortedUnique(a: seq<string>, b: seq<string>)
    requires Sorted(a) && Sorted(b)
    requires multiset(a) == multiset(b)
    ensures a == b
    decreases |a|
  {
    assert |a| == |multiset(a)| == |multiset(b)| == |b|;
    if |a| > 0 {
      SameHead(a, b);
      MultisetTail(a);
      MultisetTail(b);
      SortedTail(a);
      SortedTail(b);
      SortedUnique(a[1..], b[1..]);
      assert a == [a[0]] + a[1..];
      assert b == [b[0]] + b[1..];
    }
  }

  lemma SameHead(a: seq<string>, b: seq<string>)
    requires Sorted(a) && Sorted(b) && |a| > 0 && |b| > 0
    requires multiset(a) == multiset(b)
    ensures a[0] == b[0]
  {
    assert a[0] in multiset(b) && b[0] in multiset(a);
    SortedHead(b, a[0]);
    SortedHead(a, b[0]);
    NotAfterAntisymmetric(a[0], b[0]);
  }

  /** `a.sort == b.sort` is multiset equality. */
  lemma SortEqualIff(a: seq<string>, b: seq<string>)
    ensures Sort(a) == Sort(b) <==> multiset(a) == multiset(b)
  {
    if multiset(a) == multiset(b) {
      SortedUnique(Sort(a), Sort(b));
    }
  }
}
