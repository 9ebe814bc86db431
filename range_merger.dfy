/** The range merger of `CalculateAvailability#perform` (availability.rb, lines 26 and 36-57): the
    mutable `current_range`, its three transitions on an available block, and the day-end flush. */
module RangeMerger {
  import opened Types

  /** A block of the day paired with the evaluator's verdict for it. */
  datatype Verdict = Verdict(slot: TimeRange, free: bool)

  /** The merger's state: `current_range` and the ranges already handed to `print_time`. */
  datatype Merger = Merger(current: Option<TimeRange>, emitted: seq<TimeRange>)

  const Idle: Merger := Merger(None, [])

  /** One pass of the body of lines 40-53. An unavailable block changes nothing (there is no
      `else`); an available one opens the range, extends it when it begins where the range ends,
      and otherwise emits the range and opens a new one at the block. */
  function Step(m: Merger, v: Verdict): Merger
  {
    if !v.free then m
    else if m.current.None? then Merger(Some(v.slot), m.emitted)
    else if v.slot.begin == m.current.value.end then
      Merger(Some(TimeRange(m.current.value.begin, v.slot.end)), m.emitted)
    else Merger(Some(v.slot), m.emitted + [m.current.value])
  }

  /** What one pass promises: an unavailable block changes nothing; after an available block a
      range is open and ends where the block ends; a contiguous block keeps the range's begin and
      emits nothing; any other available block starts a new range at the block; and the only range
      ever emitted is the one that was open, exactly when an available block does not continue it. */
  lemma StepTransitions(m: Merger, v: Verdict)
    ensures var r := Step(m, v);
      && (!v.free ==> r == m)
      && (v.free ==> r.current.Some? && r.current.value.end == v.slot.end)
      && (v.free && m.current.Some? && v.slot.begin == m.current.value.end ==>
            r.current.value.begin == m.current.value.begin && r.emitted == m.emitted)
      && (v.free && (m.current.None? || v.slot.begin != m.current.value.end) ==> r.current == Some(v.slot))
      && (r.emitted == m.emitted || (m.current.Some? && r.emitted == m.emitted + [m.current.value]))
      && (r.emitted != m.emitted <==> v.free && m.current.Some? && v.slot.begin != m.current.value.end)
  {
  }

  /** The merger after the verdicts of a day, in order. */
  function Run(m: Merger, vs: seq<Verdict>): Merger
    decreases |vs|
  {
    if |vs| == 0 then m else Step(Run(m, vs[..|vs| - 1]), Last(vs))
  }

  lemma RunSnoc(m: Merger, vs: seq<Verdict>, v: Verdict)
    ensures Run(m, vs + [v]) == Step(Run(m, vs), v)
  {
    assert (vs + [v])[..|vs|] == vs;
  }

  lemma RunPrefixStep(m: Merger, vs: seq<Verdict>, i: nat)
    requires i < |vs|
    ensures Run(m, vs[..i + 1]) == Step(Run(m, vs[..i]), vs[i])
  {
    assert vs[..i + 1][..i] == vs[..i];
  }

  /** The day-end `print_time(current_range)` of line 56. With no open range it reaches
      `nil.begin` at line 103 and raises: `None` stands for that failure. */
  function Flush(m: Merger): Option<seq<TimeRange>>
  {
    if m.current.None? then None else Some(m.emitted + [m.current.value])
  }

  /** The flush fails exactly when no range is open; otherwise it prints the ranges emitted so
      far, in order, followed by the open one. */
  lemma FlushOutput(m: Merger)
    ensures Flush(m).None? <==> m.current.None?
    ensures Flush(m).Some? ==>
      && Flush(m).value == Output(m)
      && |Flush(m).value| == |m.emitted| + 1
      && Flush(m).value[..|m.emitted|] == m.emitted
      && Last(Flush(m).value) == m.current.value
  {
    if m.current.Some? {
      assert Flush(m).value[..|m.emitted|] == m.emitted;
    }
  }

  /** The ranges emitted so far followed by the open one. */
  function Output(m: Merger): seq<TimeRange>
  {
    m.emitted + (if m.current.Some? then [m.current.value] else [])
  }

  /** Blocks as the generator makes them: non-empty and back to back. */
  predicate Chained(vs: seq<Verdict>)
  {
    && (forall k :: 0 <= k < |vs| ==> vs[k].slot.begin < vs[k].slot.end)
    && (forall k :: 0 < k < |vs| ==> vs[k].slot.begin == vs[k - 1].slot.end)
  }

  /** Non-empty ranges in chronological order, each starting strictly after the previous one ends:
      no two overlap or touch. */
  predicate Chronological(rs: seq<TimeRange>)
  {
    && (forall i :: 0 <= i < |rs| ==> rs[i].begin < rs[i].end)
    && (forall i, j :: 0 <= i < j < |rs| ==> rs[i].end < rs[j].begin)
  }

  /** Instant `t` lies in one of the ranges, each read as `[begin, end)`. */
  predicate InRanges(rs: seq<TimeRange>, t: int)
  {
    exists i :: 0 <= i < |rs| && rs[i].begin <= t < rs[i].end
  }

  /** Instant `t` lies in an available block. */
  predicate InFreeSlot(vs: seq<Verdict>, t: int)
  {
    exists k :: 0 <= k < |vs| && vs[k].free && vs[k].slot.begin <= t < vs[k].slot.end
  }

  predicate AnyFree(vs: seq<Verdict>)
  {
    exists k :: 0 <= k < |vs| && vs[k].free
  }

  /** `x` is where an available block begins. */
  predicate StartsFree(vs: seq<Verdict>, x: int)
  {
    exists k :: 0 <= k < |vs| && vs[k].free && vs[k].slot.begin == x
  }

  /** `x` is where an available block ends. */
  predicate EndsFree(vs: seq<Verdict>, x: int)
  {
    exists k :: 0 <= k < |vs| && vs[k].free && vs[k].slot.end == x
  }

  predicate OnFreeBoundaries(rs: seq<TimeRange>, vs: seq<Verdict>)
  {
    forall i :: 0 <= i < |rs| ==> StartsFree(vs, rs[i].begin) && EndsFree(vs, rs[i].end)
  }

  /** What the merger keeps true after each block of a day. */
  ghost predicate Invariant(m: Merger, vs: seq<Verdict>)
  {
    && Chronological(Output(m))
    && (m.current.None? <==> !AnyFree(vs))
    && (m.current.None? ==> m.emitted == [])
    && (m.current.Some? && |vs| > 0 ==> m.current.value.end <= Last(vs).slot.end)
    && (forall t :: InRanges(Output(m), t) <==> InFreeSlot(vs, t))
    && OnFreeBoundaries(Output(m), vs)
  }

  lemma InRangesAppend(a: seq<TimeRange>, b: seq<TimeRange>, t: int)
    ensures InRanges(a + b, t) <==> InRanges(a, t) || InRanges(b, t)
  {
    var ab := a + b;
    if InRanges(ab, t) {
      var i :| 0 <= i < |ab| && ab[i].begin <= t < ab[i].end;
      if i >= |a| {
        assert b[i - |a|] == ab[i];
      }
    }
    if InRanges(b, t) {
      var i :| 0 <= i < |b| && b[i].begin <= t < b[i].end;
      assert ab[i + |a|] == b[i];
    }
    if InRanges(a, t) {
      var i :| 0 <= i < |a| && a[i].begin <= t < a[i].end;
      assert ab[i] == a[i];
    }
  }

  lemma InRangesSingle(r: TimeRange, t: int)
    ensures InRanges([r], t) <==> r.begin <= t < r.end
  {
    if r.begin <= t < r.end {
      assert [r][0] == r;
    }
  }

  /** How one more verdict at the end of the day changes the index predicates. */
  lemma FreeSnoc(vs: seq<Verdict>, v: Verdict)
    ensures AnyFree(vs + [v]) <==> AnyFree(vs) || v.free
    ensures forall t :: InFreeSlot(vs + [v], t) <==> InFreeSlot(vs, t) || (v.free && v.slot.begin <= t < v.slot.end)
    ensures forall x :: StartsFree(vs + [v], x) <==> StartsFree(vs, x) || (v.free && v.slot.begin == x)
    ensures forall x :: EndsFree(vs + [v], x) <==> EndsFree(vs, x) || (v.free && v.slot.end == x)
  {
    var vs' := vs + [v];
    assert vs'[|vs|] == v;
    assert forall k :: 0 <= k < |vs| ==> vs'[k] == vs[k];
    if AnyFree(vs') {
      var k :| 0 <= k < |vs'| && vs'[k].free;
      if k < |vs| { assert vs[k].free; }
    }
    forall t ensures InFreeSlot(vs', t) <==> InFreeSlot(vs, t) || (v.free && v.slot.begin <= t < v.slot.end) {
      if InFreeSlot(vs', t) {
        var k :| 0 <= k < |vs'| && vs'[k].free && vs'[k].slot.begin <= t < vs'[k].slot.end;
        if k < |vs| { assert vs[k] == vs'[k]; }
      }
    }
    forall x ensures StartsFree(vs', x) <==> StartsFree(vs, x) || (v.free && v.slot.begin == x) {
      if StartsFree(vs', x) {
        var k :| 0 <= k < |vs'| && vs'[k].free && vs'[k].slot.begin == x;
        if k < |vs| { assert vs[k] == vs'[k]; }
      }
    }
    forall x ensures EndsFree(vs', x) <==> EndsFree(vs, x) || (v.free && v.slot.end == x) {
      if EndsFree(vs', x) {
        var k :| 0 <= k < |vs'| && vs'[k].free && vs'[k].slot.end == x;
        if k < |vs| { assert vs[k] == vs'[k]; }
      }
    }
  }

  /** The facts every case of a step relies on. */
  ghost predicate StepContext(vs: seq<Verdict>, v: Verdict)
  {
    && v.slot.begin < v.slot.end
    && (|vs| > 0 ==> v.slot.begin == Last(vs).slot.end)
    && (AnyFree(vs + [v]) <==> AnyFree(vs) || v.free)
    && (forall t :: InFreeSlot(vs + [v], t) <==> InFreeSlot(vs, t) || (v.free && v.slot.begin <= t < v.slot.end))
    && (forall x :: StartsFree(vs + [v], x) <==> StartsFree(vs, x) || (v.free && v.slot.begin == x))
    && (forall x :: EndsFree(vs + [v], x) <==> EndsFree(vs, x) || (v.free && v.slot.end == x))
  }

  lemma SkipKeepsInvariant(m: Merger, vs: seq<Verdict>, v: Verdict)
    requires Invariant(m, vs) && StepContext(vs, v) && !v.free
    ensures Invariant(Step(m, v), vs + [v])
  {
    assert Last(vs + [v]) == v;
  }

  lemma OpenFirstKeepsInvariant(m: Merger, vs: seq<Verdict>, v: Verdict)
    requires Invariant(m, vs) && StepContext(vs, v) && v.free && m.current.None?
    ensures Invariant(Step(m, v), vs + [v])
  {
    var out' := Output(Step(m, v));
    assert out' == [v.slot];
    assert Last(vs + [v]) == v;
    forall t ensures InRanges(out', t) <==> InFreeSlot(vs + [v], t) {
      InRangesSingle(v.slot, t);
    }
  }

  lemma ExtendKeepsInvariant(m: Merger, vs: seq<Verdict>, v: Verdict)
    requires Invariant(m, vs) && StepContext(vs, v) && v.free && m.current.Some?
    requires v.slot.begin == m.current.value.end
    ensures Invariant(Step(m, v), vs + [v])
  {
    var c := m.current.value;
    var c' := TimeRange(c.begin, v.slot.end);
    var out := Output(m);
    var out' := Output(Step(m, v));
    assert out == m.emitted + [c];
    assert out' == m.emitted + [c'];
    assert out[|out| - 1] == c;
    assert Last(vs + [v]) == v;
    forall i | 0 <= i < |out'| ensures out'[i].begin < out'[i].end {
      if i < |out'| - 1 {
        assert out'[i] == out[i];
      }
    }
    forall i, j | 0 <= i < j < |out'| ensures out'[i].end < out'[j].begin {
      assert out'[i] == out[i];
      assert out'[j].begin == out[j].begin;
    }
    forall t ensures InRanges(out', t) <==> InFreeSlot(vs + [v], t) {
      InRangesAppend(m.emitted, [c'], t);
      InRangesAppend(m.emitted, [c], t);
      InRangesSingle(c', t);
      InRangesSingle(c, t);
    }
    forall i | 0 <= i < |out'| ensures StartsFree(vs + [v], out'[i].begin) && EndsFree(vs + [v], out'[i].end) {
      if i < |out'| - 1 {
        assert out'[i] == out[i];
      } else {
        assert out'[i].begin == out[i].begin;
      }
    }
  }

  lemma OpenNewKeepsInvariant(m: Merger, vs: seq<Verdict>, v: Verdict)
    requires Invariant(m, vs) && StepContext(vs, v) && v.free && m.current.Some?
    requires v.slot.begin != m.current.value.end
    ensures Invariant(Step(m, v), vs + [v])
  {
    var c := m.current.value;
    var out := Output(m);
    var out' := Output(Step(m, v));
    assert out == m.emitted + [c];
    assert out' == out + [v.slot];
    assert out[|out| - 1] == c;
    assert |vs| > 0;
    assert Last(vs + [v]) == v;
    forall i | 0 <= i < |out| ensures out[i].end < v.slot.begin {
      if i < |out| - 1 {
        assert out[i].end < c.begin;
      }
    }
    forall i | 0 <= i < |out'| ensures out'[i].begin < out'[i].end {
      if i < |out| {
        assert out'[i] == out[i];
      }
    }
    forall i, j | 0 <= i < j < |out'| ensures out'[i].end < out'[j].begin {
      assert out'[i] == out[i];
      if j < |out| {
        assert out'[j] == out[j];
      }
    }
    forall t ensures InRanges(out', t) <==> InFreeSlot(vs + [v], t) {
      InRangesAppend(out, [v.slot], t);
      InRangesSingle(v.slot, t);
    }
    forall i | 0 <= i < |out'| ensures StartsFree(vs + [v], out'[i].begin) && EndsFree(vs + [v], out'[i].end) {
      if i < |out| {
        assert out'[i] == out[i];
      }
    }
  }

  /** One block keeps the invariant. */
  lemma StepKeepsInvariant(m: Merger, vs: seq<Verdict>, v: Verdict)
    requires Invariant(m, vs) && Chained(vs + [v])
    ensures Invariant(Step(m, v), vs + [v])
  {
    var vs' := vs + [v];
    assert vs'[|vs|] == v;
    if |vs| > 0 {
      assert vs'[|vs| - 1] == Last(vs);
    }
    FreeSnoc(vs, v);
    assert StepContext(vs, v);
    if !v.free {
      SkipKeepsInvariant(m, vs, v);
    } else if m.current.None? {
      OpenFirstKeepsInvariant(m, vs, v);
    } else if v.slot.begin == m.current.value.end {
      ExtendKeepsInvariant(m, vs, v);
    } else {
      OpenNewKeepsInvariant(m, vs, v);
    }
  }

  /** The merger keeps its invariant over any day of back-to-back blocks. */
  lemma {:induction false} RunKeepsInvariant(vs: seq<Verdict>)
    requires Chained(vs)
    ensures Invariant(Run(Idle, vs), vs)
    decreases |vs|
  {
    if |vs| == 0 {
      IdleInvariant();
    } else {
      var n := |vs| - 1;
      ChainedPrefix(vs);
      RunKeepsInvariant(vs[..n]);
      assert vs == vs[..n] + [Last(vs)];
      StepKeepsInvariant(Run(Idle, vs[..n]), vs[..n], Last(vs));
    }
  }

  lemma IdleInvariant()
    ensures Invariant(Idle, [])
  {
    var none: seq<Verdict> := [];
    assert Output(Idle) == [];
    assert !AnyFree(none);
    forall t ensures !InRanges(Output(Idle), t) && !InFreeSlot(none, t) {
    }
  }

  lemma ChainedPrefix(vs: seq<Verdict>)
    requires Chained(vs) && |vs| > 0
    ensures Chained(vs[..|vs| - 1])
  {
  }

  /** Until the first available block the merger stays idle, and from then on a range is open:
      the day-end flush fails exactly when no block is available, and a day whose flush fails
      printed nothing before it. This needs no assumption about the blocks. */
  lemma {:induction false} IdleUntilFirstFree(vs: seq<Verdict>)
    ensures Run(Idle, vs).current.None? <==> !AnyFree(vs)
    ensures Run(Idle, vs).current.None? ==> Run(Idle, vs).emitted == []
    decreases |vs|
  {
    if |vs| > 0 {
      var n := |vs| - 1;
      IdleUntilFirstFree(vs[..n]);
      assert vs == vs[..n] + [Last(vs)];
      FreeSnoc(vs[..n], Last(vs));
    }
  }

  /** Ranges merged from blocks inside `[lo, hi]` stay inside `[lo, hi]`. */
  lemma MergedWithin(vs: seq<Verdict>, lo: int, hi: int)
    requires Chained(vs)
    requires forall k :: 0 <= k < |vs| ==> lo <= vs[k].slot.begin && vs[k].slot.end <= hi
    ensures Flush(Run(Idle, vs)).Some? ==>
      forall j :: 0 <= j < |Flush(Run(Idle, vs)).value| ==>
        lo <= Flush(Run(Idle, vs)).value[j].begin && Flush(Run(Idle, vs)).value[j].end <= hi
  {
    MergedRanges(vs);
    if Flush(Run(Idle, vs)).Some? {
      var rs := Flush(Run(Idle, vs)).value;
      forall j | 0 <= j < |rs| ensures lo <= rs[j].begin && rs[j].end <= hi {
        assert StartsFree(vs, rs[j].begin) && EndsFree(vs, rs[j].end);
      }
    }
  }

  /** Shape of the output: for one day of back-to-back blocks the day-end flush fails exactly when
      no block is available; otherwise the ranges are in chronological order, pairwise neither
      overlapping nor touching, each begins where an available block begins and ends where one
      ends, and together they cover exactly the instants of the available blocks. */
  lemma MergedRanges(vs: seq<Verdict>)
    requires Chained(vs)
    ensures Flush(Run(Idle, vs)).None? <==> forall k :: 0 <= k < |vs| ==> !vs[k].free
    ensures Flush(Run(Idle, vs)).Some? ==>
      var rs := Flush(Run(Idle, vs)).value;
      && Chronological(rs)
      && (forall t :: InRanges(rs, t) <==> InFreeSlot(vs, t))
      && OnFreeBoundaries(rs, vs)
  {
    RunKeepsInvariant(vs);
    var m := Run(Idle, vs);
    if m.current.Some? {
      assert Output(m) == Flush(m).value;
    }
  }

  /** Blocks of a chained day are pairwise disjoint. */
  lemma {:induction false} ChainedOrdered(vs: seq<Verdict>, j: nat, k: nat)
    requires Chained(vs) && j < k < |vs|
    ensures vs[j].slot.end <= vs[k].slot.begin
    decreases k - j
  {
    if j + 1 < k {
      ChainedOrdered(vs, j + 1, k);
    }
  }

  /** No merged range reaches into a block whose verdict is false. */
  lemma BusySlotNotReported(vs: seq<Verdict>, k: nat, t: int)
    requires Chained(vs) && k < |vs| && !vs[k].free
    requires vs[k].slot.begin <= t < vs[k].slot.end
    requires Flush(Run(Idle, vs)).Some?
    ensures !InRanges(Flush(Run(Idle, vs)).value, t)
  {
    MergedRanges(vs);
    forall j | 0 <= j < |vs| && vs[j].free ensures !(vs[j].slot.begin <= t < vs[j].slot.end) {
      if j < k {
        ChainedOrdered(vs, j, k);
      } else {
        ChainedOrdered(vs, k, j);
      }
    }
  }
}
