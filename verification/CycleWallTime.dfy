/** Wall time of a delegation cycle: the union of its job intervals. */
module CycleWallTime {
  import opened Wrappers
  import opened Sets
  import opened Sorting

  /** The times of a job as parsed milliseconds; `None` is an unparseable time. */
  datatype Times = Times(start: Option<int>, end: Option<int>)

  /** A half-open interval. */
  datatype Interval = Interval(start: int, end: int)

  function StartOf(i: Interval): int {
    i.start
  }

  function ReadInterval(row: Times): Option<Interval> {
    if row.start.None? || row.end.None? || row.end.value < row.start.value then None
    else Some(Interval(row.start.value, row.end.value))
  }

  function Intervals(rows: seq<Times>): seq<Interval> {
    if rows == [] then []
    else
      var last := ReadInterval(rows[|rows| - 1]);
      Intervals(rows[..|rows| - 1]) + if last.Some? then [last.value] else []
  }

  predicate Within(t: int, a: int, b: int) {
    a <= t < b
  }

  ghost function Range(a: int, b: int): set<int> {
    set t {:trigger Within(t, a, b)} | a <= t < b && Within(t, a, b)
  }

  lemma {:induction false} RangeSize(a: int, b: int)
    requires a <= b
    ensures |Range(a, b)| == b - a
    decreases b - a
  {
    if a < b {
      RangeSize(a, b - 1);
      assert Range(a, b) == Range(a, b - 1) + {b - 1};
    }
  }

  /** The milliseconds that lie in at least one interval. */
  ghost function Covered(list: seq<Interval>): set<int> {
    if list == [] then {} else Covered(list[..|list| - 1]) + Range(list[|list| - 1].start, list[|list| - 1].end)
  }

  lemma {:induction false} CoveredExact(list: seq<Interval>, t: int)
    ensures t in Covered(list) <==> exists i :: i in list && i.start <= t < i.end
  {
    if list != [] {
      CoveredExact(list[..|list| - 1], t);
      assert list == list[..|list| - 1] + [list[|list| - 1]];
    }
  }

  lemma SameCovered(a: seq<Interval>, b: seq<Interval>)
    requires forall i :: i in a <==> i in b
    ensures Covered(a) == Covered(b)
  {
    forall t ensures t in Covered(a) <==> t in Covered(b) {
      CoveredExact(a, t);
      CoveredExact(b, t);
    }
  }

  lemma {:induction false} IntervalsValid(rows: seq<Times>)
    ensures forall i :: i in Intervals(rows) ==> i.start <= i.end
  {
    if rows != [] {
      IntervalsValid(rows[..|rows| - 1]);
    }
  }

  lemma CoveredSnoc(list: seq<Interval>, i: Interval)
    ensures Covered(list + [i]) == Covered(list) + Range(i.start, i.end)
  {
    assert (list + [i])[..|list|] == list;
  }

  /** What the sweep knows about the milliseconds covered so far: all of the current block, and nothing
      beyond it. */
  ghost predicate SweptSet(covered: set<int>, total: int, curStart: int, curEnd: int) {
    && curStart <= curEnd && |covered| == total + curEnd - curStart
    && Range(curStart, curEnd) <= covered
    && forall t :: t in covered ==> t < curEnd
  }

  lemma ExtendInside(covered: set<int>, total: int, curStart: int, curEnd: int, start: int, end: int)
    requires SweptSet(covered, total, curStart, curEnd)
    requires curStart <= start <= end <= curEnd
    ensures covered + Range(start, end) == covered
  {
    assert Range(start, end) <= Range(curStart, curEnd);
  }

  lemma ExtendPast(covered: set<int>, total: int, curStart: int, curEnd: int, start: int, end: int)
    requires SweptSet(covered, total, curStart, curEnd)
    requires curStart <= start <= curEnd < end
    ensures SweptSet(covered + Range(start, end), total, curStart, end)
  {
    var more := Range(curEnd, end);
    forall t ensures t in covered + Range(start, end) <==> t in covered + more {
      if t in Range(start, end) && t < curEnd {
        assert t in Range(curStart, curEnd);
      }
    }
    assert covered + Range(start, end) == covered + more && covered !! more;
    DisjointUnion(covered, more, covered + more);
    RangeSize(curEnd, end);
  }

  lemma Reopen(covered: set<int>, start: int, end: int)
    requires start <= end && forall t :: t in covered ==> t < start
    ensures SweptSet(covered + Range(start, end), |covered|, start, end)
  {
    DisjointUnion(covered, Range(start, end), covered + Range(start, end));
    RangeSize(start, end);
  }

  /** Some job with readable times runs in the millisecond. */
  ghost predicate BusyAt(rows: seq<Times>, t: int) {
    exists row :: row in rows && row.start.Some? && row.end.Some? && row.start.value <= t < row.end.value
  }

  /** The milliseconds in which some job runs. */
  ghost predicate IsBusyTime(busy: set<int>, rows: seq<Times>) {
    forall t :: t in busy <==> BusyAt(rows, t)
  }

  lemma CoveredIsBusy(rows: seq<Times>)
    ensures IsBusyTime(Covered(Intervals(rows)), rows)
  {
    forall t ensures t in Covered(Intervals(rows)) <==> BusyAt(rows, t) {
      CoveredExact(Intervals(rows), t);
      if row :| row in rows && row.start.Some? && row.end.Some? && row.start.value <= t < row.end.value {
        IntervalFrom(rows, Interval(row.start.value, row.end.value));
      }
      if i :| i in Intervals(rows) && i.start <= t < i.end {
        IntervalFrom(rows, i);
      }
    }
  }

  /** One pass over the intervals by start; the result is the number of milliseconds covered. */
  method UnionWallMs(rows: seq<Times>) returns (total: int)
    ensures total == |Covered(Intervals(rows))|
    ensures exists busy: set<int> :: |busy| == total && IsBusyTime(busy, rows)
  {
    CoveredIsBusy(rows);
    var intervals := StableSort(Intervals(rows), StartOf);
    SortSorts(Intervals(rows), StartOf);
    SortPermutes(Intervals(rows), StartOf);
    SameElements(intervals, Intervals(rows));
    IntervalsValid(rows);
    SameCovered(intervals, Intervals(rows));
    total := SweepSorted(intervals);
  }

  lemma SortedNext(intervals: seq<Interval>, k: nat)
    requires IsSorted(intervals, StartOf) && 0 < k < |intervals|
    ensures intervals[k - 1].start <= intervals[k].start
  {
    assert StartOf(intervals[k - 1]) <= StartOf(intervals[k]);
  }

  /** The variables of the pass after a prefix of the intervals. */
  ghost predicate Swept(prefix: seq<Interval>, open: bool, total: int, curStart: int, curEnd: int) {
    if open then
      && prefix != [] && curStart <= prefix[|prefix| - 1].start
      && SweptSet(Covered(prefix), total, curStart, curEnd)
    else prefix == [] && total == 0
  }

  lemma SweptFirst(i: Interval)
    requires i.start <= i.end
    ensures Swept([i], true, 0, i.start, i.end)
  {
    CoveredSnoc([], i);
    Reopen({}, i.start, i.end);
    assert [] + [i] == [i] && Covered([]) == {};
  }

  lemma SweptOverlap(prefix: seq<Interval>, total: int, curStart: int, curEnd: int, i: Interval)
    requires Swept(prefix, true, total, curStart, curEnd)
    requires prefix[|prefix| - 1].start <= i.start <= i.end && i.start <= curEnd
    ensures Swept(prefix + [i], true, total, curStart, if curEnd > i.end then curEnd else i.end)
  {
    CoveredSnoc(prefix, i);
    if i.end <= curEnd {
      ExtendInside(Covered(prefix), total, curStart, curEnd, i.start, i.end);
    } else {
      ExtendPast(Covered(prefix), total, curStart, curEnd, i.start, i.end);
    }
  }

  lemma SweptGap(prefix: seq<Interval>, total: int, curStart: int, curEnd: int, i: Interval)
    requires Swept(prefix, true, total, curStart, curEnd)
    requires curEnd < i.start <= i.end
    ensures Swept(prefix + [i], true, total + curEnd - curStart, i.start, i.end)
  {
    CoveredSnoc(prefix, i);
    Reopen(Covered(prefix), i.start, i.end);
  }

  method SweepSorted(intervals: seq<Interval>) returns (total: int)
    requires IsSorted(intervals, StartOf)
    requires forall i :: i in intervals ==> i.start <= i.end
    ensures total == |Covered(intervals)|
  {
    total := 0;
    var curStart, curEnd, open := 0, 0, false;
    for k := 0 to |intervals|
      invariant Swept(intervals[..k], open, total, curStart, curEnd)
    {
      var i := intervals[k];
      assert intervals[..k + 1] == intervals[..k] + [i];
      if !open {
        SweptFirst(i);
        curStart, curEnd, open := i.start, i.end, true;
      } else if i.start <= curEnd {
        SortedNext(intervals, k);
        SweptOverlap(intervals[..k], total, curStart, curEnd, i);
        curEnd := if curEnd > i.end then curEnd else i.end;
      } else {
        SweptGap(intervals[..k], total, curStart, curEnd, i);
        total := total + curEnd - curStart;
        curStart, curEnd := i.start, i.end;
      }
    }
    assert intervals[..|intervals|] == intervals;
    if open {
      total := total + curEnd - curStart;
    }
  }

  // ---- What the union means -----------------------------------------------------------------

  /** The order of the rows does not matter. */
  lemma IntervalsPermute(a: seq<Times>, b: seq<Times>)
    requires multiset(a) == multiset(b)
    ensures Covered(Intervals(a)) == Covered(Intervals(b))
  {
    SameElements(a, b);
    forall i ensures i in Intervals(a) <==> i in Intervals(b) {
      IntervalFrom(a, i);
      IntervalFrom(b, i);
    }
    SameCovered(Intervals(a), Intervals(b));
  }

  lemma {:induction false} IntervalFrom(rows: seq<Times>, i: Interval)
    ensures i in Intervals(rows) <==> exists row :: row in rows && ReadInterval(row) == Some(i)
  {
    if rows != [] {
      IntervalFrom(rows[..|rows| - 1], i);
      assert rows == rows[..|rows| - 1] + [rows[|rows| - 1]];
    }
  }

  function TotalLength(list: seq<Interval>): int {
    if list == [] then 0 else TotalLength(list[..|list| - 1]) + list[|list| - 1].end - list[|list| - 1].start
  }

  /** No interval meets the union of those before it. */
  ghost predicate NoOverlap(list: seq<Interval>) {
    list != [] ==>
      var rest, last := list[..|list| - 1], list[|list| - 1];
      NoOverlap(rest) && Covered(rest) !! Range(last.start, last.end)
  }

  ghost predicate PairwiseDisjoint(list: seq<Interval>) {
    forall i, j :: 0 <= i < j < |list| ==> Range(list[i].start, list[i].end) !! Range(list[j].start, list[j].end)
  }

  /** Equivalently, no two intervals share a millisecond. */
  lemma {:induction false} NoOverlapPairwise(list: seq<Interval>)
    ensures NoOverlap(list) <==> PairwiseDisjoint(list)
  {
    if list != [] {
      NoOverlapPairwise(list[..|list| - 1]);
      LastDisjoint(list[..|list| - 1], list[|list| - 1]);
      PairwiseSnoc(list[..|list| - 1], list[|list| - 1]);
      assert list == list[..|list| - 1] + [list[|list| - 1]];
    }
  }

  lemma PairwiseSnoc(rest: seq<Interval>, last: Interval)
    ensures PairwiseDisjoint(rest + [last]) <==>
      PairwiseDisjoint(rest) && forall i :: 0 <= i < |rest| ==>
        Range(rest[i].start, rest[i].end) !! Range(last.start, last.end)
  {
    var list := rest + [last];
    if PairwiseDisjoint(list) {
      forall i, j | 0 <= i < j < |rest| ensures Range(rest[i].start, rest[i].end) !! Range(rest[j].start, rest[j].end) {
        assert list[i] == rest[i] && list[j] == rest[j];
      }
      forall i | 0 <= i < |rest| ensures Range(rest[i].start, rest[i].end) !! Range(last.start, last.end) {
        assert list[i] == rest[i] && list[|rest|] == last;
      }
    }
  }

  /** The last interval meets the union exactly when it meets one of the others. */
  lemma LastDisjoint(rest: seq<Interval>, last: Interval)
    ensures Covered(rest) !! Range(last.start, last.end)
      <==> forall i :: 0 <= i < |rest| ==> Range(rest[i].start, rest[i].end) !! Range(last.start, last.end)
  {
    forall t ensures t in Covered(rest) <==> exists i :: 0 <= i < |rest| && t in Range(rest[i].start, rest[i].end) {
      CoveredExact(rest, t);
    }
  }

  /** The union is at most the sum of the lengths, and equal to it exactly when no two jobs overlap. */
  lemma {:induction false} WallAtMostSum(list: seq<Interval>)
    requires forall i :: i in list ==> i.start <= i.end
    ensures |Covered(list)| <= TotalLength(list)
    ensures |Covered(list)| == TotalLength(list) <==> NoOverlap(list)
  {
    if list != [] {
      var rest, last := list[..|list| - 1], list[|list| - 1];
      WallAtMostSum(rest);
      UnionSize(Covered(rest), Range(last.start, last.end));
      RangeSize(last.start, last.end);
    }
  }

  /** The union is at least as long as any one job, and at most the span from first start to last end. */
  lemma WallBetween(list: seq<Interval>, i: Interval, first: int, last: int)
    requires i in list && i.start <= i.end
    requires forall j :: j in list ==> first <= j.start && j.end <= last
    ensures i.end - i.start <= |Covered(list)| <= last - first
  {
    forall t ensures t in Range(i.start, i.end) ==> t in Covered(list) {
      CoveredExact(list, t);
    }
    forall t ensures t in Covered(list) ==> t in Range(first, last) {
      CoveredExact(list, t);
    }
    SubsetSize(Range(i.start, i.end), Covered(list));
    RangeSize(i.start, i.end);
    RangeSize(first, last);
    SubsetSize(Covered(list), Range(first, last));
  }
}
