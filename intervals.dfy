/**
 * The interval algebra behind BookingService: half-open minute intervals,
 * the ordering `sorted` puts them in, and the sweep that subtracts busy
 * intervals from working intervals (booking_api/services.py, lines 54-77).
 *
 * `Subtract` is the specification of that sweep; the lemmas below say what
 * its result means (exactly the working minutes that no busy interval
 * covers, as ordered, disjoint, non-empty pieces) and which preconditions
 * those facts need.
 */
module Intervals {

  /** A pair (start, end) of minutes; the minutes it contains are start <= t < end. */
  datatype Interval = Interval(start: int, end: int)

  predicate Contains(iv: Interval, t: int) {
    iv.start <= t < iv.end
  }

  /** Some interval of `s` contains minute `t`. */
  predicate Covers(s: seq<Interval>, t: int) {
    exists k :: 0 <= k < |s| && Contains(s[k], t)
  }

  /** No interval of `busy` contains minute `t`. */
  predicate Free(busy: seq<Interval>, t: int) {
    forall j :: 0 <= j < |busy| ==> !Contains(busy[j], t)
  }

  /** Every interval of `s` has start <= end. */
  predicate WellFormed(s: seq<Interval>) {
    forall k :: 0 <= k < |s| ==> s[k].start <= s[k].end
  }

  /** Each interval ends no later than any later one starts. */
  predicate Ordered(s: seq<Interval>) {
    forall i, j :: 0 <= i < |s| && 0 <= j < |s| && i < j ==> s[i].end <= s[j].start
  }

  /** No minute lies in two different intervals of `s`. */
  ghost predicate Disjoint(s: seq<Interval>) {
    forall i, j, t :: 0 <= i < |s| && 0 <= j < |s| && i < j && Contains(s[i], t) ==> !Contains(s[j], t)
  }

  predicate SortedByStart(s: seq<Interval>) {
    forall i, j :: 0 <= i < |s| && 0 <= j < |s| && i < j ==> s[i].start <= s[j].start
  }

  function Max(a: int, b: int): int {
    if a >= b then a else b
  }

  // ----- sorted(): the order of Python tuples -----

  predicate LexLeq(a: Interval, b: Interval) {
    a.start < b.start || (a.start == b.start && a.end <= b.end)
  }

  predicate LexSorted(s: seq<Interval>) {
    forall i, j :: 0 <= i < |s| && 0 <= j < |s| && i < j ==> LexLeq(s[i], s[j])
  }

  function Insert(x: Interval, s: seq<Interval>): seq<Interval> {
    if s == [] then [x]
    else if LexLeq(x, s[0]) then [x] + s
    else [s[0]] + Insert(x, s[1..])
  }

  /** Python's `sorted` on a list of (start, end) pairs. */
  function SortIntervals(s: seq<Interval>): seq<Interval> {
    if s == [] then [] else Insert(s[0], SortIntervals(s[1..]))
  }

  lemma {:induction false} InsertFacts(x: Interval, s: seq<Interval>)
    requires LexSorted(s)
    ensures LexSorted(Insert(x, s))
    ensures multiset(Insert(x, s)) == multiset(s) + multiset{x}
  {
    if s == [] {
    } else if LexLeq(x, s[0]) {
      forall k | 0 <= k < |s| ensures LexLeq(x, s[k]) {
        if k > 0 { assert LexLeq(s[0], s[k]); }
      }
      ConsSorted(x, s);
    } else {
      var h, t := s[0], s[1..];
      assert LexSorted(t);
      InsertFacts(x, t);
      var r := Insert(x, t);
      assert Insert(x, s) == [h] + r;
      forall k | 0 <= k < |r| ensures LexLeq(h, r[k]) {
        assert r[k] in multiset(t) + multiset{x};
        if r[k] != x {
          var j :| 0 <= j < |t| && t[j] == r[k];
          assert s[j + 1] == r[k];
        }
      }
      ConsSorted(h, r);
      assert s == [h] + t;
    }
  }

  /** An interval in front of a sorted list that precedes all of it keeps the list sorted. */
  lemma ConsSorted(h: Interval, r: seq<Interval>)
    requires LexSorted(r)
    requires forall k :: 0 <= k < |r| ==> LexLeq(h, r[k])
    ensures LexSorted([h] + r)
  {
    var c := [h] + r;
    forall i, j | 0 <= i < |c| && 0 <= j < |c| && i < j ensures LexLeq(c[i], c[j]) {
      assert c[j] == r[j - 1];
      if i > 0 { assert c[i] == r[i - 1]; }
    }
  }

  /** Sorting puts the intervals in tuple order and keeps each of them, as often as it occurs. */
  lemma {:induction false} SortIntervalsFacts(s: seq<Interval>)
    ensures LexSorted(SortIntervals(s))
    ensures multiset(SortIntervals(s)) == multiset(s)
  {
    if s != [] {
      SortIntervalsFacts(s[1..]);
      InsertFacts(s[0], SortIntervals(s[1..]));
      assert s == [s[0]] + s[1..];
    }
  }

  /** Two tuple-sorted lists holding the same intervals start with the same interval. */
  lemma SortedHead(a: seq<Interval>, b: seq<Interval>)
    requires LexSorted(a) && LexSorted(b)
    requires multiset(a) == multiset(b) && a != []
    ensures b != [] && a[0] == b[0]
  {
    assert a[0] in multiset(b);
    assert b != [];
    assert b[0] in multiset(a);
    var i :| 0 <= i < |b| && b[i] == a[0];
    var j :| 0 <= j < |a| && a[j] == b[0];
    assert LexLeq(b[0], a[0]) by { if i > 0 { assert LexLeq(b[0], b[i]); } }
    assert LexLeq(a[0], b[0]) by { if j > 0 { assert LexLeq(a[0], a[j]); } }
  }

  /** Removing the first interval leaves the rest of the multiset. */
  lemma TailMultiset(a: seq<Interval>)
    requires a != []
    ensures multiset(a[1..]) == multiset(a) - multiset{a[0]}
  {
    assert a == [a[0]] + a[1..];
  }

  /** Two tuple-sorted lists holding the same intervals are the same list. */
  lemma {:induction false} SortedUnique(a: seq<Interval>, b: seq<Interval>)
    requires LexSorted(a) && LexSorted(b)
    requires multiset(a) == multiset(b)
    ensures a == b
    decreases |a|
  {
    if a == [] {
      assert |multiset(b)| == 0;
    } else {
      SortedHead(a, b);
      TailMultiset(a);
      TailMultiset(b);
      SortedUnique(a[1..], b[1..]);
      assert a == [a[0]] + a[1..];
      assert b == [b[0]] + b[1..];
    }
  }

  /** The order in which the busy intervals arrive does not matter to `sorted`. */
  lemma SortIntervalsOrderFree(a: seq<Interval>, b: seq<Interval>)
    requires multiset(a) == multiset(b)
    ensures SortIntervals(a) == SortIntervals(b)
  {
    SortIntervalsFacts(a);
    SortIntervalsFacts(b);
    SortedUnique(SortIntervals(a), SortIntervals(b));
  }

  // ----- the sweep -----

  /**
   * What the inner loop of `_subtract_intervals` appends for one working
   * interval [bs, be), with the cursor at `cur` and `busy` still to visit.
   */
  function Sweep(bs: int, be: int, cur: int, busy: seq<Interval>): seq<Interval>
    decreases |busy|
  {
    if cur >= be then []
    else if busy == [] then [Interval(cur, be)]
    else
      var b := busy[0];
      if be > b.start && bs < b.end then
        (if cur < b.start then [Interval(cur, b.start)] else [])
        + Sweep(bs, be, Max(cur, b.end), busy[1..])
      else Sweep(bs, be, cur, busy[1..])
  }

  /** The free intervals of every working interval in turn, against busy intervals already sorted. */
  function SubtractSorted(base: seq<Interval>, busy: seq<Interval>): seq<Interval>
    decreases |base|
  {
    if base == [] then []
    else
      var last := base[|base| - 1];
      SubtractSorted(base[..|base| - 1], busy) + Sweep(last.start, last.end, last.start, busy)
  }

  /** `_subtract_intervals(base, busy)`. */
  function Subtract(base: seq<Interval>, busy: seq<Interval>): seq<Interval> {
    SubtractSorted(base, SortIntervals(busy))
  }

  /** Every piece the sweep emits is non-empty and lies in [cur, be). */
  lemma {:induction false} SweepPieces(bs: int, be: int, cur: int, busy: seq<Interval>)
    ensures forall k :: 0 <= k < |Sweep(bs, be, cur, busy)| ==>
      cur <= Sweep(bs, be, cur, busy)[k].start < Sweep(bs, be, cur, busy)[k].end <= be
    decreases |busy|
  {
    if cur < be && busy != [] {
      var b := busy[0];
      if be > b.start && bs < b.end {
        SweepPieces(bs, be, Max(cur, b.end), busy[1..]);
      } else {
        SweepPieces(bs, be, cur, busy[1..]);
      }
    }
  }

  /**
   * Soundness: with busy sorted by start and the cursor inside the working
   * interval, no emitted minute is busy.
   */
  lemma {:induction false} SweepSound(bs: int, be: int, cur: int, busy: seq<Interval>, t: int)
    requires bs <= cur
    requires SortedByStart(busy)
    requires Covers(Sweep(bs, be, cur, busy), t)
    ensures cur <= t < be && Free(busy, t)
    decreases |busy|
  {
    var out := Sweep(bs, be, cur, busy);
    SweepPieces(bs, be, cur, busy);
    var k :| 0 <= k < |out| && Contains(out[k], t);
    if busy != [] {
      var b := busy[0];
      var rest := busy[1..];
      assert SortedByStart(rest);
      if be > b.start && bs < b.end {
        var head := if cur < b.start then [Interval(cur, b.start)] else [];
        assert out == head + Sweep(bs, be, Max(cur, b.end), rest);
        if k < |head| {
          assert t < b.start;
          forall j | 0 <= j < |busy| ensures !Contains(busy[j], t) {
            assert b.start <= busy[j].start;
          }
        } else {
          var tail := Sweep(bs, be, Max(cur, b.end), rest);
          assert Contains(tail[k - |head|], t);
          SweepSound(bs, be, Max(cur, b.end), rest, t);
          forall j | 0 <= j < |busy| ensures !Contains(busy[j], t) {
            if j > 0 { assert busy[j] == rest[j - 1]; }
          }
        }
      } else {
        assert Contains(Sweep(bs, be, cur, rest)[k], t);
        SweepSound(bs, be, cur, rest, t);
        forall j | 0 <= j < |busy| ensures !Contains(busy[j], t) {
          if j > 0 { assert busy[j] == rest[j - 1]; }
        }
      }
    }
  }

  /** Completeness: every free minute of [cur, be) is emitted; this needs no sorting. */
  lemma {:induction false} SweepComplete(bs: int, be: int, cur: int, busy: seq<Interval>, t: int)
    requires cur <= t < be && Free(busy, t)
    ensures Covers(Sweep(bs, be, cur, busy), t)
    decreases |busy|
  {
    var out := Sweep(bs, be, cur, busy);
    if busy == [] {
      assert Contains(out[0], t);
    } else {
      var b := busy[0];
      var rest := busy[1..];
      assert Free(rest, t) by {
        forall j | 0 <= j < |rest| ensures !Contains(rest[j], t) { assert rest[j] == busy[j + 1]; }
      }
      assert !Contains(busy[0], t);
      if be > b.start && bs < b.end {
        var head := if cur < b.start then [Interval(cur, b.start)] else [];
        var tail := Sweep(bs, be, Max(cur, b.end), rest);
        assert out == head + tail;
        if t < b.start {
          assert Contains(out[0], t);
        } else {
          SweepComplete(bs, be, Max(cur, b.end), rest, t);
          var k :| 0 <= k < |tail| && Contains(tail[k], t);
          assert out[|head| + k] == tail[k];
        }
      } else {
        SweepComplete(bs, be, cur, rest, t);
      }
    }
  }

  /** With busy intervals well formed, the pieces come out in order and disjoint. */
  lemma {:induction false} SweepOrdered(bs: int, be: int, cur: int, busy: seq<Interval>)
    requires WellFormed(busy)
    ensures Ordered(Sweep(bs, be, cur, busy))
    decreases |busy|
  {
    if cur < be && busy != [] {
      var b := busy[0];
      var rest := busy[1..];
      assert WellFormed(rest) by {
        forall k | 0 <= k < |rest| ensures rest[k].start <= rest[k].end { assert rest[k] == busy[k + 1]; }
      }
      if be > b.start && bs < b.end {
        SweepOrdered(bs, be, Max(cur, b.end), rest);
        SweepPieces(bs, be, Max(cur, b.end), rest);
        var head := if cur < b.start then [Interval(cur, b.start)] else [];
        var tail := Sweep(bs, be, Max(cur, b.end), rest);
        forall k | 0 <= k < |tail| ensures b.start <= tail[k].start { }
        OrderedConcat(head, tail);
      } else {
        SweepOrdered(bs, be, cur, rest);
      }
    }
  }

  lemma OrderedConcat(a: seq<Interval>, b: seq<Interval>)
    requires Ordered(a) && Ordered(b)
    requires forall i, j :: 0 <= i < |a| && 0 <= j < |b| ==> a[i].end <= b[j].start
    ensures Ordered(a + b)
  {
    var c := a + b;
    forall i, j | 0 <= i < |c| && 0 <= j < |c| && i < j ensures c[i].end <= c[j].start {
      if j < |a| {
        assert c[i] == a[i] && c[j] == a[j];
      } else if i < |a| {
        assert c[i] == a[i] && c[j] == b[j - |a|];
      } else {
        assert c[i] == b[i - |a|] && c[j] == b[j - |a|];
      }
    }
  }

  // ----- properties of the whole subtraction -----

  /** A piece of `SubtractSorted` is non-empty and inside one working interval. */
  lemma {:induction false} SubtractPieces(base: seq<Interval>, busy: seq<Interval>)
    ensures forall k :: 0 <= k < |SubtractSorted(base, busy)| ==>
      SubtractSorted(base, busy)[k].start < SubtractSorted(base, busy)[k].end
      && exists i :: 0 <= i < |base| && base[i].start <= SubtractSorted(base, busy)[k].start
                    && SubtractSorted(base, busy)[k].end <= base[i].end
    decreases |base|
  {
    if base != [] {
      var n := |base| - 1;
      var front := SubtractSorted(base[..n], busy);
      var tail := Sweep(base[n].start, base[n].end, base[n].start, busy);
      SubtractPieces(base[..n], busy);
      SweepPieces(base[n].start, base[n].end, base[n].start, busy);
      var out := SubtractSorted(base, busy);
      assert out == front + tail;
      forall k | 0 <= k < |out|
        ensures out[k].start < out[k].end
        ensures exists i :: 0 <= i < |base| && base[i].start <= out[k].start && out[k].end <= base[i].end
      {
        if k < |front| {
          assert out[k] == front[k];
          var i :| 0 <= i < n && base[..n][i].start <= front[k].start && front[k].end <= base[..n][i].end;
          assert base[..n][i] == base[i];
        } else {
          assert out[k] == tail[k - |front|];
        }
      }
    }
  }

  /**
   * Soundness of the subtraction: with busy sorted by start, every minute of
   * the result is a working minute that no busy interval covers.
   */
  lemma {:induction false} SubtractSortedSound(base: seq<Interval>, busy: seq<Interval>, t: int)
    requires SortedByStart(busy)
    requires Covers(SubtractSorted(base, busy), t)
    ensures Covers(base, t) && Free(busy, t)
    decreases |base|
  {
    var n := |base| - 1;
    var front := SubtractSorted(base[..n], busy);
    var tail := Sweep(base[n].start, base[n].end, base[n].start, busy);
    var out := SubtractSorted(base, busy);
    assert out == front + tail;
    var k :| 0 <= k < |out| && Contains(out[k], t);
    if k < |front| {
      assert Contains(front[k], t);
      SubtractSortedSound(base[..n], busy, t);
      var i :| 0 <= i < n && Contains(base[..n][i], t);
      assert base[..n][i] == base[i];
    } else {
      assert Contains(tail[k - |front|], t);
      SweepSound(base[n].start, base[n].end, base[n].start, busy, t);
      assert Contains(base[n], t);
    }
  }

  /** Completeness of the subtraction: every working minute that no busy interval covers is in the result. */
  lemma {:induction false} SubtractSortedComplete(base: seq<Interval>, busy: seq<Interval>, t: int)
    requires Covers(base, t) && Free(busy, t)
    ensures Covers(SubtractSorted(base, busy), t)
    decreases |base|
  {
    var n := |base| - 1;
    var front := SubtractSorted(base[..n], busy);
    var tail := Sweep(base[n].start, base[n].end, base[n].start, busy);
    var out := SubtractSorted(base, busy);
    assert out == front + tail;
    var i :| 0 <= i < |base| && Contains(base[i], t);
    if i < n {
      assert Contains(base[..n][i], t);
      SubtractSortedComplete(base[..n], busy, t);
      var k :| 0 <= k < |front| && Contains(front[k], t);
      assert out[k] == front[k];
    } else {
      SweepComplete(base[n].start, base[n].end, base[n].start, busy, t);
      var k :| 0 <= k < |tail| && Contains(tail[k], t);
      assert out[|front| + k] == tail[k];
    }
  }

  /** With ordered working intervals and well-formed busy ones, the result is ordered. */
  lemma {:induction false} SubtractSortedOrdered(base: seq<Interval>, busy: seq<Interval>)
    requires Ordered(base) && WellFormed(busy)
    ensures Ordered(SubtractSorted(base, busy))
    decreases |base|
  {
    if base != [] {
      var n := |base| - 1;
      var front := SubtractSorted(base[..n], busy);
      var tail := Sweep(base[n].start, base[n].end, base[n].start, busy);
      assert Ordered(base[..n]);
      SubtractSortedOrdered(base[..n], busy);
      SweepOrdered(base[n].start, base[n].end, base[n].start, busy);
      SubtractPieces(base[..n], busy);
      SweepPieces(base[n].start, base[n].end, base[n].start, busy);
      forall p, q | 0 <= p < |front| && 0 <= q < |tail| ensures front[p].end <= tail[q].start {
        var i :| 0 <= i < n && base[..n][i].start <= front[p].start && front[p].end <= base[..n][i].end;
        assert base[..n][i] == base[i];
      }
      OrderedConcat(front, tail);
    }
  }

  lemma WellFormedPermutation(a: seq<Interval>, b: seq<Interval>)
    requires WellFormed(a) && multiset(a) == multiset(b)
    ensures WellFormed(b)
  {
    forall k | 0 <= k < |b| ensures b[k].start <= b[k].end {
      assert b[k] in multiset(a);
    }
  }

  lemma FreePermutation(a: seq<Interval>, b: seq<Interval>, t: int)
    requires multiset(a) == multiset(b)
    ensures Free(a, t) <==> Free(b, t)
  {
    if Free(a, t) {
      forall k | 0 <= k < |b| ensures !Contains(b[k], t) { assert b[k] in multiset(a); }
    }
    if Free(b, t) {
      forall k | 0 <= k < |a| ensures !Contains(a[k], t) { assert a[k] in multiset(b); }
    }
  }

  /**
   * `_subtract_intervals` computes exactly the set difference: a minute is in
   * its result iff it is a working minute and no busy interval covers it.
   * Sorting first makes this hold whatever order the busy intervals come in.
   */
  lemma SubtractExact(base: seq<Interval>, busy: seq<Interval>, t: int)
    ensures Covers(Subtract(base, busy), t) <==> Covers(base, t) && Free(busy, t)
  {
    var sorted := SortIntervals(busy);
    SortIntervalsFacts(busy);
    FreePermutation(busy, sorted, t);
    if Covers(Subtract(base, busy), t) {
      SubtractSortedSound(base, sorted, t);
    }
    if Covers(base, t) && Free(busy, t) {
      SubtractSortedComplete(base, sorted, t);
    }
  }

  /**
   * For ordered working intervals and well-formed busy ones, the pieces are
   * ordered, so each free minute lies in exactly one piece.
   */
  lemma SubtractDisjoint(base: seq<Interval>, busy: seq<Interval>)
    requires Ordered(base) && WellFormed(busy)
    ensures Ordered(Subtract(base, busy))
    ensures Disjoint(Subtract(base, busy))
  {
    var sorted := SortIntervals(busy);
    SortIntervalsFacts(busy);
    WellFormedPermutation(busy, sorted);
    SubtractSortedOrdered(base, sorted);
    var out := Subtract(base, busy);
    forall i, j, t | 0 <= i < |out| && 0 <= j < |out| && i < j && Contains(out[i], t)
      ensures !Contains(out[j], t)
    {
      assert out[i].end <= out[j].start;
    }
    assert Disjoint(out);
  }

  /**
   * A busy interval with end < start, as `(start, end)` read from an
   * appointment whose end lies before its start, makes the pieces overlap.
   */
  lemma MalformedBusyBreaksOrder()
    ensures !Ordered(Subtract([Interval(0, 100)], [Interval(50, 10), Interval(60, 70)]))
  {
    var busy := [Interval(50, 10), Interval(60, 70)];
    assert SortIntervals(busy) == busy by {
      assert SortIntervals([Interval(60, 70)]) == [Interval(60, 70)];
    }
    var out := Subtract([Interval(0, 100)], busy);
    assert Sweep(0, 100, 70, []) == [Interval(70, 100)];
    assert Sweep(0, 100, 10, [Interval(60, 70)]) == [Interval(10, 60), Interval(70, 100)];
    assert out == [Interval(0, 50), Interval(10, 60), Interval(70, 100)];
    assert out[0].end > out[1].start;
  }

  /** The working intervals that contain at least one minute, in order. */
  function NonEmpty(base: seq<Interval>): (r: seq<Interval>)
    ensures forall k :: 0 <= k < |r| ==> r[k].start < r[k].end
    decreases |base|
  {
    if base == [] then []
    else
      var last := base[|base| - 1];
      NonEmpty(base[..|base| - 1]) + (if last.start < last.end then [last] else [])
  }

  /** With nothing booked, the free intervals are the non-empty working intervals, untouched. */
  lemma {:induction false} SubtractNothing(base: seq<Interval>)
    ensures Subtract(base, []) == NonEmpty(base)
    decreases |base|
  {
    if base != [] {
      SubtractNothing(base[..|base| - 1]);
    }
  }
}
