/** The sorting drivers of the sorting page
    (src/components/sorting-page/sorting-page.tsx): selection sort and
    bubble sort over columns that carry a value and a highlight state. Each
    `refreshData` call, which draws the array and waits, is modelled as
    appending a copy of the array to a trace of snapshots. */
module Sorting {
  import opened Types

  /** One column of the chart (`TColumnElement`). */
  datatype Column = Column(value: int, state: ElementState)

  /** The array as drawn by one `refreshData` call. */
  type Snapshot = seq<Column>

  /** The values of the columns, in order. */
  function Values(a: seq<Column>): (s: seq<int>)
    ensures |s| == |a|
    ensures forall k :: 0 <= k < |a| ==> s[k] == a[k].value
  {
    seq(|a|, k requires 0 <= k < |a| => a[k].value)
  }

  /** `x` may come before `y` in the requested order. */
  predicate InOrder(dir: Direction, x: int, y: int) {
    match dir
    case Ascending => x <= y
    case Descending => x >= y
  }

  /** Every pair of values is in the requested order. */
  ghost predicate Sorted(dir: Direction, s: seq<int>) {
    forall x, y :: 0 <= x < y < |s| ==> InOrder(dir, s[x], s[y])
  }

  /** A snapshot of the input's columns, possibly rearranged: same length,
      same values. */
  ghost predicate SameColumns(snap: Snapshot, input: seq<Column>) {
    |snap| == |input| && multiset(Values(snap)) == multiset(Values(input))
  }

  /** Every snapshot shows the input's columns. */
  ghost predicate Snapshots(trace: seq<Snapshot>, input: seq<Column>) {
    forall k :: 0 <= k < |trace| ==> SameColumns(trace[k], input)
  }

  lemma Snap(trace: seq<Snapshot>, a: Snapshot, input: seq<Column>)
    requires Snapshots(trace, input) && SameColumns(a, input)
    ensures Snapshots(trace + [a], input)
  {
  }

  lemma SnapshotsJoin(t1: seq<Snapshot>, t2: seq<Snapshot>, input: seq<Column>)
    requires Snapshots(t1, input) && Snapshots(t2, input)
    ensures Snapshots(t1 + t2, input)
  {
  }

  /** Sets the highlight of column `k`; values are untouched. */
  function WithState(a: seq<Column>, k: nat, st: ElementState): (r: seq<Column>)
    requires k < |a|
    ensures r == a[k := Column(a[k].value, st)]
    ensures Values(r) == Values(a)
  {
    var r := a[k := a[k].(state := st)];
    assert Values(r) == Values(a);
    r
  }

  /** Exchanges two columns, state and all (the destructuring swap). */
  function Swap(a: seq<Column>, x: nat, y: nat): (r: seq<Column>)
    requires x < |a| && y < |a|
    ensures r == a[x := a[y]][y := a[x]]
    ensures Values(r) == Values(a)[x := a[y].value][y := a[x].value]
    ensures multiset(Values(r)) == multiset(Values(a))
  {
    var r := a[x := a[y]][y := a[x]];
    assert Values(r) == Values(a)[x := a[y].value][y := a[x].value];
    r
  }

  /** The comparisons made by outer passes `0 .. i - 1` of either sort over
      `n` columns: pass `k` compares `n - 1 - k` times. */
  function Comparisons(n: nat, i: nat): nat
    requires i <= n
  {
    if i == 0 then 0 else Comparisons(n, i - 1) + (n - i)
  }

  /** The comparisons add up to `i * (2n - 1 - i) / 2`; over all `n` passes,
      `n * (n - 1) / 2`. */
  lemma {:induction false} ComparisonsClosed(n: nat, i: nat)
    requires i <= n
    ensures 2 * Comparisons(n, i) == i * (2 * n - 1 - i)
    decreases i
  {
    if i > 0 {
      ComparisonsClosed(n, i - 1);
      assert (i - 1) * (2 * n - i) + 2 * (n - i) == i * (2 * n - 1 - i);
    }
  }

  /** How many values of `t` are out of order after `v`. */
  function OutOfOrder(dir: Direction, v: int, t: seq<int>): (c: nat)
    ensures c <= |t|
    ensures c == 0 <==> forall k :: 0 <= k < |t| ==> InOrder(dir, v, t[k])
  {
    if t == [] then 0 else (if InOrder(dir, v, t[0]) then 0 else 1) + OutOfOrder(dir, v, t[1..])
  }

  /** The pairs out of the requested order; strict, so equal values never
      form one. */
  function Inversions(dir: Direction, s: seq<int>): nat {
    if s == [] then 0 else OutOfOrder(dir, s[0], s[1..]) + Inversions(dir, s[1..])
  }

  /** No inversion exactly when sorted. */
  lemma {:induction false} InversionsZero(dir: Direction, s: seq<int>)
    ensures Inversions(dir, s) == 0 <==> Sorted(dir, s)
    decreases |s|
  {
    if s != [] {
      InversionsZero(dir, s[1..]);
      if Sorted(dir, s) {
        assert Sorted(dir, s[1..]) by {
          forall x, y | 0 <= x < y < |s[1..]| ensures InOrder(dir, s[1..][x], s[1..][y]) {
            assert s[1..][x] == s[x + 1] && s[1..][y] == s[y + 1];
          }
        }
        forall k | 0 <= k < |s[1..]| ensures InOrder(dir, s[0], s[1..][k]) {
          assert s[1..][k] == s[k + 1];
        }
      }
      if Inversions(dir, s) == 0 {
        forall x, y | 0 <= x < y < |s| ensures InOrder(dir, s[x], s[y]) {
          if x == 0 {
            assert s[y] == s[1..][y - 1];
          } else {
            assert s[x] == s[1..][x - 1] && s[y] == s[1..][y - 1];
          }
        }
      }
    }
  }

  /** Exchanging `t[j]` and `t[j + 1]` leaves the count after `v` alone. */
  lemma {:induction false} OutOfOrderSwap(dir: Direction, v: int, t: seq<int>, j: nat)
    requires j + 1 < |t|
    ensures OutOfOrder(dir, v, t[j := t[j + 1]][j + 1 := t[j]]) == OutOfOrder(dir, v, t)
    decreases j
  {
    var t' := t[j := t[j + 1]][j + 1 := t[j]];
    if j == 0 {
      assert t'[1..][1..] == t[1..][1..];
    } else {
      OutOfOrderSwap(dir, v, t[1..], j - 1);
      assert t'[1..] == t[1..][j - 1 := t[j + 1]][j := t[j]];
    }
  }

  /** Exchanging an adjacent pair that is out of order removes exactly one
      inversion: the pair itself. */
  lemma {:induction false} SwapRemovesInversion(dir: Direction, s: seq<int>, j: nat)
    requires j + 1 < |s| && !InOrder(dir, s[j], s[j + 1])
    ensures Inversions(dir, s[j := s[j + 1]][j + 1 := s[j]]) + 1 == Inversions(dir, s)
    decreases j
  {
    var s' := s[j := s[j + 1]][j + 1 := s[j]];
    if j == 0 {
      var r := s[2..];
      assert s[1..] == [s[1]] + r && s'[1..] == [s[0]] + r;
      assert ([s[1]] + r)[1..] == r && ([s[0]] + r)[1..] == r;
      assert InOrder(dir, s[1], s[0]);
    } else {
      SwapRemovesInversion(dir, s[1..], j - 1);
      assert s'[1..] == s[1..][j - 1 := s[j + 1]][j := s[j]];
      OutOfOrderSwap(dir, s[0], s[1..], j - 1);
    }
  }

  /** One pass of `getSelectionSort`'s outer loop: finds the extreme value of
      columns `i ..` (the first one on ties, as the comparison is strict),
      snapshotting each comparison, and swaps it into column `i`, which
      becomes `Modified`. Returns the index that was chosen. */
  method SelectionPass(input: seq<Column>, a0: seq<Column>, i: nat, dir: Direction, trace0: seq<Snapshot>)
    returns (a: seq<Column>, trace: seq<Snapshot>, minIndex: nat)
    requires i < |a0| && |a0| == |input| && multiset(Values(a0)) == multiset(Values(input))
    requires Snapshots(trace0, input)
    ensures i <= minIndex < |a0|
    ensures |a| == |a0| && Values(a) == Values(a0)[i := a0[minIndex].value][minIndex := a0[i].value]
    ensures multiset(Values(a)) == multiset(Values(a0))
    ensures forall y :: i <= y < |a0| ==> InOrder(dir, a0[minIndex].value, a0[y].value)
    ensures forall y :: i <= y < minIndex ==> !InOrder(dir, a0[y].value, a0[minIndex].value)
    ensures forall x :: 0 <= x < i ==> a[x] == a0[x]
    ensures a[i].state == Modified
    ensures |trace| == |trace0| + (|a0| - 1 - i) && trace[..|trace0|] == trace0
    ensures Snapshots(trace, input)
  {
    a := WithState(a0, i, Changing);
    a, trace, minIndex := FindExtreme(input, a, i, dir, trace0);
    a := WithState(a, i, Default);
    a := WithState(a, minIndex, Modified);
    a := Swap(a, i, minIndex);
    a := WithState(a, i, Modified);
  }

  /** The inner loop of `getSelectionSort`: highlights and snapshots each
      column after `i` in turn, keeping the index of the extreme value seen
      so far (the first one on ties, as the comparison is strict). */
  method FindExtreme(input: seq<Column>, a0: seq<Column>, i: nat, dir: Direction, trace0: seq<Snapshot>)
    returns (a: seq<Column>, trace: seq<Snapshot>, minIndex: nat)
    requires i < |a0| && |a0| == |input| && multiset(Values(a0)) == multiset(Values(input))
    requires Snapshots(trace0, input)
    ensures i <= minIndex < |a0|
    ensures |a| == |a0| && Values(a) == Values(a0)
    ensures forall x :: 0 <= x < i ==> a[x] == a0[x]
    ensures forall y :: i <= y < |a0| ==> InOrder(dir, a[minIndex].value, a[y].value)
    ensures forall y :: i <= y < minIndex ==> !InOrder(dir, a[y].value, a[minIndex].value)
    ensures |trace| == |trace0| + (|a0| - 1 - i) && trace[..|trace0|] == trace0
    ensures Snapshots(trace, input)
  {
    var n := |a0|;
    a := a0;
    trace := trace0;
    minIndex := i;
    var j := i + 1;
    while j < n
      invariant i + 1 <= j <= n
      invariant i <= minIndex < j
      invariant |a| == n && Values(a) == Values(a0)
      invariant forall x :: 0 <= x < i ==> a[x] == a0[x]
      invariant forall y :: i <= y < j ==> InOrder(dir, a[minIndex].value, a[y].value)
      invariant forall y :: i <= y < minIndex ==> !InOrder(dir, a[y].value, a[minIndex].value)
      invariant |trace| == |trace0| + (j - i - 1) && trace[..|trace0|] == trace0
      invariant Snapshots(trace, input)
    {
      a := WithState(a, j, Changing);
      Snap(trace, a, input);
      trace := trace + [a];
      // `<` when ascending, `>` when descending
      if !InOrder(dir, a[minIndex].value, a[j].value) {
        minIndex := j;
      }
      a := WithState(a, j, Default);
      j := j + 1;
    }
  }

  /** After a selection pass at `i`, the first `i + 1` columns are in place. */
  lemma SelectionAdvance(dir: Direction, prev: seq<Column>, a: seq<Column>, i: nat, m: nat)
    requires i <= m < |prev| && |a| == |prev|
    requires Values(a) == Values(prev)[i := prev[m].value][m := prev[i].value]
    requires forall y :: i <= y < |prev| ==> InOrder(dir, prev[m].value, prev[y].value)
    requires forall x, y :: 0 <= x < i && x < y < |prev| ==> InOrder(dir, prev[x].value, prev[y].value)
    ensures forall x, y :: 0 <= x < i + 1 && x < y < |a| ==> InOrder(dir, a[x].value, a[y].value)
  {
    forall x, y | 0 <= x < i + 1 && x < y < |a| ensures InOrder(dir, a[x].value, a[y].value) {
      assert a[x].value == Values(a)[x] && a[y].value == Values(a)[y];
    }
  }

  /** What the first `i` passes of `getSelectionSort` establish: the first
      `i` columns are in order before all the others and `Modified`; one
      snapshot per comparison. */
  ghost predicate Selected(input: seq<Column>, dir: Direction, i: nat, a: seq<Column>, trace: seq<Snapshot>) {
    && i <= |input| && |a| == |input| && multiset(Values(a)) == multiset(Values(input))
    && (forall x, y :: 0 <= x < i && x < y < |a| ==> InOrder(dir, a[x].value, a[y].value))
    && (forall x :: 0 <= x < i ==> a[x].state == Modified)
    && |trace| == Comparisons(|a|, i)
    && Snapshots(trace, input)
  }

  /** The outer loop's step: one more pass puts one more column in place. */
  method SelectionRound(input: seq<Column>, dir: Direction, i: nat, a0: seq<Column>, trace0: seq<Snapshot>)
    returns (a: seq<Column>, trace: seq<Snapshot>)
    requires i < |input| && Selected(input, dir, i, a0, trace0)
    ensures Selected(input, dir, i + 1, a, trace)
  {
    var m;
    a, trace, m := SelectionPass(input, a0, i, dir, trace0);
    SelectionAdvance(dir, a0, a, i, m);
    ComparisonsStep(|a0|, i, |trace0|, |trace|);
  }

  /** `getSelectionSort`: sorts the columns in the requested direction,
      leaves every column `Modified`, and draws one snapshot per comparison,
      `n * (n - 1) / 2` of them, plus a final one showing the result. */
  method SelectionSort(input: seq<Column>, dir: Direction) returns (a: seq<Column>, trace: seq<Snapshot>)
    ensures |a| == |input|
    ensures Sorted(dir, Values(a))
    ensures multiset(Values(a)) == multiset(Values(input))
    ensures forall k :: 0 <= k < |a| ==> a[k].state == Modified
    ensures 2 * (|trace| - 1) == |input| * (|input| - 1)
    ensures |trace| >= 1 && trace[|trace| - 1] == a
    ensures Snapshots(trace, input)
  {
    var n := |input|;
    a := input;
    trace := [];
    var i := 0;
    while i <= n - 1
      invariant Selected(input, dir, i, a, trace)
    {
      a, trace := SelectionRound(input, dir, i, a, trace);
      i := i + 1;
    }
    SelectionFinish(dir, input, a, trace);
    Snap(trace, a, input);
    trace := trace + [a];
  }

  /** After all `n` passes the columns are sorted and `n * (n - 1) / 2`
      comparisons were drawn. */
  lemma SelectionFinish(dir: Direction, input: seq<Column>, a: seq<Column>, trace: seq<Snapshot>)
    requires Selected(input, dir, |input|, a, trace)
    ensures Sorted(dir, Values(a))
    ensures 2 * |trace| == |input| * (|input| - 1)
  {
    forall x, y | 0 <= x < y < |a| ensures InOrder(dir, Values(a)[x], Values(a)[y]) {
    }
    ComparisonsClosed(|a|, |a|);
  }

  /** One pass of `getBubbleSort`'s outer loop: walks the adjacent pairs of
      the unsorted prefix `0 .. n - i - 1`, snapshotting each comparison and
      each exchange of an out-of-order pair, so that the prefix's extreme
      value ends in column `n - i - 1`, which becomes `Modified` (column 0
      excepted). `swaps` counts the exchanges. */
  method BubblePass(input: seq<Column>, a0: seq<Column>, i: nat, dir: Direction, trace0: seq<Snapshot>,
                    ghost swaps0: nat)
    returns (a: seq<Column>, trace: seq<Snapshot>, ghost swaps: nat)
    requires i < |a0| && |a0| == |input| && multiset(Values(a0)) == multiset(Values(input))
    requires Snapshots(trace0, input)
    requires forall x, y :: 0 <= x < y < |a0| && y >= |a0| - i ==> InOrder(dir, a0[x].value, a0[y].value)
    ensures |a| == |a0| && multiset(Values(a)) == multiset(Values(input))
    ensures forall k :: |a0| - i <= k < |a0| ==> a[k] == a0[k]
    ensures forall x, y :: 0 <= x < y < |a| && y >= |a| - i - 1 ==> InOrder(dir, a[x].value, a[y].value)
    ensures |a| - i - 1 >= 1 ==> a[|a| - i - 1].state == Modified
    ensures swaps >= swaps0 && Inversions(dir, Values(a)) + (swaps - swaps0) == Inversions(dir, Values(a0))
    ensures swaps == swaps0 ==> Values(a) == Values(a0)
    ensures |trace| + swaps0 == |trace0| + |a0| - i - 1 + swaps
    ensures Snapshots(trace, input)
  {
    a := a0;
    trace := trace0;
    swaps := swaps0;
    var j := 0;
    while j < |a0| - (i + 1)
      invariant Bubbling(input, dir, i, j, a0, trace0, swaps0, a, trace, swaps)
    {
      a, trace, swaps := BubbleAt(input, dir, i, j, a0, trace0, swaps0, a, trace, swaps);
      j := j + 1;
    }
    BubblePassEnd(input, dir, i, a0, trace0, swaps0, a, trace, swaps);
  }

  /** What the inner loop of `getBubbleSort` maintains in pass `i`, after
      `j` steps: column `j` holds the extreme value of columns `0 .. j`, the
      settled columns are untouched, and every exchange removed an
      inversion. */
  ghost predicate Bubbling(input: seq<Column>, dir: Direction, i: nat, j: nat, a0: seq<Column>, trace0: seq<Snapshot>,
                           swaps0: nat, a: seq<Column>, trace: seq<Snapshot>, swaps: nat) {
    && i < |a0| && j <= |a0| - i - 1 && |a0| == |input| && |a| == |a0|
    && multiset(Values(a)) == multiset(Values(input))
    && (forall k :: |a0| - i <= k < |a0| ==> a[k] == a0[k])
    && (forall x, y :: 0 <= x < y < |a0| && y >= |a0| - i ==> InOrder(dir, a[x].value, a[y].value))
    && (forall y :: 0 <= y < j ==> InOrder(dir, a[y].value, a[j].value))
    && (j >= 1 ==> a[j].state == Modified)
    && swaps >= swaps0 && Inversions(dir, Values(a)) + (swaps - swaps0) == Inversions(dir, Values(a0))
    && (swaps == swaps0 ==> Values(a) == Values(a0))
    && |trace| + swaps0 == |trace0| + j + swaps
    && Snapshots(trace, input)
  }

  /** The inner loop's step at `j`. */
  method BubbleAt(input: seq<Column>, dir: Direction, i: nat, j: nat, ghost a0: seq<Column>, ghost trace0: seq<Snapshot>,
                  ghost swaps0: nat, a1: seq<Column>, trace1: seq<Snapshot>, ghost swaps1: nat)
    returns (a: seq<Column>, trace: seq<Snapshot>, ghost swaps: nat)
    requires j < |a0| - i - 1 && Bubbling(input, dir, i, j, a0, trace0, swaps0, a1, trace1, swaps1)
    ensures Bubbling(input, dir, i, j + 1, a0, trace0, swaps0, a, trace, swaps)
  {
    var snaps, swapped;
    a, snaps, swapped := BubbleStep(input, a1, j, dir);
    SnapshotsJoin(trace1, snaps, input);
    trace := trace1 + snaps;
    swaps := if swapped then swaps1 + 1 else swaps1;
    if swapped {
      SwapRemovesInversion(dir, Values(a1), j);
    }
    BubbleAdvance(dir, a1, a, j);
    BubbleSettled(dir, a1, a, j, |a0| - i);
  }

  /** At the end of pass `i` the columns from `n - i - 1` on are settled. */
  lemma BubblePassEnd(input: seq<Column>, dir: Direction, i: nat, a0: seq<Column>, trace0: seq<Snapshot>,
                      swaps0: nat, a: seq<Column>, trace: seq<Snapshot>, swaps: nat)
    requires i < |a0| && Bubbling(input, dir, i, |a0| - i - 1, a0, trace0, swaps0, a, trace, swaps)
    ensures forall x, y :: 0 <= x < y < |a| && y >= |a| - i - 1 ==> InOrder(dir, a[x].value, a[y].value)
  {
  }

  /** One iteration of `getBubbleSort`'s inner loop: highlights columns `j`
      and `j + 1`, snapshots the comparison, exchanges them when out of order
      (snapshotting again), and then marks column `j + 1` `Modified`. The
      larger (for `Ascending`) of the two ends in column `j + 1`. */
  method BubbleStep(input: seq<Column>, a0: seq<Column>, j: nat, dir: Direction)
    returns (a: seq<Column>, snaps: seq<Snapshot>, swapped: bool)
    requires j + 1 < |a0| && |a0| == |input| && multiset(Values(a0)) == multiset(Values(input))
    ensures |a| == |a0| && multiset(Values(a)) == multiset(Values(input))
    ensures forall m :: 0 <= m < |a0| && m != j && m != j + 1 ==> a[m] == a0[m]
    ensures swapped <==> !InOrder(dir, a0[j].value, a0[j + 1].value)
    ensures swapped ==> Values(a) == Values(a0)[j := a0[j + 1].value][j + 1 := a0[j].value]
    ensures !swapped ==> Values(a) == Values(a0)
    ensures InOrder(dir, a[j].value, a[j + 1].value)
    ensures a[j].state == Default && a[j + 1].state == Modified
    ensures |snaps| == (if swapped then 2 else 1) && Snapshots(snaps, input)
  {
    a := a0;
    a := WithState(a, j, Changing);
    a := WithState(a, j + 1, Changing);
    Snap([], a, input);
    snaps := [a];
    swapped := false;
    // `>` when ascending, `<` when descending
    if !InOrder(dir, a[j].value, a[j + 1].value) {
      a := Exchange(a, j, dir);
      swapped := true;
      Snap(snaps, a, input);
      snaps := snaps + [a];
    }
    a := WithState(a, j, Default);
    a := WithState(a, j + 1, Modified);
  }


  /** After the step at `j`, column `j + 1` holds the extreme value of
      columns `0 .. j + 1`. */
  lemma BubbleAdvance(dir: Direction, prev: seq<Column>, a: seq<Column>, j: nat)
    requires j + 1 < |prev| && |a| == |prev|
    requires forall m :: 0 <= m < |prev| && m != j && m != j + 1 ==> a[m] == prev[m]
    requires forall y :: 0 <= y < j ==> InOrder(dir, prev[y].value, prev[j].value)
    requires InOrder(dir, a[j].value, a[j + 1].value)
    requires (a[j].value == prev[j].value && a[j + 1].value == prev[j + 1].value)
          || (a[j].value == prev[j + 1].value && a[j + 1].value == prev[j].value)
    ensures forall y :: 0 <= y < j + 1 ==> InOrder(dir, a[y].value, a[j + 1].value)
  {
  }

  /** A step at `j` below `bound` keeps every column from `bound` on in
      order after all the others. */
  lemma BubbleSettled(dir: Direction, prev: seq<Column>, a: seq<Column>, j: nat, bound: nat)
    requires j + 1 < bound <= |prev| && |a| == |prev|
    requires forall m :: 0 <= m < |prev| && m != j && m != j + 1 ==> a[m] == prev[m]
    requires (a[j].value == prev[j].value && a[j + 1].value == prev[j + 1].value)
          || (a[j].value == prev[j + 1].value && a[j + 1].value == prev[j].value)
    requires forall x, y :: 0 <= x < y < |prev| && y >= bound ==> InOrder(dir, prev[x].value, prev[y].value)
    ensures forall x, y :: 0 <= x < y < |a| && y >= bound ==> InOrder(dir, a[x].value, a[y].value)
  {
    forall x, y | 0 <= x < y < |a| && y >= bound ensures InOrder(dir, a[x].value, a[y].value) {
      assert a[y] == prev[y];
      if x == j || x == j + 1 {
        assert InOrder(dir, prev[j].value, prev[y].value) && InOrder(dir, prev[j + 1].value, prev[y].value);
      } else {
        assert a[x] == prev[x];
      }
    }
  }

  /** The exchange of an adjacent out-of-order pair: the larger (for
      `Ascending`) value moves right. */
  function Exchange(a: seq<Column>, j: nat, dir: Direction): (r: seq<Column>)
    requires j + 1 < |a| && !InOrder(dir, a[j].value, a[j + 1].value)
    ensures r == a[j := a[j + 1]][j + 1 := a[j]]
    ensures InOrder(dir, r[j].value, r[j + 1].value)
    ensures Values(r) == Values(a)[j := a[j + 1].value][j + 1 := a[j].value]
    ensures multiset(Values(r)) == multiset(Values(a))
  {
    Swap(a, j, j + 1)
  }

  /** What the first `i` passes of `getBubbleSort` establish: the last `i`
      columns are settled in order after all the others and (column 0
      excepted) `Modified`; `swaps` exchanges so far, each removing one
      inversion; one snapshot per comparison and per exchange. */
  ghost predicate Settled(input: seq<Column>, dir: Direction, i: nat, a: seq<Column>, trace: seq<Snapshot>, swaps: nat) {
    && i <= |input| && |a| == |input| && multiset(Values(a)) == multiset(Values(input))
    && (forall x, y :: 0 <= x < y < |a| && y >= |a| - i ==> InOrder(dir, a[x].value, a[y].value))
    && (forall k :: |a| - i <= k < |a| && k >= 1 ==> a[k].state == Modified)
    && Inversions(dir, Values(a)) + swaps == Inversions(dir, Values(input))
    && (swaps == 0 ==> Values(a) == Values(input))
    && |trace| == Comparisons(|a|, i) + swaps
    && Snapshots(trace, input)
  }

  /** The outer loop's step: one more pass settles one more column. */
  method BubbleRound(input: seq<Column>, dir: Direction, i: nat, a0: seq<Column>, trace0: seq<Snapshot>, ghost swaps0: nat)
    returns (a: seq<Column>, trace: seq<Snapshot>, ghost swaps: nat)
    requires i < |input| && Settled(input, dir, i, a0, trace0, swaps0)
    ensures Settled(input, dir, i + 1, a, trace, swaps)
  {
    a, trace, swaps := BubblePass(input, a0, i, dir, trace0, swaps0);
    ComparisonsStep(|a0|, i, |trace0| - swaps0, |trace| - swaps);
    if swaps == 0 {
      assert Values(a) == Values(a0) == Values(input);
    }
    forall k | |a| - (i + 1) <= k < |a| && k >= 1 ensures a[k].state == Modified {
      if k >= |a| - i {
        assert a[k] == a0[k];
      }
    }
  }

  /** Pass `i` compares `n - i - 1` times. */
  lemma ComparisonsStep(n: nat, i: nat, before: int, after: int)
    requires i < n && before == Comparisons(n, i) && after == before + (n - i - 1)
    ensures after == Comparisons(n, i + 1)
  {
  }

  /** The two nested loops of `getBubbleSort`: `n` passes, the one at `i`
      settling column `n - i - 1`. `swaps` counts the exchanges. */
  method BubblePasses(input: seq<Column>, dir: Direction) returns (a: seq<Column>, trace: seq<Snapshot>, ghost swaps: nat)
    ensures Settled(input, dir, |input|, a, trace, swaps)
    ensures |a| == |input| && multiset(Values(a)) == multiset(Values(input))
    ensures forall x, y :: 0 <= x < y < |a| ==> InOrder(dir, a[x].value, a[y].value)
    ensures Snapshots(trace, input)
  {
    a := input;
    trace := [];
    swaps := 0;
    var i := 0;
    while i < |input|
      invariant Settled(input, dir, i, a, trace, swaps)
    {
      a, trace, swaps := BubbleRound(input, dir, i, a, trace, swaps);
      i := i + 1;
    }
  }

  /** `getBubbleSort`. On a non-empty array it sorts the columns in the
      requested direction, leaves every column `Modified`, and draws one
      snapshot per comparison (`n * (n - 1) / 2`), one per exchange (as
      many as the input has inversions) and a final one. It never exits
      early, and an input already in order keeps its values in place. On an
      empty array the final `arr[0]` access throws (`ok` is false) before
      anything is drawn. */
  method BubbleSort(input: seq<Column>, dir: Direction) returns (a: seq<Column>, trace: seq<Snapshot>, ok: bool)
    ensures ok <==> |input| > 0
    ensures !ok ==> a == input && trace == []
    ensures |a| == |input| && multiset(Values(a)) == multiset(Values(input))
    ensures ok ==> Sorted(dir, Values(a))
    ensures ok ==> forall k :: 0 <= k < |a| ==> a[k].state == Modified
    ensures ok ==> 2 * (|trace| - 1 - Inversions(dir, Values(input))) == |input| * (|input| - 1)
    ensures ok ==> |trace| >= 1 && trace[|trace| - 1] == a
    ensures ok && Sorted(dir, Values(input)) ==> Values(a) == Values(input)
    ensures Snapshots(trace, input)
  {
    var n := |input|;
    ghost var swaps;
    a, trace, swaps := BubblePasses(input, dir);
    if n == 0 {
      return input, [], false;
    }
    BubbleFinish(dir, input, a, trace, swaps);
    a := WithState(a, 0, Modified);
    Snap(trace, a, input);
    trace := trace + [a];
    ok := true;
  }

  /** The last step of `getBubbleSort` on a non-empty array: column 0 is
      marked `Modified` and the result drawn. */
  lemma BubbleFinish(dir: Direction, input: seq<Column>, a: seq<Column>, trace: seq<Snapshot>, swaps: nat)
    requires |input| > 0 && Settled(input, dir, |input|, a, trace, swaps)
    ensures var r := WithState(a, 0, Modified); var t := trace + [r];
      && Sorted(dir, Values(r))
      && (forall k :: 0 <= k < |r| ==> r[k].state == Modified)
      && 2 * (|t| - 1 - Inversions(dir, Values(input))) == |input| * (|input| - 1)
      && (Sorted(dir, Values(input)) ==> Values(r) == Values(input))
      && Snapshots(t, input)
  {
    var n := |a|;
    assert Sorted(dir, Values(a)) by {
      forall x, y | 0 <= x < y < n ensures InOrder(dir, Values(a)[x], Values(a)[y]) {
      }
    }
    InversionsZero(dir, Values(a));
    InversionsZero(dir, Values(input));
    ComparisonsClosed(n, n);
  }
}
