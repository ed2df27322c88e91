/**
 * The binning engine: fixed-width bins laid from a unit's first spike, spike
 * counts per bin from two left insertion points (a half-open interval), and
 * the trial each bin belongs to by a boundary search over the trial ends.
 */
module Binning {
  import opened Wrappers
  import opened Seqs
  import opened Tables

  /** Sample ticks per second: the unit of an explicit step. */
  const TicksPerSecond := 20000

  /** numpy's `arange(start, stop, step)`: start, start + step, ... while short of `stop`. */
  function Arange(start: int, stop: int, step: int): seq<int>
    requires step != 0
    decreases if step > 0 then stop - start else start - stop
  {
    if (step > 0 && start < stop) || (step < 0 && start > stop) then [start] + Arange(start + step, stop, step)
    else []
  }

  /** With a positive step, the k-th value is start + k * step; all fall below `stop`, the next would not. */
  lemma {:induction false} ArangeAt(start: int, stop: int, step: int)
    requires step > 0
    ensures var r := Arange(start, stop, step);
            (forall k :: 0 <= k < |r| ==> r[k] == start + k * step && r[k] < stop) &&
            stop <= start + |r| * step
    decreases stop - start
  {
    var r := Arange(start, stop, step);
    if start < stop {
      var tail := Arange(start + step, stop, step);
      ArangeAt(start + step, stop, step);
      assert r == [start] + tail;
      forall k | 0 < k < |r| ensures r[k] == start + k * step {
        assert r[k] == tail[k - 1] == start + step + (k - 1) * step;
      }
      assert start + step + |tail| * step == start + |r| * step;
    }
  }

  /** The step between bin starts: `width + 1` by default, an explicit step is in seconds. */
  function BinStep(window: int, step: Option<int>): int
  {
    if step.None? then TicksPerMs * window + 1 else TicksPerSecond * step.value
  }

  /** Bin starts from the first spike up to `last - width` inclusive. */
  function BinStarts(first: int, last: int, width: int, step: int): seq<int>
    requires step != 0
  {
    Arange(first, last + 1 - width, step)
  }

  /**
   * With a positive step the bin starts are first + k * step, each at most
   * `last - width`, and one more step would pass it; there are none exactly
   * when the span from first to last spike is shorter than one bin.
   */
  lemma BinStartsSpec(first: int, last: int, width: int, step: int)
    requires step > 0
    ensures var b := BinStarts(first, last, width, step);
            (forall k :: 0 <= k < |b| ==> b[k] == first + k * step && first <= b[k] <= last - width) &&
            last - width < first + |b| * step &&
            (b == [] <==> last - first < width)
  {
    ArangeAt(first, last + 1 - width, step);
    var b := BinStarts(first, last, width, step);
    forall k | 0 <= k < |b| ensures first <= b[k] {
      assert 0 <= k * step;
    }
  }

  /**
   * With the default step `width + 1` the tick just past a bin's end belongs to
   * no bin: consecutive bins neither overlap nor touch, and a spike at exactly
   * `start + width` is counted nowhere.
   */
  lemma DefaultStepGap(first: int, last: int, window: int, k: nat, j: nat)
    requires 0 <= window
    requires k < |BinStarts(first, last, TicksPerMs * window, BinStep(window, None))|
    requires j < |BinStarts(first, last, TicksPerMs * window, BinStep(window, None))|
    ensures var width := TicksPerMs * window;
            var b := BinStarts(first, last, width, BinStep(window, None));
            !(b[j] <= b[k] + width < b[j] + width)
  {
    var width := TicksPerMs * window;
    assert BinStep(window, None) == width + 1;
    BinStartsSpec(first, last, width, width + 1);
    GapArith(k, j, width);
  }

  lemma GapArith(k: nat, j: nat, w: nat)
    ensures !(j * (w + 1) <= k * (w + 1) + w < j * (w + 1) + w)
  {
    if j <= k {
      assert j * (w + 1) <= k * (w + 1) by {
        assert k * (w + 1) == j * (w + 1) + (k - j) * (w + 1);
      }
    } else {
      assert j * (w + 1) == k * (w + 1) + (w + 1) + (j - k - 1) * (w + 1);
    }
  }

  /** Cut points `[0] + ends` ordered as the categorical cut demands: non-decreasing, and distinct unless there are only two. */
  predicate CutsAccepted(ends: seq<int>)
  {
    Sorted([0] + ends) &&
    (|ends| == 1 || forall i, j :: 0 <= i < j < |ends| + 1 ==> ([0] + ends)[i] < ([0] + ends)[j])
  }

  /**
   * Boundary search for the trial whose right-closed interval (previous end,
   * end] holds time `e`, the first interval also holding 0; times below 0 or
   * past the last end belong to no trial.
   */
  function TrialPos(ends: seq<int>, e: int): (r: Option<nat>)
    ensures r.Some? ==> r.value < |ends|
  {
    var k := CountBelow(ends, e);
    if e < 0 || k == |ends| then None else Some(k)
  }

  /** A bin end lies in trial i's interval exactly when the search returns i; an end on a boundary goes to the trial it closes. */
  lemma TrialPosSpec(ends: seq<int>, e: int, i: nat)
    requires Sorted([0] + ends)
    requires i < |ends|
    ensures TrialPos(ends, e) == Some(i) <==>
              (if i == 0 then 0 <= e else ends[i - 1] < e) && e <= ends[i]
  {
    var cuts := [0] + ends;
    assert Sorted(ends) by {
      forall a, b | 0 <= a < b < |ends| ensures ends[a] <= ends[b] {
        assert ends[a] == cuts[a + 1] && ends[b] == cuts[b + 1];
      }
    }
    assert 0 <= ends[0] by { assert cuts[0] == 0 && cuts[1] == ends[0]; }
    CountBelowSplits(ends, e);
    if (if i == 0 then 0 <= e else ends[i - 1] < e) && e <= ends[i] {
      CountBelowAt(ends, e, i);
    }
  }

  /** No trial exactly when the time is negative or past the last trial end. */
  lemma TrialPosNone(ends: seq<int>, e: int)
    requires Sorted([0] + ends)
    ensures TrialPos(ends, e).None? <==> e < 0 || ends == [] || ends[|ends| - 1] < e
  {
    assert Sorted(ends) by {
      forall a, b | 0 <= a < b < |ends| ensures ends[a] <= ends[b] {
        assert ends[a] == ([0] + ends)[a + 1] && ends[b] == ([0] + ends)[b + 1];
      }
    }
    CountBelowSplits(ends, e);
    if ends != [] && e <= ends[|ends| - 1] {
      assert CountBelow(ends, e) < |ends|;
    } else if ends != [] {
      CountBelowAt(ends, e, |ends|);
    }
  }

  /** Later bin ends never go to an earlier trial. */
  lemma TrialPosMonotone(ends: seq<int>, e1: int, e2: int)
    requires e1 <= e2
    requires TrialPos(ends, e1).Some? && TrialPos(ends, e2).Some?
    ensures TrialPos(ends, e1).value <= TrialPos(ends, e2).value
  {
    CountBelowMonotone(ends, e1, e2);
  }

  /** The label of the trial a bin end falls in, if any. */
  function TrialLabel(ends: seq<int>, labels: seq<int>, e: int): Option<int>
    requires |labels| == |ends|
  {
    var pos := TrialPos(ends, e);
    if pos.Some? then Some(labels[pos.value]) else None
  }

  /** With increasing labels, a later bin end never gets an earlier label. */
  lemma TrialLabelMonotone(ends: seq<int>, labels: seq<int>, e1: int, e2: int)
    requires |labels| == |ends|
    requires forall i, j :: 0 <= i < j < |labels| ==> labels[i] < labels[j]
    requires e1 <= e2
    ensures var l1, l2 := TrialLabel(ends, labels, e1), TrialLabel(ends, labels, e2);
            l1.Some? && l2.Some? ==> l1.value <= l2.value
  {
    var p1, p2 := TrialPos(ends, e1), TrialPos(ends, e2);
    if p1.Some? && p2.Some? {
      TrialPosMonotone(ends, e1, e2);
      if p1.value < p2.value {
        assert labels[p1.value] < labels[p2.value];
      }
    }
  }

  /**
   * A bin end inside trial i's interval gets trial i's label; it gets none
   * exactly when it is negative or past the last trial's end.
   */
  lemma TrialLabelSpec(ends: seq<int>, labels: seq<int>, e: int)
    requires |labels| == |ends|
    requires Sorted([0] + ends)
    ensures forall i :: 0 <= i < |ends| && (if i == 0 then 0 <= e else ends[i - 1] < e) && e <= ends[i] ==>
              TrialLabel(ends, labels, e) == Some(labels[i])
    ensures TrialLabel(ends, labels, e).None? <==> e < 0 || ends == [] || ends[|ends| - 1] < e
  {
    forall i | 0 <= i < |ends| && (if i == 0 then 0 <= e else ends[i - 1] < e) && e <= ends[i]
      ensures TrialLabel(ends, labels, e) == Some(labels[i])
    {
      TrialPosSpec(ends, e, i);
    }
    TrialPosNone(ends, e);
  }

  /** One row of the bin table. */
  datatype BinRow = BinRow(trial: Option<int>, count: int, startIndex: nat, binEnd: int, lastSpike: int)

  /**
   * The bin starting at `b`: its end, the spike count between the left insertion
   * points of start and end, the insertion point of the start, the spike before
   * the end's insertion point (the last spike when that point is 0, as a
   * negative index wraps), and its trial label.
   */
  function MakeBin(times: seq<int>, ends: seq<int>, labels: seq<int>, b: int, width: int): BinRow
    requires times != []
    requires |labels| == |ends|
  {
    var e := b + width;
    var firstIdx := CountBelow(times, b);
    var lastIdx := CountBelow(times, e);
    BinRow(
      TrialLabel(ends, labels, e),
      lastIdx - firstIdx,
      firstIdx,
      e,
      if lastIdx == 0 then times[|times| - 1] else times[lastIdx - 1])
  }

  /**
   * What a bin row means on sorted spike times: the count is the number of
   * spikes in [start, end) (never positive for a negative width), the start
   * index is the position of the first spike at or after the start, the last
   * spike is a spike and, for a positive width and a start at or after the first
   * spike, the greatest spike before the end; the trial is the label of the
   * trial the end falls in.
   */
  lemma MakeBinSpec(times: seq<int>, ends: seq<int>, labels: seq<int>, b: int, width: int)
    requires times != [] && Sorted(times)
    requires |labels| == |ends|
    ensures var r := MakeBin(times, ends, labels, b, width);
            && r.binEnd == b + width
            && (0 <= width ==> r.count == |InHalfOpen(times, b, b + width)|)
            && (width < 0 ==> r.count <= 0)
            && r.startIndex <= |times|
            && (forall j :: 0 <= j < r.startIndex ==> times[j] < b)
            && (forall j :: r.startIndex <= j < |times| ==> b <= times[j])
            && r.lastSpike in times
            && (0 < width && times[0] <= b ==>
                  r.lastSpike < b + width &&
                  forall j :: 0 <= j < |times| && times[j] < b + width ==> times[j] <= r.lastSpike)
            && (r.trial.Some? <==> TrialPos(ends, b + width).Some?)
            && (r.trial.Some? ==> r.trial.value == labels[TrialPos(ends, b + width).value])
  {
    var e := b + width;
    assert CountBelow(times, b) <= |times| by { CountBelowSplits(times, b); }
    assert 0 <= width ==> CountBelow(times, e) - CountBelow(times, b) == |InHalfOpen(times, b, e)| by {
      if 0 <= width {
        HalfOpenIsSlice(times, b, e);
      }
    }
    assert width < 0 ==> CountBelow(times, e) <= CountBelow(times, b) by {
      if width < 0 {
        CountBelowMonotone(times, e, b);
      }
    }
    CountBelowSplits(times, b);
    if 0 < width && times[0] <= b {
      LastBelow(times, e);
    }
  }

  /** When some spike lies below `e`, the spike just before the insertion point of `e` is the greatest of them. */
  lemma LastBelow(times: seq<int>, e: int)
    requires times != [] && Sorted(times)
    requires times[0] < e
    ensures 1 <= CountBelow(times, e) <= |times|
    ensures times[CountBelow(times, e) - 1] < e
    ensures forall j :: 0 <= j < |times| && times[j] < e ==> times[j] <= times[CountBelow(times, e) - 1]
  {
    CountBelowSplits(times, e);
  }

  /**
   * numpy's `searchsorted(x, side='left')` on a sorted array, by bisection: the
   * number of elements below `x`.
   */
  method SearchSortedLeft(s: seq<int>, x: int) returns (i: nat)
    requires Sorted(s)
    ensures i == CountBelow(s, x)
    ensures i <= |s|
    ensures forall j :: 0 <= j < i ==> s[j] < x
    ensures forall j :: i <= j < |s| ==> x <= s[j]
  {
    var lo, hi := 0, |s|;
    while lo < hi
      invariant 0 <= lo <= hi <= |s|
      invariant forall j :: 0 <= j < lo ==> s[j] < x
      invariant forall j :: hi <= j < |s| ==> x <= s[j]
    {
      var mid := (lo + hi) / 2;
      if s[mid] < x {
        lo := mid + 1;
      } else {
        hi := mid;
      }
    }
    CountBelowAt(s, x, lo);
    i := lo;
  }

  datatype BinError =
    | EmptyCluster       // the unit has no spike, so it has no first spike
    | ZeroStep           // an explicit step of 0
    | CutsNotIncreasing  // trial ends that do not increase from 0
    | DuplicateTrials    // a trial number labels two trials: ordered cut labels must be unique

  function Ends(trials: seq<Trial>): seq<int>
  {
    seq(|trials|, i requires 0 <= i < |trials| => trials[i].end)
  }

  /**
   * Bins of width `window * 20` ticks over one unit's spikes, each counted over
   * [start, start + width) and labelled with its trial (every trial of the
   * table, selected or not, supplies a cut point).
   */
  function BinCountPerCluster(spikes: seq<Spike>, trials: seq<Trial>, cluster: int, window: int, step: Option<int>)
    : (r: Result<seq<BinRow>, BinError>)
    requires TimeOrdered(spikes)
    ensures r == Failure(EmptyCluster) <==> ClusterTimes(spikes, cluster) == []
    ensures r == Failure(ZeroStep) <==> ClusterTimes(spikes, cluster) != [] && step == Some(0)
    ensures r == Failure(CutsNotIncreasing) <==>
              ClusterTimes(spikes, cluster) != [] && step != Some(0) && !CutsAccepted(Ends(trials))
    ensures r == Failure(DuplicateTrials) <==>
              ClusterTimes(spikes, cluster) != [] && step != Some(0) && CutsAccepted(Ends(trials)) &&
              !DistinctTrials(trials)
    ensures r.Success? ==>
              var times := ClusterTimes(spikes, cluster);
              var width := TicksPerMs * window;
              var starts := BinStarts(times[0], times[|times| - 1], width, BinStep(window, step));
              |r.value| == |starts| &&
              forall k :: 0 <= k < |starts| ==>
                r.value[k] == MakeBin(times, Ends(trials), Labels(trials), starts[k], width)
  {
    var times := ClusterTimes(spikes, cluster);
    if times == [] then Failure(EmptyCluster)
    else
      var width := TicksPerMs * window;
      var st := BinStep(window, step);
      if st == 0 then Failure(ZeroStep)
      else if !CutsAccepted(Ends(trials)) then Failure(CutsNotIncreasing)
      else if !DistinctTrials(trials) then Failure(DuplicateTrials)
      else
        var starts := BinStarts(times[0], times[|times| - 1], width, st);
        Success(seq(|starts|, k requires 0 <= k < |starts| =>
          MakeBin(times, Ends(trials), Labels(trials), starts[k], width)))
  }

  /**
   * What a bin row starting at `b` means over the unit's spike times and the
   * trial table: it ends at `b + width`, counts the spikes in [b, b + width),
   * its last spike is one of the unit's spikes, and it carries the label of the
   * trial whose interval holds its end, or none when the end lies before 0 or
   * past the last trial's end.
   */
  predicate RowMeans(row: BinRow, times: seq<int>, trials: seq<Trial>, b: int, width: int)
  {
    var e := b + width;
    && row.binEnd == e
    && (0 <= width ==> row.count == |InHalfOpen(times, b, e)|)
    && row.lastSpike in times
    && (forall i :: 0 <= i < |trials| && (if i == 0 then 0 <= e else trials[i - 1].end < e) && e <= trials[i].end ==>
          row.trial == Some(trials[i].trial))
    && (row.trial.None? <==> e < 0 || trials == [] || trials[|trials| - 1].end < e)
  }

  /**
   * Row k of a successful table, for a positive step, starts k steps after the
   * first spike, fits before the last one, and means what `RowMeans` says.
   */
  lemma BinRowMeaning(spikes: seq<Spike>, trials: seq<Trial>, cluster: int, window: int, step: Option<int>,
                      rows: seq<BinRow>, times: seq<int>, k: nat, b: int)
    requires TimeOrdered(spikes)
    requires BinCountPerCluster(spikes, trials, cluster, window, step) == Success(rows)
    requires BinStep(window, step) > 0
    requires times == ClusterTimes(spikes, cluster)
    requires k < |rows|
    requires times != [] && b == times[0] + k * BinStep(window, step)
    ensures b <= times[|times| - 1] - TicksPerMs * window
    ensures RowMeans(rows[k], times, trials, b, TicksPerMs * window)
  {
    var width, st := TicksPerMs * window, BinStep(window, step);
    var starts := BinStarts(times[0], times[|times| - 1], width, st);
    assert starts[k] == b && b <= times[|times| - 1] - width by {
      BinStartsSpec(times[0], times[|times| - 1], width, st);
    }
    assert CutsAccepted(Ends(trials));
    assert rows[k] == MakeBin(times, Ends(trials), Labels(trials), b, width);
    RowMeaning(rows[k], times, trials, b, width);
  }

  /** Every bin row built from sorted spike times and accepted cut points means what `RowMeans` says. */
  lemma RowMeaning(row: BinRow, times: seq<int>, trials: seq<Trial>, b: int, width: int)
    requires times != [] && Sorted(times)
    requires CutsAccepted(Ends(trials))
    requires row == MakeBin(times, Ends(trials), Labels(trials), b, width)
    ensures RowMeans(row, times, trials, b, width)
  {
    MakeBinSpec(times, Ends(trials), Labels(trials), b, width);
    MakeBinFields(times, Ends(trials), Labels(trials), b, width);
    TableLabel(trials, b + width);
  }

  /** `TrialLabel` over the trial table's own columns. */
  lemma TableLabel(trials: seq<Trial>, e: int)
    requires CutsAccepted(Ends(trials))
    ensures forall i :: 0 <= i < |trials| && (if i == 0 then 0 <= e else trials[i - 1].end < e) && e <= trials[i].end ==>
              TrialLabel(Ends(trials), Labels(trials), e) == Some(trials[i].trial)
    ensures TrialLabel(Ends(trials), Labels(trials), e).None? <==> e < 0 || trials == [] || trials[|trials| - 1].end < e
  {
    var ends, labels := Ends(trials), Labels(trials);
    TrialLabelSpec(ends, labels, e);
    forall i | 0 <= i < |trials| && (if i == 0 then 0 <= e else trials[i - 1].end < e) && e <= trials[i].end
      ensures TrialLabel(ends, labels, e) == Some(trials[i].trial)
    {
      assert ends[i] == trials[i].end && labels[i] == trials[i].trial;
      assert i > 0 ==> ends[i - 1] == trials[i - 1].end;
      TrialPosSpec(ends, e, i);
    }
    assert |ends| == |trials|;
    assert trials != [] ==> ends[|ends| - 1] == trials[|trials| - 1].end;
  }

  /** The two fields of a bin row that order the rows. */
  lemma MakeBinFields(times: seq<int>, ends: seq<int>, labels: seq<int>, b: int, width: int)
    requires times != []
    requires |labels| == |ends|
    ensures MakeBin(times, ends, labels, b, width).binEnd == b + width
    ensures MakeBin(times, ends, labels, b, width).trial == TrialLabel(ends, labels, b + width)
  {
  }

  /**
   * With a positive step the rows come in increasing bin-end order and, when
   * trial numbers increase down the table, in non-decreasing trial order: the
   * bins are grouped by trial without any reordering.
   */
  lemma BinRowsInTrialOrder(spikes: seq<Spike>, trials: seq<Trial>, cluster: int, window: int, step: Option<int>)
    requires TimeOrdered(spikes)
    requires BinCountPerCluster(spikes, trials, cluster, window, step).Success?
    requires BinStep(window, step) > 0
    requires Ascending(trials)
    ensures var rows := BinCountPerCluster(spikes, trials, cluster, window, step).value;
            forall i, j :: 0 <= i < j < |rows| ==>
              rows[i].binEnd < rows[j].binEnd &&
              (rows[i].trial.Some? && rows[j].trial.Some? ==> rows[i].trial.value <= rows[j].trial.value)
  {
    var rows := BinCountPerCluster(spikes, trials, cluster, window, step).value;
    var times := ClusterTimes(spikes, cluster);
    var width, st := TicksPerMs * window, BinStep(window, step);
    var starts := BinStarts(times[0], times[|times| - 1], width, st);
    var ends, labels := Ends(trials), Labels(trials);
    assert forall k :: 0 <= k < |starts| ==> starts[k] == times[0] + k * st by {
      BinStartsSpec(times[0], times[|times| - 1], width, st);
    }
    forall k | 0 <= k < |rows|
      ensures rows[k].binEnd == starts[k] + width
      ensures rows[k].trial == TrialLabel(ends, labels, starts[k] + width)
    {
      MakeBinFields(times, ends, labels, starts[k], width);
    }
    forall i, j | 0 <= i < j < |starts| ensures starts[i] < starts[j] {
      StepsIncrease(i, j, st);
    }
    RowsOrdered(rows, ends, labels, starts, width);
  }

  /** Rows whose bin starts increase have increasing ends and, with increasing labels, non-decreasing trials. */
  lemma RowsOrdered(rows: seq<BinRow>, ends: seq<int>, labels: seq<int>, starts: seq<int>, width: int)
    requires |labels| == |ends| && |rows| == |starts|
    requires forall i, j :: 0 <= i < j < |labels| ==> labels[i] < labels[j]
    requires forall i, j :: 0 <= i < j < |starts| ==> starts[i] < starts[j]
    requires forall k :: 0 <= k < |rows| ==>
               rows[k].binEnd == starts[k] + width && rows[k].trial == TrialLabel(ends, labels, starts[k] + width)
    ensures forall i, j :: 0 <= i < j < |rows| ==>
              rows[i].binEnd < rows[j].binEnd &&
              (rows[i].trial.Some? && rows[j].trial.Some? ==> rows[i].trial.value <= rows[j].trial.value)
  {
    forall i, j | 0 <= i < j < |rows|
      ensures rows[i].trial.Some? && rows[j].trial.Some? ==> rows[i].trial.value <= rows[j].trial.value
    {
      TrialLabelMonotone(ends, labels, starts[i] + width, starts[j] + width);
    }
  }

  lemma StepsIncrease(i: nat, j: nat, st: int)
    requires i < j && 0 < st
    ensures i * st < j * st
  {
    assert j * st == i * st + (j - i) * st;
  }
}
