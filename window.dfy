/**
 * Window extraction: the spikes of one unit inside a closed interval of sample
 * ticks, re-based so that the first kept spike is 0; and the same extraction
 * over every selected trial's [start, end].
 */
module Window {
  import opened Seqs
  import opened Tables

  /**
   * The spikes with start <= t <= stop, in input order, each minus the first of
   * them. An empty window gives an empty result.
   */
  function SpikesForTrial(times: seq<int>, start: int, stop: int): (r: seq<int>)
    ensures |r| == |InClosed(times, start, stop)|
    ensures r != [] ==> r[0] == 0
    ensures times == [] ==> r == []
  {
    var kept := InClosed(times, start, stop);
    if kept == [] then [] else Shift(kept, kept[0])
  }

  /**
   * The result holds exactly the in-window spikes shifted by the first of them,
   * and it is empty exactly when no spike lies in the window.
   */
  lemma SpikesForTrialMembers(times: seq<int>, start: int, stop: int, x: int)
    ensures SpikesForTrial(times, start, stop) == [] <==>
              forall i :: 0 <= i < |times| ==> !(start <= times[i] <= stop)
    ensures SpikesForTrial(times, start, stop) != [] ==>
              var first := InClosed(times, start, stop)[0];
              first in times && start <= first <= stop &&
              (x in SpikesForTrial(times, start, stop) <==> x + first in times && start <= x + first <= stop)
  {
    var kept := InClosed(times, start, stop);
    var r := SpikesForTrial(times, start, stop);
    FilterMembers(times, t => start <= t <= stop);
    if kept != [] {
      var first := kept[0];
      assert r == Shift(kept, first);
      if x in r {
        var j :| 0 <= j < |r| && r[j] == x;
        assert kept[j] == x + first;
      }
      if x + first in times && start <= x + first <= stop {
        var i :| 0 <= i < |times| && times[i] == x + first;
        assert times[i] in kept;
        var j :| 0 <= j < |kept| && kept[j] == times[i];
        assert r[j] == x;
      }
    }
  }

  /**
   * On sorted spike times the window is the slice between the left insertion
   * points of `start` and `stop + 1`, so the subtracted spike is the smallest
   * one kept.
   */
  lemma SpikesForTrialSlice(times: seq<int>, start: int, stop: int)
    requires Sorted(times)
    requires start <= stop
    ensures var lo, hi := CountBelow(times, start), CountBelow(times, stop + 1);
            lo <= hi <= |times| &&
            SpikesForTrial(times, start, stop) == (if lo == hi then [] else Shift(times[lo..hi], times[lo]))
  {
    ClosedIsSlice(times, start, stop);
    CountBelowSplits(times, stop + 1);
  }

  /** On sorted spike times the result is sorted and lies within [0, stop - start]. */
  lemma SpikesForTrialRange(times: seq<int>, start: int, stop: int)
    requires Sorted(times)
    requires start <= stop
    ensures var r := SpikesForTrial(times, start, stop);
            Sorted(r) && forall i :: 0 <= i < |r| ==> 0 <= r[i] <= stop - start
  {
    var lo, hi := CountBelow(times, start), CountBelow(times, stop + 1);
    SpikesForTrialSlice(times, start, stop);
    CountBelowSplits(times, start);
    CountBelowSplits(times, stop + 1);
    var r := SpikesForTrial(times, start, stop);
    if lo < hi {
      var w := times[lo..hi];
      assert r == Shift(w, w[0]);
      assert start <= w[0];
      forall i | 0 <= i < |r| ensures 0 <= r[i] <= stop - start {
        assert r[i] == w[i] - w[0] && w[i] == times[lo + i];
      }
      SortedSlice(times, lo, hi);
      SortedShift(w, w[0]);
    }
  }

  /** The spikes of one trial, re-based, labelled by its trial number. */
  datatype TrialSpikes = TrialSpikes(trial: int, spikes: seq<int>)

  /**
   * Window extraction over every trial whose selection flag is set, in table
   * order, each over that trial's [start, end]; deselected trials give no row.
   */
  method SpikesForCluster(trials: seq<Trial>, times: seq<int>) returns (rows: seq<TrialSpikes>)
    ensures |rows| == |Selected(trials)|
    ensures forall k :: 0 <= k < |rows| ==>
              var t := Selected(trials)[k];
              rows[k] == TrialSpikes(t.trial, SpikesForTrial(times, t.start, t.end))
  {
    rows := [];
    for i := 0 to |trials|
      invariant |rows| == |Filter(trials[..i], IsSelected)|
      invariant forall k :: 0 <= k < |rows| ==>
                  var t := Filter(trials[..i], IsSelected)[k];
                  rows[k] == TrialSpikes(t.trial, SpikesForTrial(times, t.start, t.end))
    {
      FilterSnoc(trials, i, IsSelected);
      var t := trials[i];
      if t.select {
        rows := rows + [TrialSpikes(t.trial, SpikesForTrial(times, t.start, t.end))];
      }
    }
    assert trials[..|trials|] == trials;
  }
}
