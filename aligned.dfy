/**
 * Event-aligned extraction: for every trial of a selection, the offsets of one
 * unit's spikes from that trial's event time within a symmetric window, and
 * their concatenation for the histogram.
 */
module Aligned {
  import opened Wrappers
  import opened Seqs
  import opened Tables

  /** Offsets t - tref of the spikes with tref - delta <= t <= tref + delta, in spike order. */
  function Offsets(times: seq<int>, tref: int, delta: int): seq<int>
  {
    Shift(InClosed(times, tref - delta, tref + delta), tref)
  }

  /**
   * The offsets are exactly those of the in-window spikes: each lies within
   * [-delta, delta] and comes from a spike, and every in-window spike gives one.
   */
  lemma OffsetsSpec(times: seq<int>, tref: int, delta: int)
    ensures var r := Offsets(times, tref, delta);
            (forall i :: 0 <= i < |r| ==> -delta <= r[i] <= delta && r[i] + tref in times) &&
            (forall i :: 0 <= i < |times| && tref - delta <= times[i] <= tref + delta ==> times[i] - tref in r)
  {
    var kept := InClosed(times, tref - delta, tref + delta);
    var r := Offsets(times, tref, delta);
    FilterMembers(times, t => tref - delta <= t <= tref + delta);
    assert forall i :: 0 <= i < |kept| ==> kept[i] == r[i] + tref;
  }

  /** One raster row: the trial, its vertical position, its spike offsets. */
  datatype AlignedRow = AlignedRow(trial: int, y: nat, offsets: seq<int>)

  function RowOffsets(rows: seq<AlignedRow>): seq<seq<int>>
  {
    seq(|rows|, k requires 0 <= k < |rows| => rows[k].offsets)
  }

  /**
   * One step of the raster loop: the row is appended, and a non-empty offset list
   * is appended to the histogram data, which starts with the first such list.
   */
  method AppendRow(rows: seq<AlignedRow>, hist: Option<seq<int>>, row: AlignedRow)
    returns (rows': seq<AlignedRow>, hist': Option<seq<int>>)
    requires hist.None? <==> forall k :: 0 <= k < |rows| ==> rows[k].offsets == []
    requires hist.Some? ==> hist.value == Flatten(RowOffsets(rows))
    ensures rows' == rows + [row]
    ensures hist'.None? <==> forall k :: 0 <= k < |rows'| ==> rows'[k].offsets == []
    ensures hist'.Some? ==> hist'.value == Flatten(RowOffsets(rows'))
  {
    var ar := row.offsets;
    rows' := rows + [row];
    assert rows'[|rows|] == row;
    assert forall k :: 0 <= k < |rows| ==> rows'[k] == rows[k];
    assert Flatten(RowOffsets(rows')) == Flatten(RowOffsets(rows)) + ar by {
      assert RowOffsets(rows') == RowOffsets(rows) + [ar];
      FlattenSnoc(RowOffsets(rows), ar);
    }
    if |ar| == 0 {
      hist' := hist;
      assert Flatten(RowOffsets(rows)) + ar == Flatten(RowOffsets(rows));
    } else if hist.Some? {
      hist' := Some(hist.value + ar);
      assert rows'[|rows|].offsets != [];
    } else {
      assert Flatten(RowOffsets(rows)) == [] by {
        FlattenAllEmpty(RowOffsets(rows));
      }
      hist' := Some(ar);
      assert rows'[|rows|].offsets != [];
    }
  }

  /** The raster rows and the pooled histogram data (unset when no row has a spike). */
  datatype Raster = Raster(rows: seq<AlignedRow>, hist: Option<seq<int>>)

  /** Looking up an event time by a trial number that labels several rows fails. */
  datatype AlignError = DuplicateTrial(trial: int)

  /** Row `i`'s trial number also labels another row of the selection. */
  predicate Duplicated(selected: seq<Trial>, i: nat)
    requires i < |selected|
  {
    exists j :: 0 <= j < |selected| && j != i && selected[j].trial == selected[i].trial
  }

  /** A row whose trial number labels another row makes the selection not distinct. */
  lemma DuplicatedIsRepeat(selected: seq<Trial>, i: nat)
    requires i < |selected| && Duplicated(selected, i)
    ensures !DistinctTrials(selected)
  {
    var j :| 0 <= j < |selected| && j != i && selected[j].trial == selected[i].trial;
    var labels := Labels(selected);
    if j < i {
      assert labels[j] == labels[i];
    } else {
      assert labels[i] == labels[j];
    }
  }

  /** A selection none of whose rows is duplicated has distinct trial numbers. */
  lemma NoneDuplicatedIsDistinct(selected: seq<Trial>)
    requires forall k :: 0 <= k < |selected| ==> !Duplicated(selected, k)
    ensures DistinctTrials(selected)
  {
    var labels := Labels(selected);
    forall a, b | 0 <= a < b < |selected| ensures labels[a] != labels[b] {
      assert !Duplicated(selected, a);
    }
  }

  /**
   * Walks the selected trials in order. Each trial gets a row at the next
   * vertical position, with or without spikes; non-empty offset lists are
   * appended to the histogram data, which stays unset when every row is empty.
   * The event time is looked up by trial number, so the walk fails at the
   * first row whose trial number labels another row too.
   */
  method AlignToEvent(spikes: seq<Spike>, cluster: int, selected: seq<Trial>, event: EventColumn, window: int)
    returns (r: Result<Raster, AlignError>)
    ensures r.Failure? <==> !DistinctTrials(selected)
    ensures r.Failure? ==>
              exists i :: 0 <= i < |selected| && Duplicated(selected, i) &&
                r.error == DuplicateTrial(selected[i].trial) &&
                forall k :: 0 <= k < i ==> !Duplicated(selected, k)
    ensures r.Success? ==> |r.value.rows| == |selected|
    ensures r.Success? ==> forall k :: 0 <= k < |r.value.rows| ==>
              r.value.rows[k] == AlignedRow(selected[k].trial, k,
                Offsets(ClusterTimes(spikes, cluster), EventTime(selected[k], event), TicksPerMs * window))
    ensures r.Success? ==> (r.value.hist.None? <==> forall k :: 0 <= k < |r.value.rows| ==> r.value.rows[k].offsets == [])
    ensures r.Success? ==> (r.value.hist.Some? ==> r.value.hist.value == Flatten(RowOffsets(r.value.rows)))
  {
    var times := ClusterTimes(spikes, cluster);
    var delta := TicksPerMs * window;
    ghost var want := seq(|selected|, k requires 0 <= k < |selected| =>
      Offsets(times, EventTime(selected[k], event), delta));
    var rows: seq<AlignedRow>, hist: Option<seq<int>> := [], None;
    var y: nat := 0;
    for i := 0 to |selected|
      invariant y == i == |rows|
      invariant forall k :: 0 <= k < i ==> !Duplicated(selected, k)
      invariant forall k :: 0 <= k < i ==>
                  rows[k] == AlignedRow(selected[k].trial, k, want[k])
      invariant hist.None? <==> forall k :: 0 <= k < i ==> rows[k].offsets == []
      invariant hist.Some? ==> hist.value == Flatten(RowOffsets(rows))
    {
      if Duplicated(selected, i) {
        DuplicatedIsRepeat(selected, i);
        return Failure(DuplicateTrial(selected[i].trial));
      }
      var ar := Offsets(times, EventTime(selected[i], event), delta);
      assert ar == want[i];
      var row := AlignedRow(selected[i].trial, y, ar);
      y := y + 1;
      rows, hist := AppendRow(rows, hist, row);
    }
    NoneDuplicatedIsDistinct(selected);
    r := Success(Raster(rows, hist));
  }

  /** Every histogram value lies within [-delta, delta] when every row's offsets do. */
  lemma HistWithinWindow(times: seq<int>, selected: seq<Trial>, event: EventColumn, delta: int, rows: seq<AlignedRow>)
    requires |rows| == |selected|
    requires forall k :: 0 <= k < |rows| ==> rows[k].offsets == Offsets(times, EventTime(selected[k], event), delta)
    ensures forall x :: x in Flatten(RowOffsets(rows)) ==> -delta <= x <= delta
  {
    forall x | x in Flatten(RowOffsets(rows)) ensures -delta <= x <= delta {
      FlattenMembers(RowOffsets(rows), x);
      var k :| 0 <= k < |rows| && x in RowOffsets(rows)[k];
      var i :| 0 <= i < |rows[k].offsets| && rows[k].offsets[i] == x;
      OffsetsSpec(times, EventTime(selected[k], event), delta);
    }
  }
}
