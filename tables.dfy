/**
 * The normalised spike and trial tables of one recording session, and the
 * integer part of loading them: each spike's rank within its cluster, dropping
 * trials whose start is 0, converting trial times from milliseconds to 20 kHz
 * sample ticks, the trial length and the initial selection flag.
 */
module Tables {
  import opened Wrappers
  import opened Seqs

  /** Sample ticks per millisecond at the 20 kHz sampling rate. */
  const TicksPerMs := 20

  /** One row of the spike table: cluster id, sample tick, rank within the cluster. */
  datatype Spike = Spike(cluster: int, time: int, clusterIndex: nat)

  /** One row of the behavioural log as read, times in milliseconds. */
  datatype RawTrial = RawTrial(
    trial: int, event: int,
    start: int, cue: int, sound: int, openl: int, reward: int, iti: int, end: int)

  /** One row of the normalised trial table, times in sample ticks. */
  datatype Trial = Trial(
    trial: int, event: int,
    start: int, cue: int, sound: int, openl: int, reward: int, iti: int, end: int,
    length: int, select: bool)

  datatype LoadError = LengthMismatch

  // ---------------------------------------------------------------------
  // Spike table

  function IsCluster(c: int): Spike -> bool
  {
    (s: Spike) => s.cluster == c
  }

  /** The rows of cluster `c`, in global order. */
  function ClusterRows(spikes: seq<Spike>, c: int): seq<Spike>
  {
    Filter(spikes, IsCluster(c))
  }

  /** The spike table is ordered by sample tick, as the spike sorter writes it. */
  predicate TimeOrdered(spikes: seq<Spike>)
  {
    forall i, j :: 0 <= i < j < |spikes| ==> spikes[i].time <= spikes[j].time
  }

  /** Every spike's rank is the number of earlier spikes of the same cluster. */
  predicate Ranked(spikes: seq<Spike>)
  {
    forall k :: 0 <= k < |spikes| ==> spikes[k].clusterIndex == |ClusterRows(spikes[..k], spikes[k].cluster)|
  }

  /** Appending a row adds it to its own cluster's rows and to no other's. */
  lemma ClusterRowsSnoc(rows: seq<Spike>, row: Spike, d: int)
    ensures ClusterRows(rows + [row], d) == ClusterRows(rows, d) + (if row.cluster == d then [row] else [])
  {
    FilterAppend(rows, [row], IsCluster(d));
    assert [row][1..] == [];
  }

  lemma RankedSnoc(rows: seq<Spike>, row: Spike)
    requires Ranked(rows)
    requires row.clusterIndex == |ClusterRows(rows, row.cluster)|
    ensures Ranked(rows + [row])
  {
    var all := rows + [row];
    forall k | 0 <= k < |all|
      ensures all[k].clusterIndex == |ClusterRows(all[..k], all[k].cluster)|
    {
      if k < |rows| {
        assert all[..k] == rows[..k];
      } else {
        assert all[..k] == rows;
      }
    }
  }

  /**
   * Builds the spike table from the two loaded columns, numbering the spikes of
   * every cluster 0, 1, 2, ... in global order (the cumulative count per group).
   * Columns of different lengths cannot form one table.
   */
  method BuildSpikeTable(clusters: seq<int>, times: seq<int>) returns (r: Result<seq<Spike>, LoadError>)
    ensures r.Failure? <==> |clusters| != |times|
    ensures r.Success? ==> |r.value| == |clusters| && Ranked(r.value)
    ensures r.Success? ==> forall k :: 0 <= k < |clusters| ==>
              r.value[k].cluster == clusters[k] && r.value[k].time == times[k]
  {
    if |clusters| != |times| {
      return Failure(LengthMismatch);
    }
    var seen: map<int, nat> := map[];
    var rows: seq<Spike> := [];
    for k := 0 to |clusters|
      invariant |rows| == k
      invariant forall j :: 0 <= j < k ==> rows[j].cluster == clusters[j] && rows[j].time == times[j]
      invariant Ranked(rows)
      invariant forall c :: (if c in seen then seen[c] else 0) == |ClusterRows(rows, c)|
    {
      var c := clusters[k];
      var rank := if c in seen then seen[c] else 0;
      var row := Spike(c, times[k], rank);
      RankedSnoc(rows, row);
      forall d ensures |ClusterRows(rows + [row], d)| == |ClusterRows(rows, d)| + (if d == c then 1 else 0) {
        ClusterRowsSnoc(rows, row, d);
      }
      rows := rows + [row];
      seen := seen[c := rank + 1];
    }
    r := Success(rows);
  }

  /** The k-th spike of a cluster, in global order, has cluster index k. */
  lemma {:induction false} RankIsPositionInCluster(spikes: seq<Spike>, c: int)
    requires Ranked(spikes)
    ensures forall m :: 0 <= m < |ClusterRows(spikes, c)| ==> ClusterRows(spikes, c)[m].clusterIndex == m
  {
    if spikes != [] {
      var n := |spikes| - 1;
      var init, last := spikes[..n], spikes[n];
      assert Ranked(init) by {
        forall k | 0 <= k < n ensures init[k].clusterIndex == |ClusterRows(init[..k], init[k].cluster)| {
          assert init[..k] == spikes[..k];
        }
      }
      RankIsPositionInCluster(init, c);
      assert spikes == init + [last];
      ClusterRowsSnoc(init, last, c);
      assert last.clusterIndex == |ClusterRows(init, last.cluster)|;
    }
  }

  /** The spike times of cluster `c`, in global order. */
  function ClusterTimes(spikes: seq<Spike>, c: int): (r: seq<int>)
    ensures |r| == |ClusterRows(spikes, c)|
    ensures TimeOrdered(spikes) ==> Sorted(r)
  {
    var rows := ClusterRows(spikes, c);
    assert TimeOrdered(spikes) ==> TimeOrdered(rows) by {
      if TimeOrdered(spikes) {
        FilterKeepsOrder(spikes, IsCluster(c), (a: Spike, b: Spike) => a.time <= b.time);
      }
    }
    seq(|rows|, i requires 0 <= i < |rows| => rows[i].time)
  }

  // ---------------------------------------------------------------------
  // Trial table

  /** Trial numbers of the rows whose start is 0. */
  function ZeroStartLabels(raw: seq<RawTrial>): set<int>
  {
    set r | r in raw && r.start == 0 :: r.trial
  }

  function NotLabelled(labels: set<int>): RawTrial -> bool
  {
    (r: RawTrial) => r.trial !in labels
  }

  /**
   * The rows that survive the drop: rows are dropped by trial number, so every
   * row sharing a trial number with a zero-start row goes too.
   */
  function Kept(raw: seq<RawTrial>): seq<RawTrial>
  {
    Filter(raw, NotLabelled(ZeroStartLabels(raw)))
  }

  /** `t` is `r` with its seven time columns converted to sample ticks, its length and selection set. */
  predicate ConvertedFrom(t: Trial, r: RawTrial)
  {
    && t.trial == r.trial && t.event == r.event
    && t.start == TicksPerMs * r.start && t.cue == TicksPerMs * r.cue
    && t.sound == TicksPerMs * r.sound && t.openl == TicksPerMs * r.openl
    && t.reward == TicksPerMs * r.reward && t.iti == TicksPerMs * r.iti
    && t.end == TicksPerMs * r.end
    && t.length == t.end - t.start
    && t.select
  }

  /**
   * Normalises the behavioural log: drops the zero-start trials, scales the time
   * columns by 20 once, adds `length = end - start` and `select = true`.
   */
  method NormaliseTrials(raw: seq<RawTrial>) returns (trials: seq<Trial>)
    ensures |trials| == |Kept(raw)|
    ensures forall k :: 0 <= k < |trials| ==> ConvertedFrom(trials[k], Kept(raw)[k])
    ensures forall k :: 0 <= k < |trials| ==> trials[k].start != 0
  {
    var zeros: set<int> := {};
    for i := 0 to |raw|
      invariant zeros == set r | r in raw[..i] && r.start == 0 :: r.trial
    {
      assert raw[..i + 1] == raw[..i] + [raw[i]];
      if raw[i].start == 0 {
        zeros := zeros + {raw[i].trial};
      }
    }
    assert raw[..|raw|] == raw;
    var keep := NotLabelled(zeros);
    trials := [];
    for i := 0 to |raw|
      invariant |trials| == |Filter(raw[..i], keep)|
      invariant forall k :: 0 <= k < |trials| ==> ConvertedFrom(trials[k], Filter(raw[..i], keep)[k])
    {
      FilterSnoc(raw, i, keep);
      var r := raw[i];
      if r.trial !in zeros {
        var start, end := TicksPerMs * r.start, TicksPerMs * r.end;
        trials := trials + [Trial(r.trial, r.event, start, TicksPerMs * r.cue, TicksPerMs * r.sound,
                                  TicksPerMs * r.openl, TicksPerMs * r.reward, TicksPerMs * r.iti, end,
                                  end - start, true)];
      }
    }
    assert raw[..|raw|] == raw;
    FilterMembers(raw, keep);
    forall k | 0 <= k < |trials| ensures trials[k].start != 0 {
      var r := Kept(raw)[k];
      assert r in raw && r.trial !in zeros;
    }
  }

  function NonZeroStart(r: RawTrial): bool
  {
    r.start != 0
  }

  /** The trial-number column of the raw log. */
  function RawLabels(raw: seq<RawTrial>): seq<int>
  {
    seq(|raw|, i requires 0 <= i < |raw| => raw[i].trial)
  }

  /** With distinct trial numbers, the drop removes exactly the rows whose start is 0. */
  lemma KeptDistinct(raw: seq<RawTrial>)
    requires Distinct(RawLabels(raw))
    ensures Kept(raw) == Filter(raw, NonZeroStart)
  {
    forall i | 0 <= i < |raw|
      ensures NotLabelled(ZeroStartLabels(raw))(raw[i]) == (raw[i].start != 0)
    {
      if raw[i].trial in ZeroStartLabels(raw) {
        var z :| z in raw && z.start == 0 && z.trial == raw[i].trial;
        var j :| 0 <= j < |raw| && raw[j] == z;
        assert RawLabels(raw)[i] == RawLabels(raw)[j];
        assert i == j;
      }
    }
    FilterExt(raw, NotLabelled(ZeroStartLabels(raw)), NonZeroStart);
  }

  /** The trial-number column (the index) of the trial table. */
  function Labels(trials: seq<Trial>): seq<int>
  {
    seq(|trials|, i requires 0 <= i < |trials| => trials[i].trial)
  }

  /** No trial number labels two rows. */
  predicate DistinctTrials(trials: seq<Trial>)
  {
    Distinct(Labels(trials))
  }

  function IsSelected(t: Trial): bool
  {
    t.select
  }

  /** The trials whose selection flag is set, in table order. */
  function Selected(trials: seq<Trial>): (r: seq<Trial>)
    ensures forall k :: 0 <= k < |r| ==> r[k] in trials && r[k].select
    ensures forall i :: 0 <= i < |trials| && trials[i].select ==> trials[i] in r
    ensures Ascending(trials) ==> Ascending(r)
  {
    FilterMembers(trials, IsSelected);
    assert Ascending(trials) ==> Ascending(Filter(trials, IsSelected)) by {
      if Ascending(trials) {
        FilterAscending(trials, IsSelected);
      }
    }
    Filter(trials, IsSelected)
  }

  /** Trial numbers strictly increase down the table. */
  predicate Ascending(trials: seq<Trial>)
  {
    forall i, j :: 0 <= i < j < |trials| ==> trials[i].trial < trials[j].trial
  }

  /** Any order-preserving filter of an ascending table is ascending. */
  lemma FilterAscending(trials: seq<Trial>, p: Trial -> bool)
    requires Ascending(trials)
    ensures Ascending(Filter(trials, p))
  {
    FilterKeepsOrder(trials, p, (a: Trial, b: Trial) => a.trial < b.trial);
  }

  /** Event timestamps of one trial, by column. */
  datatype EventColumn = Start | Cue | Sound | Openl | Reward | Iti | End

  function EventTime(t: Trial, col: EventColumn): int
  {
    match col
    case Start => t.start
    case Cue => t.cue
    case Sound => t.sound
    case Openl => t.openl
    case Reward => t.reward
    case Iti => t.iti
    case End => t.end
  }
}
