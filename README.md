# Spike-train analysis core, modelled in Dafny

This project models the integer core of `spikes_class.py`. That class loads a
single-unit electrophysiology recording and derives per-trial spike data from it.
The recording is a list of spike times in sample ticks (20 000 per second), each
tagged with a cluster (unit) id. It comes with a table of behavioural trials whose
event times are in milliseconds. The model covers:

- the load-time normalisation:
  - every spike gets a per-cluster running index;
  - trials whose start is 0 are dropped;
  - trial times are converted from milliseconds to ticks (x20);
  - the trial length and the selection flag are derived;
- window extraction: the spikes in a closed tick interval, re-based on the first of them;
- per-trial extraction over every selected trial;
- the binning engine:
  - bin starts from `arange`;
  - counts from two left `searchsorted` calls;
  - the "last spike in bin" column;
  - each bin is assigned to a trial by `cut` over the trial end times;
- event-aligned extraction: spike offsets within ±window around a chosen event
  column, and the pooled histogram data;
- the six reward / no-reward trial filters behind the batch plots.

Modules:

- `Wrappers`, `Seqs` (`seqs.dfy`): `Option`/`Result` and the sequence vocabulary.
  - `Filter` is the boolean mask.
  - `CountBelow` is `searchsorted(side='left')`.
  - `InClosed` and `InHalfOpen` are the window masks.
  - `Shift` and `Flatten` are also defined here.
- `Tables` (`tables.dfy`): the spike table and the trial table, and how they are built.
- `Window` (`window.dfy`): window extraction and per-trial extraction.
- `Selection` (`selection.dfy`): the reward-code trial filters.
- `Aligned` (`aligned.dfy`): event-aligned extraction and the histogram data.
- `Binning` (`binning.dfy`): `arange`, the left binary search, the trial
  assignment and the binning engine.

The tables are modelled as values (`seq` of row datatypes). `load_files` changes
the trial table in place while building it: it scales the time columns and adds
the `length` and `select` columns. After loading, no table is written again, and
`select` is never reassigned. The model therefore builds the finished table as a
value. The `set_index(..., inplace=True)` in the binning engine only reshapes
its own local result. Loops that build a result row by row
become methods with loop invariants. Each method is proved equal to a
specification function, and the properties are proved about that function.

Differences between the code and its documented intent, where the model follows
the code:

- With no explicit step, the binning step is `width + 1` ticks. Consecutive bins
  are therefore not contiguous. A spike exactly `width` ticks after a bin start
  falls in no bin (`Binning.DefaultStepGap`).
- The trial rows whose `start` is 0 are dropped by index label. A row with a
  non-zero start whose trial number repeats a dropped row's number is dropped too
  (`Tables.Kept`; with distinct labels this is the plain filter,
  `Tables.KeptDistinct`).
- The binned table only swaps its two index levels; it is not re-sorted. Bins
  therefore come out in bin order, and their trial labels are non-decreasing only
  when the trial table is ascending (`Binning.BinRowsInTrialOrder`).
- The only error conditions are those the code raises:
  - a cluster with no spikes: `iloc[0]` fails;
  - an explicit step of 0: `arange` fails;
  - trial end times that `cut` rejects;
  - a trial number that labels two trials: `cut` refuses repeated ordered labels;
  - in the event-aligned extraction, a selected trial whose number labels
    another selected trial: looking up its event time yields several values,
    and the comparison with the spike times fails at that row.

  Nothing checks for a negative window or a mismatched time base.

## Model

| member | source | states |
|---|---|---|
| Tables.BuildSpikeTable | spikes_class.py:40-43 | Fails exactly when the cluster and time columns differ in length. Otherwise row k carries the k-th cluster and time, and its cluster index is the number of earlier rows of the same cluster. |
| Tables.RankIsPositionInCluster | spikes_class.py:43 | In a table built that way, the m-th row of any cluster has cluster index m (the cumulative count within the group). |
| Tables.ClusterTimes | spikes_class.py:103 | One time per row of the cluster. When the whole table is time-ordered, the times of one cluster are sorted. |
| Tables.NormaliseTrials | spikes_class.py:58-65 | One output row per kept raw row, in order. The seven time columns are x20, `length` is end minus start, `select` is true, and no surviving trial starts at 0. |
| Tables.KeptDistinct | spikes_class.py:58 | With distinct trial numbers, dropping by the labels of zero-start rows equals dropping exactly the zero-start rows. |
| Tables.Selected | spikes_class.py:90 | Holds exactly the trials whose select flag is set, and keeps an ascending trial order. |
| Tables.FilterAscending | spikes_class.py:90 | Any row filter of an ascending trial table is ascending. |
| Window.SpikesForTrial | spikes_class.py:70-79 | One value per spike in [start, stop]. The first value is 0. No spikes give an empty result. |
| Window.SpikesForTrialMembers | spikes_class.py:76-79 | Empty exactly when no spike lies in [start, stop]. Otherwise x is in the result exactly when x plus the first kept spike is a spike in the window. |
| Window.SpikesForTrialSlice | spikes_class.py:76 | On sorted times the kept spikes are the slice between the left insertion points of start and stop + 1. |
| Window.SpikesForTrialRange | spikes_class.py:76-79 | On sorted times the result is sorted and lies within [0, stop - start]. |
| Window.SpikesForCluster | spikes_class.py:82-98 | One row per selected trial, in table order, labelled by the trial number. It holds the window extraction over that trial's [start, end]. |
| Selection.SelectTrials | spikes_class.py:300-306 | Holds exactly the selected trials whose outcome code is in the given set, and keeps an ascending order. |
| Selection.SelectUnion | spikes_class.py:300-306 | For disjoint code sets, filtering the union's result by either part gives that part's result, and the union's result is the multiset sum of the two parts. |
| Selection.BothSidesSplit | spikes_class.py:300-306 | "Reward, both sides" (codes 5 or 7) splits into the gamble side (5) and the safe side (7). "No reward, both sides" (6 or 8) splits into 6 and 8. |
| Aligned.OffsetsSpec | spikes_class.py:215-217 | Every offset lies in [-delta, delta] and is a spike minus the event time. Every spike within delta of the event appears as an offset. |
| Aligned.AlignToEvent | spikes_class.py:200-223 | Fails exactly when two selected trials share a trial number, naming the first row whose number repeats. Otherwise row k is the k-th given trial, with y position k and the offsets around its event time for a half-window of 20 * window ticks. The histogram data is absent exactly when every row is empty; otherwise it is the rows' offsets concatenated in order. |
| Aligned.AppendRow | spikes_class.py:218-223 | One loop step: the row is appended; the histogram data is still unset exactly when every row so far is empty, and otherwise equals all rows' offsets concatenated in order. |
| Aligned.HistWithinWindow | spikes_class.py:218-223 | Every value in the pooled histogram data lies in [-delta, delta]. |
| Binning.ArangeAt | spikes_class.py:112 | For a positive step, element k is start + k * step and lies below stop, and the sequence stops at the first such value not below stop. |
| Binning.BinStartsSpec | spikes_class.py:102-112 | Bin k starts at first + k * step and lies within [first, last - width]; no further bin would fit. There are no bins exactly when the cluster's span is shorter than the width. |
| Binning.DefaultStepGap | spikes_class.py:106-112 | With no explicit step, the engine's step `BinStep(window, None)` is the width 20 * window plus one tick. For that step, no bin's end tick falls inside any bin's half-open range, so consecutive bins leave a one-tick gap. |
| Binning.SearchSortedLeft | spikes_class.py:116-118 | Binary search on sorted times returns the number of elements below x. Everything before it is below x; everything from it on is at least x. |
| Binning.TrialPos | spikes_class.py:123-128 | A found position is a valid index into the trial end times. |
| Binning.TrialPosSpec | spikes_class.py:123-128 | A bin end e is assigned to trial i exactly when it lies in (end[i-1], end[i]]. The first interval, [0, end[0]], includes its lower bound. |
| Binning.TrialPosNone | spikes_class.py:123-128 | A bin end gets no trial exactly when it is negative, past the last trial's end, or there are no trials. |
| Binning.TrialPosMonotone | spikes_class.py:128 | Later bin ends never get an earlier trial position. |
| Binning.MakeBinSpec | spikes_class.py:114-128 | The count is the number of spikes in [start, start + width). The start index separates the spikes below the start from the rest. The last spike is a spike of the cluster; for a positive width, it is the greatest spike before the bin end (for bins starting at or after the first spike). The trial label is the one at the assigned position, or absent. |
| Binning.LastBelow | spikes_class.py:120 | On sorted times, the element just before the left insertion point of e is the greatest spike below e. |
| Binning.BinCountPerCluster | spikes_class.py:101-131 | Four error cases, each stated as an iff and checked in the code's order: the cluster has no spikes; the explicit step is 0; the cut points are rejected; a trial number repeats. On success there is one row per bin start, each built from the cluster's times, the trial end times and the trial labels. |
| Binning.BinRowMeaning | spikes_class.py:101-131 | For a successful run with a positive step, given the cluster's times and b = first spike + k * step, row k starts at b, and b fits at least one width before the cluster's last spike. Its end is start + width, and it counts the spikes in [start, start + width). Its last spike is a spike of the cluster. It carries the number of the trial whose interval (previous end, end] holds its end, or no trial exactly when the end is negative or past the last trial's end. |
| Binning.RowMeaning | spikes_class.py:114-128 | Any bin row built from sorted spike times and accepted cut points has the meaning above, stated over the trial table's own columns. |
| Binning.TrialLabelSpec | spikes_class.py:123-128 | A bin end inside trial i's interval gets trial i's label; it gets no label exactly when it is negative, past the last trial's end, or there are no trials. |
| Binning.TrialLabelMonotone | spikes_class.py:123-128 | With increasing trial labels, a later bin end never gets an earlier trial label. |
| Binning.BinRowsInTrialOrder | spikes_class.py:123-130 | With a positive step and an ascending trial table, the bin ends strictly increase down the table and the assigned trial labels never decrease. |
| Seqs.CountBelowAt | spikes_class.py:116-118 | In sorted data, any index that separates the elements below x from the rest equals the left insertion point. |
| Seqs.HalfOpenIsSlice | spikes_class.py:116-120 | In sorted data, the spikes in [lo, hi) are the slice between the insertion points of lo and hi, so last_idx - first_idx counts them. |

## Left out

- Reading the spike arrays, the cluster table and the Excel trial sheet, and the
  OS-dependent paths. The model starts from the loaded columns (spike clusters
  and times as integers; the trial sheet's needed columns as integers).
- The cluster information table (`clusters_df`). It is renamed and re-indexed,
  but no modelled operation reads it.
- Trial times in the sheet are milliseconds and may be fractional. The model
  takes them as integers, so the float-to-int truncation after the x20
  conversion is not modelled. The `length_ms` column is not carried.
- The plotting, tick labelling, normal-curve fit and trial-time histogram, and
  the batch loop that saves figures and writes the LaTeX report.
  Only the data those plots are drawn from is modelled.
- Window.SpikesForCluster: models the evident intent of `get_spikes_for_cluster`.
  As written it has no `self` and calls `get_spikes_for_trial` as a bare name.
  Called through the class, it fails with a `NameError` at the first selected
  trial. With no selected trial it returns an empty frame, which matches the
  model's empty result. The pandas layout (`Int64` columns, `NaN` padding after
  the transpose) is not modelled; the result is one row per selected trial. With a
  trial number that labels two rows, the lookup by number would return several
  values; that failure is not modelled here.
- Aligned.AlignToEvent: an absent histogram (`None`) stands for `hist_ar` never
  having been bound, because no selected trial had a spike in its window. It is
  not a usable result: the source's plotting then fails on the unbound name at
  spikes_class.py:261, and that plotting is not modelled.
- Binning.BinRowsInTrialOrder: stated for a positive step only.
  With a negative explicit step, `arange` runs downward. `Binning.Arange`
  models that case, but no ordering property is proved for it.
- Binning.BinCountPerCluster: requires the spike table to be time-ordered, as
  the recording's spike times are. The explicit step is taken as a whole number
  of seconds (x20000 ticks). A fractional step, such as 0.5 s, makes the source
  build its bins with a floating-point `arange`; that case is not modelled. The `cut` categorical dtype and the final
  multi-index are represented by an optional trial label per row.
