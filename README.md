# AutoPicker core in Dafny

AutoPicker reads pairs of horizontal-component seismic traces and, for each
component, picks a candidate phase onset and a peak amplitude. Its only
algorithmic content is a segment-then-pick heuristic in three scan functions
of `Autopicker.py`:

- `find_time_ranges` splits a trace into the half-open ranges `[start, end)`
  of contiguous *active* samples. A sample is active when it is neither `0`
  nor the negative padding marker `-5.877471754111438e-39`. The positive
  marker `+5.877471754111438e-39` counts as active.
- `find_first_positive_y` returns the first *informative* sample of a range
  with its absolute index. A sample is informative when it is neither `0`
  nor either marker. It returns `(None, None)` when there is none.
- `find_first_maximum` returns the earliest largest sample of a range with
  its index. Every sample is eligible, zeros and markers included. It returns
  `(None, None)` on an empty range.

The model is in two files:

- `Autopicker.dfy` (module `Autopicker`) holds the samples, the two sample
  tests, the three functions as methods with loops, and the predicates they
  are proved against. `FindTimeRanges` is proved to return a list that is in
  bounds, separated, all-active, maximal and complete, and
  `SegmentationIsUnique` shows that those five properties leave exactly one
  possible answer. Both pickers are proved against characterising predicates
  that are likewise shown to fix the pick uniquely. `PickComponent` models the
  per-component gate of the station loop.
- `Scenarios.dfy` (module `AutopickerScenarios`) calls the methods on three
  concrete traces and proves their exact outputs.

Modelling decisions:

- Samples are `real`. The source compares samples only with exact `==`,
  `!=` and `>`, so an ordered type with exact equality is enough. The marker
  is the exact real literal `5.877471754111438e-39`, with constants `SPos` and
  `SNeg`.
- A trace is a `seq<real>`. The source never writes to a trace.
- A time range is `TimeRange(start: nat, end: nat)`. A pick is
  `NoPick | Found(value, index)`, which stands for Python's
  `(None, None)` or `(x, i)` pair. The source never returns one `None` with
  one value.
- Python's slice `trace[start:end]` is made explicit by `Slice` and
  `SliceEnd`. The end is clamped to the trace length, and the slice is empty
  when the start is not below the clamped end.
- The sentinel asymmetry is kept as written. The segmenter lets the positive
  marker through and the first-sample picker does not.
  `OnsetAbsentOnlyOnPositiveMarkers` states what that means for a run.
- A range that runs past the end of the trace is not treated as empty. The
  code clamps it, as Python slicing does, and the model follows the code.
  Only a start at or past the clamped end gives `(None, None)`.

## Model

| member | source | states |
|---|---|---|
| `Autopicker.Slice` | Autopicker.py:33 | `trace[start:end]` has length `min(end, len) - start`, or 0 when that is not positive, and its element `j` is `trace[start + j]` |
| `Autopicker.FindTimeRanges` | Autopicker.py:38-49 | every range satisfies `0 <= start < end <= len(trace)`; ranges are ascending with an inactive gap between any two; every index in a range is active (the positive marker is active); each range starts at 0 or after an inactive sample and ends at `len(trace)` or at an inactive sample; every active index lies in some range; the result is `[]` exactly when no sample is active |
| `Autopicker.RunIsDetermined` | Autopicker.py:42-46 | in any list with those properties, run `k` starts at the first active index after run `k - 1` ends, and ends at the first inactive index after its start (or at the trace length) |
| `Autopicker.NothingActiveAfterLastRun` | Autopicker.py:47-49 | in any such list, no sample after the end of the last run is active, and if the list is empty no sample is active |
| `Autopicker.SegmentationPrefixAgrees` | Autopicker.py:41-48 | two lists whose runs are placed as `RunIsDetermined` says agree on their first `m` runs, for every `m` up to the shorter length |
| `Autopicker.SegmentationIsUnique` | Autopicker.py:38-49 | a trace has exactly one list of ranges with those five properties, so the contract of `FindTimeRanges` fixes its result |
| `Autopicker.EmptySegmentation` | Autopicker.py:41-49 | a segmentation is `[]` exactly when no sample of the trace is active |
| `Autopicker.CoveredIffActive` | Autopicker.py:41-49 | for a segmentation, an index lies in some range exactly when its sample is active |
| `Autopicker.FindFirstPositiveY` | Autopicker.py:31-36 | a found pick has `start <= idx < min(end, len)`, value `trace[idx]`, a value that is not 0 or either marker, and no informative sample in `[start, idx)`; `NoPick` is returned exactly when no sample of the clamped range is informative, which includes an empty range |
| `Autopicker.FindFirstMaximum` | Autopicker.py:51-59 | `NoPick` exactly when the clamped slice is empty; otherwise the index is in the slice, the value is `trace[idx]`, it is `>=` every sample of the slice (zeros and markers included), and every sample in `[start, idx)` is strictly smaller, so the earliest maximum wins |
| `Autopicker.ActiveButNotInformative` | Autopicker.py:34 | a sample is active for the segmenter but not informative for the picker exactly when it is the positive marker |
| `Autopicker.FirstInformativePickIsUnique` | Autopicker.py:31-36 | the first-sample contract fixes the pick: two picks that both meet it are equal |
| `Autopicker.FirstMaximumPickIsUnique` | Autopicker.py:51-59 | the earliest-maximum contract fixes the pick: two picks that both meet it are equal |
| `Autopicker.OnsetAbsentOnlyOnPositiveMarkers` | Autopicker.py:31-49 | on a run of the segmentation, the first-sample picker finds nothing exactly when every sample of the run is the positive marker |
| `Autopicker.MaximumFoundInEveryRun` | Autopicker.py:51-59 | on a run of the segmentation, the maximum picker always finds a sample inside the run, and that sample is active |
| `Autopicker.PickComponent` | Autopicker.py:76-91 | the ranges form the segmentation; picks are made exactly when there are at least two ranges; they are then the first informative pick and the earliest maximum of the first range and the first informative pick of the second, and the maximum pick is always found |
| `AutopickerScenarios.MixedTrace` | Autopicker.py:31-59 | on `[0, 0, 3, 5, 2, 0, 0, -marker, 7, 0]` the ranges are `[(2,5), (8,9)]`, the first-range onset is `(3, 2)`, its maximum is `(5, 3)` and the second-range onset is `(7, 8)` |
| `AutopickerScenarios.LeadingPositiveMarker` | Autopicker.py:31-49 | on `[+marker, 1, 0, 0]` the segmenter gives `[(0, 2)]`, while the first-sample picker skips index 0 and returns `(1, 1)` |
| `AutopickerScenarios.AllZeroTrace` | Autopicker.py:31-59 | on ten zeros there are no ranges; over `(0, 10)` the first-sample picker finds nothing and the maximum picker returns `(0, 0)` |

## Left out

- SEG-Y loading through `obspy` and `segyio` (Autopicker.py:26-29, 61-63): foreign library I/O. Traces are parameters.
- The station driver loop (Autopicker.py:71-133): the even/odd pairing of traces, the `print` reports and the `matplotlib` plots are I/O and orchestration. Only the per-component gate (at least two ranges) is modelled, by `PickComponent`, once per component. The NS and EW blocks are the same code on different traces. The fault of `traces[idx + 1]` on an odd trace count is not modelled.
- The global result lists `p_wave_times`, `s_wave_times`, `a_ns`, `a_ew` and their printing (Autopicker.py:66-69, 136-139): script state that only feeds output.
- IEEE-754 details: NaN in the `>` and `!=` tests, `-0.0 == 0`, the `float32` storage of samples and the bit patterns of the markers. Samples are exact reals.
- Python negative indices in `trace[start:end]`: the bounds are `nat`, because the callers only pass ranges produced by `find_time_ranges`.
