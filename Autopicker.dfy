/** Model of the segment-then-pick heuristic of Autopicker.py.

    A trace is split into maximal runs of "active" samples (the segmenter,
    FindTimeRanges); inside one run, two pickers return the first
    "informative" sample (FindFirstPositiveY) and the earliest maximum
    (FindFirstMaximum). The three are modelled as index loops over a
    read-only trace. Each is proved against a
    characterising predicate, and each predicate is shown to determine its
    result uniquely. */
module Autopicker {

  /** A trace sample. The source only compares samples with exact `==`,
      `!=` and `>`, so an ordered type with exact equality models them. */
  type Sample = real

  /** Magnitude of the padding marker the trace format writes. */
  const Sentinel: Sample := 5.877471754111438e-39

  /** The two signed padding markers. */
  const SPos: Sample := Sentinel
  const SNeg: Sample := -Sentinel

  /** Active, as the segmenter tests it: neither 0 nor the negative marker.
      The positive marker counts as active. */
  predicate IsActive(x: Sample) {
    x != 0.0 && x != SNeg
  }

  /** Informative, as the first-sample picker tests it: neither 0 nor either
      marker. */
  predicate IsInformative(x: Sample) {
    x != 0.0 && x != SNeg && x != SPos
  }

  datatype Option<T> = None | Some(value: T)

  /** The half-open index interval [start, end) of one run. */
  datatype TimeRange = TimeRange(start: nat, end: nat)

  /** The (value, index) pair the pickers return: either (None, None) or a
      sample value together with its absolute trace index. */
  datatype Pick = NoPick | Found(value: Sample, index: nat)

  // ---------------------------------------------------------------------
  // Python slicing

  /** Where the slice trace[r.start:r.end] really ends: Python clamps the
      stop index to the length of the trace. */
  function SliceEnd(trace: seq<Sample>, r: TimeRange): (e: nat)
    ensures e <= |trace| && e <= r.end
    ensures e == r.end || e == |trace|
  {
    if r.end < |trace| then r.end else |trace|
  }

  /** trace[r.start:r.end]: the samples at indices r.start up to the clamped
      end, and nothing when the start is not below it. */
  function Slice(trace: seq<Sample>, r: TimeRange): (s: seq<Sample>)
    ensures |s| == if r.start < SliceEnd(trace, r) then SliceEnd(trace, r) - r.start else 0
    ensures forall j :: 0 <= j < |s| ==> s[j] == trace[r.start + j]
  {
    if r.start < SliceEnd(trace, r) then trace[r.start..SliceEnd(trace, r)] else []
  }

  // ---------------------------------------------------------------------
  // Segmenter: what a correct list of time ranges is

  /** Every range is non-empty and lies inside the trace. */
  ghost predicate InBounds(trace: seq<Sample>, rs: seq<TimeRange>) {
    forall k :: 0 <= k < |rs| ==> rs[k].start < rs[k].end <= |trace|
  }

  /** The ranges are in ascending order, and any two are separated by at
      least one index that belongs to neither. */
  ghost predicate Separated(rs: seq<TimeRange>) {
    forall a, b :: 0 <= a < b < |rs| ==> rs[a].end < rs[b].start
  }

  /** Every index inside a range holds an active sample. */
  ghost predicate AllActive(trace: seq<Sample>, rs: seq<TimeRange>)
    requires InBounds(trace, rs)
  {
    forall k, j :: 0 <= k < |rs| && rs[k].start <= j < rs[k].end ==> IsActive(trace[j])
  }

  /** No range can be extended: it starts at 0 or after an inactive sample,
      and it ends at the end of the trace or at an inactive sample. */
  ghost predicate Maximal(trace: seq<Sample>, rs: seq<TimeRange>)
    requires InBounds(trace, rs)
  {
    forall k :: 0 <= k < |rs| ==>
      (rs[k].start == 0 || !IsActive(trace[rs[k].start - 1])) &&
      (rs[k].end == |trace| || !IsActive(trace[rs[k].end]))
  }

  /** Index i lies inside one of the ranges. */
  ghost predicate Covered(rs: seq<TimeRange>, i: int) {
    exists k :: 0 <= k < |rs| && rs[k].start <= i < rs[k].end
  }

  /** Every active sample lies inside one of the ranges. */
  ghost predicate Complete(trace: seq<Sample>, rs: seq<TimeRange>) {
    forall i :: 0 <= i < |trace| && IsActive(trace[i]) ==> Covered(rs, i)
  }

  /** Every active sample below n lies inside one of the ranges. */
  ghost predicate CompleteBelow(trace: seq<Sample>, rs: seq<TimeRange>, n: nat) {
    forall i :: 0 <= i < n && i < |trace| && IsActive(trace[i]) ==> Covered(rs, i)
  }

  /** rs is the list of all maximal runs of active samples, in order. */
  ghost predicate IsSegmentation(trace: seq<Sample>, rs: seq<TimeRange>) {
    && InBounds(trace, rs)
    && Separated(rs)
    && AllActive(trace, rs)
    && Maximal(trace, rs)
    && Complete(trace, rs)
  }

  /** The runs closed so far form a correct list that ends before bound. */
  ghost predicate RunsBefore(trace: seq<Sample>, rs: seq<TimeRange>, bound: nat) {
    && InBounds(trace, rs)
    && Separated(rs)
    && AllActive(trace, rs)
    && Maximal(trace, rs)
    && forall k :: 0 <= k < |rs| ==> rs[k].end < bound
  }

  /** Appending a range that starts after every range of rs keeps the
      ranges separated. */
  lemma AppendSeparated(rs: seq<TimeRange>, r: TimeRange)
    requires Separated(rs)
    requires forall k :: 0 <= k < |rs| ==> rs[k].end < r.start
    ensures Separated(rs + [r])
  {
  }

  /** Appending a run of active samples keeps every range active. */
  lemma AppendActive(trace: seq<Sample>, rs: seq<TimeRange>, r: TimeRange)
    requires InBounds(trace, rs) && AllActive(trace, rs)
    requires r.start < r.end <= |trace|
    requires forall j :: r.start <= j < r.end ==> IsActive(trace[j])
    ensures InBounds(trace, rs + [r]) && AllActive(trace, rs + [r])
  {
  }

  /** Appending a range adds its indices to the covered ones. */
  lemma AppendCovered(rs: seq<TimeRange>, r: TimeRange)
    ensures forall j :: Covered(rs, j) ==> Covered(rs + [r], j)
    ensures forall j :: r.start <= j < r.end ==> Covered(rs + [r], j)
  {
    var rs' := rs + [r];
    assert rs'[|rs|] == r;
    forall j | Covered(rs, j) ensures Covered(rs', j) {
      var k :| 0 <= k < |rs| && rs[k].start <= j < rs[k].end;
      assert rs'[k] == rs[k];
    }
  }

  /** Closing the maximal run [s, e) that starts after every closed run keeps
      the list correct, and the indices it covers grow by [s, e). */
  lemma AppendRun(trace: seq<Sample>, rs: seq<TimeRange>, s: nat, e: nat)
    requires RunsBefore(trace, rs, s)
    requires s < e <= |trace|
    requires s == 0 || !IsActive(trace[s - 1])
    requires e == |trace| || !IsActive(trace[e])
    requires forall j :: s <= j < e ==> IsActive(trace[j])
    requires CompleteBelow(trace, rs, s)
    ensures RunsBefore(trace, rs + [TimeRange(s, e)], e + 1)
    ensures CompleteBelow(trace, rs + [TimeRange(s, e)], e + 1)
  {
    var r := TimeRange(s, e);
    var rs' := rs + [r];
    AppendSeparated(rs, r);
    AppendActive(trace, rs, r);
    AppendCovered(rs, r);
    assert rs'[|rs|] == r;
    assert forall k :: 0 <= k < |rs| ==> rs'[k] == rs[k];
  }

  /** The state of the segmenter after it has looked at the samples below
      i: the closed runs rs are correct and cover every active sample before
      the open run (or before i, when no run is open), and an open run starts
      at 0 or after an inactive sample and holds only active samples. */
  ghost predicate Scanned(trace: seq<Sample>, rs: seq<TimeRange>, startTime: Option<nat>, i: nat) {
    && i <= |trace|
    && RunsBefore(trace, rs, i)
    && (startTime.Some? ==>
         && startTime.value < i
         && (startTime.value == 0 || !IsActive(trace[startTime.value - 1]))
         && (forall j :: startTime.value <= j < i ==> IsActive(trace[j]))
         && RunsBefore(trace, rs, startTime.value))
    && (startTime.None? ==> i == 0 || !IsActive(trace[i - 1]))
    && CompleteBelow(trace, rs, if startTime.Some? then startTime.value else i)
  }

  /** An active sample with no run open opens a run at i. */
  lemma ScanOpen(trace: seq<Sample>, rs: seq<TimeRange>, i: nat)
    requires Scanned(trace, rs, None, i)
    requires i < |trace| && IsActive(trace[i])
    ensures Scanned(trace, rs, Some(i), i + 1)
  {
  }

  /** An inactive sample with a run open at s closes the run [s, i). */
  lemma ScanClose(trace: seq<Sample>, rs: seq<TimeRange>, s: nat, i: nat)
    requires Scanned(trace, rs, Some(s), i)
    requires i < |trace| && !IsActive(trace[i])
    ensures Scanned(trace, rs + [TimeRange(s, i)], None, i + 1)
  {
    AppendRun(trace, rs, s, i);
  }

  /** An active sample inside an open run, or an inactive one outside any
      run, changes nothing. */
  lemma ScanKeep(trace: seq<Sample>, rs: seq<TimeRange>, startTime: Option<nat>, i: nat)
    requires Scanned(trace, rs, startTime, i)
    requires i < |trace| && (startTime.Some? <==> IsActive(trace[i]))
    ensures Scanned(trace, rs, startTime, i + 1)
  {
  }

  /** At the end of the trace, closing a run still open at s at the trace
      length gives the segmentation. */
  lemma ScanFinish(trace: seq<Sample>, rs: seq<TimeRange>, startTime: Option<nat>)
    requires Scanned(trace, rs, startTime, |trace|)
    ensures startTime.None? ==> IsSegmentation(trace, rs)
    ensures startTime.Some? ==> IsSegmentation(trace, rs + [TimeRange(startTime.value, |trace|)])
  {
    if startTime.Some? {
      AppendRun(trace, rs, startTime.value, |trace|);
    }
  }

  /** A segmentation is empty exactly when no sample is active. */
  lemma EmptySegmentation(trace: seq<Sample>, rs: seq<TimeRange>)
    requires IsSegmentation(trace, rs)
    ensures rs == [] <==> forall i :: 0 <= i < |trace| ==> !IsActive(trace[i])
  {
    if rs != [] {
      assert IsActive(trace[rs[0].start]);
    }
  }

  // ---------------------------------------------------------------------
  // Segmenter

  /** find_time_ranges: one left-to-right pass that keeps an optional run
      start, opens a run at an active sample when none is open, closes it at
      the next inactive sample, and closes a run still open at the end of the
      trace at the trace length. */
  method FindTimeRanges(trace: seq<Sample>) returns (rs: seq<TimeRange>)
    ensures InBounds(trace, rs)
    ensures Separated(rs)
    ensures AllActive(trace, rs)
    ensures Maximal(trace, rs)
    ensures Complete(trace, rs)
    ensures rs == [] <==> forall i :: 0 <= i < |trace| ==> !IsActive(trace[i])
  {
    rs := [];
    var startTime: Option<nat> := None;
    for i := 0 to |trace|
      invariant Scanned(trace, rs, startTime, i)
    {
      var x := trace[i];
      if x != 0.0 && x != SNeg && startTime.None? {
        ScanOpen(trace, rs, i);
        startTime := Some(i);
      } else if (x == 0.0 || x == SNeg) && startTime.Some? {
        ScanClose(trace, rs, startTime.value, i);
        rs := rs + [TimeRange(startTime.value, i)];
        startTime := None;
      } else {
        ScanKeep(trace, rs, startTime, i);
      }
    }
    ScanFinish(trace, rs, startTime);
    if startTime.Some? {
      rs := rs + [TimeRange(startTime.value, |trace|)];
    }
    EmptySegmentation(trace, rs);
  }

  // ---------------------------------------------------------------------
  // The segmentation is unique

  /** Where the search for run k starts: 0 for the first run, otherwise the
      end of run k - 1. */
  function SearchFrom(rs: seq<TimeRange>, k: nat): (lo: nat)
    requires k <= |rs|
  {
    if k == 0 then 0 else rs[k - 1].end
  }

  /** x is the first active index at or after lo. */
  ghost predicate IsFirstActiveFrom(trace: seq<Sample>, lo: nat, x: nat) {
    lo <= x < |trace| && IsActive(trace[x]) &&
    forall j :: lo <= j < x ==> !IsActive(trace[j])
  }

  /** e is the first inactive index after s, or the trace length. */
  ghost predicate IsRunEnd(trace: seq<Sample>, s: nat, e: nat) {
    s < e <= |trace| &&
    (forall j :: s <= j < e ==> IsActive(trace[j])) &&
    (e == |trace| || !IsActive(trace[e]))
  }

  /** There is only one first active index at or after lo. */
  lemma FirstActiveFromIsUnique(trace: seq<Sample>, lo: nat, x: nat, y: nat)
    requires IsFirstActiveFrom(trace, lo, x) && IsFirstActiveFrom(trace, lo, y)
    ensures x == y
  {
  }

  /** A run that starts at s can end in only one place. */
  lemma RunEndIsUnique(trace: seq<Sample>, s: nat, e1: nat, e2: nat)
    requires IsRunEnd(trace, s, e1) && IsRunEnd(trace, s, e2)
    ensures e1 == e2
  {
  }

  /** Run k of a segmentation starts at the first active index after run
      k - 1 and ends at the first inactive index after its start. */
  lemma RunIsDetermined(trace: seq<Sample>, rs: seq<TimeRange>, k: nat)
    requires IsSegmentation(trace, rs)
    requires k < |rs|
    ensures IsFirstActiveFrom(trace, SearchFrom(rs, k), rs[k].start)
    ensures IsRunEnd(trace, rs[k].start, rs[k].end)
  {
  }

  /** After the last run (or anywhere, when there is none) no sample is
      active. */
  lemma NothingActiveAfterLastRun(trace: seq<Sample>, rs: seq<TimeRange>)
    requires IsSegmentation(trace, rs)
    ensures forall j :: SearchFrom(rs, |rs|) <= j < |trace| ==> !IsActive(trace[j])
  {
  }

  /** Every run is where RunIsDetermined says it must be. */
  ghost predicate RunsDetermined(trace: seq<Sample>, rs: seq<TimeRange>) {
    forall k {:trigger SearchFrom(rs, k)} :: 0 <= k < |rs| ==>
      IsFirstActiveFrom(trace, SearchFrom(rs, k), rs[k].start) &&
      IsRunEnd(trace, rs[k].start, rs[k].end)
  }

  lemma AllRunsDetermined(trace: seq<Sample>, rs: seq<TimeRange>)
    requires IsSegmentation(trace, rs)
    ensures RunsDetermined(trace, rs)
  {
    forall k | 0 <= k < |rs|
      ensures IsFirstActiveFrom(trace, SearchFrom(rs, k), rs[k].start)
      ensures IsRunEnd(trace, rs[k].start, rs[k].end)
    {
      RunIsDetermined(trace, rs, k);
    }
  }

  /** Two lists of runs placed as RunIsDetermined says agree on their first
      m runs. */
  lemma {:induction false} SegmentationPrefixAgrees(trace: seq<Sample>, rs1: seq<TimeRange>, rs2: seq<TimeRange>, m: nat)
    requires RunsDetermined(trace, rs1) && RunsDetermined(trace, rs2)
    requires m <= |rs1| && m <= |rs2|
    ensures forall k :: 0 <= k < m ==> rs1[k] == rs2[k]
    ensures SearchFrom(rs1, m) == SearchFrom(rs2, m)
  {
    if m > 0 {
      var k := m - 1;
      SegmentationPrefixAgrees(trace, rs1, rs2, k);
      var lo := SearchFrom(rs1, k);
      assert IsFirstActiveFrom(trace, lo, rs1[k].start) && IsRunEnd(trace, rs1[k].start, rs1[k].end);
      assert IsFirstActiveFrom(trace, lo, rs2[k].start) && IsRunEnd(trace, rs2[k].start, rs2[k].end);
      FirstActiveFromIsUnique(trace, lo, rs1[k].start, rs2[k].start);
      RunEndIsUnique(trace, rs1[k].start, rs1[k].end, rs2[k].end);
    }
  }

  /** The five properties FindTimeRanges guarantees leave no choice: a trace
      has exactly one segmentation. */
  lemma SegmentationIsUnique(trace: seq<Sample>, rs1: seq<TimeRange>, rs2: seq<TimeRange>)
    requires IsSegmentation(trace, rs1) && IsSegmentation(trace, rs2)
    ensures rs1 == rs2
  {
    AllRunsDetermined(trace, rs1);
    AllRunsDetermined(trace, rs2);
    if |rs1| < |rs2| {
      SegmentationPrefixAgrees(trace, rs1, rs2, |rs1|);
      NothingActiveAfterLastRun(trace, rs1);
      RunIsDetermined(trace, rs2, |rs1|);
      assert false;
    } else if |rs2| < |rs1| {
      SegmentationPrefixAgrees(trace, rs1, rs2, |rs2|);
      NothingActiveAfterLastRun(trace, rs2);
      RunIsDetermined(trace, rs1, |rs2|);
      assert false;
    } else {
      SegmentationPrefixAgrees(trace, rs1, rs2, |rs1|);
    }
  }

  /** An index is inside a run exactly when its sample is active. */
  lemma CoveredIffActive(trace: seq<Sample>, rs: seq<TimeRange>, i: nat)
    requires IsSegmentation(trace, rs)
    requires i < |trace|
    ensures Covered(rs, i) <==> IsActive(trace[i])
  {
  }

  // ---------------------------------------------------------------------
  // Pickers: what a correct pick is

  /** p is the first informative sample of trace[r.start:r.end] with its
      absolute index, or NoPick when that slice holds none. */
  ghost predicate IsFirstInformativePick(trace: seq<Sample>, r: TimeRange, p: Pick) {
    match p
    case NoPick =>
      forall j :: r.start <= j < SliceEnd(trace, r) ==> !IsInformative(trace[j])
    case Found(v, i) =>
      && r.start <= i < SliceEnd(trace, r)
      && v == trace[i]
      && IsInformative(v)
      && forall j :: r.start <= j < i ==> !IsInformative(trace[j])
  }

  /** p is the earliest largest sample of trace[r.start:r.end] with its
      absolute index, every sample being eligible, or NoPick when that slice
      is empty. */
  ghost predicate IsFirstMaximumPick(trace: seq<Sample>, r: TimeRange, p: Pick) {
    match p
    case NoPick =>
      SliceEnd(trace, r) <= r.start
    case Found(v, i) =>
      && r.start <= i < SliceEnd(trace, r)
      && v == trace[i]
      && (forall j :: r.start <= j < SliceEnd(trace, r) ==> trace[j] <= v)
      && (forall j :: r.start <= j < i ==> trace[j] < v)
  }

  // ---------------------------------------------------------------------
  // Pickers

  /** find_first_positive_y: scan trace[r.start:r.end] in order and return
      the first sample that is neither 0 nor a marker, with its absolute
      index. */
  method FindFirstPositiveY(trace: seq<Sample>, r: TimeRange) returns (p: Pick)
    ensures IsFirstInformativePick(trace, r, p)
    ensures p.NoPick? <==> forall j :: r.start <= j < SliceEnd(trace, r) ==> !IsInformative(trace[j])
  {
    var window := Slice(trace, r);
    for k := 0 to |window|
      invariant forall j :: r.start <= j < r.start + k ==> !IsInformative(trace[j])
    {
      var x := window[k];
      if x != 0.0 && x != SNeg && x != SPos {
        return Found(x, r.start + k);
      }
    }
    return NoPick;
  }

  /** find_first_maximum: a running maximum over trace[r.start:r.end] that a
      later sample replaces only when it is strictly greater. */
  method FindFirstMaximum(trace: seq<Sample>, r: TimeRange) returns (p: Pick)
    ensures IsFirstMaximumPick(trace, r, p)
    ensures p.NoPick? <==> SliceEnd(trace, r) <= r.start
  {
    var window := Slice(trace, r);
    p := NoPick;
    for k := 0 to |window|
      invariant p.NoPick? <==> k == 0
      invariant p.Found? ==>
        && r.start <= p.index < r.start + k
        && p.value == trace[p.index]
        && (forall j :: r.start <= j < r.start + k ==> trace[j] <= p.value)
        && (forall j :: r.start <= j < p.index ==> trace[j] < p.value)
    {
      var x := window[k];
      if p.NoPick? || x > p.value {
        p := Found(x, r.start + k);
      }
    }
  }

  /** The positive marker is the only active sample that is not
      informative. */
  lemma ActiveButNotInformative(x: Sample)
    ensures IsActive(x) && !IsInformative(x) <==> x == SPos
  {
  }

  /** The first-sample specification fixes the pick. */
  lemma FirstInformativePickIsUnique(trace: seq<Sample>, r: TimeRange, p1: Pick, p2: Pick)
    requires IsFirstInformativePick(trace, r, p1) && IsFirstInformativePick(trace, r, p2)
    ensures p1 == p2
  {
  }

  /** The earliest-maximum specification fixes the pick. */
  lemma FirstMaximumPickIsUnique(trace: seq<Sample>, r: TimeRange, p1: Pick, p2: Pick)
    requires IsFirstMaximumPick(trace, r, p1) && IsFirstMaximumPick(trace, r, p2)
    ensures p1 == p2
  {
  }

  /** Inside a run of the segmentation the first-sample picker comes back
      empty exactly when the whole run consists of positive markers: the
      segmenter lets the positive marker through, the picker does not. */
  lemma OnsetAbsentOnlyOnPositiveMarkers(trace: seq<Sample>, rs: seq<TimeRange>, k: nat, p: Pick)
    requires IsSegmentation(trace, rs)
    requires k < |rs|
    requires IsFirstInformativePick(trace, rs[k], p)
    ensures p.NoPick? <==> forall j :: rs[k].start <= j < rs[k].end ==> trace[j] == SPos
  {
  }

  /** Inside a run of the segmentation the maximum picker always finds a
      sample, and that sample is active. */
  lemma MaximumFoundInEveryRun(trace: seq<Sample>, rs: seq<TimeRange>, k: nat, p: Pick)
    requires IsSegmentation(trace, rs)
    requires k < |rs|
    requires IsFirstMaximumPick(trace, rs[k], p)
    ensures p.Found? && rs[k].start <= p.index < rs[k].end
    ensures IsActive(p.value)
  {
  }

  // ---------------------------------------------------------------------
  // One component of a station

  /** The three picks the script keeps for one component: the primary-
      window onset and maximum and the secondary-window onset. */
  datatype ComponentPicks = ComponentPicks(primaryOnset: Pick, primaryMaximum: Pick, secondaryOnset: Pick)

  /** The per-component step of the station loop: segment the trace and,
      only when there are at least two runs, pick the onset and maximum in
      the first run and the onset in the second. */
  method PickComponent(trace: seq<Sample>) returns (rs: seq<TimeRange>, picks: Option<ComponentPicks>)
    ensures IsSegmentation(trace, rs)
    ensures picks.Some? <==> |rs| >= 2
    ensures picks.Some? ==>
      && IsFirstInformativePick(trace, rs[0], picks.value.primaryOnset)
      && IsFirstMaximumPick(trace, rs[0], picks.value.primaryMaximum)
      && IsFirstInformativePick(trace, rs[1], picks.value.secondaryOnset)
      && picks.value.primaryMaximum.Found?
  {
    rs := FindTimeRanges(trace);
    if |rs| >= 2 {
      var onsetP := FindFirstPositiveY(trace, rs[0]);
      var maximumP := FindFirstMaximum(trace, rs[0]);
      var onsetS := FindFirstPositiveY(trace, rs[1]);
      MaximumFoundInEveryRun(trace, rs, 0, maximumP);
      picks := Some(ComponentPicks(onsetP, maximumP, onsetS));
    } else {
      picks := None;
    }
  }
}
