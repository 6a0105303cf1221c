/** Worked examples: concrete traces for which the contracts of the
    segmenter and the pickers pin down the exact output. */
module AutopickerScenarios {
  import opened Autopicker

  /** Two runs, the first between zeros and the second after a negative
      marker. */
  function MixedSamples(): (trace: seq<Sample>)
    ensures |trace| == 10
  {
    [0.0, 0.0, 3.0, 5.0, 2.0, 0.0, 0.0, SNeg, 7.0, 0.0]
  }

  lemma MixedActiveAndMaximal()
    ensures InBounds(MixedSamples(), [TimeRange(2, 5), TimeRange(8, 9)])
    ensures AllActive(MixedSamples(), [TimeRange(2, 5), TimeRange(8, 9)])
    ensures Maximal(MixedSamples(), [TimeRange(2, 5), TimeRange(8, 9)])
  {
  }

  lemma MixedComplete()
    ensures Complete(MixedSamples(), [TimeRange(2, 5), TimeRange(8, 9)])
  {
    var trace, expected := MixedSamples(), [TimeRange(2, 5), TimeRange(8, 9)];
    forall i | 0 <= i < |trace| && IsActive(trace[i])
      ensures Covered(expected, i)
    {
      assert i != 0 && i != 1 && i != 5 && i != 6 && i != 7 && i != 9;
      if i < 5 {
        assert expected[0].start <= i < expected[0].end;
      } else {
        assert expected[1].start <= i < expected[1].end;
      }
    }
  }

  lemma MixedSegmentation()
    ensures IsSegmentation(MixedSamples(), [TimeRange(2, 5), TimeRange(8, 9)])
  {
    MixedActiveAndMaximal();
    MixedComplete();
  }

  lemma MixedPicks()
    ensures IsFirstInformativePick(MixedSamples(), TimeRange(2, 5), Found(3.0, 2))
    ensures IsFirstMaximumPick(MixedSamples(), TimeRange(2, 5), Found(5.0, 3))
    ensures IsFirstInformativePick(MixedSamples(), TimeRange(8, 9), Found(7.0, 8))
  {
  }

  method MixedTrace() returns (rs: seq<TimeRange>, onset: Pick, maximum: Pick, secondOnset: Pick)
    ensures rs == [TimeRange(2, 5), TimeRange(8, 9)]
    ensures onset == Found(3.0, 2)
    ensures maximum == Found(5.0, 3)
    ensures secondOnset == Found(7.0, 8)
  {
    var trace := MixedSamples();
    rs := FindTimeRanges(trace);
    MixedSegmentation();
    SegmentationIsUnique(trace, rs, [TimeRange(2, 5), TimeRange(8, 9)]);
    MixedPicks();
    onset := FindFirstPositiveY(trace, TimeRange(2, 5));
    FirstInformativePickIsUnique(trace, TimeRange(2, 5), onset, Found(3.0, 2));
    maximum := FindFirstMaximum(trace, TimeRange(2, 5));
    FirstMaximumPickIsUnique(trace, TimeRange(2, 5), maximum, Found(5.0, 3));
    secondOnset := FindFirstPositiveY(trace, TimeRange(8, 9));
    FirstInformativePickIsUnique(trace, TimeRange(8, 9), secondOnset, Found(7.0, 8));
  }

  /** A leading positive marker opens a run for the segmenter but is
      skipped by the first-sample picker. */
  function MarkerSamples(): (trace: seq<Sample>)
    ensures |trace| == 4
  {
    [SPos, 1.0, 0.0, 0.0]
  }

  lemma MarkerSegmentation()
    ensures IsSegmentation(MarkerSamples(), [TimeRange(0, 2)])
  {
    var trace, expected := MarkerSamples(), [TimeRange(0, 2)];
    forall i | 0 <= i < |trace| && IsActive(trace[i])
      ensures Covered(expected, i)
    {
      assert i < 2;
      assert expected[0].start <= i < expected[0].end;
    }
  }

  method LeadingPositiveMarker() returns (rs: seq<TimeRange>, onset: Pick)
    ensures rs == [TimeRange(0, 2)]
    ensures onset == Found(1.0, 1)
  {
    var trace := MarkerSamples();
    rs := FindTimeRanges(trace);
    MarkerSegmentation();
    SegmentationIsUnique(trace, rs, [TimeRange(0, 2)]);
    assert IsFirstInformativePick(trace, TimeRange(0, 2), Found(1.0, 1));
    onset := FindFirstPositiveY(trace, TimeRange(0, 2));
    FirstInformativePickIsUnique(trace, TimeRange(0, 2), onset, Found(1.0, 1));
  }

  /** An all-zero trace has no runs; over the whole trace the first-sample
      picker finds nothing, while the maximum picker returns the first
      zero. */
  method AllZeroTrace() returns (rs: seq<TimeRange>, onset: Pick, maximum: Pick)
    ensures rs == []
    ensures onset == NoPick
    ensures maximum == Found(0.0, 0)
  {
    var trace := seq(10, _ => 0.0);
    rs := FindTimeRanges(trace);
    onset := FindFirstPositiveY(trace, TimeRange(0, 10));
    maximum := FindFirstMaximum(trace, TimeRange(0, 10));
    FirstMaximumPickIsUnique(trace, TimeRange(0, 10), maximum, Found(0.0, 0));
  }
}
