/**
 * Post-processing of speaker-diarization output (speak2summarise/diarization/diarization.py).
 *
 * The diarization model is not modelled: both operations take the sequence of
 * (segment, track, label) triples the model yields, in the order it yields them.
 * Times are real numbers; only subtraction and comparison are applied to them.
 */
module Diarization {

  /** A speaker label as the diarization model reports it ("SPEAKER_00", ...). */
  type Label = string

  /** A time span in seconds. */
  datatype Interval = Interval(start: real, end: real)

  /** One triple (segment, track, label) yielded by the diarization model. */
  datatype Turn = Turn(segment: Interval, track: string, speaker: Label)

  /** The record {"speaker": ..., "start_sec": ..., "end_sec": ...} the segmenter returns. */
  datatype SpeakerSegment = SpeakerSegment(speaker: Label, startSec: real, endSec: real)

  /** Segments must last strictly longer than this many seconds to be kept. */
  const MinDuration: real := 0.5

  // ---------------------------------------------------------------------------
  // Duration filter
  // ---------------------------------------------------------------------------

  predicate LongEnough(t: Turn) {
    t.segment.end - t.segment.start > MinDuration
  }

  function ToRecord(t: Turn): SpeakerSegment {
    SpeakerSegment(t.speaker, t.segment.start, t.segment.end)
  }

  /**
   * The records of the turns that pass the duration filter, in the model's order.
   * There are no more records than turns, and every record lasts longer than 0.5 seconds.
   */
  function Filtered(turns: seq<Turn>): (r: seq<SpeakerSegment>)
    ensures |r| <= |turns|
    ensures forall k :: 0 <= k < |r| ==> r[k].endSec - r[k].startSec > MinDuration
  {
    if turns == [] then []
    else
      var t := turns[|turns| - 1];
      Filtered(turns[..|turns| - 1]) + (if LongEnough(t) then [ToRecord(t)] else [])
  }

  /** Filtering distributes over concatenation: it keeps the model's order and looks at each turn alone. */
  lemma {:induction false} FilteredAppend(a: seq<Turn>, b: seq<Turn>)
    ensures Filtered(a + b) == Filtered(a) + Filtered(b)
    decreases |b|
  {
    if b == [] {
      assert a + b == a;
    } else {
      var b' := b[..|b| - 1];
      assert (a + b)[..|a + b| - 1] == a + b';
      FilteredAppend(a, b');
    }
  }

  /** A single turn is kept exactly when it lasts strictly longer than 0.5 seconds. */
  lemma FilteredSingleton(t: Turn)
    ensures Filtered([t]) == if t.segment.end - t.segment.start > 0.5 then [ToRecord(t)] else []
  {
  }

  /** The filtered list holds exactly the records of the long-enough turns. */
  lemma {:induction false} FilteredMembers(turns: seq<Turn>)
    ensures forall r :: r in Filtered(turns) <==> exists t :: t in turns && LongEnough(t) && ToRecord(t) == r
  {
    if turns != [] {
      var init := turns[..|turns| - 1];
      var t := turns[|turns| - 1];
      FilteredMembers(init);
      assert turns == init + [t];
      assert Filtered(turns) == Filtered(init) + (if LongEnough(t) then [ToRecord(t)] else []);
    }
  }

  /** Nothing is kept if and only if no turn lasts longer than 0.5 seconds. */
  lemma FilteredEmpty(turns: seq<Turn>)
    ensures Filtered(turns) == [] <==> forall i :: 0 <= i < |turns| ==> !LongEnough(turns[i])
  {
  }

  // ---------------------------------------------------------------------------
  // Adjacent merge
  // ---------------------------------------------------------------------------

  /** One step of the merge pass: extend the last record or append a new one. */
  function MergeInto(merged: seq<SpeakerSegment>, seg: SpeakerSegment): seq<SpeakerSegment> {
    if merged != [] && merged[|merged| - 1].speaker == seg.speaker then
      merged[|merged| - 1 := merged[|merged| - 1].(endSec := seg.endSec)]
    else
      merged + [seg]
  }

  /**
   * The result of the left-to-right merge pass over segs. It never has more records
   * than segs, is empty only for empty segs, and its last record carries the last
   * input's speaker and end time.
   */
  function Merged(segs: seq<SpeakerSegment>): (r: seq<SpeakerSegment>)
    ensures |r| <= |segs|
    ensures r == [] <==> segs == []
    ensures segs != [] ==> r[|r| - 1].speaker == segs[|segs| - 1].speaker && r[|r| - 1].endSec == segs[|segs| - 1].endSec
  {
    if segs == [] then [] else MergeInto(Merged(segs[..|segs| - 1]), segs[|segs| - 1])
  }

  predicate NoAdjacentSameSpeaker(segs: seq<SpeakerSegment>) {
    forall i :: 0 < i < |segs| ==> segs[i - 1].speaker != segs[i].speaker
  }

  function Speakers(segs: seq<SpeakerSegment>): seq<Label> {
    seq(|segs|, i requires 0 <= i < |segs| => segs[i].speaker)
  }

  function SpeakerSet(segs: seq<SpeakerSegment>): set<Label> {
    set l | l in Speakers(segs)
  }

  /** The label sequence with every label equal to its predecessor removed. */
  function Collapse(labels: seq<Label>): seq<Label> {
    if labels == [] then []
    else
      var n := |labels|;
      Collapse(labels[..n - 1]) + (if n == 1 || labels[n - 2] != labels[n - 1] then [labels[n - 1]] else [])
  }

  /** After merging no two consecutive records share a speaker. */
  lemma {:induction false} MergedNoAdjacent(segs: seq<SpeakerSegment>)
    ensures NoAdjacentSameSpeaker(Merged(segs))
  {
    if segs != [] {
      MergedNoAdjacent(segs[..|segs| - 1]);
    }
  }

  /** A sequence without adjacent same-speaker records passes through the merge unchanged. */
  lemma {:induction false} MergedOfNoAdjacent(segs: seq<SpeakerSegment>)
    requires NoAdjacentSameSpeaker(segs)
    ensures Merged(segs) == segs
  {
    if segs != [] {
      var init := segs[..|segs| - 1];
      assert NoAdjacentSameSpeaker(init) by {
        forall i | 0 < i < |init| ensures init[i - 1].speaker != init[i].speaker {
          assert init[i - 1] == segs[i - 1] && init[i] == segs[i];
        }
      }
      MergedOfNoAdjacent(init);
      assert init + [segs[|segs| - 1]] == segs;
    }
  }

  /** Merging is idempotent. */
  lemma MergedIdempotent(segs: seq<SpeakerSegment>)
    ensures Merged(Merged(segs)) == Merged(segs)
  {
    MergedNoAdjacent(segs);
    MergedOfNoAdjacent(Merged(segs));
  }

  /** The merged speaker sequence is the input's speaker sequence with runs collapsed: no reordering. */
  lemma {:induction false} MergedSpeakersCollapse(segs: seq<SpeakerSegment>)
    ensures Speakers(Merged(segs)) == Collapse(Speakers(segs))
  {
    if segs != [] {
      var n := |segs|;
      var init := segs[..n - 1];
      var x := segs[n - 1];
      MergedSpeakersCollapse(init);
      assert Speakers(segs)[..n - 1] == Speakers(init);
      var m := Merged(init);
      if m != [] && m[|m| - 1].speaker == x.speaker {
        assert Speakers(Merged(segs)) == Speakers(m);
        assert segs[n - 2] == init[n - 2];
      } else {
        assert Speakers(Merged(segs)) == Speakers(m) + [x.speaker];
        if n > 1 {
          assert segs[n - 2] == init[n - 2];
        }
      }
    }
  }

  /** Merging neither invents nor loses a speaker. */
  lemma {:induction false} MergedSpeakerSet(segs: seq<SpeakerSegment>)
    ensures SpeakerSet(Merged(segs)) == SpeakerSet(segs)
  {
    if segs != [] {
      var n := |segs|;
      var init := segs[..n - 1];
      var x := segs[n - 1];
      MergedSpeakerSet(init);
      assert Speakers(segs) == Speakers(init) + [x.speaker];
      assert SpeakerSet(segs) == SpeakerSet(init) + {x.speaker};
      var m := Merged(init);
      if m != [] && m[|m| - 1].speaker == x.speaker {
        assert Speakers(Merged(segs)) == Speakers(m);
        assert Speakers(m)[|m| - 1] == x.speaker;
        assert x.speaker in SpeakerSet(m);
      } else {
        assert Speakers(Merged(segs)) == Speakers(m) + [x.speaker];
        assert SpeakerSet(Merged(segs)) == SpeakerSet(m) + {x.speaker};
      }
    }
  }

  /**
   * When records are given in order of their end times and each lasts longer than
   * 0.5 seconds, every merged record does too.
   */
  lemma {:induction false} MergedDurations(segs: seq<SpeakerSegment>)
    requires forall i :: 0 <= i < |segs| ==> segs[i].endSec - segs[i].startSec > MinDuration
    requires forall i, j :: 0 <= i < j < |segs| ==> segs[i].endSec <= segs[j].endSec
    ensures forall k :: 0 <= k < |Merged(segs)| ==> Merged(segs)[k].endSec - Merged(segs)[k].startSec > MinDuration
  {
    if segs != [] {
      var n := |segs|;
      var init := segs[..n - 1];
      MergedDurations(init);
      var m := Merged(init);
      if m != [] && m[|m| - 1].speaker == segs[n - 1].speaker {
        assert init[n - 2] == segs[n - 2];
      }
    }
  }

  /** Every merged record starts where some input record starts. */
  lemma {:induction false} MergedStartsFromInput(segs: seq<SpeakerSegment>)
    ensures forall k :: 0 <= k < |Merged(segs)| ==>
      exists i :: 0 <= i < |segs| && Merged(segs)[k].startSec == segs[i].startSec
  {
    if segs != [] {
      var n := |segs|;
      var init := segs[..n - 1];
      MergedStartsFromInput(init);
      var m := Merged(init);
      var m' := Merged(segs);
      assert m' == MergeInto(m, segs[n - 1]);
      forall k | 0 <= k < |Merged(segs)|
        ensures exists i :: 0 <= i < |segs| && Merged(segs)[k].startSec == segs[i].startSec
      {
        if k < |m| {
          var i :| 0 <= i < |init| && m[k].startSec == init[i].startSec;
          assert m'[k].startSec == m[k].startSec;
          assert init[i] == segs[i];
          assert 0 <= i < |segs| && Merged(segs)[k].startSec == segs[i].startSec;
        } else {
          assert m'[k] == segs[n - 1];
          assert 0 <= n - 1 < |segs| && Merged(segs)[k].startSec == segs[n - 1].startSec;
        }
      }
    } else {
      assert |Merged(segs)| == 0;
    }
  }

  /**
   * When records are given in order of their start times and each lasts longer than
   * 0.5 seconds, every merged record does too: it ends where its last record ends,
   * and starts no later than that record starts.
   */
  lemma {:induction false} MergedDurationsByStart(segs: seq<SpeakerSegment>)
    requires forall i :: 0 <= i < |segs| ==> segs[i].endSec - segs[i].startSec > MinDuration
    requires forall i, j :: 0 <= i < j < |segs| ==> segs[i].startSec <= segs[j].startSec
    ensures forall k :: 0 <= k < |Merged(segs)| ==> Merged(segs)[k].endSec - Merged(segs)[k].startSec > MinDuration
  {
    if segs != [] {
      var n := |segs|;
      var init := segs[..n - 1];
      MergedDurationsByStart(init);
      var m := Merged(init);
      if m != [] && m[|m| - 1].speaker == segs[n - 1].speaker {
        MergedStartsFromInput(init);
        var i :| 0 <= i < |init| && m[|m| - 1].startSec == init[i].startSec;
        assert init[i] == segs[i];
      }
    }
  }

  // ---------------------------------------------------------------------------
  // Runs: an independent description of what the merge computes
  // ---------------------------------------------------------------------------

  /** Concatenation of a sequence of runs. */
  ghost function Flatten(runs: seq<seq<SpeakerSegment>>): seq<SpeakerSegment> {
    if runs == [] then [] else runs[0] + Flatten(runs[1..])
  }

  lemma {:induction false} FlattenSnoc(runs: seq<seq<SpeakerSegment>>, r: seq<SpeakerSegment>)
    ensures Flatten(runs + [r]) == Flatten(runs) + r
  {
    if runs == [] {
      assert Flatten([r]) == r + Flatten([]);
    } else {
      assert (runs + [r])[1..] == runs[1..] + [r];
      FlattenSnoc(runs[1..], r);
    }
  }

  /** A nonempty stretch of records all by one speaker. */
  ghost predicate IsRun(r: seq<SpeakerSegment>) {
    r != [] && forall j :: 0 <= j < |r| ==> r[j].speaker == r[0].speaker
  }

  ghost predicate AllRuns(runs: seq<seq<SpeakerSegment>>) {
    forall k :: 0 <= k < |runs| ==> IsRun(runs[k])
  }

  /** Neighbouring runs belong to different speakers. */
  ghost predicate SpeakerChangesBetween(runs: seq<seq<SpeakerSegment>>)
    requires AllRuns(runs)
  {
    forall j :: 0 < j < |runs| ==> runs[j - 1][0].speaker != runs[j][0].speaker
  }

  /** runs cuts segs into maximal same-speaker runs. */
  ghost predicate IsRunPartition(runs: seq<seq<SpeakerSegment>>, segs: seq<SpeakerSegment>) {
    AllRuns(runs) && SpeakerChangesBetween(runs) && Flatten(runs) == segs
  }

  /** The record a run is merged into: its speaker, its first start and its last end. */
  function Summary(r: seq<SpeakerSegment>): SpeakerSegment
    requires r != []
  {
    SpeakerSegment(r[0].speaker, r[0].startSec, r[|r| - 1].endSec)
  }

  lemma FlattenEmpty(runs: seq<seq<SpeakerSegment>>)
    requires AllRuns(runs)
    ensures Flatten(runs) == [] <==> runs == []
  {
  }

  /** The last record of a partitioned sequence is the last record of its last run. */
  lemma PartitionLast(runs: seq<seq<SpeakerSegment>>, segs: seq<SpeakerSegment>)
    requires IsRunPartition(runs, segs) && segs != []
    ensures runs != [] && IsRun(runs[|runs| - 1])
    ensures runs[|runs| - 1][|runs[|runs| - 1]| - 1] == segs[|segs| - 1]
  {
    FlattenEmpty(runs);
    var p := |runs| - 1;
    assert runs[..p] + [runs[p]] == runs;
    FlattenSnoc(runs[..p], runs[p]);
    assert IsRun(runs[p]);
  }

  /** Appending a record of the last run's speaker extends the last run. */
  lemma PartitionExtend(runs: seq<seq<SpeakerSegment>>, segs: seq<SpeakerSegment>, x: SpeakerSegment)
    requires IsRunPartition(runs, segs) && segs != []
    requires segs[|segs| - 1].speaker == x.speaker
    ensures runs != []
    ensures IsRunPartition(runs[|runs| - 1 := runs[|runs| - 1] + [x]], segs + [x])
  {
    PartitionLast(runs, segs);
    var p := |runs| - 1;
    var runs' := runs[p := runs[p] + [x]];
    assert runs[..p] + [runs[p] + [x]] == runs';
    assert runs[..p] + [runs[p]] == runs;
    FlattenSnoc(runs[..p], runs[p] + [x]);
    FlattenSnoc(runs[..p], runs[p]);
    assert IsRun(runs'[p]);
    assert AllRuns(runs');
  }

  /** Appending a record of another speaker starts a new run. */
  lemma PartitionNew(runs: seq<seq<SpeakerSegment>>, segs: seq<SpeakerSegment>, x: SpeakerSegment)
    requires IsRunPartition(runs, segs)
    requires segs != [] ==> segs[|segs| - 1].speaker != x.speaker
    ensures IsRunPartition(runs + [[x]], segs + [x])
  {
    FlattenSnoc(runs, [x]);
    FlattenEmpty(runs);
    if segs != [] {
      PartitionLast(runs, segs);
    }
    var runs' := runs + [[x]];
    assert AllRuns(runs');
    forall j | 0 < j < |runs'|
      ensures runs'[j - 1][0].speaker != runs'[j][0].speaker
    {
      if j < |runs| {
        assert runs'[j - 1] == runs[j - 1] && runs'[j] == runs[j];
      } else {
        assert IsRun(runs[j - 1]);
      }
    }
  }

  /** Dropping the first run leaves a partition of the rest. */
  lemma PartitionTail(runs: seq<seq<SpeakerSegment>>, segs: seq<SpeakerSegment>)
    requires IsRunPartition(runs, segs) && runs != []
    ensures |runs[0]| <= |segs| && segs[..|runs[0]|] == runs[0]
    ensures IsRunPartition(runs[1..], segs[|runs[0]|..])
  {
  }

  /** The end of the maximal prefix of segs whose speaker is segs[0]'s, searching from index i. */
  function PrefixRunEnd(segs: seq<SpeakerSegment>, i: nat): nat
    requires segs != [] && i <= |segs|
    decreases |segs| - i
  {
    if i == |segs| || segs[i].speaker != segs[0].speaker then i else PrefixRunEnd(segs, i + 1)
  }

  lemma {:induction false} PrefixRunEndIs(segs: seq<SpeakerSegment>, i: nat, n: nat)
    requires segs != [] && i <= n <= |segs|
    requires forall j :: i <= j < n ==> segs[j].speaker == segs[0].speaker
    requires n == |segs| || segs[n].speaker != segs[0].speaker
    ensures PrefixRunEnd(segs, i) == n
    decreases n - i
  {
    if i < n {
      PrefixRunEndIs(segs, i + 1, n);
    }
  }

  /** In any partition into maximal runs, the first run is the maximal same-speaker prefix. */
  lemma FirstRunIsMaximal(runs: seq<seq<SpeakerSegment>>, segs: seq<SpeakerSegment>)
    requires IsRunPartition(runs, segs) && segs != []
    ensures runs != [] && |runs[0]| == PrefixRunEnd(segs, 1)
  {
    FlattenEmpty(runs);
    assert IsRun(runs[0]);
    PartitionTail(runs, segs);
    var n := |runs[0]|;
    forall j | 1 <= j < n ensures segs[j].speaker == segs[0].speaker {
      assert segs[j] == runs[0][j];
    }
    if n < |segs| {
      var tail := runs[1..];
      FlattenEmpty(tail);
      assert tail != [];
      assert IsRun(tail[0]);
      assert segs[n..] == tail[0] + Flatten(tail[1..]);
      assert segs[n] == runs[1][0];
      assert runs[0][0].speaker != runs[1][0].speaker;
    }
    PrefixRunEndIs(segs, 1, n);
  }

  /** A sequence has only one partition into maximal runs. */
  lemma {:induction false} RunPartitionUnique(a: seq<seq<SpeakerSegment>>, b: seq<seq<SpeakerSegment>>, segs: seq<SpeakerSegment>)
    requires IsRunPartition(a, segs) && IsRunPartition(b, segs)
    ensures a == b
    decreases |segs|
  {
    FlattenEmpty(a);
    FlattenEmpty(b);
    if segs != [] {
      FirstRunIsMaximal(a, segs);
      FirstRunIsMaximal(b, segs);
      PartitionTail(a, segs);
      PartitionTail(b, segs);
      assert IsRun(a[0]);
      RunPartitionUnique(a[1..], b[1..], segs[|a[0]|..]);
      assert a == [a[0]] + a[1..] && b == [b[0]] + b[1..];
    }
  }

  /** The maximal runs of segs: a new run begins wherever the speaker differs from its predecessor's. */
  ghost function Runs(segs: seq<SpeakerSegment>): seq<seq<SpeakerSegment>> {
    if segs == [] then []
    else
      var n := |segs|;
      var runs := Runs(segs[..n - 1]);
      if n > 1 && segs[n - 2].speaker == segs[n - 1].speaker && runs != [] then
        runs[|runs| - 1 := runs[|runs| - 1] + [segs[n - 1]]]
      else
        runs + [[segs[n - 1]]]
  }

  /** Runs really is a partition into maximal runs. */
  lemma {:induction false} RunsPartition(segs: seq<SpeakerSegment>)
    ensures IsRunPartition(Runs(segs), segs)
  {
    if segs != [] {
      var n := |segs|;
      var init := segs[..n - 1];
      var x := segs[n - 1];
      RunsPartition(init);
      assert init + [x] == segs;
      if n > 1 {
        PartitionLast(Runs(init), init);
      }
      if n > 1 && init[n - 2].speaker == x.speaker {
        PartitionExtend(Runs(init), init, x);
      } else {
        PartitionNew(Runs(init), init, x);
      }
    }
  }

  /** merged has one record per run, the run's summary. */
  ghost predicate Summarizes(merged: seq<SpeakerSegment>, runs: seq<seq<SpeakerSegment>>) {
    && AllRuns(runs)
    && |merged| == |runs|
    && forall k :: 0 <= k < |runs| ==> merged[k] == Summary(runs[k])
  }

  /**
   * What the merge pass computes: one record per maximal same-speaker run, with the
   * speaker and start of the run's first record and the end of its last record
   * (the end is overwritten, not a maximum).
   */
  lemma {:induction false} MergedIsRunSummaries(segs: seq<SpeakerSegment>)
    ensures IsRunPartition(Runs(segs), segs)
    ensures Summarizes(Merged(segs), Runs(segs))
  {
    RunsPartition(segs);
    if segs != [] {
      var n := |segs|;
      var init := segs[..n - 1];
      var x := segs[n - 1];
      MergedIsRunSummaries(init);
      var m := Merged(init);
      var runs := Runs(init);
      if n > 1 {
        PartitionLast(runs, init);
        assert init[n - 2] == segs[n - 2];
      }
      if n > 1 && segs[n - 2].speaker == x.speaker {
        var p := |runs| - 1;
        assert Summary(runs[p] + [x]) == m[p].(endSec := x.endSec);
        SummarizesExtend(m, runs, x);
      } else {
        assert Summary([x]) == x;
        SummarizesNew(m, runs, x);
      }
    }
  }

  lemma SummarizesExtend(m: seq<SpeakerSegment>, runs: seq<seq<SpeakerSegment>>, x: SpeakerSegment)
    requires Summarizes(m, runs) && runs != []
    requires x.speaker == m[|m| - 1].speaker
    ensures Summarizes(m[|m| - 1 := m[|m| - 1].(endSec := x.endSec)], runs[|runs| - 1 := runs[|runs| - 1] + [x]])
  {
  }

  lemma SummarizesNew(m: seq<SpeakerSegment>, runs: seq<seq<SpeakerSegment>>, x: SpeakerSegment)
    requires Summarizes(m, runs)
    ensures Summarizes(m + [x], runs + [[x]])
  {
  }

  /** The merge result is determined by any partition of its input into maximal runs. */
  lemma MergedSummarizesAnyPartition(runs: seq<seq<SpeakerSegment>>, segs: seq<SpeakerSegment>)
    requires IsRunPartition(runs, segs)
    ensures Summarizes(Merged(segs), runs)
  {
    MergedIsRunSummaries(segs);
    RunPartitionUnique(runs, Runs(segs), segs);
  }

  // ---------------------------------------------------------------------------
  // segment_audio_by_speaker
  // ---------------------------------------------------------------------------

  /** The records segment_audio_by_speaker returns for the model's triples. */
  function Segmentation(turns: seq<Turn>): seq<SpeakerSegment> {
    Merged(Filtered(turns))
  }

  /**
   * Keeps the triples longer than 0.5 seconds, then merges consecutive records of
   * the same speaker by overwriting the last record's end time.
   */
  method SegmentAudioBySpeaker(turns: seq<Turn>) returns (merged: seq<SpeakerSegment>)
    ensures merged == Segmentation(turns)
    ensures NoAdjacentSameSpeaker(merged)
    ensures Speakers(merged) == Collapse(Speakers(Filtered(turns)))
    ensures |merged| <= |Filtered(turns)|
    ensures merged == [] <==> forall i :: 0 <= i < |turns| ==> !LongEnough(turns[i])
    ensures Summarizes(merged, Runs(Filtered(turns)))
    ensures SpeakerSet(merged) <= LabelSet(turns)
  {
    var segments: seq<SpeakerSegment> := [];
    for i := 0 to |turns|
      invariant segments == Filtered(turns[..i])
    {
      var t := turns[i];
      assert turns[..i + 1][..i] == turns[..i];
      if t.segment.end - t.segment.start > MinDuration {
        segments := segments + [SpeakerSegment(t.speaker, t.segment.start, t.segment.end)];
      }
    }
    assert turns[..|turns|] == turns;

    merged := [];
    for i := 0 to |segments|
      invariant merged == Merged(segments[..i])
    {
      var seg := segments[i];
      assert segments[..i + 1][..i] == segments[..i];
      if merged != [] && merged[|merged| - 1].speaker == seg.speaker {
        merged := merged[|merged| - 1 := merged[|merged| - 1].(endSec := seg.endSec)];
      } else {
        merged := merged + [seg];
      }
    }
    assert segments[..|segments|] == segments;

    MergedNoAdjacent(segments);
    MergedSpeakersCollapse(segments);
    FilteredEmpty(turns);
    MergedIsRunSummaries(segments);
    SegmentationSpeakersWithinCount(turns);
  }

  /** Segmenting the segmenter's own output again changes nothing. */
  lemma SegmentationMergeIdempotent(turns: seq<Turn>)
    ensures Merged(Segmentation(turns)) == Segmentation(turns)
  {
    MergedIdempotent(Filtered(turns));
  }

  /**
   * Each returned record stems from a run of consecutive kept triples of one
   * speaker: it starts where the run's first triple starts and ends where its
   * last triple ends.
   */
  lemma SegmentationRuns(turns: seq<Turn>)
    ensures IsRunPartition(Runs(Filtered(turns)), Filtered(turns))
    ensures Summarizes(Segmentation(turns), Runs(Filtered(turns)))
  {
    MergedIsRunSummaries(Filtered(turns));
  }

  predicate EndsOrdered(turns: seq<Turn>) {
    forall i, j :: 0 <= i < j < |turns| ==> turns[i].segment.end <= turns[j].segment.end
  }

  /** If the model yields turns in order of their end times, every returned record lasts longer than 0.5 seconds. */
  lemma {:induction false} SegmentationDurations(turns: seq<Turn>)
    requires EndsOrdered(turns)
    ensures forall k :: 0 <= k < |Segmentation(turns)| ==>
      Segmentation(turns)[k].endSec - Segmentation(turns)[k].startSec > MinDuration
  {
    FilteredEndsOrdered(turns);
    MergedDurations(Filtered(turns));
  }

  lemma {:induction false} FilteredEndsOrdered(turns: seq<Turn>)
    requires EndsOrdered(turns)
    ensures forall i, j :: 0 <= i < j < |Filtered(turns)| ==> Filtered(turns)[i].endSec <= Filtered(turns)[j].endSec
  {
    if turns != [] {
      var n := |turns|;
      var init := turns[..n - 1];
      assert EndsOrdered(init) by {
        forall i, j | 0 <= i < j < |init| ensures init[i].segment.end <= init[j].segment.end {
          assert init[i] == turns[i] && init[j] == turns[j];
        }
      }
      FilteredEndsOrdered(init);
      FilteredMembers(init);
      var f := Filtered(init);
      forall k | 0 <= k < |f| ensures f[k].endSec <= turns[n - 1].segment.end {
        assert f[k] in f;
        var t :| t in init && LongEnough(t) && ToRecord(t) == f[k];
        var i :| 0 <= i < |init| && init[i] == t;
        assert init[i] == turns[i];
      }
    }
  }

  predicate StartsOrdered(turns: seq<Turn>) {
    forall i, j :: 0 <= i < j < |turns| ==> turns[i].segment.start <= turns[j].segment.start
  }

  /** If the model yields turns in order of their start times, every returned record lasts longer than 0.5 seconds. */
  lemma SegmentationDurationsByStart(turns: seq<Turn>)
    requires StartsOrdered(turns)
    ensures forall k :: 0 <= k < |Segmentation(turns)| ==>
      Segmentation(turns)[k].endSec - Segmentation(turns)[k].startSec > MinDuration
  {
    FilteredStartsOrdered(turns);
    MergedDurationsByStart(Filtered(turns));
  }

  lemma {:induction false} FilteredStartsOrdered(turns: seq<Turn>)
    requires StartsOrdered(turns)
    ensures forall i, j :: 0 <= i < j < |Filtered(turns)| ==> Filtered(turns)[i].startSec <= Filtered(turns)[j].startSec
  {
    if turns != [] {
      var n := |turns|;
      var init := turns[..n - 1];
      assert StartsOrdered(init) by {
        forall i, j | 0 <= i < j < |init| ensures init[i].segment.start <= init[j].segment.start {
          assert init[i] == turns[i] && init[j] == turns[j];
        }
      }
      FilteredStartsOrdered(init);
      FilteredMembers(init);
      var f := Filtered(init);
      forall k | 0 <= k < |f| ensures f[k].startSec <= turns[n - 1].segment.start {
        assert f[k] in f;
        var t :| t in init && LongEnough(t) && ToRecord(t) == f[k];
        var i :| 0 <= i < |init| && init[i] == t;
        assert init[i] == turns[i];
      }
    }
  }

  // ---------------------------------------------------------------------------
  // count_speakers
  // ---------------------------------------------------------------------------

  /** The distinct labels among the triples. */
  function LabelSet(turns: seq<Turn>): set<Label> {
    set t | t in turns :: t.speaker
  }

  /** The segments the model reported for one label, in the model's order. */
  function SegmentsOf(turns: seq<Turn>, who: Label): seq<Interval> {
    if turns == [] then []
    else
      var t := turns[|turns| - 1];
      SegmentsOf(turns[..|turns| - 1], who) + (if t.speaker == who then [t.segment] else [])
  }

  lemma LabelSetSnoc(turns: seq<Turn>, t: Turn)
    ensures LabelSet(turns + [t]) == LabelSet(turns) + {t.speaker}
  {
  }

  /** There are no more distinct labels than triples, and none exactly when there are no triples. */
  lemma {:induction false} LabelSetBound(turns: seq<Turn>)
    ensures |LabelSet(turns)| <= |turns|
    ensures |LabelSet(turns)| == 0 <==> turns == []
  {
    if turns != [] {
      var n := |turns|;
      LabelSetBound(turns[..n - 1]);
      LabelSetSnoc(turns[..n - 1], turns[n - 1]);
      assert turns[..n - 1] + [turns[n - 1]] == turns;
      assert turns[n - 1].speaker in LabelSet(turns);
    }
  }

  /**
   * Groups the triples' segments by label, as a dictionary from label to list, and
   * returns the number of keys.
   */
  method CountSpeakers(turns: seq<Turn>) returns (n: nat)
    ensures n == |LabelSet(turns)|
    ensures n <= |turns|
    ensures n == 0 <==> turns == []
  {
    var speakers: map<Label, seq<Interval>> := map[];
    for i := 0 to |turns|
      invariant speakers.Keys == LabelSet(turns[..i])
      invariant forall l :: l in speakers ==> speakers[l] == SegmentsOf(turns[..i], l)
    {
      var t := turns[i];
      assert turns[..i + 1] == turns[..i] + [t];
      LabelSetSnoc(turns[..i], t);
      var group := if t.speaker in speakers then speakers[t.speaker] else [];
      assert t.speaker !in speakers ==> SegmentsOf(turns[..i], t.speaker) == [] by {
        if t.speaker !in speakers {
          NoSegmentsWithoutLabel(turns[..i], t.speaker);
        }
      }
      speakers := speakers[t.speaker := group + [t.segment]];
    }
    assert turns[..|turns|] == turns;
    n := |speakers|;
    LabelSetBound(turns);
  }

  lemma {:induction false} NoSegmentsWithoutLabel(turns: seq<Turn>, who: Label)
    requires who !in LabelSet(turns)
    ensures SegmentsOf(turns, who) == []
  {
    if turns != [] {
      var n := |turns|;
      LabelSetSnoc(turns[..n - 1], turns[n - 1]);
      assert turns[..n - 1] + [turns[n - 1]] == turns;
      NoSegmentsWithoutLabel(turns[..n - 1], who);
    }
  }

  /** The segmenter's output never names more speakers than count_speakers reports for the same triples. */
  lemma SegmentationSpeakersWithinCount(turns: seq<Turn>)
    ensures SpeakerSet(Segmentation(turns)) <= LabelSet(turns)
    ensures |SpeakerSet(Segmentation(turns))| <= |LabelSet(turns)|
  {
    MergedSpeakerSet(Filtered(turns));
    FilteredMembers(turns);
    var f := Filtered(turns);
    forall l | l in SpeakerSet(f) ensures l in LabelSet(turns) {
      var k :| 0 <= k < |f| && Speakers(f)[k] == l;
      assert f[k] in f;
      var t :| t in turns && LongEnough(t) && ToRecord(t) == f[k];
    }
    SubsetCardinality(SpeakerSet(f), LabelSet(turns));
  }

  lemma SubsetCardinality(a: set<Label>, b: set<Label>)
    requires a <= b
    ensures |a| <= |b|
  {
    assert b == a + (b - a);
  }

  // ---------------------------------------------------------------------------
  // Worked scenarios
  // ---------------------------------------------------------------------------

  /** A, A, a 0.3-second B and A again: B is dropped and the three turns of A merge into one record from 0 to 4. */
  lemma ScenarioShortTurnDroppedBeforeMerge()
    ensures Segmentation([
      Turn(Interval(0.0, 1.0), "T0", "A"),
      Turn(Interval(1.0, 2.0), "T1", "A"),
      Turn(Interval(2.0, 2.3), "T2", "B"),
      Turn(Interval(2.3, 4.0), "T3", "A")])
      == [SpeakerSegment("A", 0.0, 4.0)]
  {
    var t0 := Turn(Interval(0.0, 1.0), "T0", "A");
    var t1 := Turn(Interval(1.0, 2.0), "T1", "A");
    var t2 := Turn(Interval(2.0, 2.3), "T2", "B");
    var t3 := Turn(Interval(2.3, 4.0), "T3", "A");
    var r0, r1, r3 := ToRecord(t0), ToRecord(t1), ToRecord(t3);
    assert [t0, t1, t2, t3][..3] == [t0, t1, t2];
    assert [t0, t1, t2][..2] == [t0, t1];
    assert [t0, t1][..1] == [t0];
    assert [t0][..0] == [];
    assert Filtered([t0]) == [r0];
    assert Filtered([t0, t1]) == [r0, r1];
    assert Filtered([t0, t1, t2]) == [r0, r1];
    assert Filtered([t0, t1, t2, t3]) == [r0, r1, r3];
    assert [r0, r1, r3][..2] == [r0, r1];
    assert [r0, r1][..1] == [r0];
    assert [r0][..0] == [];
    assert Merged([r0]) == [r0];
    assert Merged([r0, r1]) == [SpeakerSegment("A", 0.0, 2.0)];
  }

  /** One speaker with one 3-second turn: one speaker is counted and one record spans the whole turn. */
  lemma ScenarioSingleSpeaker()
    ensures |LabelSet([Turn(Interval(0.0, 3.0), "T0", "SPEAKER_00")])| == 1
    ensures Segmentation([Turn(Interval(0.0, 3.0), "T0", "SPEAKER_00")]) == [SpeakerSegment("SPEAKER_00", 0.0, 3.0)]
  {
    var t := Turn(Interval(0.0, 3.0), "T0", "SPEAKER_00");
    assert LabelSet([t]) == {"SPEAKER_00"};
    FilteredSingleton(t);
    assert [ToRecord(t)][..0] == [];
  }

  /** A turn of exactly 0.5 seconds is dropped. */
  lemma ScenarioHalfSecondDropped()
    ensures Segmentation([Turn(Interval(1.0, 1.5), "T0", "SPEAKER_00")]) == []
  {
  }

  /** Same-speaker records separated by another kept speaker stay separate. */
  lemma ScenarioInterleavedSpeakersStaySeparate(a: SpeakerSegment, b: SpeakerSegment, c: SpeakerSegment)
    requires a.speaker == c.speaker && a.speaker != b.speaker
    ensures Merged([a, b, c]) == [a, b, c]
  {
    assert NoAdjacentSameSpeaker([a, b, c]);
    MergedOfNoAdjacent([a, b, c]);
  }

  /**
   * Without an order on the turns the bound of SegmentationDurations fails: two long
   * turns of one speaker, yielded out of order, merge into a 0.2-second record.
   */
  lemma ScenarioUnorderedTurnsYieldShortRecord()
    ensures Segmentation([Turn(Interval(10.0, 11.0), "T0", "S"), Turn(Interval(0.0, 10.2), "T1", "S")])
      == [SpeakerSegment("S", 10.0, 10.2)]
  {
    var t0 := Turn(Interval(10.0, 11.0), "T0", "S");
    var t1 := Turn(Interval(0.0, 10.2), "T1", "S");
    assert [t0, t1][..1] == [t0];
    assert [t0][..0] == [];
    assert Filtered([t0, t1]) == [ToRecord(t0), ToRecord(t1)];
    assert [ToRecord(t0), ToRecord(t1)][..1] == [ToRecord(t0)];
    assert [ToRecord(t0)][..0] == [];
  }

  /** The merged end time is the last record's end even when an earlier record ended later. */
  lemma ScenarioEndOverwritten()
    ensures Merged([SpeakerSegment("SPEAKER_00", 0.0, 3.0), SpeakerSegment("SPEAKER_00", 1.0, 2.0)])
      == [SpeakerSegment("SPEAKER_00", 0.0, 2.0)]
  {
  }
}
