# Speaker-diarization post-processing of speak2summarise

speak2summarise turns a recording into per-speaker transcripts. A pretrained
pyannote pipeline splits the audio into speaker turns. The repository's own
logic is what it then does with those turns, in
`speak2summarise/diarization/diarization.py`:

- `segment_audio_by_speaker` keeps only the turns that last strictly longer than
  0.5 seconds. It then makes one left-to-right pass that merges consecutive
  records of the same speaker. The merged record keeps the first record's start,
  and its end is overwritten by each later record's end.
- `count_speakers` groups all turns by label in a dictionary of lists and returns
  the number of keys. It applies no duration filter.

This project models both operations in one module, `Diarization`
(`diarization.dfy`). The model call is not modelled. Each operation takes the
sequence of `(segment, track, label)` triples the pipeline yields, in the order
it yields them (`Turn`). Times are `real`, because the code only subtracts and
compares them.

The two loops of `segment_audio_by_speaker` and the dictionary loop of
`count_speakers` are methods with loop invariants. `SegmentAudioBySpeaker` is
proved against two specification functions: `Filtered`, for the duration filter,
and `Merged`, for the merge pass. `CountSpeakers` is proved against `LabelSet`,
the set of distinct labels. The properties of those functions are proved as
lemmas against independent descriptions:

- filtering distributes over concatenation and keeps exactly the long-enough turns;
- the merged speaker sequence is `Collapse` of the input's, which drops every
  label equal to its predecessor;
- the merged records are the summaries of the input's unique partition into
  maximal same-speaker runs (`IsRunPartition`, `Summary`).

An interval of exactly 0.5 seconds is dropped, because the comparison on line 46
is strict.

## Model

| member | source | states |
|---|---|---|
| Diarization.SegmentAudioBySpeaker | speak2summarise/diarization/diarization.py:43-59 | The returned records are the filtered records after the merge pass. No two consecutive records share a speaker. The speaker sequence is the filtered speaker sequence with runs collapsed. There are no more records than kept turns. The result is empty exactly when no turn lasts longer than 0.5 s. Each record summarises one maximal run. Every speaker named is a label the model emitted. |
| Diarization.CountSpeakers | speak2summarise/diarization/diarization.py:22-27 | The result is the number of distinct labels among all triples. It is at most the number of triples, and 0 exactly when there are none. The loop invariant says the dictionary maps each label to its segments in model order. |
| Diarization.Filtered | speak2summarise/diarization/diarization.py:43-49 | The filter never yields more records than it reads turns, and every record it yields lasts strictly longer than 0.5 s. |
| Diarization.Merged | speak2summarise/diarization/diarization.py:52-57 | The merge never yields more records than it reads, and it yields none exactly when it reads none. Its last record carries the last input record's speaker and end time. |
| Diarization.FilteredAppend | speak2summarise/diarization/diarization.py:43-49 | Filtering a concatenation is the concatenation of the filtered parts. The filter keeps model order and judges each turn on its own. |
| Diarization.FilteredSingleton | speak2summarise/diarization/diarization.py:46-49 | A single turn yields its record exactly when end - start > 0.5, so a 0.5 s turn is dropped. |
| Diarization.FilteredMembers | speak2summarise/diarization/diarization.py:44-49 | A record is in the filtered list if and only if it is the record of an emitted turn longer than 0.5 s. |
| Diarization.FilteredEmpty | speak2summarise/diarization/diarization.py:46 | The filtered list is empty if and only if no turn lasts longer than 0.5 s. |
| Diarization.MergedNoAdjacent | speak2summarise/diarization/diarization.py:53-57 | After merging, no two consecutive records share a speaker. |
| Diarization.MergedOfNoAdjacent | speak2summarise/diarization/diarization.py:53-57 | A sequence with no two consecutive same-speaker records passes through the merge unchanged. |
| Diarization.MergedIdempotent | speak2summarise/diarization/diarization.py:53-57 | Merging the merge's own output returns it unchanged. |
| Diarization.MergedSpeakersCollapse | speak2summarise/diarization/diarization.py:52-57 | The merged speaker sequence is the input speaker sequence with each label dropped that equals its predecessor. Nothing is reordered, and same-speaker records separated by another speaker stay separate. |
| Diarization.MergedSpeakerSet | speak2summarise/diarization/diarization.py:52-57 | Merging neither adds nor loses a speaker. |
| Diarization.RunsPartition | speak2summarise/diarization/diarization.py:52-57 | `Runs` cuts its input into maximal same-speaker runs. Their concatenation is the input, no run is empty, and neighbouring runs differ in speaker. |
| Diarization.FirstRunIsMaximal | speak2summarise/diarization/diarization.py:53-55 | In any such partition, the first run is the longest prefix spoken by the first speaker. |
| Diarization.RunPartitionUnique | speak2summarise/diarization/diarization.py:52-57 | A sequence has exactly one partition into maximal same-speaker runs. |
| Diarization.MergedIsRunSummaries | speak2summarise/diarization/diarization.py:54-57 | The merge yields one record per maximal run, with the run's speaker, the start of its first record and the end of its last record. The end is overwritten, not a maximum. |
| Diarization.MergedSummarizesAnyPartition | speak2summarise/diarization/diarization.py:52-57 | For any partition of the input into maximal runs, the merge output is that partition's run summaries. |
| Diarization.SegmentationMergeIdempotent | speak2summarise/diarization/diarization.py:52-59 | Merging the segmenter's output again changes nothing. |
| Diarization.SegmentationRuns | speak2summarise/diarization/diarization.py:43-59 | Each returned record summarises a maximal run of consecutive kept turns of one speaker. |
| Diarization.MergedDurations | speak2summarise/diarization/diarization.py:54-55 | Suppose every record lasts longer than 0.5 s and end times never decrease. Then every merged record lasts longer than 0.5 s. |
| Diarization.FilteredEndsOrdered | speak2summarise/diarization/diarization.py:44-49 | If the turns' end times never decrease, neither do the kept records' end times. |
| Diarization.SegmentationDurations | speak2summarise/diarization/diarization.py:43-59 | If the model yields turns in order of end time, every returned record lasts longer than 0.5 s. |
| Diarization.MergedStartsFromInput | speak2summarise/diarization/diarization.py:54-57 | Every merged record starts where some input record starts. The merge overwrites only end times. |
| Diarization.MergedDurationsByStart | speak2summarise/diarization/diarization.py:54-55 | Suppose every record lasts longer than 0.5 s and start times never decrease. Then every merged record lasts longer than 0.5 s. |
| Diarization.FilteredStartsOrdered | speak2summarise/diarization/diarization.py:44-49 | If the turns' start times never decrease, neither do the kept records' start times. |
| Diarization.SegmentationDurationsByStart | speak2summarise/diarization/diarization.py:43-59 | If the model yields turns in order of start time, every returned record lasts longer than 0.5 s. |
| Diarization.ScenarioUnorderedTurnsYieldShortRecord | speak2summarise/diarization/diarization.py:43-59 | Two same-speaker turns S(10-11) then S(0-10.2), each longer than 0.5 s, merge into one record S from 10 to 10.2, which lasts only 0.2 s. Without an order on the turns the 0.5 s bound does not hold for the output. |
| Diarization.LabelSetBound | speak2summarise/diarization/diarization.py:22-27 | There are no more distinct labels than triples, and none exactly when there are no triples. |
| Diarization.SegmentationSpeakersWithinCount | speak2summarise/diarization/diarization.py:22-27 | The speakers named by the segmenter are among the labels `count_speakers` counts, so there are no more of them. |
| Diarization.ScenarioShortTurnDroppedBeforeMerge | speak2summarise/diarization/diarization.py:43-59 | Speaker turns A(0-1), A(1-2), B(2-2.3), A(2.3-4) yield exactly one record, A from 0 to 4: the 0.3 s turn of B is dropped before the merge. |
| Diarization.ScenarioSingleSpeaker | speak2summarise/diarization/diarization.py:22-59 | One 3-second turn gives one distinct label and one record spanning the whole turn. |
| Diarization.ScenarioHalfSecondDropped | speak2summarise/diarization/diarization.py:46 | A turn of exactly 0.5 s yields no record. |
| Diarization.ScenarioInterleavedSpeakersStaySeparate | speak2summarise/diarization/diarization.py:54-57 | A, B, A records are not merged. |
| Diarization.ScenarioEndOverwritten | speak2summarise/diarization/diarization.py:55 | A(0-3) then A(1-2) merges to A(0-2). The end is overwritten, even when that shortens the record. |

## Left out

- Loading the pretrained pyannote pipeline, the `HF_TOKEN` credential and `load_dotenv` (diarization.py:7,13-19,34-40) are model download, inference and environment configuration. Both operations take the triple sequence instead.
- `transcribe_segments` (diarization.py:62-87) is audio slicing, a temporary-file export, a foreign transcription call and `print`.
- `speak2summarise/diarization/audio.py` (decoding, stereo downmix, peak normalisation, noise reduction, encoding) and `speak2summarise/test.py` are I/O, floating-point numerics and foreign calls, and are not part of this model.
- Times are `real`, not IEEE doubles, so rounding in `end - start` is not modelled.
- Dictionary aliasing: the Python merge pass appends the same dictionary objects that `segments` holds, so overwriting `end_sec` also changes an entry of `segments`. The only dictionary ever overwritten is `merged_segments[-1]`, which is the first record of the current same-speaker run. The loop over `segments` (diarization.py:53) has already passed that entry and never reads it again, and `segments` is dropped after line 59. The model therefore uses values.
- Whether the model yields turns in chronological, non-overlapping order is not assumed. Without an order, a merged record can last 0.5 s or less even though every kept turn lasts longer: `ScenarioUnorderedTurnsYieldShortRecord` gives such an input. The duration bound is therefore proved only under an order assumption, in two forms: end times never decrease (`MergedDurations`, `SegmentationDurations`) and start times never decrease (`MergedDurationsByStart`, `SegmentationDurationsByStart`).
