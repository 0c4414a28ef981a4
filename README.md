# Extremal ranges of motion metrics, and the records built from them

This project models the core of a pipeline that turns per-frame motion
metrics (centre of mass, symmetry, energy, ...) into fine-tuning records for a
language model, and proves properties of that model in Dafny.

The core has three parts:

- **Detector** (`find_ranges_by_threshold`). The maxima threshold is
  `max_percentage * max` and the minima threshold is
  `min + min_percentage * (max - min)`. A frame belongs to the maxima set when
  its value is at least the maxima threshold, and to the minima set when its
  value is at most the minima threshold. Each set, in ascending order, is
  collapsed by `get_ranges` into maximal runs of consecutive indices
  `[start, end]`. Each run is reported with its largest (maxima) or smallest
  (minima) value.
- **Record** (`process_npy_file_for_com`). The instruction is the metric's
  template followed by ` Frame length is: <frames>`. The `integer` field is
  the series itself. The answer text is
  `Local maxima: <ranges>..Local minima: <ranges>..`, with the ranges printed
  as Python prints a list of pairs. `extract_number_from_filename` (the first
  run of digits of a file name, 0 when there is none) is modelled on its own:
  records carry no key, and the number only orders the files in the batch
  driver (finetuningdata_for_each_metric.py:123), which is left out.
- **Peak report** (`metricdata/metdes.py`). For each column, `argsort` gives
  an ordering of the frames. The report takes the lowest and the highest
  `int(len * n / 100)` frames of that ordering. Each selection is kept in
  `argsort` order, not sorted by frame index. `print_continuous_indices` walks
  it and reports, by its first and last entry, every maximal stretch of at
  least `m` entries in which each entry is one more than the entry before it
  (metricdata/metdes.py:68).

Modules:

- `Runs` (Runs.dfy): the run decomposition that both run finders share.
  - `Blocks(s)` is the split of an index list into maximal blocks of
    positions where each next element is one more. It is defined by the same
    left-to-right recursion that the scans perform.
  - `RunSplitUnique` proves it is the only split into contiguous, internally
    consecutive, maximal blocks.
  - `RangesOf(s)` is the image of those blocks on values.
  - `GetRanges` is the imperative scan of `get_ranges`, proved equal to
    `RangesOf`.
- `Detector` (Detector.dfy): the detector as a function `Detect` and as a
  method `FindRangesByThreshold`, plus what the detection means.
- `Decimal` (Decimal.dfy): `str` and `int` of natural numbers, and the
  file-name key.
- `RecordText` (RecordText.dfy): composing the record. Its partner is a
  parser that reads the answer text back, with round-trip lemmas.
- `PeakReport` (PeakReport.dfy): `print_continuous_indices` as a method with
  its two loops, and the top and bottom selections.

Behaviour of the code that the model keeps:

- The answer text has two full stops after each range list. `maxima_text`
  and `minima_text` already end with one (finetuningdata_for_each_metric.py:70-71),
  and the f-strings at lines 78-79 add another.
- With every value negative, the maxima list is empty exactly when the
  percentage is below 1 (`NegativeSeriesHasNoMaxima` and
  `NegativeMaximumInMaxima`). For example, a percentage of 2.0 gives a
  non-empty maxima set: for a maximum of -1 the threshold is -2, which -1
  reaches.
- An empty series makes `np.max` raise. The model returns the error
  `EmptySeries`.

## Model

| member | source | states |
|---|---|---|
| Runs.Blocks | finetuningdata_for_each_metric.py:29-33 | the split of a list into runs is empty iff the list is, starts at position 0, ends at the last position, and stays inside the list |
| Runs.RangesOf | finetuningdata_for_each_metric.py:26-34 | one value range per block of the split |
| Runs.BlocksIsRunSplit | finetuningdata_for_each_metric.py:29-33 | the blocks of the scan partition the list into contiguous blocks in order; inside each block every step goes up by one, and no block can be extended by its next element |
| Runs.RunSplitUnique | finetuningdata_for_each_metric.py:29-33 | any such partition (contiguous, consecutive inside, maximal) is exactly the split the scan makes, so the runs are determined by the list |
| Runs.BlocksOrderedCover | finetuningdata_for_each_metric.py:29-33 | the blocks are ordered and disjoint, and every position lies in one of them |
| Runs.BlockOfRun | metricdata/metdes.py:65-69 | a run of consecutive values that starts where a block starts is the last block of the prefix that ends with it |
| Runs.ScanStep | finetuningdata_for_each_metric.py:29-32 | one step of the scan keeps its invariant: a break closes the open run at the previous value and opens a new one at the current value, and a consecutive element keeps the run open |
| Runs.ScanFinish | finetuningdata_for_each_metric.py:33 | appending the open run after the loop yields exactly the ranges of the whole list |
| Runs.GetRanges | finetuningdata_for_each_metric.py:26-34 | the scan returns the image on values of the maximal consecutive blocks of the list; it requires a non-empty list, because the helper reads `indices[0]` unguarded |
| Runs.RangesCoverElements | finetuningdata_for_each_metric.py:26-34 | for an ascending list, a value lies in some range iff it occurs in the list, and both endpoints of every range are elements |
| Runs.RangesSeparated | finetuningdata_for_each_metric.py:26-34 | for an ascending list, every range has start <= end, and each range starts more than one past the end of the previous range |
| Runs.RangeValueIsElement | finetuningdata_for_each_metric.py:26-34 | every value inside a reported range occurs in the list |
| Detector.SeqMax | finetuningdata_for_each_metric.py:14 | `np.max`: an element of the series that is at least every element |
| Detector.SeqMin | finetuningdata_for_each_metric.py:15 | `np.min`: an element of the series that is at most every element |
| Detector.MaxThreshold | finetuningdata_for_each_metric.py:18 | `max_percentage * max`: for a non-negative maximum and a percentage of at most 1 it does not exceed the maximum; for a negative maximum it lies above the maximum iff the percentage is below 1 |
| Detector.MinThreshold | finetuningdata_for_each_metric.py:19 | `min + min_percentage * (max - min)`: between the minimum and the maximum for a percentage between 0 and 1 |
| Detector.Where | finetuningdata_for_each_metric.py:37-38 | `np.where(mask)[0]`: strictly ascending, and it holds exactly the positions where the mask is true |
| Detector.IndicesAtLeast | finetuningdata_for_each_metric.py:37 | strictly ascending; it holds exactly the positions whose value is at least the threshold |
| Detector.IndicesAtMost | finetuningdata_for_each_metric.py:38 | strictly ascending; it holds exactly the positions whose value is at most the threshold |
| Detector.MaximaIndices | finetuningdata_for_each_metric.py:14-37 | the maxima set holds exactly the positions whose value reaches `max_percentage * max`, in ascending order |
| Detector.MinimaIndices | finetuningdata_for_each_metric.py:14-38 | the minima set holds exactly the positions whose value is at most `min + min_percentage * (max - min)`, in ascending order |
| Detector.MaxOver | finetuningdata_for_each_metric.py:47 | `np.max(data[start:end + 1])` is a value of the slice and at least every value of the slice |
| Detector.MinOver | finetuningdata_for_each_metric.py:48 | `np.min(data[start:end + 1])` is a value of the slice and at most every value of the slice |
| Detector.RangeMaxima | finetuningdata_for_each_metric.py:47 | one value per range, each the largest value of the series over that range |
| Detector.RangeMinima | finetuningdata_for_each_metric.py:48 | one value per range, each the smallest value of the series over that range |
| Detector.Detect | finetuningdata_for_each_metric.py:12-50 | the detector fails iff the series is empty (`np.max` of an empty array raises) |
| Detector.FindRangesByThreshold | finetuningdata_for_each_metric.py:12-50 | the method computes the thresholds, the index sets, the runs (`get_ranges` only on a non-empty set, `[]` otherwise) and the range values, and returns exactly `Detect` |
| Detector.DetectMembership | finetuningdata_for_each_metric.py:17-44 | a position is in some maxima range iff its value reaches the maxima threshold, and in some minima range iff its value is at most the minima threshold; nothing outside the series is covered |
| Detector.DetectRangesWellFormed | finetuningdata_for_each_metric.py:26-44 | every range is a valid non-empty interval of positions, and consecutive ranges of a list are separated by at least one position outside the set |
| Detector.DetectValues | finetuningdata_for_each_metric.py:46-48 | each value list is aligned with its range list; every maxima value is the maximum over its range and reaches the maxima threshold; every minima value is the minimum over its range and is at most the minima threshold |
| Detector.MinimumIsInMinima | finetuningdata_for_each_metric.py:15-38 | with a non-negative minima percentage, every position holding the minimum lies in a minima range |
| Detector.MaximumIsInMaxima | finetuningdata_for_each_metric.py:14-37 | with a maxima percentage of at most 1 and a non-negative maximum, every position holding the maximum lies in a maxima range |
| Detector.NegativeSeriesHasNoMaxima | finetuningdata_for_each_metric.py:14-48 | for an all-negative series and a maxima percentage below 1, the maxima ranges and values are empty, without any error |
| Detector.NegativeMaximumInMaxima | finetuningdata_for_each_metric.py:14-44 | the converse: for an all-negative series and a maxima percentage of at least 1, every position holding the maximum lies in a maxima range, so the maxima list is not empty |
| Detector.SingleFrame | finetuningdata_for_each_metric.py:12-50 | a one-frame series is always its own minima range with its value, and a maxima range exactly when the value reaches `max_percentage` times itself |
| Detector.RangesFromSplit | finetuningdata_for_each_metric.py:26-34 | the runs of a list are the images of any valid run split of it |
| Detector.WorkedExample | finetuningdata_for_each_metric.py:12-50 | on `[10, 20, 90, 95, 92, 15, 10, 50]` with 0.8 and 0.2, the detector returns maxima `[[2, 4]]` with value 95, and minima `[[0, 1], [5, 6]]` with values 10 and 10 |
| Decimal.Digits | finetuningdata_for_each_metric.py:73 | `str(n)`: a non-empty digit string with no leading zero except "0" itself, one digit exactly below 10 |
| Decimal.ValueOfDigits | finetuningdata_for_each_metric.py:10 | `int` of `str(n)` is `n` |
| Decimal.DigitsInjective | finetuningdata_for_each_metric.py:73 | different numbers print differently |
| Decimal.ParseNat | finetuningdata_for_each_metric.py:9-10 | reading a number fails iff the text does not start with a digit, and otherwise consumes at least one character |
| Decimal.ParseNatDigits | finetuningdata_for_each_metric.py:9-10 | reading the numeral of `n` followed by a non-digit gives back `n` and exactly what followed |
| Decimal.ValueOf | finetuningdata_for_each_metric.py:10 | `int` of a digit string is 0 iff every digit is '0' |
| Decimal.ExtractNumberFromFilename | finetuningdata_for_each_metric.py:7-10 | a file name without digits has key 0 |
| Decimal.ExtractNumberOf | finetuningdata_for_each_metric.py:7-10 | the key is the value of the first maximal digit run of the name, whatever digits come later |
| Decimal.ExtractNumberOfNumeral | finetuningdata_for_each_metric.py:7-10 | a name whose first digit run is the numeral of `n` has key `n` |
| RecordText.ShowInt | finetuningdata_for_each_metric.py:70-71 | `str` of an integer: non-empty, a leading '-' iff the integer is negative, and digits otherwise |
| RecordText.ShowRange | finetuningdata_for_each_metric.py:70-71 | a pair prints as a bracketed text of at least six characters |
| RecordText.ShowItems | finetuningdata_for_each_metric.py:70-71 | the joined pairs are empty iff the list is, and otherwise begin with '[' and end with ']' |
| RecordText.ShowRanges | finetuningdata_for_each_metric.py:70-71 | a list of pairs prints as a bracketed text, `[]` included |
| RecordText.OutputText | finetuningdata_for_each_metric.py:69-78 | the answer starts with `Local maxima: ` and ends with the two full stops |
| RecordText.Instruction | finetuningdata_for_each_metric.py:73-75 | the instruction starts with the metric's template and ends with a digit |
| RecordText.ParseIntShow | finetuningdata_for_each_metric.py:70-71 | a printed integer, negative or not, reads back as itself, followed by exactly the remaining text |
| RecordText.ParseRangeShow | finetuningdata_for_each_metric.py:70-71 | a printed pair `[start, end]` reads back as the same range |
| RecordText.ParseItemsShow | finetuningdata_for_each_metric.py:70-71 | a printed non-empty list body `pair, ..., pair` reads back as the same ranges |
| RecordText.ParseRangesShow | finetuningdata_for_each_metric.py:70-71 | a printed list of ranges, empty or not, reads back as the same list |
| RecordText.ParseOutputText | finetuningdata_for_each_metric.py:69-80 | the answer text reads back as exactly the maxima and minima ranges it was composed from |
| RecordText.OutputTextInjective | finetuningdata_for_each_metric.py:69-80 | different ranges never produce the same answer text |
| RecordText.TrailingDigits | finetuningdata_for_each_metric.py:73-75 | measures the maximal digit run at the end of a text |
| RecordText.InstructionFrameCount | finetuningdata_for_each_metric.py:73-75 | whatever the template, the instruction ends with the frame count |
| RecordText.ProcessSeries | finetuningdata_for_each_metric.py:63-89 | a record exists iff the series is non-empty, and its `integer` field is the series itself |
| RecordText.ProcessSeriesReadsBack | finetuningdata_for_each_metric.py:63-89 | a record's instruction ends with the series length, and its answer reads back as the detector's maxima and minima ranges |
| RecordText.ExampleRangesText | finetuningdata_for_each_metric.py:70-71 | `[[2, 4]]` and `[[0, 1], [5, 6]]` are the printed forms of the worked ranges |
| RecordText.WorkedRecord | finetuningdata_for_each_metric.py:63-89 | the record of the worked series, with instruction `<template> Frame length is: 8` and answer `Local maxima: [[2, 4]]..Local minima: [[0, 1], [5, 6]]..` |
| PeakReport.LongRanges | metricdata/metdes.py:72 | the kept intervals are no more than the given ones |
| PeakReport.LongRangesMembers | metricdata/metdes.py:72 | the kept intervals are exactly the intervals of at least `m` elements |
| PeakReport.RunEnd | metricdata/metdes.py:66-69 | the inner loop stops at the end of the run: every step from `start_idx` to `end_idx` goes up by one, and the next index (if any) does not |
| PeakReport.CloseBlock | metricdata/metdes.py:71-75 | closing a run keeps the outer loop's invariant: the run is reported iff it has at least `m` indices |
| PeakReport.PrintContinuousIndices | metricdata/metdes.py:63-75 | the two loops report, in order, the first and last index of every maximal run of consecutive indices that has at least `m` elements |
| PeakReport.PeaksAreLongRanges | metricdata/metdes.py:63-75 | the reported peaks are exactly the `get_ranges` ranges of the list that span at least `m` values, in the same order |
| PeakReport.ImageLongRanges | metricdata/metdes.py:72 | for blocks that are consecutive inside, keeping the blocks of at least `m` positions and then taking their value ranges gives the same list as keeping the value ranges that span at least `m` values |
| PeakReport.Peaks | metricdata/metdes.py:63-75 | a pair is reported iff it is a `get_ranges` range of the list spanning at least `m` values, and every value inside a reported pair occurs in the list |
| PeakReport.AllRunsReported | metricdata/metdes.py:72 | with `m` at most 1 every run is reported |
| PeakReport.RunUpward | metricdata/metdes.py:68 | the indices 5, 6, 7 form one peak `5 ~ 7` when `m == 3` |
| PeakReport.RunDownward | metricdata/metdes.py:68 | the indices 7, 6, 5 form no peak: only an index one greater than its predecessor continues a run |
| PeakReport.SelectionCount | metricdata/metdes.py:91-93 | `int(len * n / 100)` is the whole part of `n` percent of the length, and at most the length for `n <= 100` |
| PeakReport.BottomSelection | metricdata/metdes.py:91 | `sorted_indices[:k]` is the first `min(k, len)` entries of the ordering |
| PeakReport.TopSelectionAsWritten | metricdata/metdes.py:93 | `sorted_indices[-k:]` as written: the whole ordering when `k == 0`, otherwise its last `min(k, len)` entries |
| PeakReport.TopSelection | metricdata/metdes.py:93 | the intended top selection: the last `min(k, len)` entries, none when `k == 0` |
| PeakReport.ShortColumnSelectsEverything | metricdata/metdes.py:91-93 | for a 5-frame column and `n == 10`, the count is 0 and the bottom selection is empty, but the top selection as written is every frame |
| PeakReport.SelectionsSeparate | metricdata/metdes.py:88-93 | with the corrected top selection, for `n <= 50` and an `argsort` ordering, both selections have the count's size, they are disjoint, and every bottom value is at most every top value |
| PeakReport.ColumnPeaks | metricdata/metdes.py:86-101 | for one column, with the corrected top selection: the max peaks are exactly the runs of the top selection of at least `m` entries and the min peaks exactly those of the bottom selection; every frame inside a peak is in its selection |
| PeakReport.ColumnPeaksAsWritten | metricdata/metdes.py:86-101 | the column as written: the max peaks are exactly the runs of at least `m` entries of `sorted_indices[-k:]`; the min peaks are those of the corrected column |
| PeakReport.ShortColumnPeaks | metricdata/metdes.py:91-101 | for the ordering 0, 1, 2, 3, 4 with `n == 10` and `m == 3`, the column as written prints the max peak `0 ~ 4`, while the corrected column prints none |

## Left out

- Reading the `.npy` files, listing folders, argument parsing, printing and writing the JSON output are I/O. The batch driver `generate_combined_output` (the folder walk, the per-metric instruction table and the sort by file-name key) is left out with it.
- The per-metric loop over the 17 columns is not part of this model: `ColumnPeaks` covers one column.
- The scaling `np.round(data[:, metric_idx] * 100).astype(int)` is floating point. The model's series is the resulting `seq<int>`.
- Detector.Detect: the thresholds are exact real numbers, while the source computes them in 64-bit floating point. A value equal to the threshold in exact arithmetic may compare differently after rounding.
- Detector.Detect: the range values are the integers themselves. The source converts them with `float(...)`, which is exact for integers of the scaled metrics' size.
- RecordText.ProcessSeries: the range values are computed but, as in the source, never written into the record. The model therefore leaves them out of `Record`.
- Decimal.ExtractNumberFromFilename: only ASCII digits count as digits. Python's `\d` also matches other Unicode decimal digits.
- PeakReport.PrintContinuousIndices: the printed line's metric name and label (`This is {metrics[i]} {label} peak: ...`) are not modelled; the method returns the `(first, last)` pairs it prints.
- PeakReport.SelectionsSeparate: `np.argsort` is not computed. The ordering is a parameter that satisfies `SortsColumn` (a permutation of the frame indices in non-decreasing order of value).
- PeakReport.SelectionsSeparate: states the sizes for the corrected top selection. As written, `sorted_indices[-0:]` is the whole ordering, so the two selections differ in size when the count is 0 (see Findings).
- PeakReport.ColumnPeaks: uses the corrected top selection; the column as written is `ColumnPeaksAsWritten`.
- PeakReport.SelectionCount: the percentage `n` is a natural number. The source's `n` is the constant 10, and a negative `n` is not modelled.

## Findings

| source | as written | input that shows it | evidently intended | confidence | as-written member | corrected member |
|---|---|---|---|---|---|---|
| metricdata/metdes.py:93 | `sorted_indices[-int(len(column) * n / 100):]` | a column of 5 frames with `n == 10`: the count is `int(0.5) == 0`, and `sorted_indices[-0:]` is the whole ordering | the top `n` percent: no frame when the count is 0, so the top selection is as small as the bottom one (empty here) | not executed | PeakReport.ShortColumnSelectsEverything | PeakReport.TopSelection |
