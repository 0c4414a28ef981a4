/** The peak report of the metric description script: per metric column,
    the frame indices of the lowest and highest `n` percent of values (in
    `argsort` order), and within each selection the runs of at least `m`
    consecutive frame indices, reported by their first and last index. */
module PeakReport {
  import opened Runs

  /** The intervals of at least `m` elements, in their original order: blocks
      of at least `m` positions, or value ranges spanning at least `m`
      values. */
  function LongRanges(rs: seq<Range>, m: int): (r: seq<Range>)
    ensures |r| <= |rs|
    decreases |rs|
  {
    if |rs| == 0 then []
    else
      var last := rs[|rs| - 1];
      LongRanges(rs[..|rs| - 1], m) + (if last.end - last.start + 1 >= m then [last] else [])
  }

  /** The long intervals are exactly the intervals of at least `m` elements. */
  lemma {:induction false} LongRangesMembers(rs: seq<Range>, m: int)
    ensures forall x :: x in LongRanges(rs, m) <==> x in rs && x.end - x.start + 1 >= m
    decreases |rs|
  {
    if |rs| > 0 {
      LongRangesMembers(rs[..|rs| - 1], m);
      assert rs == rs[..|rs| - 1] + [rs[|rs| - 1]];
    }
  }

  /** What `print_continuous_indices` reports: for every maximal run of
      consecutive values of at least `m` elements, its first and last value. */
  function Peaks(indices: seq<int>, m: int): (r: seq<Range>)
    ensures forall p :: p in r <==> p in RangesOf(indices) && p.end - p.start + 1 >= m
    ensures forall p, x :: p in r && p.start <= x <= p.end ==> x in indices
  {
    LongRangesWithin(Blocks(indices), m, |indices|);
    PeaksMembers(indices, m);
    Image(indices, LongRanges(Blocks(indices), m))
  }

  /** The facts behind the contract of `Peaks`, about its defining expression. */
  lemma PeaksMembers(indices: seq<int>, m: int)
    ensures WithinBounds(LongRanges(Blocks(indices), m), |indices|)
    ensures var r := Image(indices, LongRanges(Blocks(indices), m));
      && (forall p :: p in r <==> p in RangesOf(indices) && p.end - p.start + 1 >= m)
      && (forall p, x :: p in r && p.start <= x <= p.end ==> x in indices)
  {
    var ranges := RangesOf(indices);
    BlocksConsecutive(indices);
    ImageLongRanges(indices, Blocks(indices), m);
    LongRangesMembers(ranges, m);
    forall p, x | p in LongRanges(ranges, m) && p.start <= x <= p.end ensures x in indices {
      var k :| 0 <= k < |ranges| && ranges[k] == p;
      RangeValueIsElement(indices, k, x);
    }
  }

  lemma LongRangesWithin(blocks: seq<Range>, m: int, n: int)
    requires WithinBounds(blocks, n)
    ensures WithinBounds(LongRanges(blocks, m), n)
  {
    var r := LongRanges(blocks, m);
    LongRangesMembers(blocks, m);
    forall k | 0 <= k < |r| ensures 0 <= r[k].start <= r[k].end < n {
      assert r[k] in r;
    }
  }

  /** Keeping the long blocks of a list one block longer. */
  lemma LongRangesSnoc(blocks: seq<Range>, b: Range, m: int)
    ensures LongRanges(blocks + [b], m) ==
      LongRanges(blocks, m) + (if b.end - b.start + 1 >= m then [b] else [])
  {
    assert (blocks + [b])[..|blocks|] == blocks;
  }

  /** The blocks of a prefix lie inside the whole list. */
  lemma PrefixBlocksWithin(s: seq<int>, k: int)
    requires 0 <= k <= |s|
    ensures WithinBounds(Blocks(s[..k]), |s|)
  {
  }

  /** Where the reporter stands at the head of its outer loop: the runs of
      `indices[..startIdx]` are done and the long ones reported. */
  ghost predicate ReportState(indices: seq<int>, m: int, startIdx: int, peaks: seq<Range>)
    requires 0 <= startIdx <= |indices|
  {
    PrefixBlocksWithin(indices, startIdx);
    LongRangesWithin(Blocks(indices[..startIdx]), m, |indices|);
    peaks == Image(indices, LongRanges(Blocks(indices[..startIdx]), m))
  }

  /** Closing the block `[st, e]`: it is reported when it has at least `m`
      elements. */
  lemma CloseBlock(indices: seq<int>, m: int, st: int, e: int, peaks: seq<Range>)
    requires 0 <= st <= e < |indices|
    requires ReportState(indices, m, st, peaks)
    requires Blocks(indices[..e + 1]) == Blocks(indices[..st]) + [Range(st, e)]
    ensures ReportState(indices, m, e + 1, peaks +
      (if e - st + 1 >= m then [Range(indices[st], indices[e])] else []))
  {
    var before := Blocks(indices[..st]);
    PrefixBlocksWithin(indices, st);
    LongRangesSnoc(before, Range(st, e), m);
    LongRangesWithin(before, m, |indices|);
    if e - st + 1 >= m {
      ImageSnoc(indices, LongRanges(before, m), Range(st, e));
    }
    PrefixBlocksWithin(indices, e + 1);
    LongRangesWithin(Blocks(indices[..e + 1]), m, |indices|);
  }

  /** The inner loop of `print_continuous_indices`: from `start_idx`,
      `end_idx` moves on while the next index is one more, and stops at the
      last index of the run. */
  method RunEnd(indices: seq<int>, startIdx: int) returns (endIdx: int)
    requires 0 <= startIdx < |indices|
    ensures startIdx <= endIdx < |indices|
    ensures Consecutive(indices, startIdx, endIdx)
    ensures endIdx + 1 < |indices| ==> !Continues(indices, endIdx)
  {
    endIdx := startIdx;
    while endIdx + 1 < |indices| && indices[endIdx + 1] == indices[endIdx] + 1
      invariant startIdx <= endIdx < |indices|
      invariant Consecutive(indices, startIdx, endIdx)
      decreases |indices| - endIdx
    {
      endIdx := endIdx + 1;
    }
  }

  /** `print_continuous_indices`: the outer loop walks run by run, the inner
      loop extends `end_idx` while the next index is one more, and a run of at
      least `m` indices is reported as its first and last index. The metric
      name and label of the printed line are left to the caller. */
  method PrintContinuousIndices(indices: seq<int>, m: int) returns (peaks: seq<Range>)
    ensures peaks == Peaks(indices, m)
  {
    peaks := [];
    var startIdx := 0;
    while startIdx < |indices|
      invariant 0 <= startIdx <= |indices|
      invariant 0 < startIdx < |indices| ==> indices[startIdx] != indices[startIdx - 1] + 1
      invariant ReportState(indices, m, startIdx, peaks)
      decreases |indices| - startIdx
    {
      var endIdx := RunEnd(indices, startIdx);
      BlockOfRun(indices, startIdx, endIdx);
      CloseBlock(indices, m, startIdx, endIdx, peaks);
      var reported := if endIdx - startIdx + 1 >= m then [Range(indices[startIdx], indices[endIdx])] else [];
      peaks := peaks + reported;
      startIdx := endIdx + 1;
    }
    ReportDone(indices, m, peaks);
  }

  /** After the last run the report is complete. */
  lemma ReportDone(indices: seq<int>, m: int, peaks: seq<Range>)
    requires ReportState(indices, m, |indices|, peaks)
    ensures peaks == Peaks(indices, m)
  {
    assert indices[..|indices|] == indices;
  }

  /** Inside a consecutive block the values span as many numbers as the block
      has positions, so filtering blocks by length is filtering their value
      ranges by span. */
  lemma {:induction false} ImageLongRanges(s: seq<int>, blocks: seq<Range>, m: int)
    requires WithinBounds(blocks, |s|) && AllConsecutive(s, blocks)
    ensures WithinBounds(LongRanges(blocks, m), |s|)
    ensures Image(s, LongRanges(blocks, m)) == LongRanges(Image(s, blocks), m)
    decreases |blocks|
  {
    LongRangesWithin(blocks, m, |s|);
    if |blocks| > 0 {
      var n := |blocks| - 1;
      var front, b := blocks[..n], blocks[n];
      assert blocks == front + [b];
      assert AllConsecutive(s, front) by {
        forall k | 0 <= k < |front| ensures Consecutive(s, front[k].start, front[k].end) {
          assert front[k] == blocks[k];
        }
      }
      ImageLongRanges(s, front, m);
      ConsecutiveOffset(s, b.start, b.end, b.end);
      var v := Range(s[b.start], s[b.end]);
      assert v.end - v.start == b.end - b.start;
      LongRangesSnoc(front, b, m);
      ImageSnoc(s, front, b);
      LongRangesSnoc(Image(s, front), v, m);
      if b.end - b.start + 1 >= m {
        LongRangesWithin(front, m, |s|);
        ImageSnoc(s, LongRanges(front, m), b);
      } else {
        assert LongRanges(front, m) + [] == LongRanges(front, m);
        assert LongRanges(Image(s, front), m) + [] == LongRanges(Image(s, front), m);
      }
    }
  }

  /** The two run finders agree: the peaks are exactly the `get_ranges` ranges
      that span at least `m` values, in the same order. */
  lemma PeaksAreLongRanges(indices: seq<int>, m: int)
    ensures Peaks(indices, m) == LongRanges(RangesOf(indices), m)
  {
    BlocksConsecutive(indices);
    ImageLongRanges(indices, Blocks(indices), m);
  }

  /** With `m` at most one every run is reported. */
  lemma AllRunsReported(indices: seq<int>, m: int)
    requires m <= 1
    ensures Peaks(indices, m) == RangesOf(indices)
  {
    PeaksAreLongRanges(indices, m);
    RunsGoUp(indices);
    LongRangesAll(RangesOf(indices), m);
  }

  /** A run of consecutive values never ends below its start. */
  lemma RunsGoUp(s: seq<int>)
    ensures forall k :: 0 <= k < |RangesOf(s)| ==> RangesOf(s)[k].start <= RangesOf(s)[k].end
  {
    var b := Blocks(s);
    BlocksConsecutive(s);
    forall k | 0 <= k < |b| ensures RangesOf(s)[k].start <= RangesOf(s)[k].end {
      ConsecutiveOffset(s, b[k].start, b[k].end, b[k].end);
    }
  }

  lemma {:induction false} LongRangesAll(rs: seq<Range>, m: int)
    requires m <= 1
    requires forall k :: 0 <= k < |rs| ==> rs[k].start <= rs[k].end
    ensures LongRanges(rs, m) == rs
    decreases |rs|
  {
    if |rs| > 0 {
      LongRangesAll(rs[..|rs| - 1], m);
      assert rs == rs[..|rs| - 1] + [rs[|rs| - 1]];
    }
  }

  lemma UpwardBlocks()
    ensures Blocks([5, 6, 7]) == [Range(0, 2)]
  {
    var up := [5, 6, 7];
    assert IsRunSplit(up, [Range(0, 2)]) by {
      assert Continues(up, 0) && Continues(up, 1);
    }
    RunSplitUnique(up, [Range(0, 2)]);
  }

  /** Three indices going up form one peak of three. */
  lemma RunUpward()
    ensures Peaks([5, 6, 7], 3) == [Range(5, 7)]
  {
    UpwardBlocks();
    LongRangesSnoc([], Range(0, 2), 3);
    assert [] + [Range(0, 2)] == [Range(0, 2)];
    assert Image([5, 6, 7], [Range(0, 2)]) == [Range(5, 7)];
  }

  /** The same three indices going down are three runs of one: no peak. */
  lemma RunDownward()
    ensures Peaks([7, 6, 5], 3) == []
  {
    var down := [7, 6, 5];
    var ones := [Range(0, 0), Range(1, 1), Range(2, 2)];
    assert IsRunSplit(down, ones) by {
      assert !Continues(down, 0) && !Continues(down, 1);
    }
    RunSplitUnique(down, ones);
    NoLongRanges(ones, 3);
  }

  lemma {:induction false} NoLongRanges(blocks: seq<Range>, m: int)
    requires forall k :: 0 <= k < |blocks| ==> blocks[k].end - blocks[k].start + 1 < m
    ensures LongRanges(blocks, m) == []
    decreases |blocks|
  {
    if |blocks| > 0 {
      NoLongRanges(blocks[..|blocks| - 1], m);
    }
  }

  /** `int(len(column) * n / 100)` for a non-negative percentage: the whole
      part of `n` percent of the column length. */
  function SelectionCount(len: nat, n: nat): (k: nat)
    ensures k * 100 <= len * n < (k + 1) * 100
    ensures n <= 100 ==> k <= len
  {
    len * n / 100
  }

  function Min(a: int, b: int): int {
    if a <= b then a else b
  }

  /** `sorted_indices[:k]`: the `k` indices of the smallest values. */
  function BottomSelection(order: seq<int>, k: nat): (r: seq<int>)
    ensures |r| == Min(k, |order|)
    ensures r == order[..|r|]
  {
    order[..Min(k, |order|)]
  }

  /** `sorted_indices[-k:]` as written: a negative start counts from the end,
      but `-0` is `0`, so for `k == 0` the slice is the whole list. */
  function TopSelectionAsWritten(order: seq<int>, k: nat): (r: seq<int>)
    ensures k == 0 ==> r == order
    ensures k > 0 ==> |r| == Min(k, |order|)
    ensures r == order[|order| - |r|..]
  {
    if k == 0 then order[0..]
    else if k >= |order| then order[0..]
    else order[|order| - k..]
  }

  /** The evidently intended `k` indices of the largest values: the last
      `min(k, len)` entries, none when `k == 0`. */
  function TopSelection(order: seq<int>, k: nat): (r: seq<int>)
    ensures |r| == Min(k, |order|)
    ensures r == order[|order| - |r|..]
  {
    order[|order| - Min(k, |order|)..]
  }

  /** The two agree whenever the count is positive. */
  lemma TopSelectionAgrees(order: seq<int>, k: nat)
    requires k > 0
    ensures TopSelectionAsWritten(order, k) == TopSelection(order, k)
  {
  }

  /** A column of 5 frames with `n == 10`: `int(5 * 10 / 100)` is 0, the
      bottom selection is empty, yet the top selection as written is every
      frame, so every value of the column counts as a "Max 10%" value. */
  lemma ShortColumnSelectsEverything(order: seq<int>)
    requires |order| == 5
    ensures SelectionCount(|order|, 10) == 0
    ensures |BottomSelection(order, SelectionCount(|order|, 10))| == 0
    ensures TopSelectionAsWritten(order, SelectionCount(|order|, 10)) == order
    ensures |TopSelection(order, SelectionCount(|order|, 10))| == 0
  {
  }

  /** `order` is what `np.argsort(column)` returns: every frame index exactly
      once, in order of non-decreasing value. */
  predicate SortsColumn(order: seq<int>, column: seq<int>) {
    && |order| == |column|
    && (forall i :: 0 <= i < |order| ==> 0 <= order[i] < |column|)
    && (forall i, j :: 0 <= i < j < |order| ==> order[i] != order[j])
    && (forall i, j :: 0 <= i < j < |order| ==> column[order[i]] <= column[order[j]])
  }

  /** At most half the column is selected when `n` is at most 50. */
  lemma HalfSelection(len: nat, n: nat)
    requires n <= 50
    ensures 2 * SelectionCount(len, n) <= len
  {
    var k := SelectionCount(len, n);
    MulAtMost(len, n, 50);
    assert (2 * k) * 50 <= len * 50;
    MulBelow(len, 2 * k, 50);
  }

  lemma MulAtMost(a: nat, b: nat, c: nat)
    requires b <= c
    ensures a * b <= a * c
  {
  }

  lemma MulBelow(a: nat, b: nat, c: nat)
    requires c > 0
    ensures a < b ==> a * c < b * c
  {
    if a < b {
      MulAtMost(c, a + 1, b);
      assert c * (a + 1) == a * c + c;
    }
  }

  /** With at most half the column selected, the two selections are disjoint
      and every value of the bottom selection is at most every value of the
      top selection. */
  lemma SelectionsSeparate(order: seq<int>, column: seq<int>, n: nat)
    requires SortsColumn(order, column)
    requires n <= 50
    ensures var k := SelectionCount(|column|, n);
      var bottom, top := BottomSelection(order, k), TopSelection(order, k);
      && |bottom| == |top| == k
      && (forall p, q :: p in bottom && q in top ==> p != q && column[p] <= column[q])
  {
    var k := SelectionCount(|column|, n);
    HalfSelection(|column|, n);
    SeparateAt(order, column, k);
  }

  lemma SeparateAt(order: seq<int>, column: seq<int>, k: nat)
    requires SortsColumn(order, column)
    requires 2 * k <= |column|
    ensures var bottom, top := BottomSelection(order, k), TopSelection(order, k);
      && |bottom| == |top| == k
      && (forall p, q :: p in bottom && q in top ==> p != q && column[p] <= column[q])
  {
    var bottom, top := BottomSelection(order, k), TopSelection(order, k);
    forall p, q | p in bottom && q in top ensures p != q && column[p] <= column[q] {
      var i :| 0 <= i < |bottom| && bottom[i] == p;
      var j :| 0 <= j < |top| && top[j] == q;
      assert order[i] == p && order[|order| - k + j] == q;
      assert i < |order| - k + j;
    }
  }

  /** One column of the report: the peaks among the highest and among the
      lowest `n` percent of frames, with the corrected top selection. A max
      peak is exactly a run of the top selection of at least `m` entries, and
      every frame inside it is in the top selection; likewise for min peaks
      and the bottom selection. */
  function ColumnPeaks(order: seq<int>, n: nat, m: int): (r: (seq<Range>, seq<Range>))
    ensures var top := TopSelection(order, SelectionCount(|order|, n));
      && (forall p :: p in r.0 <==> p in RangesOf(top) && p.end - p.start + 1 >= m)
      && (forall p, x :: p in r.0 && p.start <= x <= p.end ==> x in top)
    ensures var bottom := BottomSelection(order, SelectionCount(|order|, n));
      && (forall p :: p in r.1 <==> p in RangesOf(bottom) && p.end - p.start + 1 >= m)
      && (forall p, x :: p in r.1 && p.start <= x <= p.end ==> x in bottom)
  {
    var k := SelectionCount(|order|, n);
    (Peaks(TopSelection(order, k), m), Peaks(BottomSelection(order, k), m))
  }

  /** The column as written: the max peaks are taken from
      `sorted_indices[-k:]`, which is every frame when the count is 0. */
  function ColumnPeaksAsWritten(order: seq<int>, n: nat, m: int): (r: (seq<Range>, seq<Range>))
    ensures var top := TopSelectionAsWritten(order, SelectionCount(|order|, n));
      && (forall p :: p in r.0 <==> p in RangesOf(top) && p.end - p.start + 1 >= m)
      && (forall p, x :: p in r.0 && p.start <= x <= p.end ==> x in top)
    ensures r.1 == ColumnPeaks(order, n, m).1
  {
    var k := SelectionCount(|order|, n);
    (Peaks(TopSelectionAsWritten(order, k), m), Peaks(BottomSelection(order, k), m))
  }

  /** Five frames in value order `0, 1, 2, 3, 4`, `n == 10`, `m == 3`: as
      written the report prints the max peak `0 ~ 4` from a selection that
      should be empty; the corrected column reports no max peak. */
  lemma ShortColumnPeaks()
    ensures ColumnPeaksAsWritten([0, 1, 2, 3, 4], 10, 3).0 == [Range(0, 4)]
    ensures ColumnPeaks([0, 1, 2, 3, 4], 10, 3).0 == []
  {
    var order := [0, 1, 2, 3, 4];
    assert SelectionCount(5, 10) == 0;
    assert TopSelectionAsWritten(order, 0) == order;
    assert TopSelection(order, 0) == [];
    FivePeak();
  }

  /** The five indices `0 .. 4` form one peak. */
  lemma FivePeak()
    ensures Peaks([0, 1, 2, 3, 4], 3) == [Range(0, 4)]
  {
    var up := [0, 1, 2, 3, 4];
    assert Blocks(up) == [Range(0, 4)] by {
      assert Consecutive(up, 0, 4) by {
        forall j | 0 <= j < 4 ensures Continues(up, j) { }
      }
      BlockOfRun(up, 0, 4);
      assert Blocks(up[..0]) == [];
      WholePrefix(up);
    }
    LongRangesSnoc([], Range(0, 4), 3);
    assert [] + [Range(0, 4)] == [Range(0, 4)];
    assert Image(up, [Range(0, 4)]) == [Range(0, 4)];
  }
}
