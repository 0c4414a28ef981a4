/** Maximal runs of consecutive values in an index list.

    Both run finders of the system split a list `s` the same way: a left-to-right
    scan that opens a new run whenever `s[j + 1] != s[j] + 1`. `Blocks` is that
    split, stated on positions; `RangesOf` is its image on values, which is what
    the detector's `get_ranges` helper returns. */
module Runs {

  /** A closed interval `[start, end]`: either positions of a list or values. */
  datatype Range = Range(start: int, end: int)

  /** Every interval lies inside `0 .. n - 1` and is non-empty. */
  predicate WithinBounds(rs: seq<Range>, n: int) {
    forall k :: 0 <= k < |rs| ==> 0 <= rs[k].start <= rs[k].end < n
  }

  /** The intervals come in increasing order and do not overlap. */
  predicate Ordered(rs: seq<Range>) {
    forall i, j :: 0 <= i < j < |rs| ==> rs[i].end < rs[j].start
  }

  /** `x` lies in one of the intervals. */
  predicate InSomeRange(rs: seq<Range>, x: int) {
    exists k :: 0 <= k < |rs| && rs[k].start <= x <= rs[k].end
  }

  /** The element after position `j` is one more than the element at `j`. */
  predicate Continues(s: seq<int>, j: int)
    requires 0 <= j < |s| - 1
  {
    s[j + 1] == s[j] + 1
  }

  /** Every step from `lo` to `hi` goes up by exactly one. */
  predicate Consecutive(s: seq<int>, lo: int, hi: int)
    requires 0 <= lo && hi < |s|
  {
    forall j :: lo <= j < hi ==> Continues(s, j)
  }

  predicate StrictlyAscending(s: seq<int>) {
    forall i, j :: 0 <= i < j < |s| ==> s[i] < s[j]
  }

  /** The positions of `s` split into maximal consecutive blocks, scanning left to
      right: the element at position `n` joins the last block exactly when it is
      one more than the element before it. */
  function Blocks(s: seq<int>): (r: seq<Range>)
    ensures |r| == 0 <==> |s| == 0
    ensures |s| > 0 ==> r[0].start == 0 && r[|r| - 1].end == |s| - 1
    ensures WithinBounds(r, |s|)
    decreases |s|
  {
    if |s| == 0 then []
    else if |s| == 1 then [Range(0, 0)]
    else
      var n := |s| - 1;
      var p := Blocks(s[..n]);
      if s[n] == s[n - 1] + 1 then p[..|p| - 1] + [Range(p[|p| - 1].start, n)]
      else p + [Range(n, n)]
  }

  /** Each interval starts right after the previous one ends. */
  predicate Contiguous(rs: seq<Range>) {
    forall k :: 0 < k < |rs| ==> rs[k].start == rs[k - 1].end + 1
  }

  /** Inside every block of positions each step goes up by exactly one. */
  predicate AllConsecutive(s: seq<int>, blocks: seq<Range>)
    requires WithinBounds(blocks, |s|)
  {
    forall k :: 0 <= k < |blocks| ==> Consecutive(s, blocks[k].start, blocks[k].end)
  }

  /** The element after a block, if any, is not one more than the block's last
      element: no block can be extended. */
  predicate AllMaximal(s: seq<int>, blocks: seq<Range>)
    requires WithinBounds(blocks, |s|)
  {
    forall k :: 0 <= k < |blocks| && blocks[k].end + 1 < |s| ==> !Continues(s, blocks[k].end)
  }

  /** `blocks` splits the positions of `s`, in array order, into maximal runs of
      consecutive values. */
  predicate IsRunSplit(s: seq<int>, blocks: seq<Range>) {
    && WithinBounds(blocks, |s|)
    && (|blocks| == 0 <==> |s| == 0)
    && (|s| > 0 ==> blocks[0].start == 0 && blocks[|blocks| - 1].end == |s| - 1)
    && Contiguous(blocks)
    && AllConsecutive(s, blocks)
    && AllMaximal(s, blocks)
  }

  /** One step of the scan: the block list of a prefix one element longer. */
  lemma BlocksSnoc(s: seq<int>, n: int)
    requires 1 <= n < |s|
    ensures var p := Blocks(s[..n]);
      Blocks(s[..n + 1]) ==
        if s[n] == s[n - 1] + 1 then p[..|p| - 1] + [Range(p[|p| - 1].start, n)]
        else p + [Range(n, n)]
  {
    var t := s[..n + 1];
    assert t[..n] == s[..n];
    var p := Blocks(s[..n]);
    assert Blocks(t) ==
      if t[n] == t[n - 1] + 1 then p[..|p| - 1] + [Range(p[|p| - 1].start, n)]
      else p + [Range(n, n)];
  }

  lemma {:induction false} BlocksContiguous(s: seq<int>)
    ensures Contiguous(Blocks(s))
    decreases |s|
  {
    if |s| >= 2 {
      var n := |s| - 1;
      BlocksContiguous(s[..n]);
    }
  }

  lemma {:induction false} BlocksConsecutive(s: seq<int>)
    ensures AllConsecutive(s, Blocks(s))
    decreases |s|
  {
    if |s| >= 2 {
      var n := |s| - 1;
      var t := s[..n];
      var p := Blocks(t);
      BlocksConsecutive(t);
      var r := Blocks(s);
      forall k | 0 <= k < |r| ensures Consecutive(s, r[k].start, r[k].end) {
        if k < |p| {
          assert Consecutive(t, p[k].start, p[k].end);
          forall j | r[k].start <= j < r[k].end ensures Continues(s, j) {
            if j < n - 1 {
              assert Continues(t, j);
            }
          }
        }
      }
    }
  }

  lemma {:induction false} BlocksMaximal(s: seq<int>)
    ensures AllMaximal(s, Blocks(s))
    decreases |s|
  {
    if |s| >= 2 {
      var n := |s| - 1;
      var t := s[..n];
      var p := Blocks(t);
      BlocksMaximal(t);
      var r := Blocks(s);
      if Continues(s, n - 1) {
        assert r == p[..|p| - 1] + [Range(p[|p| - 1].start, n)];
        forall k | 0 <= k < |r| - 1 ensures r[k].end + 1 < |s| ==> !Continues(s, r[k].end) {
          assert r[k] == p[k] && !Continues(t, p[k].end);
        }
      } else {
        assert r == p + [Range(n, n)];
        forall k | 0 <= k < |r| - 1 ensures r[k].end + 1 < |s| ==> !Continues(s, r[k].end) {
          assert r[k] == p[k];
          if p[k].end + 1 < n {
            assert !Continues(t, p[k].end);
          }
        }
      }
    }
  }

  /** `Blocks` splits every list into maximal consecutive runs. */
  lemma BlocksIsRunSplit(s: seq<int>)
    ensures IsRunSplit(s, Blocks(s))
  {
    BlocksContiguous(s);
    BlocksConsecutive(s);
    BlocksMaximal(s);
  }

  /** Dropping the last element of a split list whose last block is longer
      than one element shortens that block. */
  lemma SplitShrinkBlock(s: seq<int>, blocks: seq<Range>)
    requires |s| >= 2 && IsRunSplit(s, blocks)
    requires blocks[|blocks| - 1].start < |s| - 1
    ensures Continues(s, |s| - 2)
    ensures IsRunSplit(s[..|s| - 1], blocks[..|blocks| - 1] + [Range(blocks[|blocks| - 1].start, |s| - 2)])
  {
    var n := |s| - 1;
    var t := s[..n];
    var last := |blocks| - 1;
    var shorter := blocks[..last] + [Range(blocks[last].start, n - 1)];
    forall k | 0 <= k < last ensures blocks[k].end < blocks[last].start {
      OrderedFromContiguous(blocks, k, last);
    }
    assert WithinBounds(shorter, |t|);
    assert Consecutive(s, blocks[last].start, blocks[last].end);
    forall k | 0 <= k < |shorter| ensures Consecutive(t, shorter[k].start, shorter[k].end) {
      assert Consecutive(s, blocks[k].start, blocks[k].end);
      forall j | shorter[k].start <= j < shorter[k].end ensures Continues(t, j) {
        assert Continues(s, j);
      }
    }
    forall k | 0 <= k < |shorter| && shorter[k].end + 1 < |t| ensures !Continues(t, shorter[k].end) {
      assert shorter[k] == blocks[k];
      assert !Continues(s, blocks[k].end);
    }
  }

  /** Dropping the last element of a split list whose last block is that
      element alone drops the block. */
  lemma SplitDropBlock(s: seq<int>, blocks: seq<Range>)
    requires |s| >= 2 && IsRunSplit(s, blocks)
    requires blocks[|blocks| - 1].start == |s| - 1
    ensures !Continues(s, |s| - 2)
    ensures IsRunSplit(s[..|s| - 1], blocks[..|blocks| - 1])
  {
    var n := |s| - 1;
    var t := s[..n];
    var last := |blocks| - 1;
    var front := blocks[..last];
    assert last > 0;
    assert blocks[last - 1].end == n - 1;
    forall k | 0 <= k < last ensures blocks[k].end < blocks[last].start {
      OrderedFromContiguous(blocks, k, last);
    }
    assert WithinBounds(front, |t|);
    forall k | 0 <= k < |front| ensures Consecutive(t, front[k].start, front[k].end) {
      assert Consecutive(s, blocks[k].start, blocks[k].end);
      forall j | front[k].start <= j < front[k].end ensures Continues(t, j) {
        assert Continues(s, j);
      }
    }
    forall k | 0 <= k < |front| && front[k].end + 1 < |t| ensures !Continues(t, front[k].end) {
      assert !Continues(s, blocks[k].end);
    }
  }

  /** ... and it is the only such split: a partition into contiguous blocks in
      array order, consecutive inside and maximal, is exactly `Blocks(s)`. */
  lemma {:induction false} RunSplitUnique(s: seq<int>, blocks: seq<Range>)
    requires IsRunSplit(s, blocks)
    ensures blocks == Blocks(s)
    decreases |s|
  {
    if |s| >= 2 {
      var n := |s| - 1;
      var last := |blocks| - 1;
      if blocks[last].start < n {
        SplitShrinkBlock(s, blocks);
        RunSplitUnique(s[..n], blocks[..last] + [Range(blocks[last].start, n - 1)]);
        GrowLastBlock(s, blocks);
      } else {
        SplitDropBlock(s, blocks);
        RunSplitUnique(s[..n], blocks[..last]);
        AddLastBlock(s, blocks);
      }
    }
  }

  /** The last step of `RunSplitUnique` when the last element extends the
      block before it. */
  lemma GrowLastBlock(s: seq<int>, blocks: seq<Range>)
    requires |s| >= 2 && |blocks| > 0
    requires Continues(s, |s| - 2)
    requires blocks[|blocks| - 1].start < |s| - 1 && blocks[|blocks| - 1].end == |s| - 1
    requires Blocks(s[..|s| - 1]) == blocks[..|blocks| - 1] + [Range(blocks[|blocks| - 1].start, |s| - 2)]
    ensures blocks == Blocks(s)
  {
    var n := |s| - 1;
    var last := |blocks| - 1;
    ExtendBlock(s, blocks[..last], blocks[last].start, n - 1);
    WholePrefix(s);
    SnocLast(blocks);
  }

  /** The last step of `RunSplitUnique` when the last element opens a block
      of its own. */
  lemma AddLastBlock(s: seq<int>, blocks: seq<Range>)
    requires |s| >= 2 && |blocks| > 0
    requires !Continues(s, |s| - 2)
    requires blocks[|blocks| - 1] == Range(|s| - 1, |s| - 1)
    requires Blocks(s[..|s| - 1]) == blocks[..|blocks| - 1]
    ensures blocks == Blocks(s)
  {
    var n := |s| - 1;
    var last := |blocks| - 1;
    OpenBlock(s, n);
    WholePrefix(s);
    SnocLast(blocks);
  }

  /** The prefix of full length is the sequence itself. */
  lemma WholePrefix(s: seq<int>)
    ensures Blocks(s[..|s|]) == Blocks(s)
  {
    assert s[..|s|] == s;
  }

  /** A non-empty list is its front followed by its last element. */
  lemma SnocLast(blocks: seq<Range>)
    requires |blocks| > 0
    ensures blocks[..|blocks| - 1] + [blocks[|blocks| - 1]] == blocks
  {
  }

  /** Every position lies in some block. */
  lemma CoverFromContiguous(r: seq<Range>, i: int, k: int)
    requires 0 <= k < |r| && r[0].start <= i <= r[k].end
    requires Contiguous(r)
    ensures InSomeRange(r, i)
    decreases k
  {
    if r[k].start > i {
      CoverFromContiguous(r, i, k - 1);
    }
  }

  lemma OrderedFromContiguous(r: seq<Range>, i: int, j: int)
    requires forall k :: 0 <= k < |r| ==> r[k].start <= r[k].end
    requires Contiguous(r)
    requires 0 <= i < j < |r|
    ensures r[i].end < r[j].start
    decreases j - i
  {
    if j > i + 1 {
      OrderedFromContiguous(r, i, j - 1);
    }
  }

  /** Blocks come in array order, never overlap, and together cover every position. */
  lemma BlocksOrderedCover(s: seq<int>)
    ensures Ordered(Blocks(s))
    ensures forall i :: 0 <= i < |s| ==> InSomeRange(Blocks(s), i)
  {
    var r := Blocks(s);
    BlocksContiguous(s);
    forall i, j | 0 <= i < j < |r| ensures r[i].end < r[j].start {
      OrderedFromContiguous(r, i, j);
    }
    forall i | 0 <= i < |s| ensures InSomeRange(r, i) {
      CoverFromContiguous(r, i, |r| - 1);
    }
  }

  /** Inside a consecutive stretch the value is the first value plus the offset. */
  lemma {:induction false} ConsecutiveOffset(s: seq<int>, lo: int, hi: int, j: int)
    requires 0 <= lo <= j <= hi < |s|
    requires Consecutive(s, lo, hi)
    ensures s[j] == s[lo] + (j - lo)
    decreases j - lo
  {
    if j > lo {
      ConsecutiveOffset(s, lo, hi, j - 1);
      assert Continues(s, j - 1);
    }
  }

  /** The intervals of values that the blocks of `s` span. */
  function Image(s: seq<int>, blocks: seq<Range>): (r: seq<Range>)
    requires WithinBounds(blocks, |s|)
    ensures |r| == |blocks|
  {
    seq(|blocks|, k requires 0 <= k < |blocks| => Range(s[blocks[k].start], s[blocks[k].end]))
  }

  /** What `get_ranges` returns: one `[first, last]` value pair per block. */
  function RangesOf(s: seq<int>): (r: seq<Range>)
    ensures |r| == |Blocks(s)|
  {
    Image(s, Blocks(s))
  }

  /** Appending one block to a block list appends its value pair to the image. */
  lemma ImageSnoc(s: seq<int>, blocks: seq<Range>, b: Range)
    requires WithinBounds(blocks, |s|) && 0 <= b.start <= b.end < |s|
    ensures WithinBounds(blocks + [b], |s|)
    ensures Image(s, blocks + [b]) == Image(s, blocks) + [Range(s[b.start], s[b.end])]
  {
    assert forall k :: 0 <= k < |blocks| ==> (blocks + [b])[k] == blocks[k];
  }

  /** The first block of a scan position: the scan is at the start of the list
      or the previous element does not continue into this one. */
  lemma OpenBlock(s: seq<int>, st: int)
    requires 0 <= st < |s|
    requires st == 0 || !Continues(s, st - 1)
    ensures Blocks(s[..st + 1]) == Blocks(s[..st]) + [Range(st, st)]
  {
    if st > 0 {
      BlocksSnoc(s, st);
    } else {
      assert |s[..1]| == 1;
    }
  }

  /** Stepping over a consecutive element extends the open block. */
  lemma ExtendBlock(s: seq<int>, done: seq<Range>, st: int, e: int)
    requires 0 <= st <= e && e + 1 < |s|
    requires Continues(s, e)
    requires Blocks(s[..e + 1]) == done + [Range(st, e)]
    ensures Blocks(s[..e + 2]) == done + [Range(st, e + 1)]
  {
    BlocksSnoc(s, e + 1);
    var p := Blocks(s[..e + 1]);
    assert p[..|p| - 1] == done;
  }

  /** A run of consecutive values that starts a block is the last block of
      the prefix ending with it. */
  lemma {:induction false} BlockOfRun(s: seq<int>, st: int, e: int)
    requires 0 <= st <= e < |s|
    requires st == 0 || !Continues(s, st - 1)
    requires Consecutive(s, st, e)
    ensures Blocks(s[..e + 1]) == Blocks(s[..st]) + [Range(st, e)]
    decreases e - st
  {
    if e == st {
      OpenBlock(s, st);
    } else {
      BlockOfRun(s, st, e - 1);
      ExtendBlock(s, Blocks(s[..st]), st, e - 1);
    }
  }

  /** Where the scan of `get_ranges` stands after looking at `s[..i]`: the
      closed ranges are the images of all blocks of the prefix but its last, and
      `start` is the first value of that last, still open block. */
  ghost predicate ScanState(s: seq<int>, i: int, ranges: seq<Range>, start: int)
    requires 1 <= i <= |s|
  {
    var b := Blocks(s[..i]);
    start == s[b[|b| - 1].start] && ranges == Image(s, b[..|b| - 1])
  }

  lemma ScanStep(s: seq<int>, i: int, ranges: seq<Range>, start: int)
    requires 1 <= i < |s| && ScanState(s, i, ranges, start)
    ensures s[i] != s[i - 1] + 1 ==> ScanState(s, i + 1, ranges + [Range(start, s[i - 1])], s[i])
    ensures s[i] == s[i - 1] + 1 ==> ScanState(s, i + 1, ranges, start)
  {
    if s[i] != s[i - 1] + 1 {
      ScanClose(s, i, ranges, start);
    } else {
      ScanExtend(s, i, ranges, start);
    }
  }

  /** A break closes the open run at the previous value and opens a new one. */
  lemma ScanClose(s: seq<int>, i: int, ranges: seq<Range>, start: int)
    requires 1 <= i < |s| && ScanState(s, i, ranges, start)
    requires s[i] != s[i - 1] + 1
    ensures ScanState(s, i + 1, ranges + [Range(start, s[i - 1])], s[i])
  {
    var p := Blocks(s[..i]);
    var last := |p| - 1;
    var b := p[last];
    assert b.end == i - 1;
    ImageSnoc(s, p[..last], b);
    assert p[..last] + [b] == p;
    assert Image(s, p) == ranges + [Range(start, s[i - 1])];
    OpenBlock(s, i);
    var q := Blocks(s[..i + 1]);
    assert q[..|q| - 1] == p && q[|q| - 1] == Range(i, i);
  }

  /** A consecutive element keeps the run open. */
  lemma ScanExtend(s: seq<int>, i: int, ranges: seq<Range>, start: int)
    requires 1 <= i < |s| && ScanState(s, i, ranges, start)
    requires s[i] == s[i - 1] + 1
    ensures ScanState(s, i + 1, ranges, start)
  {
    var p := Blocks(s[..i]);
    var last := |p| - 1;
    assert p == p[..last] + [Range(p[last].start, i - 1)];
    ExtendBlock(s, p[..last], p[last].start, i - 1);
    var q := Blocks(s[..i + 1]);
    assert q[..|q| - 1] == p[..last];
  }

  /** Once the whole list is scanned, closing the open run gives every range. */
  lemma ScanFinish(s: seq<int>, ranges: seq<Range>, start: int)
    requires |s| > 0 && ScanState(s, |s|, ranges, start)
    ensures ranges + [Range(start, s[|s| - 1])] == RangesOf(s)
  {
    assert s[..|s|] == s;
    var b := Blocks(s);
    assert b == b[..|b| - 1] + [b[|b| - 1]];
    ImageSnoc(s, b[..|b| - 1], b[|b| - 1]);
  }

  /** The scan behind `get_ranges` (the helper of `find_ranges_by_threshold`):
      `start` is the first value of the open run; a non-consecutive step closes
      it at the previous value and opens a new one. The helper reads `indices[0]`
      unguarded, so it is only ever called on a non-empty list. */
  method GetRanges(indices: seq<int>) returns (ranges: seq<Range>)
    requires |indices| > 0
    ensures ranges == RangesOf(indices)
  {
    ranges := [];
    var start := indices[0];
    for i := 1 to |indices|
      invariant ScanState(indices, i, ranges, start)
    {
      ScanStep(indices, i, ranges, start);
      if indices[i] != indices[i - 1] + 1 {
        ranges := ranges + [Range(start, indices[i - 1])];
        start := indices[i];
      }
    }
    ScanFinish(indices, ranges, start);
    ranges := ranges + [Range(start, indices[|indices| - 1])];
  }

  /** An element of a strictly ascending list lies in the range of its block. */
  lemma ElementInRange(s: seq<int>, i: int)
    requires StrictlyAscending(s) && 0 <= i < |s|
    ensures InSomeRange(RangesOf(s), s[i])
  {
    var b := Blocks(s);
    BlocksOrderedCover(s);
    assert InSomeRange(b, i);
    var k :| 0 <= k < |b| && b[k].start <= i <= b[k].end;
    assert s[b[k].start] <= s[i] <= s[b[k].end];
    assert RangesOf(s)[k] == Range(s[b[k].start], s[b[k].end]);
  }

  /** A value inside the range of a block is the element at its offset. */
  lemma RangeValueIsElement(s: seq<int>, k: int, x: int)
    requires 0 <= k < |RangesOf(s)| && RangesOf(s)[k].start <= x <= RangesOf(s)[k].end
    ensures x in s
  {
    var b := Blocks(s);
    BlocksConsecutive(s);
    var lo, hi := b[k].start, b[k].end;
    assert Consecutive(s, lo, hi);
    var j := lo + (x - s[lo]);
    ConsecutiveOffset(s, lo, hi, hi);
    ConsecutiveOffset(s, lo, hi, j);
  }

  /** For a strictly ascending index list the ranges cover exactly its elements:
      a value is in some range if and only if it occurs in the list, and every
      range endpoint is itself an element of the list. */
  lemma RangesCoverElements(s: seq<int>)
    requires StrictlyAscending(s)
    ensures forall x :: x in s <==> InSomeRange(RangesOf(s), x)
    ensures forall k :: 0 <= k < |RangesOf(s)| ==> RangesOf(s)[k].start in s && RangesOf(s)[k].end in s
  {
    var r := RangesOf(s);
    forall x | x in s ensures InSomeRange(r, x) {
      var i :| 0 <= i < |s| && s[i] == x;
      ElementInRange(s, i);
    }
    forall x | InSomeRange(r, x) ensures x in s {
      var k :| 0 <= k < |r| && r[k].start <= x <= r[k].end;
      RangeValueIsElement(s, k, x);
    }
  }

  /** For a strictly ascending index list every range has `start <= end`, and
      each range starts more than one past the end of the previous one, so the
      ranges are ordered, disjoint and never adjacent. */
  lemma RangesSeparated(s: seq<int>)
    requires StrictlyAscending(s)
    ensures var r := RangesOf(s);
      && (forall k :: 0 <= k < |r| ==> r[k].start <= r[k].end)
      && (forall k :: 0 < k < |r| ==> r[k].start > r[k - 1].end + 1)
  {
    var b := Blocks(s);
    var r := RangesOf(s);
    BlocksContiguous(s);
    BlocksMaximal(s);
    forall k | 0 <= k < |r| ensures r[k].start <= r[k].end {
      assert b[k].start <= b[k].end;
    }
    forall k | 0 < k < |r| ensures r[k].start > r[k - 1].end + 1 {
      var e := b[k - 1].end;
      assert b[k].start == e + 1;
      assert !Continues(s, e);
      assert s[e] < s[e + 1];
    }
  }
}
