/** The extremal range detector, `find_ranges_by_threshold`: where an integer
    series sits near its maximum and near its minimum.

    The thresholds are real numbers computed from the series' maximum and
    minimum and two caller-supplied percentages; a position belongs to the
    maxima set when its value is at least the maxima threshold and to the
    minima set when it is at most the minima threshold. Each set is collapsed
    into maximal runs of consecutive positions, and each run is reported with
    its largest (maxima) or smallest (minima) value. */
module Detector {
  import opened Runs

  datatype Error = EmptySeries
  datatype Result<T> = Ok(value: T) | Err(error: Error)

  datatype Detection = Detection(
    maximaRanges: seq<Range>,
    maximaValues: seq<int>,
    minimaRanges: seq<Range>,
    minimaValues: seq<int>)

  /** The largest element (`np.max`). */
  function SeqMax(s: seq<int>): (m: int)
    requires |s| > 0
    ensures m in s
    ensures forall i :: 0 <= i < |s| ==> s[i] <= m
  {
    if |s| == 1 then s[0]
    else
      var rest := SeqMax(s[1..]);
      if s[0] >= rest then s[0] else rest
  }

  /** The smallest element (`np.min`). */
  function SeqMin(s: seq<int>): (m: int)
    requires |s| > 0
    ensures m in s
    ensures forall i :: 0 <= i < |s| ==> m <= s[i]
  {
    if |s| == 1 then s[0]
    else
      var rest := SeqMin(s[1..]);
      if s[0] <= rest then s[0] else rest
  }

  /** `max_percentage * abs_max`: the threshold scales the maximum itself, so
      for a maximum that is not negative a percentage of at most 1 keeps the
      threshold at or below the maximum, while for a negative maximum the
      threshold lies above the maximum exactly when the percentage is below 1. */
  function MaxThreshold(absMax: int, maxPct: real): (t: real)
    ensures absMax >= 0 && maxPct <= 1.0 ==> t <= absMax as real
    ensures absMax < 0 ==> (t > absMax as real <==> maxPct < 1.0)
  {
    ScaleBelow(maxPct, absMax);
    maxPct * (absMax as real)
  }

  /** Scaling `a` by `p` stays at or below `a` for `a >= 0` and `p <= 1`, and
      lifts a negative `a` exactly when `p < 1`. */
  lemma ScaleBelow(p: real, x: int)
    ensures x >= 0 && p <= 1.0 ==> p * (x as real) <= x as real
    ensures x < 0 ==> (p * (x as real) > x as real <==> p < 1.0)
  {
    var a := x as real;
    assert p * a - a == (p - 1.0) * a;
    if x < 0 {
      if p < 1.0 {
        assert (p - 1.0) * a > 0.0;
      } else {
        assert (p - 1.0) * a <= 0.0;
      }
    }
  }

  /** `abs_min + min_percentage * (abs_max - abs_min)`: for `min <= max` and a
      percentage in `[0, 1]` the threshold lies between the minimum and the
      maximum. */
  function MinThreshold(absMin: int, absMax: int, minPct: real): (t: real)
    ensures absMin <= absMax && minPct >= 0.0 ==> absMin as real <= t
    ensures absMin <= absMax && minPct <= 1.0 ==> t <= absMax as real
  {
    assert absMin <= absMax && minPct <= 1.0 ==>
      (1.0 - minPct) * (absMax - absMin) as real >= 0.0;
    absMin as real + minPct * (absMax - absMin) as real
  }

  /** The positions where `mask` holds, in ascending order (`np.where(...)[0]`). */
  function Where(mask: seq<bool>): (r: seq<int>)
    ensures StrictlyAscending(r)
    ensures forall i :: i in r <==> 0 <= i < |mask| && mask[i]
    decreases |mask|
  {
    if |mask| == 0 then []
    else
      var n := |mask| - 1;
      var front := Where(mask[..n]);
      WhereBelow(mask[..n], front);
      front + (if mask[n] then [n] else [])
  }

  lemma WhereBelow(mask: seq<bool>, front: seq<int>)
    requires forall i :: i in front ==> 0 <= i < |mask|
    ensures forall i :: 0 <= i < |front| ==> front[i] < |mask|
  {
    forall i | 0 <= i < |front| ensures front[i] < |mask| {
      assert front[i] in front;
    }
  }

  /** `np.where(data >= t)[0]`. */
  function IndicesAtLeast(data: seq<int>, t: real): (r: seq<int>)
    ensures StrictlyAscending(r)
    ensures forall i :: i in r <==> 0 <= i < |data| && data[i] as real >= t
  {
    Where(seq(|data|, i requires 0 <= i < |data| => data[i] as real >= t))
  }

  /** `np.where(data <= t)[0]`. */
  function IndicesAtMost(data: seq<int>, t: real): (r: seq<int>)
    ensures StrictlyAscending(r)
    ensures forall i :: i in r <==> 0 <= i < |data| && data[i] as real <= t
  {
    Where(seq(|data|, i requires 0 <= i < |data| => data[i] as real <= t))
  }

  /** The positions at or above the maxima threshold. */
  function MaximaIndices(data: seq<int>, maxPct: real): (r: seq<int>)
    requires |data| > 0
    ensures StrictlyAscending(r)
    ensures forall i :: i in r <==> 0 <= i < |data| && data[i] as real >= MaxThreshold(SeqMax(data), maxPct)
  {
    IndicesAtLeast(data, MaxThreshold(SeqMax(data), maxPct))
  }

  /** The positions at or below the minima threshold. */
  function MinimaIndices(data: seq<int>, minPct: real): (r: seq<int>)
    requires |data| > 0
    ensures StrictlyAscending(r)
    ensures forall i :: i in r <==> 0 <= i < |data| && data[i] as real <= MinThreshold(SeqMin(data), SeqMax(data), minPct)
  {
    IndicesAtMost(data, MinThreshold(SeqMin(data), SeqMax(data), minPct))
  }

  /** The runs of an ascending list of valid positions are valid position
      intervals. */
  lemma RangesWithin(s: seq<int>, n: int)
    requires StrictlyAscending(s)
    requires forall x :: x in s ==> 0 <= x < n
    ensures WithinBounds(RangesOf(s), n)
  {
    RangesCoverElements(s);
    RangesSeparated(s);
  }

  /** `v` is the largest value of `data` over the positions of `r`. */
  predicate IsMaxOver(data: seq<int>, r: Range, v: int)
    requires 0 <= r.start <= r.end < |data|
  {
    v in data[r.start..r.end + 1] && forall j :: r.start <= j <= r.end ==> data[j] <= v
  }

  /** `v` is the smallest value of `data` over the positions of `r`. */
  predicate IsMinOver(data: seq<int>, r: Range, v: int)
    requires 0 <= r.start <= r.end < |data|
  {
    v in data[r.start..r.end + 1] && forall j :: r.start <= j <= r.end ==> v <= data[j]
  }

  /** `np.max(data[start:end + 1])`: the largest value over the positions of
      `r`. */
  function MaxOver(data: seq<int>, r: Range): (v: int)
    requires 0 <= r.start <= r.end < |data|
    ensures IsMaxOver(data, r, v)
  {
    var slice := data[r.start..r.end + 1];
    assert forall j :: r.start <= j <= r.end ==> data[j] <= SeqMax(slice) by {
      forall j | r.start <= j <= r.end ensures data[j] <= SeqMax(slice) {
        assert slice[j - r.start] == data[j];
      }
    }
    SeqMax(slice)
  }

  /** `np.min(data[start:end + 1])`: the smallest value over the positions of
      `r`. */
  function MinOver(data: seq<int>, r: Range): (v: int)
    requires 0 <= r.start <= r.end < |data|
    ensures IsMinOver(data, r, v)
  {
    var slice := data[r.start..r.end + 1];
    assert forall j :: r.start <= j <= r.end ==> SeqMin(slice) <= data[j] by {
      forall j | r.start <= j <= r.end ensures SeqMin(slice) <= data[j] {
        assert slice[j - r.start] == data[j];
      }
    }
    SeqMin(slice)
  }

  /** `[np.max(data[start:end + 1]) for start, end in ranges]`. */
  function RangeMaxima(data: seq<int>, ranges: seq<Range>): (vals: seq<int>)
    requires WithinBounds(ranges, |data|)
    ensures |vals| == |ranges|
    ensures forall k :: 0 <= k < |ranges| ==> IsMaxOver(data, ranges[k], vals[k])
  {
    seq(|ranges|, k requires 0 <= k < |ranges| => MaxOver(data, ranges[k]))
  }

  /** `[np.min(data[start:end + 1]) for start, end in ranges]`. */
  function RangeMinima(data: seq<int>, ranges: seq<Range>): (vals: seq<int>)
    requires WithinBounds(ranges, |data|)
    ensures |vals| == |ranges|
    ensures forall k :: 0 <= k < |ranges| ==> IsMinOver(data, ranges[k], vals[k])
  {
    seq(|ranges|, k requires 0 <= k < |ranges| => MinOver(data, ranges[k]))
  }

  /** The detector as a function of its inputs. An empty series has no maximum:
      `np.max` raises, which is the `EmptySeries` error. */
  function Detect(data: seq<int>, maxPct: real, minPct: real): (r: Result<Detection>)
    ensures r.Err? <==> |data| == 0
  {
    if |data| == 0 then Err(EmptySeries)
    else
      var maxIdx := MaximaIndices(data, maxPct);
      var minIdx := MinimaIndices(data, minPct);
      RangesWithin(maxIdx, |data|);
      RangesWithin(minIdx, |data|);
      var maxR := RangesOf(maxIdx);
      var minR := RangesOf(minIdx);
      Ok(Detection(maxR, RangeMaxima(data, maxR), minR, RangeMinima(data, minR)))
  }

  /** `find_ranges_by_threshold`: the thresholds, the two index sets, the runs
      of each (through `get_ranges`, only when the set is non-empty) and the
      extreme value of every run. */
  method FindRangesByThreshold(data: seq<int>, maxPct: real, minPct: real) returns (r: Result<Detection>)
    ensures r == Detect(data, maxPct, minPct)
  {
    if |data| == 0 {
      return Err(EmptySeries);
    }
    var maxIdx := MaximaIndices(data, maxPct);
    var minIdx := MinimaIndices(data, minPct);
    var maxR: seq<Range> := [];
    var minR: seq<Range> := [];
    if |maxIdx| > 0 {
      maxR := GetRanges(maxIdx);
    }
    if |minIdx| > 0 {
      minR := GetRanges(minIdx);
    }
    RangesWithin(maxIdx, |data|);
    RangesWithin(minIdx, |data|);
    r := Ok(Detection(maxR, RangeMaxima(data, maxR), minR, RangeMinima(data, minR)));
  }

  /** The fields of a detection, named. */
  lemma DetectFields(data: seq<int>, maxPct: real, minPct: real)
    requires |data| > 0
    ensures var d := Detect(data, maxPct, minPct).value;
      && d.maximaRanges == RangesOf(MaximaIndices(data, maxPct))
      && d.minimaRanges == RangesOf(MinimaIndices(data, minPct))
      && WithinBounds(d.maximaRanges, |data|) && WithinBounds(d.minimaRanges, |data|)
      && d.maximaValues == RangeMaxima(data, d.maximaRanges)
      && d.minimaValues == RangeMinima(data, d.minimaRanges)
  {
    RangesWithin(MaximaIndices(data, maxPct), |data|);
    RangesWithin(MinimaIndices(data, minPct), |data|);
  }

  /** A position is in some maxima range exactly when its value reaches the
      maxima threshold, and in some minima range exactly when its value is at
      most the minima threshold; nothing outside the series is covered. */
  lemma DetectMembership(data: seq<int>, maxPct: real, minPct: real)
    requires |data| > 0
    ensures var d := Detect(data, maxPct, minPct).value;
      && (forall i :: InSomeRange(d.maximaRanges, i) <==> 0 <= i < |data| && data[i] as real >= MaxThreshold(SeqMax(data), maxPct))
      && (forall i :: InSomeRange(d.minimaRanges, i) <==> 0 <= i < |data| && data[i] as real <= MinThreshold(SeqMin(data), SeqMax(data), minPct))
  {
    DetectFields(data, maxPct, minPct);
    RangesCoverElements(MaximaIndices(data, maxPct));
    RangesCoverElements(MinimaIndices(data, minPct));
  }

  /** Every range is a valid, non-empty position interval of the series; the
      ranges of each list are ascending and separated by at least one position
      that is not in the set. */
  lemma DetectRangesWellFormed(data: seq<int>, maxPct: real, minPct: real)
    requires |data| > 0
    ensures var d := Detect(data, maxPct, minPct).value;
      && WithinBounds(d.maximaRanges, |data|)
      && WithinBounds(d.minimaRanges, |data|)
      && (forall k :: 0 < k < |d.maximaRanges| ==> d.maximaRanges[k].start > d.maximaRanges[k - 1].end + 1)
      && (forall k :: 0 < k < |d.minimaRanges| ==> d.minimaRanges[k].start > d.minimaRanges[k - 1].end + 1)
  {
    DetectFields(data, maxPct, minPct);
    RangesSeparated(MaximaIndices(data, maxPct));
    RangesSeparated(MinimaIndices(data, minPct));
  }

  /** Each value list is aligned with its range list; every maxima value is the
      largest value of its range and reaches the maxima threshold, every minima
      value is the smallest of its range and is at most the minima threshold. */
  lemma DetectValues(data: seq<int>, maxPct: real, minPct: real)
    requires |data| > 0
    ensures var d := Detect(data, maxPct, minPct).value;
      && |d.maximaValues| == |d.maximaRanges|
      && |d.minimaValues| == |d.minimaRanges|
      && WithinBounds(d.maximaRanges, |data|)
      && WithinBounds(d.minimaRanges, |data|)
      && (forall k :: 0 <= k < |d.maximaRanges| ==>
            IsMaxOver(data, d.maximaRanges[k], d.maximaValues[k])
            && d.maximaValues[k] as real >= MaxThreshold(SeqMax(data), maxPct))
      && (forall k :: 0 <= k < |d.minimaRanges| ==>
            IsMinOver(data, d.minimaRanges[k], d.minimaValues[k])
            && d.minimaValues[k] as real <= MinThreshold(SeqMin(data), SeqMax(data), minPct))
  {
    var d := Detect(data, maxPct, minPct).value;
    DetectFields(data, maxPct, minPct);
    DetectMembership(data, maxPct, minPct);
    forall k | 0 <= k < |d.maximaRanges| ensures d.maximaValues[k] as real >= MaxThreshold(SeqMax(data), maxPct) {
      var r := d.maximaRanges[k];
      assert InSomeRange(d.maximaRanges, r.end);
      assert data[r.end] <= d.maximaValues[k];
    }
    forall k | 0 <= k < |d.minimaRanges| ensures d.minimaValues[k] as real <= MinThreshold(SeqMin(data), SeqMax(data), minPct) {
      var r := d.minimaRanges[k];
      assert InSomeRange(d.minimaRanges, r.end);
      assert d.minimaValues[k] <= data[r.end];
    }
  }

  /** With a non-negative minima percentage the minima set is never empty:
      every position holding the minimum is in some minima range. */
  lemma MinimumIsInMinima(data: seq<int>, maxPct: real, minPct: real, i: int)
    requires 0 <= i < |data| && data[i] == SeqMin(data) && minPct >= 0.0
    ensures InSomeRange(Detect(data, maxPct, minPct).value.minimaRanges, i)
  {
    assert SeqMin(data) <= data[0] <= SeqMax(data);
    DetectMembership(data, maxPct, minPct);
    assert data[i] as real <= MinThreshold(SeqMin(data), SeqMax(data), minPct);
  }

  /** With a maxima percentage of at most 1 and a maximum that is not negative,
      every position holding the maximum is in some maxima range. */
  lemma MaximumIsInMaxima(data: seq<int>, maxPct: real, minPct: real, i: int)
    requires 0 <= i < |data| && data[i] == SeqMax(data) && SeqMax(data) >= 0 && maxPct <= 1.0
    ensures InSomeRange(Detect(data, maxPct, minPct).value.maximaRanges, i)
  {
    DetectMembership(data, maxPct, minPct);
    assert data[i] as real >= MaxThreshold(SeqMax(data), maxPct);
  }

  /** The maxima threshold scales the maximum rather than the spread, so for a
      series whose values are all negative any percentage below 1 puts the
      threshold above the maximum and the maxima list comes out empty. */
  lemma NegativeSeriesHasNoMaxima(data: seq<int>, maxPct: real, minPct: real)
    requires |data| > 0 && SeqMax(data) < 0 && maxPct < 1.0
    ensures Detect(data, maxPct, minPct).value.maximaRanges == []
    ensures Detect(data, maxPct, minPct).value.maximaValues == []
  {
    var d := Detect(data, maxPct, minPct).value;
    DetectFields(data, maxPct, minPct);
    DetectMembership(data, maxPct, minPct);
    forall i | 0 <= i < |data| ensures data[i] as real < MaxThreshold(SeqMax(data), maxPct) {
      assert data[i] <= SeqMax(data);
    }
    FirstRangeCovered(d.maximaRanges);
  }

  /** ... and for a percentage of at least 1 the maximum of an all-negative
      series reaches the threshold, so every position holding it is in some
      maxima range and the maxima list is not empty. */
  lemma NegativeMaximumInMaxima(data: seq<int>, maxPct: real, minPct: real, i: int)
    requires 0 <= i < |data| && data[i] == SeqMax(data) && SeqMax(data) < 0 && maxPct >= 1.0
    ensures InSomeRange(Detect(data, maxPct, minPct).value.maximaRanges, i)
    ensures |Detect(data, maxPct, minPct).value.maximaRanges| > 0
  {
    DetectMembership(data, maxPct, minPct);
    assert data[i] as real >= MaxThreshold(SeqMax(data), maxPct);
  }

  lemma FirstRangeCovered(rs: seq<Range>)
    requires forall k :: 0 <= k < |rs| ==> rs[k].start <= rs[k].end
    ensures |rs| > 0 ==> InSomeRange(rs, rs[0].start)
  {
    if |rs| > 0 {
      assert rs[0].start <= rs[0].start <= rs[0].end;
    }
  }

  /** Strictly ascending lists with the same elements start alike. */
  lemma AscendingHeads(a: seq<int>, b: seq<int>)
    requires StrictlyAscending(a) && StrictlyAscending(b)
    requires forall x :: x in a <==> x in b
    requires |a| > 0
    ensures |b| > 0 && a[0] == b[0]
  {
    assert a[0] in a;
    var j :| 0 <= j < |b| && b[j] == a[0];
    assert b[0] in b;
    var k :| 0 <= k < |a| && a[k] == b[0];
    assert b[0] <= b[j] && a[0] <= a[k];
  }

  /** ... and after dropping that common head, the rest have the same elements. */
  lemma AscendingTails(a: seq<int>, b: seq<int>)
    requires StrictlyAscending(a) && StrictlyAscending(b)
    requires forall x :: x in a <==> x in b
    requires |a| > 0 && |b| > 0 && a[0] == b[0]
    ensures StrictlyAscending(a[1..]) && StrictlyAscending(b[1..])
    ensures forall x :: x in a[1..] <==> x in b[1..]
  {
    forall x | x in a[1..] ensures x in b[1..] {
      var m :| 0 <= m < |a| - 1 && a[1..][m] == x;
      assert a[m + 1] == x && x in a;
      var j :| 0 <= j < |b| && b[j] == x;
      assert a[0] < a[m + 1];
      assert b[1..][j - 1] == x;
    }
    forall x | x in b[1..] ensures x in a[1..] {
      var m :| 0 <= m < |b| - 1 && b[1..][m] == x;
      assert b[m + 1] == x && x in b;
      var j :| 0 <= j < |a| && a[j] == x;
      assert b[0] < b[m + 1];
      assert a[1..][j - 1] == x;
    }
  }

  /** Two strictly ascending lists with the same elements are equal. */
  lemma {:induction false} AscendingDeterminedByElements(a: seq<int>, b: seq<int>)
    requires StrictlyAscending(a) && StrictlyAscending(b)
    requires forall x :: x in a <==> x in b
    ensures a == b
    decreases |a|
  {
    if |a| > 0 {
      AscendingHeads(a, b);
      AscendingTails(a, b);
      AscendingDeterminedByElements(a[1..], b[1..]);
      assert a == [a[0]] + a[1..] && b == [b[0]] + b[1..];
    } else if |b| > 0 {
      AscendingHeads(b, a);
    }
  }

  /** Position by position from `from` on, `data[i] >= t` exactly when `i` is in `e`. */
  predicate AtLeastAgrees(data: seq<int>, t: real, e: seq<int>, from: nat)
    decreases |data| - from
  {
    from >= |data| || ((data[from] as real >= t <==> from in e) && AtLeastAgrees(data, t, e, from + 1))
  }

  /** Position by position from `from` on, `data[i] <= t` exactly when `i` is in `e`. */
  predicate AtMostAgrees(data: seq<int>, t: real, e: seq<int>, from: nat)
    decreases |data| - from
  {
    from >= |data| || ((data[from] as real <= t <==> from in e) && AtMostAgrees(data, t, e, from + 1))
  }

  lemma {:induction false} AtLeastAgreesAll(data: seq<int>, t: real, e: seq<int>, from: nat)
    requires AtLeastAgrees(data, t, e, from)
    ensures forall i :: from <= i < |data| ==> (data[i] as real >= t <==> i in e)
    decreases |data| - from
  {
    if from < |data| {
      AtLeastAgreesAll(data, t, e, from + 1);
    }
  }

  lemma {:induction false} AtMostAgreesAll(data: seq<int>, t: real, e: seq<int>, from: nat)
    requires AtMostAgrees(data, t, e, from)
    ensures forall i :: from <= i < |data| ==> (data[i] as real <= t <==> i in e)
    decreases |data| - from
  {
    if from < |data| {
      AtMostAgreesAll(data, t, e, from + 1);
    }
  }

  /** The positions reaching `t` are those of the ascending list `e`. */
  lemma IndicesAtLeastAre(data: seq<int>, t: real, e: seq<int>)
    requires StrictlyAscending(e)
    requires forall x :: x in e ==> 0 <= x < |data|
    requires AtLeastAgrees(data, t, e, 0)
    ensures IndicesAtLeast(data, t) == e
  {
    AtLeastAgreesAll(data, t, e, 0);
    AscendingDeterminedByElements(IndicesAtLeast(data, t), e);
  }

  /** The positions not exceeding `t` are those of the ascending list `e`. */
  lemma IndicesAtMostAre(data: seq<int>, t: real, e: seq<int>)
    requires StrictlyAscending(e)
    requires forall x :: x in e ==> 0 <= x < |data|
    requires AtMostAgrees(data, t, e, 0)
    ensures IndicesAtMost(data, t) == e
  {
    AtMostAgreesAll(data, t, e, 0);
    AscendingDeterminedByElements(IndicesAtMost(data, t), e);
  }

  /** The one-position index lists of a one-frame series. */
  lemma SingleFrameIndices(x: int, maxPct: real, minPct: real)
    ensures MinimaIndices([x], minPct) == [0]
    ensures MaximaIndices([x], maxPct) == if x as real >= MaxThreshold(x, maxPct) then [0] else []
  {
    var data := [x];
    assert SeqMax(data) == x && SeqMin(data) == x;
    MinThresholdOfConstant(x, minPct);
    IndicesOfSingle(x, MaxThreshold(x, maxPct));
    IndicesOfSingle(x, MinThreshold(x, x, minPct));
  }

  /** The index selections of a one-frame series against any threshold. */
  lemma IndicesOfSingle(x: int, t: real)
    ensures IndicesAtLeast([x], t) == if x as real >= t then [0] else []
    ensures IndicesAtMost([x], t) == if x as real <= t then [0] else []
  {
    AtLeastOfSingle(x, t);
    AtMostOfSingle(x, t);
  }

  lemma AtLeastOfSingle(x: int, t: real)
    ensures IndicesAtLeast([x], t) == if x as real >= t then [0] else []
  {
    if x as real >= t {
      IndicesAtLeastAre([x], t, [0]);
    } else {
      IndicesAtLeastAre([x], t, []);
    }
  }

  lemma AtMostOfSingle(x: int, t: real)
    ensures IndicesAtMost([x], t) == if x as real <= t then [0] else []
  {
    if x as real <= t {
      IndicesAtMostAre([x], t, [0]);
    } else {
      IndicesAtMostAre([x], t, []);
    }
  }

  lemma MinThresholdOfConstant(x: int, minPct: real)
    ensures MinThreshold(x, x, minPct) == x as real
  {
  }

  /** A series of one frame: its single position is always a minima range of
      its own (the minima threshold equals the value), and it is a maxima range
      exactly when the value reaches `max_percentage` times itself. */
  lemma SingleFrame(x: int, maxPct: real, minPct: real)
    ensures var d := Detect([x], maxPct, minPct).value;
      && d.minimaRanges == [Range(0, 0)] && d.minimaValues == [x]
      && d.maximaRanges == (if x as real >= MaxThreshold(x, maxPct) then [Range(0, 0)] else [])
      && d.maximaValues == (if x as real >= MaxThreshold(x, maxPct) then [x] else [])
  {
    DetectFields([x], maxPct, minPct);
    SingleFrameIndices(x, maxPct, minPct);
    SingleFrameRuns(x);
  }

  /** The runs of the one-position index list and their extreme values. */
  lemma SingleFrameRuns(x: int)
    ensures RangesOf([0]) == [Range(0, 0)] && RangesOf([]) == []
    ensures RangeMaxima([x], [Range(0, 0)]) == [x] && RangeMinima([x], [Range(0, 0)]) == [x]
    ensures RangeMaxima([x], []) == []
  {
    assert Blocks([0]) == [Range(0, 0)];
    assert [x][0..1] == [x];
  }

  /** The runs of an ascending list given as its blocks of positions. */
  lemma RangesFromSplit(s: seq<int>, blocks: seq<Range>)
    requires IsRunSplit(s, blocks)
    ensures RangesOf(s) == Image(s, blocks)
  {
    RunSplitUnique(s, blocks);
  }

  /** The series of the worked example below. */
  const Example: seq<int> := [10, 20, 90, 95, 92, 15, 10, 50]

  lemma ExampleExtremes()
    ensures SeqMax(Example) == 95 && SeqMin(Example) == 10
  {
    ExtremeAt(Example, 3, 0);
  }

  /** An element bounding all others from above (below) is the maximum (minimum). */
  lemma ExtremeAt(s: seq<int>, hi: int, lo: int)
    requires 0 <= hi < |s| && 0 <= lo < |s|
    requires forall i :: 0 <= i < |s| ==> s[lo] <= s[i] <= s[hi]
    ensures SeqMax(s) == s[hi] && SeqMin(s) == s[lo]
  {
  }

  /** Position by position, which frames of the example reach 76, and which
      stay at or below 27. */
  lemma ExampleAbove()
    ensures StrictlyAscending([2, 3, 4])
    ensures forall x :: x in [2, 3, 4] ==> 0 <= x < |Example|
    ensures AtLeastAgrees(Example, 76.0, [2, 3, 4], 0)
  {
  }

  lemma ExampleBelow()
    ensures StrictlyAscending([0, 1, 5, 6])
    ensures forall x :: x in [0, 1, 5, 6] ==> 0 <= x < |Example|
    ensures AtMostAgrees(Example, 27.0, [0, 1, 5, 6], 0)
  {
  }

  lemma ExampleThresholds()
    ensures MaxThreshold(SeqMax(Example), 0.8) == 76.0
    ensures MinThreshold(SeqMin(Example), SeqMax(Example), 0.2) == 27.0
  {
    ExampleExtremes();
  }

  /** Maximum 95 with `max_percentage` 0.8 gives the threshold 76, reached at
      positions 2, 3 and 4. */
  lemma ExampleMaximaIndices()
    ensures MaximaIndices(Example, 0.8) == [2, 3, 4]
  {
    ExampleThresholds();
    ExampleAbove();
    IndicesAtLeastAre(Example, 76.0, [2, 3, 4]);
  }

  /** Minimum 10 and maximum 95 with `min_percentage` 0.2 give the threshold
      27, not exceeded at positions 0, 1, 5 and 6. */
  lemma ExampleMinimaIndices()
    ensures MinimaIndices(Example, 0.2) == [0, 1, 5, 6]
  {
    ExampleThresholds();
    ExampleBelow();
    IndicesAtMostAre(Example, 27.0, [0, 1, 5, 6]);
  }

  /** The maxima positions form one run. */
  lemma ExampleMaximaRanges()
    ensures RangesOf([2, 3, 4]) == [Range(2, 4)]
  {
    var idx := [2, 3, 4];
    assert IsRunSplit(idx, [Range(0, 2)]) by {
      assert Continues(idx, 0) && Continues(idx, 1);
    }
    RangesFromSplit(idx, [Range(0, 2)]);
  }

  /** The minima positions form two runs, broken between 1 and 5. */
  lemma ExampleMinimaRanges()
    ensures RangesOf([0, 1, 5, 6]) == [Range(0, 1), Range(5, 6)]
  {
    var idx := [0, 1, 5, 6];
    assert IsRunSplit(idx, [Range(0, 1), Range(2, 3)]) by {
      assert Continues(idx, 0) && !Continues(idx, 1) && Continues(idx, 2);
    }
    RangesFromSplit(idx, [Range(0, 1), Range(2, 3)]);
  }

  /** The peak of the maxima run and the floors of the two minima runs. */
  lemma ExamplePeakValue()
    ensures RangeMaxima(Example, [Range(2, 4)]) == [95]
  {
    assert Example[2..5] == [90, 95, 92];
    ExtremeAt([90, 95, 92], 1, 0);
  }

  lemma ExampleFloorValues()
    ensures RangeMinima(Example, [Range(0, 1), Range(5, 6)]) == [10, 10]
  {
    assert Example[0..2] == [10, 20];
    ExtremeAt([10, 20], 1, 0);
    assert Example[5..7] == [15, 10];
    ExtremeAt([15, 10], 0, 1);
  }

  /** The worked example: one maxima range peaking at 95 and two minima
      ranges bottoming at 10. */
  lemma WorkedExample()
    ensures Detect(Example, 0.8, 0.2) ==
      Ok(Detection([Range(2, 4)], [95], [Range(0, 1), Range(5, 6)], [10, 10]))
  {
    DetectFields(Example, 0.8, 0.2);
    ExampleMaximaIndices();
    ExampleMinimaIndices();
    ExampleMaximaRanges();
    ExampleMinimaRanges();
    ExamplePeakValue();
    ExampleFloorValues();
  }
}
