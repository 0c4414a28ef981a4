/** One fine-tuning record per series (`process_npy_file_for_com`): the
    instruction (the metric's template followed by the frame count), the
    series itself, and the textual answer naming the maxima and minima ranges
    as Python prints a list of `[start, end]` pairs. Parsers read the text
    back, so the answer determines the ranges it was made from. */
module RecordText {
  import opened Decimal
  import opened Runs
  import opened Detector

  datatype Record = Record(instruction: string, integer: seq<int>, output: string)

  /** `str(x)` for an integer. */
  function ShowInt(x: int): (s: string)
    ensures |s| > 0
    ensures s[0] == '-' <==> x < 0
    ensures x >= 0 ==> AllDigits(s)
    ensures x < 0 ==> AllDigits(s[1..])
  {
    if x < 0 then
      var d := Digits(-x);
      assert ("-" + d)[1..] == d;
      "-" + d
    else Digits(x)
  }

  /** Reads an optionally negated numeral off the front of `s`. */
  function ParseInt(s: string): (r: Option<(int, string)>)
    ensures r.Some? ==> |r.value.1| < |s|
  {
    if |s| > 0 && s[0] == '-' then
      match ParseNat(s[1..])
      case None => None
      case Some((n, rest)) => Some((-(n as int), rest))
    else
      match ParseNat(s)
      case None => None
      case Some((n, rest)) => Some((n as int, rest))
  }

  lemma ParseIntShow(x: int, rest: string)
    requires |rest| == 0 || !IsDigit(rest[0])
    ensures ParseInt(ShowInt(x) + rest) == Some((x, rest))
  {
    if x < 0 {
      ParseNegative(-x, rest);
    } else {
      ParseNonNegative(x, rest);
    }
  }

  lemma ParseNegative(n: nat, rest: string)
    requires n > 0
    requires |rest| == 0 || !IsDigit(rest[0])
    ensures ParseInt("-" + Digits(n) + rest) == Some((-(n as int), rest))
  {
    var s := "-" + Digits(n) + rest;
    assert s[0] == '-' && s[1..] == Digits(n) + rest;
    ParseNatDigits(n, rest);
  }

  lemma ParseNonNegative(n: nat, rest: string)
    requires |rest| == 0 || !IsDigit(rest[0])
    ensures ParseInt(Digits(n) + rest) == Some((n, rest))
  {
    var s := Digits(n) + rest;
    assert s[0] == Digits(n)[0];
    ParseNatDigits(n, rest);
  }

  /** `str([start, end])`. */
  function ShowRange(r: Range): (s: string)
    ensures |s| >= 6 && s[0] == '[' && s[|s| - 1] == ']'
  {
    "[" + ShowInt(r.start) + ", " + ShowInt(r.end) + "]"
  }

  /** The elements of a list joined by ", ". */
  function ShowItems(rs: seq<Range>): (s: string)
    ensures |s| == 0 <==> |rs| == 0
    ensures |rs| > 0 ==> s[0] == '[' && s[|s| - 1] == ']'
    decreases |rs|
  {
    if |rs| == 0 then ""
    else if |rs| == 1 then ShowRange(rs[0])
    else ShowRange(rs[0]) + ", " + ShowItems(rs[1..])
  }

  /** `str(ranges)` for a list of `[start, end]` pairs. */
  function ShowRanges(rs: seq<Range>): (s: string)
    ensures |s| >= 2 && s[0] == '[' && s[|s| - 1] == ']'
  {
    "[" + ShowItems(rs) + "]"
  }

  /** What follows the text `p` at the front of `s`, if `s` starts with it. */
  function Expect(s: string, p: string): (r: Option<string>)
    ensures r.Some? ==> |r.value| == |s| - |p|
  {
    if |p| <= |s| && s[..|p|] == p then Some(s[|p|..]) else None
  }

  lemma ExpectFront(p: string, rest: string)
    ensures Expect(p + rest, p) == Some(rest)
  {
    assert (p + rest)[..|p|] == p;
    assert (p + rest)[|p|..] == rest;
  }

  /** Reads one `[start, end]` pair off the front of `s`. */
  function ParseRange(s: string): (r: Option<(Range, string)>)
    ensures r.Some? ==> |r.value.1| < |s|
  {
    match Expect(s, "[")
    case None => None
    case Some(s1) =>
      match ParseInt(s1)
      case None => None
      case Some((a, s2)) =>
        match Expect(s2, ", ")
        case None => None
        case Some(s3) =>
          match ParseInt(s3)
          case None => None
          case Some((b, s4)) =>
            match Expect(s4, "]")
            case None => None
            case Some(s5) => Some((Range(a, b), s5))
  }

  lemma ParseRangeShow(r: Range, rest: string)
    ensures ParseRange(ShowRange(r) + rest) == Some((r, rest))
  {
    var t4 := "]" + rest;
    var t3 := ShowInt(r.end) + t4;
    var t2 := ", " + t3;
    var t1 := ShowInt(r.start) + t2;
    var t0 := "[" + t1;
    ShowRangeText(r, rest);
    ExpectFront("[", t1);
    ParseIntShow(r.start, t2);
    ExpectFront(", ", t3);
    ParseIntShow(r.end, t4);
    ExpectFront("]", rest);
  }

  lemma ShowRangeText(r: Range, rest: string)
    ensures ShowRange(r) + rest == "[" + (ShowInt(r.start) + (", " + (ShowInt(r.end) + ("]" + rest))))
  {
  }

  /** Reads `pair, pair, ..., pair` off the front of `s`. */
  function ParseItems(s: string): (r: Option<(seq<Range>, string)>)
    ensures r.Some? ==> |r.value.1| < |s|
    decreases |s|
  {
    match ParseRange(s)
    case None => None
    case Some((x, t)) =>
      match Expect(t, ", ")
      case None => Some(([x], t))
      case Some(u) =>
        match ParseItems(u)
        case None => None
        case Some((xs, v)) => Some(([x] + xs, v))
  }

  /** A text whose first character differs from that of `p` does not start with `p`. */
  lemma ExpectMismatch(s: string, p: string)
    requires |s| > 0 && |p| > 0 && s[0] != p[0]
    ensures Expect(s, p).None?
  {
    if |p| <= |s| {
      assert s[..|p|][0] != p[0];
    }
  }

  /** The last pair of a list, followed by anything but ", ". */
  lemma ParseLastItem(r: Range, rest: string)
    requires Expect(rest, ", ").None?
    ensures ParseItems(ShowRange(r) + rest) == Some(([r], rest))
  {
    ParseRangeShow(r, rest);
  }

  /** A pair followed by ", " and a list that parses. */
  lemma ParseItemsCons(r: Range, more: string, xs: seq<Range>, rest: string)
    requires ParseItems(more) == Some((xs, rest))
    ensures ParseItems(ShowRange(r) + (", " + more)) == Some(([r] + xs, rest))
  {
    ParseRangeShow(r, ", " + more);
    ExpectFront(", ", more);
  }

  lemma ShowItemsCons(rs: seq<Range>, rest: string)
    requires |rs| > 1
    ensures ShowItems(rs) + rest == ShowRange(rs[0]) + (", " + (ShowItems(rs[1..]) + rest))
  {
    var a, b := ShowRange(rs[0]), ShowItems(rs[1..]);
    assert ShowItems(rs) == (a + ", ") + b;
    AppendAssoc(a + ", ", b, rest);
    AppendAssoc(a, ", ", b + rest);
  }

  lemma AppendAssoc(a: string, b: string, c: string)
    ensures (a + b) + c == a + (b + c)
  {
  }

  /** One more pair in front of a list that reads back. */
  lemma ParseItemsStep(rs: seq<Range>, rest: string)
    requires |rs| > 1
    requires ParseItems(ShowItems(rs[1..]) + rest) == Some((rs[1..], rest))
    ensures ParseItems(ShowItems(rs) + rest) == Some((rs, rest))
  {
    var more := ShowItems(rs[1..]) + rest;
    ParseItemsCons(rs[0], more, rs[1..], rest);
    ShowItemsCons(rs, rest);
    HeadTail(rs);
  }

  lemma HeadTail(rs: seq<Range>)
    requires |rs| > 0
    ensures [rs[0]] + rs[1..] == rs
  {
  }

  lemma {:induction false} ParseItemsShow(rs: seq<Range>, rest: string)
    requires |rs| > 0
    requires Expect(rest, ", ").None?
    ensures ParseItems(ShowItems(rs) + rest) == Some((rs, rest))
    decreases |rs|
  {
    if |rs| == 1 {
      ParseLastItem(rs[0], rest);
      assert ShowItems(rs) == ShowRange(rs[0]) && rs == [rs[0]];
    } else {
      ParseItemsShow(rs[1..], rest);
      ParseItemsStep(rs, rest);
    }
  }

  /** Reads a printed list of pairs off the front of `s`. */
  function ParseRanges(s: string): (r: Option<(seq<Range>, string)>)
    ensures r.Some? ==> |r.value.1| < |s|
  {
    match Expect(s, "[")
    case None => None
    case Some(s1) =>
      match Expect(s1, "]")
      case Some(s2) => Some(([], s2))
      case None =>
        match ParseItems(s1)
        case None => None
        case Some((xs, s2)) =>
          match Expect(s2, "]")
          case None => None
          case Some(s3) => Some((xs, s3))
  }

  /** Reading a printed list gives back the list and exactly what followed. */
  lemma ParseRangesShow(rs: seq<Range>, rest: string)
    ensures ParseRanges(ShowRanges(rs) + rest) == Some((rs, rest))
  {
    var t1 := "]" + rest;
    if |rs| == 0 {
      assert ShowRanges(rs) + rest == "[" + t1;
      ExpectFront("[", t1);
      ExpectFront("]", rest);
    } else {
      var t0 := ShowItems(rs) + t1;
      assert ShowRanges(rs) + rest == "[" + t0;
      ExpectFront("[", t0);
      assert t0[0] == ShowRange(rs[0])[0] == '[';
      ExpectMismatch(t0, "]");
      ExpectMismatch(t1, ", ");
      ParseItemsShow(rs, t1);
      ExpectFront("]", rest);
    }
  }

  const MaximaLabel := "Local maxima: "
  const MinimaLabel := "Local minima: "

  /** The answer text: `f"{maxima_text}."` followed by `f"{minima_text}."`,
      where each text is its label, the printed ranges and a full stop. */
  function OutputText(maxR: seq<Range>, minR: seq<Range>): (s: string)
    ensures |s| > |MaximaLabel| + 2
    ensures s[..|MaximaLabel|] == MaximaLabel && s[|s| - 2..] == ".."
  {
    MaximaLabel + ShowRanges(maxR) + ".." + MinimaLabel + ShowRanges(minR) + ".."
  }

  /** Reads the maxima and minima ranges back out of an answer text. */
  function ParseOutput(s: string): Option<(seq<Range>, seq<Range>)> {
    match Expect(s, MaximaLabel)
    case None => None
    case Some(s1) =>
      match ParseRanges(s1)
      case None => None
      case Some((a, s2)) =>
        match Expect(s2, ".." + MinimaLabel)
        case None => None
        case Some(s3) =>
          match ParseRanges(s3)
          case None => None
          case Some((b, s4)) => if s4 == ".." then Some((a, b)) else None
  }

  /** The answer text names exactly the ranges it was made from. */
  lemma ParseOutputText(maxR: seq<Range>, minR: seq<Range>)
    ensures ParseOutput(OutputText(maxR, minR)) == Some((maxR, minR))
  {
    var t2 := ShowRanges(minR) + "..";
    var t1 := (".." + MinimaLabel) + t2;
    var t0 := ShowRanges(maxR) + t1;
    OutputTextSplit(maxR, minR);
    ExpectFront(MaximaLabel, t0);
    ParseRangesShow(maxR, t1);
    ExpectFront(".." + MinimaLabel, t2);
    ParseRangesShow(minR, "..");
  }

  lemma OutputTextSplit(maxR: seq<Range>, minR: seq<Range>)
    ensures OutputText(maxR, minR) ==
      MaximaLabel + (ShowRanges(maxR) + ((".." + MinimaLabel) + (ShowRanges(minR) + "..")))
  {
    var a, b, stop := ShowRanges(maxR), ShowRanges(minR), "..";
    var x, p := MaximaLabel + a, stop + MinimaLabel;
    AppendAssoc(x, stop, MinimaLabel);
    AppendAssoc(x, p, b);
    AppendAssoc(x, p + b, stop);
    AppendAssoc(p, b, stop);
    AppendAssoc(MaximaLabel, a, p + (b + stop));
  }

  /** Different ranges never produce the same answer text. */
  lemma OutputTextInjective(a: seq<Range>, b: seq<Range>, c: seq<Range>, d: seq<Range>)
    requires OutputText(a, b) == OutputText(c, d)
    ensures a == c && b == d
  {
    ParseOutputText(a, b);
    ParseOutputText(c, d);
  }

  const FrameLengthLabel := " Frame length is: "

  /** `instruction_template + f" Frame length is: {total_length}"`. */
  function Instruction(template: string, frames: nat): (s: string)
    ensures |s| > |template| + |FrameLengthLabel|
    ensures s[..|template|] == template && IsDigit(s[|s| - 1])
  {
    template + FrameLengthLabel + Digits(frames)
  }

  /** The length of the longest run of digits at the end of `s`. */
  function TrailingDigits(s: string): (k: nat)
    ensures k <= |s| && AllDigits(s[|s| - k..])
    ensures k < |s| ==> !IsDigit(s[|s| - k - 1])
    decreases |s|
  {
    if |s| == 0 || !IsDigit(s[|s| - 1]) then 0
    else
      var t := s[..|s| - 1];
      var j := TrailingDigits(t);
      assert s[|s| - (j + 1)..] == t[|t| - j..] + [s[|s| - 1]];
      j + 1
  }

  /** The number a text ends with. */
  function TrailingNumber(s: string): nat {
    ValueOf(s[|s| - TrailingDigits(s)..])
  }

  lemma {:induction false} TrailingDigitsOf(front: string, run: string)
    requires AllDigits(run)
    requires |front| > 0 && !IsDigit(front[|front| - 1])
    ensures TrailingDigits(front + run) == |run|
    decreases |run|
  {
    var s := front + run;
    if |run| > 0 {
      assert s[..|s| - 1] == front + run[..|run| - 1];
      TrailingDigitsOf(front, run[..|run| - 1]);
    } else {
      assert s == front;
    }
  }

  /** Whatever the template, the instruction ends with the frame count. */
  lemma InstructionFrameCount(template: string, frames: nat)
    ensures TrailingNumber(Instruction(template, frames)) == frames
  {
    var front := template + FrameLengthLabel;
    var s := Instruction(template, frames);
    assert s == front + Digits(frames);
    TrailingDigitsOf(front, Digits(frames));
    assert s[|s| - |Digits(frames)|..] == Digits(frames);
    ValueOfDigits(frames);
  }

  /** `process_npy_file_for_com` on a series already scaled to integers: the
      detector's ranges in the answer, the frame count in the instruction.
      The range values are computed by the detector but not written. */
  function ProcessSeries(template: string, series: seq<int>, maxPct: real, minPct: real): (r: Result<Record>)
    ensures r.Err? <==> |series| == 0
    ensures r.Ok? ==> r.value.integer == series
  {
    match Detect(series, maxPct, minPct)
    case Err(e) => Err(e)
    case Ok(d) =>
      Ok(Record(Instruction(template, |series|), series, OutputText(d.maximaRanges, d.minimaRanges)))
  }

  /** A record's instruction states the series length, and its answer reads
      back as the maxima and minima ranges of the detector. */
  lemma ProcessSeriesReadsBack(template: string, series: seq<int>, maxPct: real, minPct: real)
    requires |series| > 0
    ensures var rec := ProcessSeries(template, series, maxPct, minPct).value;
      var d := Detect(series, maxPct, minPct).value;
      && TrailingNumber(rec.instruction) == |series|
      && ParseOutput(rec.output) == Some((d.maximaRanges, d.minimaRanges))
  {
    var d := Detect(series, maxPct, minPct).value;
    InstructionFrameCount(template, |series|);
    ParseOutputText(d.maximaRanges, d.minimaRanges);
  }

  /** Single digits print as themselves. */
  lemma SmallNumerals()
    ensures ShowInt(0) == "0" && ShowInt(1) == "1" && ShowInt(2) == "2" && ShowInt(4) == "4"
    ensures ShowInt(5) == "5" && ShowInt(6) == "6" && Digits(8) == "8"
  {
  }

  lemma ExamplePairs()
    ensures ShowRange(Range(2, 4)) == "[2, 4]"
    ensures ShowRange(Range(0, 1)) == "[0, 1]"
    ensures ShowRange(Range(5, 6)) == "[5, 6]"
  {
    SmallNumerals();
  }

  lemma ExampleRangesText()
    ensures ShowRanges([Range(2, 4)]) == "[[2, 4]]"
    ensures ShowRanges([Range(0, 1), Range(5, 6)]) == "[[0, 1], [5, 6]]"
  {
    ExamplePairs();
    var minR := [Range(0, 1), Range(5, 6)];
    assert ShowItems(minR) == "[0, 1], [5, 6]" by {
      assert minR[1..] == [Range(5, 6)];
    }
    assert ShowItems([Range(2, 4)]) == "[2, 4]";
  }

  /** The answer text of the worked series, piece by piece. */
  lemma ExampleOutput()
    ensures OutputText([Range(2, 4)], [Range(0, 1), Range(5, 6)]) ==
      "Local maxima: " + "[[2, 4]]" + ".." + "Local minima: " + "[[0, 1], [5, 6]]" + ".."
  {
    ExampleRangesText();
  }

  lemma ExampleInstruction(template: string)
    ensures Instruction(template, 8) == template + " Frame length is: 8"
  {
    SmallNumerals();
    AppendAssoc(template, FrameLengthLabel, "8");
  }

  /** The record of a series, given its detection. */
  lemma ProcessSeriesOf(template: string, series: seq<int>, maxPct: real, minPct: real, d: Detection)
    requires Detect(series, maxPct, minPct) == Ok(d)
    ensures ProcessSeries(template, series, maxPct, minPct) ==
      Ok(Record(Instruction(template, |series|), series, OutputText(d.maximaRanges, d.minimaRanges)))
  {
  }

  /** The record of the worked series, text and all. */
  lemma WorkedRecord(template: string)
    ensures ProcessSeries(template, Example, 0.8, 0.2) ==
      Ok(Record(template + " Frame length is: 8", Example,
        "Local maxima: " + "[[2, 4]]" + ".." + "Local minima: " + "[[0, 1], [5, 6]]" + ".."))
  {
    var d := Detection([Range(2, 4)], [95], [Range(0, 1), Range(5, 6)], [10, 10]);
    WorkedExample();
    ProcessSeriesOf(template, Example, 0.8, 0.2, d);
    ExampleOutput();
    ExampleInstruction(template);
  }
}
