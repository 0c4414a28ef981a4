/** Decimal text of natural numbers: Python's `str(n)` for a non-negative
    `int`, the value of a run of ASCII digits (`int(...)` on such a run),
    reading a number off the front of a text, and the file-name key
    `extract_number_from_filename`. */
module Decimal {

  datatype Option<T> = None | Some(value: T)

  predicate IsDigit(c: char) {
    '0' <= c <= '9'
  }

  predicate AllDigits(s: string) {
    forall i :: 0 <= i < |s| ==> IsDigit(s[i])
  }

  function DigitValue(c: char): (d: nat)
    requires IsDigit(c)
    ensures d < 10
  {
    c as int - '0' as int
  }

  function DigitChar(d: nat): (c: char)
    requires d < 10
    ensures IsDigit(c) && DigitValue(c) == d
  {
    ('0' as int + d) as char
  }

  /** `str(n)`: the shortest decimal numeral of `n`; it never has a leading
      zero, except the numeral "0" of zero itself. */
  function Digits(n: nat): (s: string)
    ensures |s| > 0 && AllDigits(s)
    ensures s[0] == '0' <==> n == 0
    ensures n == 0 ==> s == "0"
    ensures n < 10 <==> |s| == 1
  {
    if n < 10 then [DigitChar(n)]
    else Digits(n / 10) + [DigitChar(n % 10)]
  }

  /** The number a run of digits denotes (`int(s)` on an ASCII digit run). */
  function ValueOf(s: string): (v: nat)
    requires AllDigits(s)
    ensures v == 0 <==> forall i :: 0 <= i < |s| ==> s[i] == '0'
  {
    if |s| == 0 then 0
    else
      var front := s[..|s| - 1];
      assert forall i :: 0 <= i < |front| ==> front[i] == s[i];
      ValueOf(front) * 10 + DigitValue(s[|s| - 1])
  }

  /** Reading back the numeral of `n` gives `n`. */
  lemma {:induction false} ValueOfDigits(n: nat)
    ensures ValueOf(Digits(n)) == n
  {
    if n >= 10 {
      var s := Digits(n);
      ValueOfDigits(n / 10);
      assert s[..|s| - 1] == Digits(n / 10);
    }
  }

  /** Two numbers with the same numeral are equal. */
  lemma DigitsInjective(m: nat, n: nat)
    requires Digits(m) == Digits(n)
    ensures m == n
  {
    ValueOfDigits(m);
    ValueOfDigits(n);
  }

  /** The length of the longest run of digits at the front of `s`. */
  function DigitRun(s: string): (k: nat)
    ensures k <= |s|
    ensures AllDigits(s[..k])
    ensures k < |s| ==> !IsDigit(s[k])
  {
    if |s| == 0 || !IsDigit(s[0]) then 0
    else
      var k := 1 + DigitRun(s[1..]);
      assert s[..k] == [s[0]] + s[1..][..k - 1];
      k
  }

  /** A digit run followed by a non-digit (or nothing) is measured exactly. */
  lemma {:induction false} DigitRunOf(run: string, rest: string)
    requires AllDigits(run)
    requires |rest| == 0 || !IsDigit(rest[0])
    ensures DigitRun(run + rest) == |run|
  {
    if |run| > 0 {
      assert (run + rest)[1..] == run[1..] + rest;
      DigitRunOf(run[1..], rest);
    } else {
      assert run + rest == rest;
    }
  }

  /** Reads a natural number off the front of `s`: its leading digit run and
      what follows it, or `None` when `s` does not start with a digit. */
  function ParseNat(s: string): (r: Option<(nat, string)>)
    ensures r.None? <==> |s| == 0 || !IsDigit(s[0])
    ensures r.Some? ==> |r.value.1| < |s|
  {
    var k := DigitRun(s);
    if k == 0 then None else Some((ValueOf(s[..k]), s[k..]))
  }

  /** Parsing a numeral followed by a non-digit gives back the number and
      exactly what followed. */
  lemma ParseNatDigits(n: nat, rest: string)
    requires |rest| == 0 || !IsDigit(rest[0])
    ensures ParseNat(Digits(n) + rest) == Some((n, rest))
  {
    var s := Digits(n) + rest;
    DigitRunOf(Digits(n), rest);
    assert s[..|Digits(n)|] == Digits(n);
    assert s[|Digits(n)|..] == rest;
    ValueOfDigits(n);
  }

  /** `extract_number_from_filename`: the value of the first maximal run of
      digits in the name (the first match of the pattern `(\d+)`), or 0 when
      the name has no digit. */
  function ExtractNumberFromFilename(name: string): (n: nat)
    ensures (forall i :: 0 <= i < |name| ==> !IsDigit(name[i])) ==> n == 0
    decreases |name|
  {
    if |name| == 0 then 0
    else if IsDigit(name[0]) then ValueOf(name[..DigitRun(name)])
    else
      assert forall i :: 0 <= i < |name| - 1 ==> name[1..][i] == name[i + 1];
      ExtractNumberFromFilename(name[1..])
  }

  /** The key of a name is the value of its first digit run, whatever digits
      come later: with no digit in `prefix`, `run` all digits and `suffix`
      not continuing the run, the key is the value of `run`. */
  lemma {:induction false} ExtractNumberOf(prefix: string, run: string, suffix: string)
    requires forall i :: 0 <= i < |prefix| ==> !IsDigit(prefix[i])
    requires |run| > 0 && AllDigits(run)
    requires |suffix| == 0 || !IsDigit(suffix[0])
    ensures ExtractNumberFromFilename(prefix + run + suffix) == ValueOf(run)
    decreases |prefix|
  {
    var name := prefix + run + suffix;
    if |prefix| == 0 {
      assert name == run + suffix;
      DigitRunOf(run, suffix);
      assert name[..|run|] == run;
    } else {
      assert name[1..] == prefix[1..] + run + suffix;
      ExtractNumberOf(prefix[1..], run, suffix);
    }
  }

  /** Numbering files as `frame<n>.npy` makes `n` their key. */
  lemma ExtractNumberOfNumeral(prefix: string, n: nat, suffix: string)
    requires forall i :: 0 <= i < |prefix| ==> !IsDigit(prefix[i])
    requires |suffix| == 0 || !IsDigit(suffix[0])
    ensures ExtractNumberFromFilename(prefix + Digits(n) + suffix) == n
  {
    ExtractNumberOf(prefix, Digits(n), suffix);
    ValueOfDigits(n);
  }
}
