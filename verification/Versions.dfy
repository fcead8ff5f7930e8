/**
  Synology package versions such as "4.0.3-27892": the runs of digits, compared
  segment by segment with a missing segment read as zero.
 */
module Versions {

  // The largest number strconv.Atoi reads on a 64-bit platform.
  const MAX_INT: int := 0x7fff_ffff_ffff_ffff

  type Version = seq<nat>

  predicate IsDigit(c: char) {
    '0' <= c <= '9'
  }

  function RunLength(s: string): (n: nat)
    ensures n <= |s|
    ensures forall i :: 0 <= i < n ==> IsDigit(s[i])
    ensures n < |s| ==> !IsDigit(s[n])
  {
    if s == "" || !IsDigit(s[0]) then 0 else 1 + RunLength(s[1..])
  }

  /** The maximal runs of digits, left to right. */
  function DigitRuns(s: string): seq<string>
    decreases |s|
  {
    if s == "" then []
    else if !IsDigit(s[0]) then DigitRuns(s[1..])
    else
      var n := RunLength(s);
      [s[..n]] + DigitRuns(s[n..])
  }

  function DigitValue(c: char): nat
    requires IsDigit(c)
  {
    c as int - '0' as int
  }

  function Number(digits: string): nat
    requires forall i :: 0 <= i < |digits| ==> IsDigit(digits[i])
  {
    if digits == "" then 0
    else 10 * Number(digits[..|digits| - 1]) + DigitValue(digits[|digits| - 1])
  }

  lemma {:induction false} RunsAreDigits(s: string)
    ensures forall k, i :: 0 <= k < |DigitRuns(s)| && 0 <= i < |DigitRuns(s)[k]| ==> IsDigit(DigitRuns(s)[k][i])
    decreases |s|
  {
    if s != "" {
      if IsDigit(s[0]) {
        var n := RunLength(s);
        RunsAreDigits(s[n..]);
      } else {
        RunsAreDigits(s[1..]);
      }
    }
  }

  /** The segments of a version text; none at all when one segment overflows. */
  method ParsePackageVersion(text: string) returns (version: Version)
    ensures version == Segments(text)
  {
    version := [];
    RunsAreDigits(text);
    var runs := DigitRuns(text);
    for i := 0 to |runs|
      invariant |version| == i
      invariant forall k :: 0 <= k < i ==> Number(runs[k]) <= MAX_INT && version[k] == Number(runs[k])
    {
      var number := Number(runs[i]);
      if number > MAX_INT {
        return [];
      }
      version := version + [number];
    }
  }

  function Segments(text: string): Version {
    RunsAreDigits(text);
    var runs := DigitRuns(text);
    if exists k :: 0 <= k < |runs| && Number(runs[k]) > MAX_INT then []
    else seq(|runs|, k requires 0 <= k < |runs| => Number(runs[k]))
  }

  function At(v: Version, i: nat): nat {
    if i < |v| then v[i] else 0
  }

  ghost predicate SameBelow(a: Version, b: Version, n: nat) {
    forall i: nat :: i < n ==> At(a, i) == At(b, i)
  }

  /** The first differing segment is smaller in `a`. */
  ghost predicate Older(a: Version, b: Version) {
    exists n: nat :: SameBelow(a, b, n) && At(a, n) < At(b, n)
  }

  ghost predicate SameVersion(a: Version, b: Version) {
    forall i: nat :: At(a, i) == At(b, i)
  }

  method Compare(a: Version, b: Version) returns (sign: int)
    ensures sign < 0 <==> Older(a, b)
    ensures sign > 0 <==> Older(b, a)
    ensures sign == 0 <==> SameVersion(a, b)
  {
    var length := |a|;
    if |b| > length {
      length := |b|;
    }
    for i := 0 to length
      invariant SameBelow(a, b, i)
    {
      var left, right := 0, 0;
      if i < |a| {
        left := a[i];
      }
      if i < |b| {
        right := b[i];
      }
      if left < right {
        assert SameBelow(a, b, i) && At(a, i) < At(b, i);
        OlderIsAsymmetric(a, b);
        return -1;
      }
      if left > right {
        assert SameBelow(b, a, i) && At(b, i) < At(a, i);
        OlderIsAsymmetric(b, a);
        return 1;
      }
    }
    return 0;
  }

  lemma OlderIsAsymmetric(a: Version, b: Version)
    requires Older(a, b)
    ensures !Older(b, a) && !SameVersion(a, b)
  {
    var n: nat :| SameBelow(a, b, n) && At(a, n) < At(b, n);
    forall m: nat ensures !(SameBelow(b, a, m) && At(b, m) < At(a, m)) {
      if m < n {
        assert At(a, m) == At(b, m);
      } else {
        assert At(a, n) != At(b, n);
      }
    }
  }

  lemma OlderIsTransitive(a: Version, b: Version, c: Version)
    requires Older(a, b) && Older(b, c)
    ensures Older(a, c)
  {
    var n: nat :| SameBelow(a, b, n) && At(a, n) < At(b, n);
    var m: nat :| SameBelow(b, c, m) && At(b, m) < At(c, m);
    var k := if n < m then n else m;
    assert SameBelow(a, c, k) && At(a, k) < At(c, k);
  }

  /** Versions are totally preordered: neither older means the same up to trailing zero segments. */
  lemma VersionsAreTotal(a: Version, b: Version)
    ensures Older(a, b) || Older(b, a) || SameVersion(a, b)
  {
    if !SameVersion(a, b) {
      var i: nat :| At(a, i) != At(b, i);
      var n: nat := 0;
      while At(a, n) == At(b, n)
        invariant n <= i && SameBelow(a, b, n)
        decreases i - n
      {
        n := n + 1;
      }
      assert SameBelow(b, a, n);
    }
  }

  /** A version newer than `b` is newer than everything not newer than `b`. */
  lemma NewerThanAll(a: Version, b: Version, c: Version)
    requires Older(b, a) && !Older(b, c)
    ensures Older(c, a)
  {
    VersionsAreTotal(b, c);
    if Older(c, b) {
      OlderIsTransitive(c, b, a);
    } else {
      var n: nat :| SameBelow(b, a, n) && At(b, n) < At(a, n);
      assert SameBelow(c, a, n) && At(c, n) < At(a, n);
    }
  }

  predicate AllDigits(run: string) {
    forall i :: 0 <= i < |run| ==> IsDigit(run[i])
  }

  lemma {:induction false} RunEnds(run: string, rest: string)
    requires AllDigits(run) && (rest == "" || !IsDigit(rest[0]))
    ensures RunLength(run + rest) == |run|
  {
    if run != "" {
      assert (run + rest)[1..] == run[1..] + rest;
      RunEnds(run[1..], rest);
    } else {
      assert run + rest == rest;
    }
  }

  /** A text that starts with a run of digits and a separator. */
  lemma FirstRun(run: string, rest: string)
    requires run != "" && AllDigits(run)
    requires rest == "" || !IsDigit(rest[0])
    ensures DigitRuns(run + rest) == [run] + if rest == "" then [] else DigitRuns(rest[1..])
  {
    RunEnds(run, rest);
    assert (run + rest)[..|run|] == run && (run + rest)[|run|..] == rest;
  }

  /** No segment overflows. */
  ghost predicate Readable(text: string) {
    RunsAreDigits(text);
    forall k :: 0 <= k < |DigitRuns(text)| ==> Number(DigitRuns(text)[k]) <= MAX_INT
  }

  lemma OneDigit(digit: string)
    requires |digit| == 1 && IsDigit(digit[0])
    ensures Number(digit) == DigitValue(digit[0])
  {
    assert digit[..0] == "";
  }

  /** A text that starts with a digit and a separator has that segment, and those of the rest. */
  lemma DigitThenMore(text: string)
    requires |text| >= 2 && IsDigit(text[0]) && !IsDigit(text[1]) && Readable(text[2..])
    ensures Readable(text) && Segments(text) == [DigitValue(text[0])] + Segments(text[2..])
  {
    assert text == text[..1] + text[1..] && text[1..][1..] == text[2..];
    FirstRun(text[..1], text[1..]);
    OneDigit(text[..1]);
  }

  lemma LastSegment(run: string)
    requires run != "" && AllDigits(run) && Number(run) <= MAX_INT
    ensures Readable(run) && Segments(run) == [Number(run)]
  {
    assert run + "" == run;
    FirstRun(run, "");
  }

  lemma ShortTexts(a: string, b: string)
    requires a == "3.5" && b == "4.0.0"
    ensures Segments(a) == [3, 5] && Segments(b) == [4, 0, 0]
  {
    OneDigit(a[2..]);
    LastSegment(a[2..]);
    DigitThenMore(a);
    assert b[2..][2..] == b[4..];
    OneDigit(b[4..]);
    LastSegment(b[4..]);
    DigitThenMore(b[2..]);
    DigitThenMore(b);
  }

  lemma FourSegments(text: string)
    requires |text| > 6 && AllDigits(text[6..]) && Number(text[6..]) <= MAX_INT
    requires IsDigit(text[0]) && IsDigit(text[2]) && IsDigit(text[4])
    requires !IsDigit(text[1]) && !IsDigit(text[3]) && !IsDigit(text[5])
    ensures Segments(text) == [DigitValue(text[0]), DigitValue(text[2]), DigitValue(text[4]), Number(text[6..])]
  {
    assert text[2..][2..] == text[4..] && text[4..][2..] == text[6..];
    LastSegment(text[6..]);
    DigitThenMore(text[4..]);
    DigitThenMore(text[2..]);
    DigitThenMore(text);
  }

  lemma FourNines(run: string)
    requires run == "9999"
    ensures Number(run) == 9999
  {
    OneDigit(run[..1]);
    assert run[..2][..1] == run[..1] && run[..3][..2] == run[..2];
    assert Number(run[..2]) == 99;
    assert Number(run[..3]) == 999;
  }

  /** The documented examples: a missing segment is zero, and the first difference decides. */
  lemma DocumentedOrder(a: string, b: string, c: string, d: string)
    requires a == "3.5" && b == "3.5.0-1" && c == "3.9.9-9999" && d == "4.0.0"
    ensures Older(Segments(a), Segments(b)) && Older(Segments(c), Segments(d))
  {
    ShortTexts(a, d);
    OneDigit(b[6..]);
    FourSegments(b);
    FourNines(c[6..]);
    FourSegments(c);
    assert SameBelow([3, 5], [3, 5, 0, 1], 3) && At([3, 5], 3) < At([3, 5, 0, 1], 3);
    assert SameBelow(Segments(c), Segments(d), 0) && At(Segments(c), 0) < At(Segments(d), 0);
  }

  /** Texts that differ can be the same version: a ".0" at the end of any text never makes a difference. */
  lemma TrailingZeroIsSame(text: string)
    ensures SameVersion(Segments(text), Segments(text + ".0"))
  {
    TrailingZeroRuns(text);
    OneDigit("0");
    var runs, more := DigitRuns(text), DigitRuns(text + ".0");
    RunsAreDigits(text);
    RunsAreDigits(text + ".0");
    assert more[|runs|] == "0";
    assert forall k :: 0 <= k < |runs| ==> more[k] == runs[k];
  }

  lemma {:induction false} TrailingZeroRuns(text: string)
    ensures DigitRuns(text + ".0") == DigitRuns(text) + ["0"]
    decreases |text|
  {
    var more := text + ".0";
    if text == "" {
      assert more[1..] == "0" && "0" + "" == "0";
      FirstRun("0", "");
    } else if !IsDigit(text[0]) {
      assert more[1..] == text[1..] + ".0";
      TrailingZeroRuns(text[1..]);
    } else {
      var n := RunLength(text);
      var run, rest := text[..n], text[n..];
      assert more == run + (rest + ".0") && text == run + rest;
      RunEnds(run, rest + ".0");
      assert more[..n] == run && more[n..] == rest + ".0";
      TrailingZeroRuns(rest);
    }
  }

  // ---- printed versions ----

  function Decimal(n: nat): (digits: string)
    ensures digits != "" && AllDigits(digits)
  {
    if n < 10 then [(n + '0' as int) as char] else Decimal(n / 10) + [(n % 10 + '0' as int) as char]
  }

  lemma {:induction false} DecimalIsRead(n: nat)
    ensures Number(Decimal(n)) == n
  {
    if n < 10 {
      OneDigit(Decimal(n));
    } else {
      DecimalIsRead(n / 10);
      var front := Decimal(n / 10);
      assert Decimal(n)[..|front|] == front;
    }
  }

  /** The numbers in decimal, with any separators that are not digits. */
  function Printed(v: Version, separators: string): string
    requires v != [] && |separators| == |v| - 1
  {
    if |v| == 1 then Decimal(v[0]) else Decimal(v[0]) + [separators[0]] + Printed(v[1..], separators[1..])
  }

  lemma {:induction false} PrintedRuns(v: Version, separators: string)
    requires v != [] && |separators| == |v| - 1 && forall i :: 0 <= i < |separators| ==> !IsDigit(separators[i])
    ensures |DigitRuns(Printed(v, separators))| == |v|
    ensures forall k :: 0 <= k < |v| ==> DigitRuns(Printed(v, separators))[k] == Decimal(v[k])
  {
    var first := Decimal(v[0]);
    if |v| == 1 {
      FirstRun(first, "");
      assert first + "" == first;
    } else {
      var rest := [separators[0]] + Printed(v[1..], separators[1..]);
      PrintedRuns(v[1..], separators[1..]);
      assert rest[1..] == Printed(v[1..], separators[1..]) && Printed(v, separators) == first + rest;
      FirstRun(first, rest);
      forall k | 0 <= k < |v| ensures DigitRuns(Printed(v, separators))[k] == Decimal(v[k]) {
        assert k > 0 ==> v[1..][k - 1] == v[k];
      }
    }
  }

  /** A printed version is read back, unless one number is beyond 64 bits; then nothing is. */
  lemma PrintedIsRead(v: Version, separators: string)
    requires v != [] && |separators| == |v| - 1 && forall i :: 0 <= i < |separators| ==> !IsDigit(separators[i])
    ensures Segments(Printed(v, separators)) ==
            if forall k :: 0 <= k < |v| ==> v[k] <= 9_223_372_036_854_775_807 then v else []
  {
    PrintedRuns(v, separators);
    var runs := DigitRuns(Printed(v, separators));
    forall k | 0 <= k < |v| ensures AllDigits(runs[k]) && Number(runs[k]) == v[k] {
      DecimalIsRead(v[k]);
    }
  }
}
