/** Signed durations with Go's spelling, from `symaira-core-config`.

    `Parse` and `Format` state what the code computes; `Spells` says, with no reference to the
    parser, which texts denote which segments. The i128 arithmetic is real in `ParseDuration`:
    Dafny checks that no operation on the bounded type leaves its range. */
module Durations {
  import opened Common

  const I64_MIN: int := -0x8000_0000_0000_0000
  const I64_MAX: int := 0x7FFF_FFFF_FFFF_FFFF
  const I128_MAX: int := 0x7FFF_FFFF_FFFF_FFFF_FFFF_FFFF_FFFF_FFFF
  const U32_RANGE: nat := 0x1_0000_0000

  newtype i128 = x: int | -0x8000_0000_0000_0000_0000_0000_0000_0000 <= x < 0x8000_0000_0000_0000_0000_0000_0000_0000
  type i64 = x: int | -0x8000_0000_0000_0000 <= x <= 0x7FFF_FFFF_FFFF_FFFF

  datatype Error = Empty | Invalid | BadUnit(unit: string) | Overflow
  datatype Result<+T> = Ok(value: T) | Err(error: Error)

  // ---------- Decimal text ----------

  predicate IsDigit(c: char) { '0' <= c <= '9' }

  predicate AllDigits(s: string) { forall i :: 0 <= i < |s| ==> IsDigit(s[i]) }

  function DigitChar(n: nat): (c: char)
    requires n < 10
    ensures IsDigit(c) && c as int - '0' as int == n
  {
    '0' + n as char
  }

  function Value(digits: string): nat
    requires AllDigits(digits)
  {
    if digits == "" then 0
    else Value(digits[..|digits| - 1]) * 10 + (digits[|digits| - 1] as int - '0' as int)
  }

  function Pow10(n: nat): (p: nat)
    ensures p > 0
  {
    if n == 0 then 1 else 10 * Pow10(n - 1)
  }

  /** `{n}`. */
  function Digits(n: nat): (s: string)
    ensures s != "" && AllDigits(s)
  {
    if n < 10 then [DigitChar(n)] else Digits(n / 10) + [DigitChar(n % 10)]
  }

  function Zeros(n: nat): (s: string)
    ensures |s| == n && AllDigits(s)
  {
    seq(n, _ => '0')
  }

  /** `{n:0width$}`. */
  function ZeroPadded(n: nat, width: nat): (s: string)
    ensures AllDigits(s)
  {
    var s := Digits(n);
    if |s| >= width then s else Zeros(width - |s|) + s
  }

  function StripZeros(s: string): (r: string)
    ensures r <= s
  {
    if s != "" && s[|s| - 1] == '0' then StripZeros(s[..|s| - 1]) else s
  }

  lemma {:induction false} ValueConcat(a: string, b: string)
    requires AllDigits(a) && AllDigits(b)
    ensures AllDigits(a + b) && Value(a + b) == Value(a) * Pow10(|b|) + Value(b)
  {
    if b == "" {
      assert a + b == a;
    } else {
      var front := b[..|b| - 1];
      ValueConcat(a, front);
      assert (a + b)[..|a + b| - 1] == a + front && (a + b)[|a + b| - 1] == b[|b| - 1];
      ShiftByTen(Value(a), Pow10(|front|), Value(front));
    }
  }

  lemma ShiftByTen(a: nat, p: nat, v: nat)
    ensures (a * p + v) * 10 == a * (10 * p) + v * 10
  {
    TimesTen(a, p);
  }

  lemma TimesTen(a: nat, p: nat)
    ensures a * p * 10 == a * (10 * p)
  {
  }

  lemma {:induction false} ValueOfDigits(n: nat)
    ensures Value(Digits(n)) == n
  {
    if n >= 10 {
      ValueOfDigits(n / 10);
      assert Digits(n)[..|Digits(n)| - 1] == Digits(n / 10);
    } else {
      assert Digits(n)[..0] == "";
    }
  }

  lemma {:induction false} ZerosAreZero(n: nat)
    ensures Value(Zeros(n)) == 0
  {
    if n > 0 {
      ZerosAreZero(n - 1);
      assert Zeros(n)[..n - 1] == Zeros(n - 1);
    }
  }

  lemma {:induction false} DigitsFit(n: nat, width: nat)
    requires width > 0 && n < Pow10(width)
    ensures |Digits(n)| <= width
  {
    if n >= 10 { DigitsFit(n / 10, width - 1); }
  }

  lemma ZeroPaddedValue(n: nat, width: nat)
    requires width > 0 && n < Pow10(width)
    ensures |ZeroPadded(n, width)| == width && Value(ZeroPadded(n, width)) == n
  {
    hide Digits, Value, Pow10;
    DigitsFit(n, width);
    ValueOfDigits(n);
    var missing: nat := width - |Digits(n)|;
    if missing > 0 {
      ZerosAreZero(missing);
      ValueConcat(Zeros(missing), Digits(n));
      NothingTimes(Value(Zeros(missing)), Pow10(|Digits(n)|));
    }
  }

  lemma NothingTimes(a: nat, p: nat)
    requires a == 0
    ensures a * p == 0
  {
  }

  /** Dropping trailing zeros after `whole` divides the number by the matching power of ten. */
  lemma {:induction false} StripValue(whole: string, f: string)
    requires AllDigits(whole) && AllDigits(f)
    ensures var r := StripZeros(f);
      AllDigits(r) && Value(whole + r) * Pow10(|f| - |r|) == Value(whole + f)
  {
    if f != "" && f[|f| - 1] == '0' {
      var front := f[..|f| - 1];
      StripValue(whole, front);
      var r := StripZeros(f);
      assert (whole + f)[..|whole + f| - 1] == whole + front;
      assert Value(whole + f) == Value(whole + front) * 10;
      TimesTen(Value(whole + r), Pow10(|front| - |r|));
    }
  }

  /** Integer division of non-negative numbers. */
  function Quotient(a: nat, p: nat): (q: nat)
    requires p > 0
  {
    a / p
  }

  lemma QuotientBounds(a: nat, p: nat)
    requires p > 0
    ensures Quotient(a, p) * p <= a < (Quotient(a, p) + 1) * p
  {
  }

  lemma QuotientZero(a: nat, p: nat)
    requires p > 0
    ensures Quotient(a, p) == 0 <==> a < p
  {
    QuotientBounds(a, p);
    var q := Quotient(a, p);
    if q >= 1 { ProductAtLeast(p, q); }
  }

  lemma QuotientOfMultiple(a: nat, p: nat)
    requires p > 0
    ensures Quotient(a * p, p) == a
  {
    QuotientBounds(a * p, p);
    var q := Quotient(a * p, p);
    assert (a + 1) * p == a * p + p;
    MulCancel(a, q + 1, p);
    MulCancel(q, a + 1, p);
  }

  lemma MulCancel(a: nat, b: nat, p: nat)
    requires a * p < b * p
    ensures a < b
  {
  }

  lemma ProductAtLeast(a: nat, m: nat)
    requires m >= 1
    ensures a * m >= a
  {
  }

  // ---------- What the parser computes ----------

  predicate NumberChar(c: char) { IsDigit(c) || c == '.' }

  /** Length of the longest prefix whose characters all are, or all are not, number characters. */
  function Span(s: string, wanted: bool): (n: nat)
    ensures n <= |s|
    ensures forall i :: 0 <= i < n ==> NumberChar(s[i]) == wanted
    ensures n < |s| ==> NumberChar(s[n]) != wanted
  {
    if s == "" || NumberChar(s[0]) != wanted then 0
    else
      var n := Span(s[1..], wanted);
      assert forall i :: 0 < i <= n ==> s[i] == s[1..][i - 1];
      n + 1
  }

  /** Length of the prefix before the first '.'. */
  function BeforeDot(s: string): (n: nat)
    ensures n <= |s| && '.' !in s[..n]
    ensures n < |s| ==> s[n] == '.'
  {
    if s == "" || s[0] == '.' then 0
    else
      var n := BeforeDot(s[1..]);
      assert s[..n + 1] == [s[0]] + s[1..][..n];
      n + 1
  }

  /** `split_once('.')`, or the whole text and nothing. */
  function SplitOnce(s: string): (string, string) {
    var n := BeforeDot(s);
    if n == |s| then (s, "") else (s[..n], s[n + 1..])
  }

  const MICRO_SIGN: string := "\U{00B5}s"
  const GREEK_MU: string := "\U{03BC}s"

  function Multiplier(unit: string): Option<nat> {
    if unit == "ns" then Some(1)
    else if unit == "us" || unit == MICRO_SIGN || unit == GREEK_MU then Some(1_000)
    else if unit == "ms" then Some(1_000_000)
    else if unit == "s" then Some(1_000_000_000)
    else if unit == "m" then Some(60_000_000_000)
    else if unit == "h" then Some(3_600_000_000_000)
    else None
  }

  /** One segment in nanoseconds. The power of ten is taken of the fraction's length as a u32. */
  function SegmentNanos(number: string, unit: string): Result<nat> {
    if number == "" || number == "." then Err(Invalid)
    else if Multiplier(unit).None? then Err(BadUnit(unit))
    else
      var (whole, fraction) := SplitOnce(number);
      if whole == "" && fraction == "" then Err(Invalid)
      else if !AllDigits(whole) || !AllDigits(fraction) then Err(Invalid)
      else
        var numerator := Value(whole + fraction);
        var scale := Pow10(|fraction| % U32_RANGE);
        var product := numerator * Multiplier(unit).value;
        if numerator > I128_MAX || scale > I128_MAX || product > I128_MAX then Err(Overflow)
        else Ok(Quotient(product, scale))
  }

  /** The rest of the segments added to `total`. */
  function SumSegments(rest: string, total: nat): Result<nat>
    decreases |rest|
  {
    if rest == "" then Ok(total)
    else
      var n := Span(rest, true);
      var u := n + Span(rest[n..], false);
      match SegmentNanos(rest[..n], rest[n..u])
      case Err(e) => Err(e)
      case Ok(nanos) =>
        if total + nanos > I128_MAX then Err(Overflow) else SumSegments(rest[u..], total + nanos)
  }

  function Parse(input: string): Result<int> {
    if input == "" then Err(Empty)
    else
      var negative := input[0] == '-';
      var rest := if input[0] == '+' || input[0] == '-' then input[1..] else input;
      if rest == "" then Err(Invalid)
      else
        match SumSegments(rest, 0)
        case Err(e) => Err(e)
        case Ok(total) =>
          var signed: int := if negative then -(total as int) else total as int;
          if I64_MIN <= signed <= I64_MAX then Ok(signed) else Err(Overflow)
  }

  /** `checked_mul` on non-negative operands. */
  function CheckedMul(a: i128, b: i128): Option<i128>
    requires a >= 0 && b >= 0
  {
    if a as int * b as int > I128_MAX then None else Some((a as int * b as int) as i128)
  }

  function CheckedAdd(a: i128, b: i128): Option<i128>
    requires a >= 0 && b >= 0
  {
    if a as int + b as int > I128_MAX then None else Some((a as int + b as int) as i128)
  }

  /** `10_i128.checked_pow(exponent)`. */
  function CheckedPow10(exponent: nat): Option<i128> {
    if Pow10(exponent) > I128_MAX then None else Some(Pow10(exponent) as i128)
  }

  /** The checks and the checked arithmetic on one segment, in the order of the source. */
  method ReadSegment(number: string, unit: string) returns (r: Result<i128>)
    ensures r.Err? ==> SegmentNanos(number, unit) == Err(r.error)
    ensures r.Ok? ==> r.value >= 0 && SegmentNanos(number, unit) == Ok(r.value as int)
  {
    hide Pow10, Value, Digits;
    if number == "" || number == "." { return Err(Invalid); }
    var multiplier := Multiplier(unit);
    if multiplier.None? { return Err(BadUnit(unit)); }
    var (whole, fraction) := SplitOnce(number);
    if whole == "" && fraction == "" { return Err(Invalid); }
    if !AllDigits(whole) || !AllDigits(fraction) { return Err(Invalid); }
    var value := Value(whole + fraction);
    if value > I128_MAX { return Err(Overflow); }
    var numerator := value as i128;
    var scale := CheckedPow10(|fraction| % U32_RANGE);
    if scale.None? { return Err(Overflow); }
    var product := CheckedMul(numerator, multiplier.value as i128);
    if product.None? { return Err(Overflow); }
    QuotientSmaller(product.value as int, scale.value as int);
    return Ok(product.value / scale.value);
  }

  lemma QuotientSmaller(a: nat, p: nat)
    requires p > 0
    ensures 0 <= a / p <= a
  {
    QuotientBounds(a, p);
    ProductAtLeast(a / p, p);
  }

  /** The loop over the segments; the running total never leaves i128. */
  method AddSegments(input: string) returns (r: Result<i128>)
    ensures r.Err? ==> SumSegments(input, 0) == Err(r.error)
    ensures r.Ok? ==> r.value >= 0 && SumSegments(input, 0) == Ok(r.value as int)
  {
    hide SegmentNanos, Span;
    var rest := input;
    var total: i128 := 0;
    while rest != ""
      invariant total >= 0 && SumSegments(rest, total as int) == SumSegments(input, 0)
      decreases |rest|
    {
      var numberEnd := Span(rest, true);
      var unitEnd := numberEnd + Span(rest[numberEnd..], false);
      var nanos := ReadSegment(rest[..numberEnd], rest[numberEnd..unitEnd]);
      if nanos.Err? { return Err(nanos.error); }
      NumberNonempty(rest[..numberEnd], rest[numberEnd..unitEnd]);
      var sum := CheckedAdd(total, nanos.value);
      if sum.None? { return Err(Overflow); }
      total := sum.value;
      rest := rest[unitEnd..];
    }
    return Ok(total);
  }

  /** Every operation on an i128 stays in range, the final negation included. */
  method ParseDuration(input: string) returns (r: Result<int>)
    ensures r == Parse(input)
  {
    hide SumSegments;
    if input == "" { return Err(Empty); }
    var negative, rest := false, input;
    if input[0] == '+' {
      rest := input[1..];
    } else if input[0] == '-' {
      negative, rest := true, input[1..];
    }
    if rest == "" { return Err(Invalid); }
    var total := AddSegments(rest);
    if total.Err? { return Err(total.error); }
    var signed := if negative then -total.value else total.value;
    return if I64_MIN <= signed as int <= I64_MAX then Ok(signed as int) else Err(Overflow);
  }

  lemma NumberNonempty(number: string, unit: string)
    requires SegmentNanos(number, unit).Ok?
    ensures number != ""
  {
  }

  // ---------- What a duration text means ----------

  datatype Segment = Segment(whole: string, dot: bool, fraction: string, unit: string)

  datatype Sign = Unsigned | Plus | Minus

  predicate Decimal(s: string) { forall i :: 0 <= i < |s| ==> '0' <= s[i] <= '9' }

  lemma DigitsAreDecimal(s: string)
    requires AllDigits(s)
    ensures Decimal(s)
  {
  }

  predicate GoodSegment(g: Segment) {
    && Decimal(g.whole) && Decimal(g.fraction)
    && (g.whole != "" || g.fraction != "")
    && (!g.dot ==> g.fraction == "")
    && Multiplier(g.unit).Some?
  }

  predicate AllGood(segments: seq<Segment>) {
    segments == [] || (GoodSegment(segments[0]) && AllGood(segments[1..]))
  }

  predicate Good(segments: seq<Segment>) {
    segments != [] && AllGood(segments)
  }

  function NumberText(g: Segment): string {
    g.whole + (if g.dot then "." else "") + g.fraction
  }

  function SegmentsText(segments: seq<Segment>): string {
    if segments == [] then "" else NumberText(segments[0]) + segments[0].unit + SegmentsText(segments[1..])
  }

  function SignText(sign: Sign): string {
    match sign case Unsigned => "" case Plus => "+" case Minus => "-"
  }

  /** `input` is the sign followed by one or more well-formed segments. */
  ghost predicate Spells(input: string, sign: Sign, segments: seq<Segment>) {
    Good(segments) && input == SignText(sign) + SegmentsText(segments)
  }

  function Scaled(g: Segment): nat
    requires GoodSegment(g)
  {
    Value(g.whole + g.fraction) * Multiplier(g.unit).value
  }

  /** The segment's value, rounded down to a whole nanosecond. */
  function Floor(g: Segment): nat
    requires GoodSegment(g)
  {
    Quotient(Scaled(g), Pow10(|g.fraction|))
  }

  ghost function Exact(g: Segment): real
    requires GoodSegment(g)
  {
    Scaled(g) as real / Pow10(|g.fraction|) as real
  }

  function FloorSum(segments: seq<Segment>): nat
    requires AllGood(segments)
  {
    if segments == [] then 0 else Floor(segments[0]) + FloorSum(segments[1..])
  }

  ghost function ExactSum(segments: seq<Segment>): real
    requires AllGood(segments)
  {
    if segments == [] then 0.0 else Exact(segments[0]) + ExactSum(segments[1..])
  }

  function Signed(sign: Sign, total: nat): int {
    if sign.Minus? then -(total as int) else total as int
  }

  /** Every intermediate value of the segment fits in an i128. */
  predicate SegmentFits(g: Segment)
    requires GoodSegment(g)
  {
    var most := 170_141_183_460_469_231_731_687_303_715_884_105_727;
    Scaled(g) <= most && Pow10(|g.fraction|) <= most
  }

  predicate AllFit(segments: seq<Segment>)
    requires AllGood(segments)
  {
    segments == [] || (SegmentFits(segments[0]) && AllFit(segments[1..]))
  }

  predicate ShortFractions(segments: seq<Segment>) {
    segments == [] || (|segments[0].fraction| < 4_294_967_296 && ShortFractions(segments[1..]))
  }

  /** The result a text with these segments should have. */
  function Denoted(sign: Sign, segments: seq<Segment>): Result<int>
    requires Good(segments)
  {
    var signed := Signed(sign, FloorSum(segments));
    if AllFit(segments) && -9_223_372_036_854_775_808 <= signed <= 9_223_372_036_854_775_807 then Ok(signed)
    else Err(Overflow)
  }

  // ---------- The parser reads what the grammar spells ----------

  lemma {:induction false} BeforeDotIs(s: string, n: nat)
    requires n <= |s| && '.' !in s[..n] && (n < |s| ==> s[n] == '.')
    ensures BeforeDot(s) == n
  {
    if n > 0 {
      assert s[..n] == [s[0]] + s[1..][..n - 1];
      BeforeDotIs(s[1..], n - 1);
    }
  }

  lemma SplitOnceOfNumber(g: Segment)
    requires GoodSegment(g)
    ensures SplitOnce(NumberText(g)) == (g.whole, g.fraction)
    ensures NumberText(g) != "" && NumberText(g) != "."
    ensures AllDigits(g.whole + g.fraction)
  {
    var s := NumberText(g);
    assert s[..|g.whole|] == g.whole;
    BeforeDotIs(s, |g.whole|);
    if g.dot {
      assert s[|g.whole| + 1..] == g.fraction;
      assert |s| >= 2;
    } else {
      assert s == g.whole;
    }
  }

  lemma SegmentNanosOf(g: Segment)
    requires GoodSegment(g) && |g.fraction| < U32_RANGE
    ensures SegmentNanos(NumberText(g), g.unit) == if SegmentFits(g) then Ok(Floor(g)) else Err(Overflow)
  {
    hide Value, Pow10, Quotient, SplitOnce, NumberText;
    SplitOnceOfNumber(g);
    var m := Multiplier(g.unit).value;
    ProductAtLeast(Value(g.whole + g.fraction), m);
  }

  predicate UnitLetters(unit: string) {
    unit != "" && forall i :: 0 <= i < |unit| ==> !NumberChar(unit[i])
  }

  lemma UnitsAreLetters(unit: string)
    requires Multiplier(unit).Some?
    ensures UnitLetters(unit)
  {
  }

  lemma {:induction false} SpanIs(s: string, wanted: bool, n: nat)
    requires n <= |s|
    requires forall i :: 0 <= i < n ==> NumberChar(s[i]) == wanted
    requires n < |s| ==> NumberChar(s[n]) != wanted
    ensures Span(s, wanted) == n
  {
    if n > 0 { SpanIs(s[1..], wanted, n - 1); }
  }

  lemma SegmentsTextStart(segments: seq<Segment>)
    requires Good(segments)
    ensures SegmentsText(segments) != "" && NumberChar(SegmentsText(segments)[0])
  {
    var number := NumberText(segments[0]);
    assert number != "" && NumberChar(number[0]);
    assert SegmentsText(segments)[0] == number[0];
  }

  /** The two scans cut the number and the unit off, whatever segments follow. */
  lemma SumPeel(number: string, unit: string, tail: string, total: nat)
    requires number != "" && (forall i :: 0 <= i < |number| ==> NumberChar(number[i]))
    requires UnitLetters(unit) && (tail != "" ==> NumberChar(tail[0]))
    ensures SumSegments(number + unit + tail, total) ==
            match SegmentNanos(number, unit)
            case Err(e) => Err(e)
            case Ok(nanos) =>
              if total + nanos > I128_MAX then Err(Overflow) else SumSegments(tail, total + nanos)
  {
    hide SegmentNanos, NumberChar, Span;
    var s := number + unit + tail;
    SpanIs(s, true, |number|);
    assert s[|number|..] == unit + tail;
    SpanIs(unit + tail, false, |unit|);
    assert s[..|number|] == number;
    assert s[|number|..|number| + |unit|] == unit;
    assert s[|number| + |unit|..] == tail;
  }

  lemma NumberIsNumberChars(g: Segment)
    requires GoodSegment(g)
    ensures NumberText(g) != "" && forall i :: 0 <= i < |NumberText(g)| ==> NumberChar(NumberText(g)[i])
  {
    hide Multiplier;
  }

  lemma SumNothing(total: nat)
    ensures SumSegments("", total) == Ok(total)
  {
  }

  lemma {:induction false} SumOfText(segments: seq<Segment>, total: nat)
    requires AllGood(segments)
    requires ShortFractions(segments) && total <= I128_MAX
    ensures SumSegments(SegmentsText(segments), total) ==
            if AllFit(segments) && total + FloorSum(segments) <= I128_MAX then Ok(total + FloorSum(segments))
            else Err(Overflow)
    decreases |segments|
  {
    hide SegmentNanos, Floor, SegmentFits, NumberText, GoodSegment, SumSegments, NumberChar, UnitLetters;
    SumNothing(total);
    if segments != [] {
      var g, rest := segments[0], segments[1..];
      NumberIsNumberChars(g);
      UnitsAreLettersOf(g);
      if rest != [] { SegmentsTextStart(rest); }
      SumPeel(NumberText(g), g.unit, SegmentsText(rest), total);
      SegmentNanosOf(g);
      if SegmentFits(g) && total + Floor(g) <= I128_MAX {
        SumOfText(rest, total + Floor(g));
      }
    }
  }

  lemma UnitsAreLettersOf(g: Segment)
    requires GoodSegment(g)
    ensures UnitLetters(g.unit)
  {
    UnitsAreLetters(g.unit);
  }

  lemma ParseOfText(sign: Sign, segments: seq<Segment>)
    requires Good(segments) && ShortFractions(segments)
    ensures Parse(SignText(sign) + SegmentsText(segments)) == Denoted(sign, segments)
  {
    hide SumSegments, SegmentsText, GoodSegment, AllFit, FloorSum;
    var text := SegmentsText(segments);
    var input := SignText(sign) + text;
    SegmentsTextStart(segments);
    SumOfText(segments, 0);
    assert input[|SignText(sign)|..] == text;
    assert sign.Unsigned? ==> input == text;
  }

  /** The eight unit texts and their nanoseconds; micro has three spellings. */
  lemma UnitIff(unit: string, nanos: nat)
    ensures Multiplier(unit) == Some(nanos) <==>
            (unit, nanos) in {("ns", 1), ("us", 1_000), ("\U{00B5}s", 1_000), ("\U{03BC}s", 1_000), ("ms", 1_000_000),
                              ("s", 1_000_000_000), ("m", 60 * 1_000_000_000), ("h", 3_600 * 1_000_000_000)}
  {
  }

  /** The same segment, but for the way micro is spelled. */
  ghost predicate SameButMicro(g: Segment, h: Segment) {
    || g == h
    || (g == h.(unit := g.unit) && {g.unit, h.unit} <= {"us", "\U{00B5}s", "\U{03BC}s"})
  }

  lemma {:induction false} MicroSums(a: seq<Segment>, b: seq<Segment>, total: nat)
    requires AllGood(a) && AllGood(b) && |a| == |b|
    requires forall i :: 0 <= i < |a| ==> SameButMicro(a[i], b[i])
    ensures SumSegments(SegmentsText(a), total) == SumSegments(SegmentsText(b), total)
    decreases |a|
  {
    hide SegmentNanos, NumberText, GoodSegment, SumSegments, NumberChar, UnitLetters, SameButMicro;
    if a != [] {
      NumberIsNumberChars(a[0]);
      NumberIsNumberChars(b[0]);
      UnitsAreLettersOf(a[0]);
      UnitsAreLettersOf(b[0]);
      if a[1..] != [] { SegmentsTextStart(a[1..]); SegmentsTextStart(b[1..]); }
      SumPeel(NumberText(a[0]), a[0].unit, SegmentsText(a[1..]), total);
      SumPeel(NumberText(b[0]), b[0].unit, SegmentsText(b[1..]), total);
      MicroSegment(a[0], b[0]);
      var nanos := SegmentNanos(NumberText(a[0]), a[0].unit);
      if nanos.Ok? { MicroSums(a[1..], b[1..], total + nanos.value); }
    }
  }

  lemma MicroSegment(g: Segment, h: Segment)
    requires SameButMicro(g, h)
    ensures SegmentNanos(NumberText(g), g.unit) == SegmentNanos(NumberText(h), h.unit)
  {
    hide SegmentNanos;
    assert NumberText(g) == NumberText(h);
    if g != h { SameUnit(NumberText(g), g.unit, h.unit); }
  }

  lemma SameUnit(number: string, u: string, v: string)
    requires Multiplier(u) == Multiplier(v) == Some(1_000)
    ensures SegmentNanos(number, u) == SegmentNanos(number, v)
  {
    hide Multiplier, Value, Pow10, Quotient, SplitOnce, AllDigits;
  }

  /** How micro is spelled, segment by segment, makes no difference to any text. */
  lemma MicroSpellings(sign: Sign, a: seq<Segment>, b: seq<Segment>)
    requires Good(a) && Good(b) && |a| == |b|
    requires forall i :: 0 <= i < |a| ==> SameButMicro(a[i], b[i])
    ensures Parse(SignText(sign) + SegmentsText(a)) == Parse(SignText(sign) + SegmentsText(b))
  {
    hide SumSegments, SegmentsText, GoodSegment, SameButMicro, NumberChar;
    MicroSums(a, b, 0);
    SegmentsTextStart(a);
    SegmentsTextStart(b);
    NoSignInNumber();
    assert (SignText(sign) + SegmentsText(a))[|SignText(sign)|..] == SegmentsText(a);
    assert (SignText(sign) + SegmentsText(b))[|SignText(sign)|..] == SegmentsText(b);
    assert sign.Unsigned? ==>
      SignText(sign) + SegmentsText(a) == SegmentsText(a) && SignText(sign) + SegmentsText(b) == SegmentsText(b);
  }

  lemma NoSignInNumber()
    ensures !NumberChar('+') && !NumberChar('-')
  {
  }

  /** The segment a pair of scans found. */
  function Read(number: string, unit: string): Segment {
    var (whole, fraction) := SplitOnce(number);
    Segment(whole, BeforeDot(number) < |number|, fraction, unit)
  }

  /** A pair of scans that yields a result found a well-formed segment. */
  lemma ReadIsGood(number: string, unit: string)
    requires SegmentNanos(number, unit).Ok?
    ensures GoodSegment(Read(number, unit)) && NumberText(Read(number, unit)) == number
    ensures Read(number, unit).unit == unit
  {
    hide Multiplier, Value, Pow10, Quotient;
    var n := BeforeDot(number);
    if n < |number| {
      assert number == number[..n] + "." + number[n + 1..];
    } else {
      assert number + "" + "" == number;
    }
  }

  lemma SumOpens(rest: string, total: nat)
    requires rest != "" && SumSegments(rest, total).Ok?
    ensures var n := Span(rest, true);
      var u := n + Span(rest[n..], false);
      && SegmentNanos(rest[..n], rest[n..u]).Ok? && u > 0
      && SumSegments(rest[u..], total + SegmentNanos(rest[..n], rest[n..u]).value).Ok?
  {
    hide SegmentNanos, Span;
    var n := Span(rest, true);
    var u := n + Span(rest[n..], false);
    var nanos := SegmentNanos(rest[..n], rest[n..u]);
    assert nanos.Ok?;
    NumberNonempty(rest[..n], rest[n..u]);
    assert SumSegments(rest, total) == SumSegments(rest[u..], total + nanos.value);
  }

  lemma {:induction false} TextOfSum(rest: string, total: nat) returns (segments: seq<Segment>)
    requires SumSegments(rest, total).Ok? && rest != ""
    ensures Good(segments) && rest == SegmentsText(segments)
    decreases |rest|
  {
    hide SegmentNanos, GoodSegment, NumberText, Read, SumSegments, SegmentsText, AllGood, NumberChar;
    assert SegmentsText([]) == "" && AllGood([]) by { NoSegments(); }
    SumOpens(rest, total);
    var n := Span(rest, true);
    var u := n + Span(rest[n..], false);
    var first := Read(rest[..n], rest[n..u]);
    ReadIsGood(rest[..n], rest[n..u]);
    assert rest == rest[..n] + rest[n..u] + rest[u..];
    var others: seq<Segment> := [];
    if rest[u..] != "" {
      others := TextOfSum(rest[u..], total + SegmentNanos(rest[..n], rest[n..u]).value);
    }
    segments := [first] + others;
    TextOfCons(first, others);
  }

  lemma NoSegments()
    ensures SegmentsText([]) == "" && AllGood([])
  {
  }

  lemma TextOfCons(first: Segment, others: seq<Segment>)
    ensures SegmentsText([first] + others) == NumberText(first) + first.unit + SegmentsText(others)
    ensures GoodSegment(first) && AllGood(others) ==> Good([first] + others)
  {
    assert ([first] + others)[1..] == others;
  }

  /** Whatever is accepted is a spelling of some segments. */
  lemma AcceptedIsSpelled(input: string) returns (sign: Sign, segments: seq<Segment>)
    requires Parse(input).Ok?
    ensures Spells(input, sign, segments)
  {
    hide SumSegments, SegmentsText, AllGood;
    sign := if input[0] == '+' then Plus else if input[0] == '-' then Minus else Unsigned;
    var rest := if input[0] == '+' || input[0] == '-' then input[1..] else input;
    segments := TextOfSum(rest, 0);
    assert input == SignText(sign) + rest;
  }

  lemma {:induction false} FractionsShorter(segments: seq<Segment>)
    requires |SegmentsText(segments)| < U32_RANGE
    ensures ShortFractions(segments)
  {
    if segments != [] {
      FractionsShorter(segments[1..]);
    }
  }

  /** The parser accepts exactly the texts that spell segments within range, and the result is
      the signed sum of the segments, each rounded down. */
  lemma AcceptedExactly(input: string, d: int)
    requires |input| < 4_294_967_296
    ensures Parse(input) == Ok(d) <==>
            exists sign, segments :: Spells(input, sign, segments) && Denoted(sign, segments) == Ok(d)
  {
    if Parse(input) == Ok(d) {
      var sign, segments := AcceptedIsSpelled(input);
      FractionsShorter(segments);
      ParseOfText(sign, segments);
    }
    forall sign, segments | Spells(input, sign, segments) && Denoted(sign, segments) == Ok(d)
      ensures Parse(input) == Ok(d)
    {
      FractionsShorter(segments);
      ParseOfText(sign, segments);
    }
  }

  lemma FloorWithinOne(g: Segment)
    requires GoodSegment(g)
    ensures Exact(g) - 1.0 < Floor(g) as real <= Exact(g)
  {
    var p := Pow10(|g.fraction|);
    var a := Scaled(g);
    DivisionBounds(a, p);
  }

  lemma DivisionBounds(a: nat, p: nat)
    requires p > 0
    ensures a as real / p as real - 1.0 < Quotient(a, p) as real <= a as real / p as real
  {
    var q := Quotient(a, p);
    QuotientBounds(a, p);
    RealQuotient(a as real, p as real, q as real);
  }

  lemma RealQuotient(a: real, p: real, q: real)
    requires p > 0.0 && q * p <= a < (q + 1.0) * p
    ensures a / p - 1.0 < q <= a / p
  {
    var x := a / p;
    assert x * p == a;
    RealSign(x - q, p);
    RealSign(q + 1.0 - x, p);
  }

  lemma RealSign(y: real, p: real)
    requires p > 0.0
    ensures y * p >= 0.0 ==> y >= 0.0
    ensures y * p > 0.0 ==> y > 0.0
  {
  }

  /** Rounding loses less than one nanosecond per segment, and never adds. */
  lemma {:induction false} TruncationBound(segments: seq<Segment>)
    requires Good(segments)
    ensures ExactSum(segments) - |segments| as real < FloorSum(segments) as real <= ExactSum(segments)
  {
    FloorWithinOne(segments[0]);
    if |segments| > 1 {
      TruncationBound(segments[1..]);
    } else {
      assert segments[1..] == [];
    }
  }

  // ---------- Fractions longer than a u32 counts ----------

  lemma {:induction false} Pow10Grows(a: nat, b: nat)
    requires a <= b
    ensures Pow10(a) <= Pow10(b)
    decreases b
  {
    if a < b { Pow10Grows(a, b - 1); }
  }

  lemma Pow10Of39()
    ensures Pow10(39) > I128_MAX
  {
    assert Pow10(10) == 10_000_000_000;
    assert Pow10(20) == 100_000_000_000_000_000_000;
    assert Pow10(30) == 1_000_000_000_000_000_000_000_000_000_000;
  }

  /** The length of the fraction fits in a u32, or the scaled number is below the power of ten that
      the wrapped length selects. */
  predicate RoundsDown(g: Segment)
    requires GoodSegment(g)
  {
    |g.fraction| < 4_294_967_296 || Scaled(g) < Pow10(|g.fraction| % U32_RANGE)
  }

  predicate AllRoundDown(segments: seq<Segment>)
    requires AllGood(segments)
  {
    segments == [] || (RoundsDown(segments[0]) && AllRoundDown(segments[1..]))
  }

  /** Exactly such a segment is read as its value rounded down; any other is read as more. */
  lemma RoundsDownIff(g: Segment)
    requires GoodSegment(g) && SegmentNanos(NumberText(g), g.unit).Ok?
    ensures SegmentNanos(NumberText(g), g.unit) == Ok(Floor(g)) <==> RoundsDown(g)
    ensures SegmentNanos(NumberText(g), g.unit).value >= Floor(g)
  {
    SplitOnceOfNumber(g);
    var wrapped := Pow10(|g.fraction| % U32_RANGE);
    var a := Scaled(g);
    if |g.fraction| >= U32_RANGE {
      Pow10Of39();
      Pow10Grows(39, |g.fraction|);
      QuotientZero(a, Pow10(|g.fraction|));
      QuotientZero(a, wrapped);
    }
  }

  lemma {:induction false} SumRoundsDownIff(segments: seq<Segment>, total: nat)
    requires AllGood(segments) && SumSegments(SegmentsText(segments), total).Ok?
    ensures SumSegments(SegmentsText(segments), total) == Ok(total + FloorSum(segments)) <==> AllRoundDown(segments)
    ensures SumSegments(SegmentsText(segments), total).value >= total + FloorSum(segments)
    decreases |segments|
  {
    hide SegmentNanos, Floor, NumberText, GoodSegment, SumSegments, NumberChar, UnitLetters, RoundsDown;
    SumNothing(total);
    if segments != [] {
      var g, rest := segments[0], segments[1..];
      NumberIsNumberChars(g);
      UnitsAreLettersOf(g);
      if rest != [] { SegmentsTextStart(rest); }
      SumPeel(NumberText(g), g.unit, SegmentsText(rest), total);
      RoundsDownIff(g);
      SumRoundsDownIff(rest, total + SegmentNanos(NumberText(g), g.unit).value);
    }
  }

  /** So an accepted text is read as the sum of its segments, each rounded down, exactly when every
      one of them meets the condition: a misread segment only adds, so no two can cancel. */
  lemma ParseRoundsDownIff(input: string, sign: Sign, segments: seq<Segment>)
    requires Spells(input, sign, segments)
    ensures Parse(input).Ok? ==> (Parse(input) == Ok(Signed(sign, FloorSum(segments))) <==> AllRoundDown(segments))
  {
    hide SumSegments, SegmentsText, GoodSegment, FloorSum, AllRoundDown;
    var text := SegmentsText(segments);
    SegmentsTextStart(segments);
    assert input[|SignText(sign)|..] == text;
    assert sign.Unsigned? ==> input == text;
    if SumSegments(text, 0).Ok? { SumRoundsDownIff(segments, 0); }
  }

  /** A text whose fraction has 2^32 zeros and then a five denotes less than a nanosecond, but is
      read as half a second. */
  lemma LongFractionMisread()
    ensures var g := Segment("0", true, Zeros(U32_RANGE) + "5", "s");
      && Spells("0." + (Zeros(U32_RANGE) + "5") + "s", Unsigned, [g])
      && Floor(g) == 0
      && Parse("0." + (Zeros(U32_RANGE) + "5") + "s") == Ok(500_000_000)
  {
    LongFractionSegment();
    var g := Segment("0", true, Zeros(U32_RANGE) + "5", "s");
    hide GoodSegment, SegmentNanos, NumberText, SumSegments, Floor, NumberChar, UnitLetters;
    NumberIsNumberChars(g);
    UnitsAreLettersOf(g);
    SumPeel(NumberText(g), "s", "", 0);
    SumNothing(500_000_000);
    TextOfCons(g, []);
    assert [g] + [] == [g];
    var input := "0." + (Zeros(U32_RANGE) + "5") + "s";
    assert input == NumberText(g) + "s" == NumberText(g) + "s" + "";
    assert SignText(Unsigned) + SegmentsText([g]) == input;
    assert SumSegments(input, 0) == Ok(500_000_000);
  }

  lemma LongFractionSegment()
    ensures var g := Segment("0", true, Zeros(U32_RANGE) + "5", "s");
      && GoodSegment(g) && Floor(g) == 0
      && NumberText(g) == "0." + (Zeros(U32_RANGE) + "5")
      && SegmentNanos(NumberText(g), "s") == Ok(500_000_000)
  {
    hide Zeros, Value, Pow10, Quotient, SplitOnce, AllDigits;
    var fraction := Zeros(U32_RANGE) + "5";
    var g := Segment("0", true, fraction, "s");
    LongFractionValue();
    DigitsAreDecimal("0");
    DigitsAreDecimal(fraction);
    assert NumberText(g) == "0." + fraction;
    SplitOnceOfNumber(g);
    assert |fraction| % U32_RANGE == 1;
    PowersOfTen();
    QuotientOfMultiple(500_000_000, 10);
    Pow10Grows(39, |fraction|);
    QuotientZero(Scaled(g), Pow10(|fraction|));
  }

  lemma PowersOfTen()
    ensures Pow10(1) == 10 && Pow10(39) > I128_MAX
  {
    Pow10Of39();
  }

  lemma LongFractionValue()
    ensures AllDigits("0") && AllDigits(Zeros(U32_RANGE) + "5")
    ensures AllDigits("0" + (Zeros(U32_RANGE) + "5")) && Value("0" + (Zeros(U32_RANGE) + "5")) == 5
  {
    ZerosAreZero(U32_RANGE);
    ValueConcat(Zeros(U32_RANGE), "5");
    ValueConcat("0", Zeros(U32_RANGE) + "5");
    assert "5"[..0] == "" && "0"[..0] == "";
  }

  // ---------- The printer ----------

  function Subsecond(sign: string, nanos: nat, unitNanos: nat, precision: nat, suffix: string): string
    requires unitNanos > 0
  {
    var whole, remainder := nanos / unitNanos, nanos % unitNanos;
    if remainder == 0 then sign + Digits(whole) + suffix
    else sign + Digits(whole) + "." + StripZeros(ZeroPadded(remainder, precision)) + suffix
  }

  function Hours(absolute: nat): nat { absolute / 3_600_000_000_000 }

  function Minutes(absolute: nat): nat { absolute % 3_600_000_000_000 / 60_000_000_000 }

  function BelowMinute(absolute: nat): nat { absolute % 3_600_000_000_000 % 60_000_000_000 }

  function SecondsText(below: nat): string {
    var seconds, fraction := below / 1_000_000_000, below % 1_000_000_000;
    if fraction == 0 then Digits(seconds) + "s"
    else Digits(seconds) + "." + StripZeros(ZeroPadded(fraction, 9)) + "s"
  }

  function Clock(sign: string, absolute: nat): string {
    var hours, minutes := Hours(absolute), Minutes(absolute);
    sign
    + (if hours > 0 then Digits(hours) + "h" else "")
    + (if hours > 0 || minutes > 0 then Digits(minutes) + "m" else "")
    + SecondsText(BelowMinute(absolute))
  }

  function Format(d: i64): string {
    if d == 0 then "0s"
    else
      var sign := if d < 0 then "-" else "";
      var absolute: nat := if d < 0 then -(d as int) else d as int;
      if absolute < 1_000 then sign + Digits(absolute) + "ns"
      else if absolute < 1_000_000 then Subsecond(sign, absolute, 1_000, 3, MICRO_SIGN)
      else if absolute < 1_000_000_000 then Subsecond(sign, absolute, 1_000_000, 6, "ms")
      else Clock(sign, absolute)
  }

  method PopZeros(text: string) returns (r: string)
    ensures r == StripZeros(text)
  {
    r := text;
    while r != "" && r[|r| - 1] == '0'
      invariant StripZeros(r) == StripZeros(text)
      decreases |r|
    {
      r := r[..|r| - 1];
    }
  }

  method FormatSubsecond(sign: string, nanos: nat, unitNanos: nat, precision: nat, suffix: string) returns (r: string)
    requires unitNanos > 0
    ensures r == Subsecond(sign, nanos, unitNanos, precision, suffix)
  {
    hide Digits, ZeroPadded, StripZeros;
    var whole, remainder := nanos / unitNanos, nanos % unitNanos;
    if remainder == 0 { return sign + Digits(whole) + suffix; }
    var fraction := PopZeros(ZeroPadded(remainder, precision));
    return sign + Digits(whole) + "." + fraction + suffix;
  }

  /** The part of the printer from one second on. */
  method FormatClock(sign: string, nanos: i128) returns (r: string)
    requires nanos >= 0
    ensures r == Clock(sign, nanos as int)
  {
    hide Digits, ZeroPadded, StripZeros;
    var absolute := nanos;
    var hours := absolute / 3_600_000_000_000;
    absolute := absolute % 3_600_000_000_000;
    var minutes := absolute / 60_000_000_000;
    absolute := absolute % 60_000_000_000;
    var seconds := absolute / 1_000_000_000;
    var fraction := absolute % 1_000_000_000;
    r := sign;
    if hours > 0 { r := r + (Digits(hours as int) + "h"); }
    if hours > 0 || minutes > 0 { r := r + (Digits(minutes as int) + "m"); }
    if fraction == 0 {
      r := r + (Digits(seconds as int) + "s");
    } else {
      var text := PopZeros(ZeroPadded(fraction as int, 9));
      r := r + (Digits(seconds as int) + "." + text + "s");
    }
  }

  /** The absolute value is taken as an i128, so that of the least i64 exists. */
  method FormatDuration(d: i64) returns (r: string)
    ensures r == Format(d)
  {
    hide Digits, Subsecond, Clock;
    var nanos := d as i128;
    if nanos == 0 { return "0s"; }
    var sign := if nanos < 0 then "-" else "";
    var absolute := if nanos < 0 then -nanos else nanos;
    if absolute < 1_000_000_000 {
      if absolute < 1_000 {
        r := sign + Digits(absolute as int) + "ns";
      } else if absolute < 1_000_000 {
        r := FormatSubsecond(sign, absolute as int, 1_000, 3, MICRO_SIGN);
      } else {
        r := FormatSubsecond(sign, absolute as int, 1_000_000, 6, "ms");
      }
    } else {
      r := FormatClock(sign, absolute);
    }
  }

  // ---------- Round trip ----------

  function WholeSegment(n: nat, unit: string): Segment {
    Segment(Digits(n), false, "", unit)
  }

  function FractionSegment(whole: nat, remainder: nat, precision: nat, unit: string): Segment {
    Segment(Digits(whole), true, StripZeros(ZeroPadded(remainder, precision)), unit)
  }

  lemma WholeSegmentFloor(n: nat, unit: string)
    requires Multiplier(unit).Some?
    ensures var g := WholeSegment(n, unit);
      && GoodSegment(g) && Scaled(g) == n * Multiplier(unit).value && Floor(g) == Scaled(g)
      && NumberText(g) == Digits(n) && g.fraction == ""
      && (Scaled(g) <= I128_MAX ==> SegmentFits(g))
  {
    ValueOfDigits(n);
    assert Digits(n) + "" == Digits(n);
    assert Pow10(0) == 1;
  }

  /** A fraction printed at full precision and stripped is read back without loss. */
  lemma FractionSegmentFloor(whole: nat, remainder: nat, precision: nat, unit: string)
    requires precision > 0 && Multiplier(unit) == Some(Pow10(precision)) && remainder < Pow10(precision)
    requires (whole * Pow10(precision) + remainder) * Pow10(precision) <= I128_MAX
    ensures var g := FractionSegment(whole, remainder, precision, unit);
      && GoodSegment(g) && Floor(g) == whole * Pow10(precision) + remainder
      && SegmentFits(g) && |g.fraction| <= precision
      && NumberText(g) == Digits(whole) + "." + g.fraction
  {
    hide Value, Digits, ZeroPadded, Pow10, Quotient;
    var padded := ZeroPadded(remainder, precision);
    var fraction := StripZeros(padded);
    var p, k := Pow10(precision), precision - |fraction|;
    ZeroPaddedValue(remainder, precision);
    StripValue(Digits(whole), padded);
    ValueConcat(Digits(whole), padded);
    ValueOfDigits(whole);
    var v := Value(Digits(whole) + fraction);
    assert v * Pow10(k) == whole * p + remainder;
    PowSum(k, |fraction|);
    ProductAtLeast(v, Pow10(k));
    Exactly(v, Pow10(k), Pow10(|fraction|));
    ScaledBound(v, whole * p + remainder, p);
    Pow10Grows(|fraction|, precision);
    PowerFits(whole * p + remainder, p);
  }

  lemma PowerFits(v: nat, p: nat)
    requires v * p <= I128_MAX
    ensures v > 0 ==> p <= I128_MAX
  {
    if v > 0 { assert v * p >= p; }
  }

  lemma PowSum(a: nat, b: nat)
    ensures Pow10(a + b) == Pow10(a) * Pow10(b)
  {
    if a > 0 { PowSum(a - 1, b); TimesTenLeft(Pow10(a - 1), Pow10(b)); }
  }

  lemma TimesTenLeft(a: nat, b: nat)
    ensures 10 * a * b == 10 * (a * b)
  {
  }

  lemma Exactly(v: nat, a: nat, b: nat)
    requires b > 0
    ensures Quotient(v * (a * b), b) == v * a
  {
    assert v * (a * b) == (v * a) * b;
    QuotientOfMultiple(v * a, b);
  }

  lemma ScaledBound(v: nat, w: nat, p: nat)
    requires v <= w
    ensures v * p <= w * p
  {
  }

  /** `segments` are well formed, within range and denote `total` nanoseconds exactly. */
  ghost predicate Reads(segments: seq<Segment>, total: nat) {
    AllGood(segments) && AllFit(segments) && ShortFractions(segments) && FloorSum(segments) == total
  }

  lemma {:induction false} ReadsConcat(a: seq<Segment>, b: seq<Segment>, x: nat, y: nat)
    requires Reads(a, x) && Reads(b, y)
    ensures Reads(a + b, x + y) && SegmentsText(a + b) == SegmentsText(a) + SegmentsText(b)
  {
    hide GoodSegment, SegmentFits, Floor, NumberText;
    if a == [] {
      assert a + b == b;
    } else {
      assert (a + b)[1..] == a[1..] + b;
      ReadsConcat(a[1..], b, FloorSum(a[1..]), y);
    }
  }

  lemma ReadsOne(g: Segment)
    requires GoodSegment(g) && SegmentFits(g) && |g.fraction| < U32_RANGE
    ensures Reads([g], Floor(g)) && SegmentsText([g]) == NumberText(g) + g.unit
  {
    hide GoodSegment, SegmentFits, Floor, NumberText;
    var rest := [g][1..];
    assert rest == [];
    assert Reads(rest, 0) && SegmentsText(rest) == "";
    assert SegmentsText([g]) == NumberText(g) + g.unit + "";
    assert FloorSum([g]) == Floor(g) + FloorSum(rest);
    assert NumberText(g) + g.unit + "" == NumberText(g) + g.unit;
  }

  lemma WholeReads(n: nat, unit: string)
    requires Multiplier(unit).Some? && n * Multiplier(unit).value <= I128_MAX
    ensures Reads([WholeSegment(n, unit)], n * Multiplier(unit).value)
    ensures SegmentsText([WholeSegment(n, unit)]) == Digits(n) + unit
  {
    hide Multiplier, GoodSegment, SegmentFits, Floor, NumberText, Scaled;
    WholeSegmentFloor(n, unit);
    ReadsOne(WholeSegment(n, unit));
  }

  /** The segment printed for `whole` units and `remainder` of `Pow10(precision)` parts. */
  function Shown(whole: nat, remainder: nat, precision: nat, unit: string): Segment {
    if remainder == 0 then WholeSegment(whole, unit) else FractionSegment(whole, remainder, precision, unit)
  }

  function ShownText(whole: nat, remainder: nat, precision: nat, unit: string): string {
    if remainder == 0 then Digits(whole) + unit
    else Digits(whole) + "." + StripZeros(ZeroPadded(remainder, precision)) + unit
  }

  lemma ShownReads(whole: nat, remainder: nat, precision: nat, unit: string)
    requires 0 < precision < U32_RANGE && Multiplier(unit) == Some(Pow10(precision)) && remainder < Pow10(precision)
    requires (whole * Pow10(precision) + remainder) * Pow10(precision) <= I128_MAX
    ensures Reads([Shown(whole, remainder, precision, unit)], whole * Pow10(precision) + remainder)
    ensures SegmentsText([Shown(whole, remainder, precision, unit)]) == ShownText(whole, remainder, precision, unit)
  {
    hide Multiplier, GoodSegment, SegmentFits, Floor, NumberText, Scaled, Pow10, StripZeros;
    hide ZeroPadded, Digits, AllGood, AllFit, ShortFractions, FloorSum, SegmentsText;
    if remainder == 0 {
      ProductAtLeast(whole * Pow10(precision), Pow10(precision));
      WholeReads(whole, unit);
    } else {
      FractionSegmentFloor(whole, remainder, precision, unit);
      ReadsOne(FractionSegment(whole, remainder, precision, unit));
    }
  }

  lemma Powers()
    ensures Pow10(3) == 1_000 && Pow10(6) == 1_000_000 && Pow10(9) == 1_000_000_000
  {
    assert Pow10(3) == 1_000;
    assert Pow10(6) == 1_000_000;
  }

  /** The segments `Clock` prints. */
  function ClockSegments(absolute: nat): seq<Segment> {
    var hours, minutes, below := Hours(absolute), Minutes(absolute), BelowMinute(absolute);
    (if hours > 0 then [WholeSegment(hours, "h")] else [])
    + (if hours > 0 || minutes > 0 then [WholeSegment(minutes, "m")] else [])
    + [Shown(below / 1_000_000_000, below % 1_000_000_000, 9, "s")]
  }

  lemma ClockParts(absolute: nat)
    requires absolute <= I64_MAX + 1
    ensures Hours(absolute) * 3_600_000_000_000 + Minutes(absolute) * 60_000_000_000 + BelowMinute(absolute) == absolute
    ensures BelowMinute(absolute) < 60_000_000_000
    ensures Hours(absolute) * 3_600_000_000_000 <= I128_MAX && Minutes(absolute) * 60_000_000_000 <= I128_MAX
  {
  }

  lemma SecondsRead(below: nat)
    requires below < 60_000_000_000
    ensures var last := [Shown(below / 1_000_000_000, below % 1_000_000_000, 9, "s")];
      Reads(last, below) && SegmentsText(last) == SecondsText(below)
  {
    hide Multiplier, SegmentsText, Digits, StripZeros, ZeroPadded, Shown, Reads, Pow10;
    Units();
    Powers();
    ShownReads(below / 1_000_000_000, below % 1_000_000_000, 9, "s");
  }

  lemma ClockReads(sign: string, absolute: nat)
    requires absolute <= I64_MAX + 1
    ensures Reads(ClockSegments(absolute), absolute)
    ensures Clock(sign, absolute) == sign + SegmentsText(ClockSegments(absolute))
  {
    hide Multiplier, SegmentsText, Digits, Shown, WholeSegment, Reads, SecondsText, Hours, Minutes, BelowMinute;
    var hours, minutes, below := Hours(absolute), Minutes(absolute), BelowMinute(absolute);
    var last := [Shown(below / 1_000_000_000, below % 1_000_000_000, 9, "s")];
    var mid := if hours > 0 || minutes > 0 then [WholeSegment(minutes, "m")] else [];
    var first := if hours > 0 then [WholeSegment(hours, "h")] else [];
    ClockPartsRead(absolute, first, mid, last);
    assert ClockSegments(absolute) == first + mid + last;
  }

  /** The hours, the minutes and the seconds, each read alone and then together. */
  lemma ClockPartsRead(absolute: nat, first: seq<Segment>, mid: seq<Segment>, last: seq<Segment>)
    requires absolute <= I64_MAX + 1
    requires var hours, minutes, below := Hours(absolute), Minutes(absolute), BelowMinute(absolute);
      && last == [Shown(below / 1_000_000_000, below % 1_000_000_000, 9, "s")]
      && mid == (if hours > 0 || minutes > 0 then [WholeSegment(minutes, "m")] else [])
      && first == (if hours > 0 then [WholeSegment(hours, "h")] else [])
    ensures Reads(first + mid + last, absolute)
    ensures var hours, minutes := Hours(absolute), Minutes(absolute);
      SegmentsText(first + mid + last) ==
      (if hours > 0 then Digits(hours) + "h" else "")
      + (if hours > 0 || minutes > 0 then Digits(minutes) + "m" else "") + SecondsText(BelowMinute(absolute))
  {
    hide Multiplier, SegmentsText, Digits, Shown, WholeSegment, Reads, SecondsText, Hours, Minutes, BelowMinute;
    var hours, minutes, below := Hours(absolute), Minutes(absolute), BelowMinute(absolute);
    Units();
    ClockParts(absolute);
    SecondsRead(below);
    OptionalReads(hours > 0, hours, "h");
    OptionalReads(hours > 0 || minutes > 0, minutes, "m");
    ReadsConcat(first, mid, hours * 3_600_000_000_000, minutes * 60_000_000_000);
    ReadsConcat(first + mid, last, hours * 3_600_000_000_000 + minutes * 60_000_000_000, below);
  }

  lemma Units()
    ensures Multiplier("s") == Some(1_000_000_000) && Multiplier("ms") == Some(1_000_000)
    ensures Multiplier(MICRO_SIGN) == Some(1_000) && Multiplier("ns") == Some(1)
    ensures Multiplier("m") == Some(60_000_000_000) && Multiplier("h") == Some(3_600_000_000_000)
  {
  }

  lemma OptionalReads(printed: bool, n: nat, unit: string)
    requires Multiplier(unit).Some? && n * Multiplier(unit).value <= I128_MAX && (!printed ==> n == 0)
    ensures var segments := if printed then [WholeSegment(n, unit)] else [];
      && Reads(segments, n * Multiplier(unit).value)
      && SegmentsText(segments) == if printed then Digits(n) + unit else ""
  {
    if printed { WholeReads(n, unit); }
  }

  /** The segments `Format` prints. */
  function ShownSegments(absolute: nat): seq<Segment> {
    if absolute == 0 then [WholeSegment(0, "s")]
    else if absolute < 1_000 then [WholeSegment(absolute, "ns")]
    else if absolute < 1_000_000 then [Shown(absolute / 1_000, absolute % 1_000, 3, MICRO_SIGN)]
    else if absolute < 1_000_000_000 then [Shown(absolute / 1_000_000, absolute % 1_000_000, 6, "ms")]
    else ClockSegments(absolute)
  }

  function SignOf(d: int): Sign { if d < 0 then Minus else Unsigned }

  function Absolute(d: int): nat { if d < 0 then -d else d }

  /** What is printed spells the segments, which denote exactly the duration. */
  lemma FormatSpells(d: i64)
    ensures Reads(ShownSegments(Absolute(d)), Absolute(d)) && ShownSegments(Absolute(d)) != []
    ensures Format(d) == SignText(SignOf(d)) + SegmentsText(ShownSegments(Absolute(d)))
  {
    hide Multiplier, Reads, SegmentsText, Digits, StripZeros, ZeroPadded, Shown, WholeSegment, Clock, ClockSegments;
    Units();
    Powers();
    var a := Absolute(d);
    var sign := if d < 0 then "-" else "";
    if a == 0 {
      WholeReads(0, "s");
      ZeroText();
      assert SignText(SignOf(d)) + "0s" == "0s";
    } else if a < 1_000 {
      WholeReads(a, "ns");
    } else if a < 1_000_000 {
      ShownReads(a / 1_000, a % 1_000, 3, MICRO_SIGN);
      SubsecondText(sign, a, 1_000, 3, MICRO_SIGN);
    } else if a < 1_000_000_000 {
      ShownReads(a / 1_000_000, a % 1_000_000, 6, "ms");
      SubsecondText(sign, a, 1_000_000, 6, "ms");
    } else {
      ClockReads(sign, a);
      ClockNonempty(a);
    }
  }

  lemma ZeroText()
    ensures Digits(0) + "s" == "0s"
  {
  }

  lemma ClockNonempty(a: nat)
    ensures ClockSegments(a) != []
  {
  }

  lemma SubsecondText(sign: string, nanos: nat, unitNanos: nat, precision: nat, suffix: string)
    requires unitNanos > 0
    ensures Subsecond(sign, nanos, unitNanos, precision, suffix) ==
            sign + ShownText(nanos / unitNanos, nanos % unitNanos, precision, suffix)
  {
    hide Digits, StripZeros, ZeroPadded;
    var remainder := nanos % unitNanos;
    var fraction := if remainder == 0 then "" else StripZeros(ZeroPadded(remainder, precision));
    TextsJoined(sign, Digits(nanos / unitNanos), fraction, suffix);
  }

  lemma TextsJoined(sign: string, whole: string, fraction: string, suffix: string)
    ensures sign + whole + suffix == sign + (whole + suffix)
    ensures sign + whole + "." + fraction + suffix == sign + (whole + "." + fraction + suffix)
  {
  }

  /** Every signed 64-bit count of nanoseconds, the least included, survives printing and parsing. */
  lemma RoundTrip(d: i64)
    ensures Parse(Format(d)) == Ok(d)
  {
    hide Parse, Format, ShownSegments, SegmentsText, GoodSegment, SegmentFits, Floor;
    FormatSpells(d);
    ParseOfText(SignOf(d), ShownSegments(Absolute(d)));
  }

  /** So different durations print differently. */
  lemma FormatInjective(a: i64, b: i64)
    requires Format(a) == Format(b)
    ensures a == b
  {
    RoundTrip(a);
    RoundTrip(b);
  }
}
