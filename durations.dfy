/** The `Duration` custom formatter: a textual Go duration together with a
    target unit, rendered as a number of that unit. */
module Durations {
  import opened Wrappers
  import opened Text

  /** The units of Go's `time` package, in nanoseconds. */
  const Nanosecond: int64 := 1
  const Microsecond: int64 := 1000
  const Millisecond: int64 := 1_000_000
  const Second: int64 := 1_000_000_000
  const Minute: int64 := 60_000_000_000
  const Hour: int64 := 3_600_000_000_000

  /** `Value` is duration text such as "1h32m"; `to` is the target unit
      (a `time.Duration`, zero when left unset). */
  datatype Duration = Duration(value: string, to: int64)

  /** The pair of results a `MarshalInflux` method returns: the text and
      an optional error. */
  datatype Marshaled = Marshaled(text: string, err: Option<string>)

  /** `time.ParseDuration`: duration text to a count of nanoseconds, or an
      error message. */
  type Parser = string -> Result<int64, string>

  predicate IsIntegerUnit(to: int) {
    to == Nanosecond || to == Microsecond || to == Millisecond
  }

  predicate IsFractionalUnit(to: int) {
    to == Second || to == Minute || to == Hour
  }

  /** Go's integer division, which truncates toward zero. */
  function TruncDiv(a: int, b: int): int
    requires b > 0
  {
    if a >= 0 then a / b else -((-a) / b)
  }

  /** `a / b` rounded to the nearest integer, ties to the even neighbour. */
  function RoundHalfEven(a: nat, b: nat): nat
    requires b > 0
  {
    var q, r := a / b, a % b;
    if 2 * r > b then q + 1
    else if 2 * r < b then q
    else if q % 2 == 0 then q
    else q + 1
  }

  /** The hundredths of a unit in `|n|` nanoseconds, rounded. */
  function Hundredths(n: int, unit: int): nat
    requires unit > 0
  {
    RoundHalfEven(if n < 0 then -100 * n else 100 * n, unit)
  }

  /** `strconv.FormatFloat` of `Seconds()`, `Minutes()` or `Hours()` with
      format 'f' and precision 2: fixed notation with two digits after the
      point and a minus sign whenever the duration is negative. The value
      rounded is the exact quotient `n / unit`. */
  function FixedTwo(n: int, unit: int): string
    requires unit > 0
  {
    FixedText(n < 0, Hundredths(n, unit))
  }

  /** `h` hundredths written as `[-]digits.dd`. */
  function FixedText(negative: bool, h: nat): string {
    var cents := h % 100;
    (if negative then "-" else "") + NatDigits(h / 100) + "." + [DigitChar(cents / 10), DigitChar(cents % 10)]
  }

  /** Text of the form `[-]digits.dd`. */
  predicate FixedTwoShape(s: string) {
    |s| >= 4 && s[|s| - 3] == '.' && IsDigit(s[|s| - 2]) && IsDigit(s[|s| - 1]) &&
    var whole := s[..|s| - 3];
    (AllDigits(whole) || (|whole| >= 2 && whole[0] == '-' && AllDigits(whole[1..])))
  }

  /** Reads `[-]digits.dd` as a signed number of hundredths. */
  function ParseFixedTwo(s: string): (r: Option<int>)
    ensures r.Some? <==> FixedTwoShape(s)
  {
    if !FixedTwoShape(s) then None
    else
      var whole := s[..|s| - 3];
      var frac := 10 * DigitValue(s[|s| - 2]) + DigitValue(s[|s| - 1]);
      if AllDigits(whole) then Some(100 * NatValue(whole) + frac)
      else Some(0 - (100 * NatValue(whole[1..]) + frac))
  }

  /** `Duration.MarshalInflux`. */
  function MarshalInflux(d: Duration, parse: Parser): (r: Marshaled)
    ensures r.err.Some? <==> parse(d.value).Failure?
    ensures r.err.Some? ==> r.text == ""
  {
    match parse(d.value)
    case Failure(e) => Marshaled("", Some(e))
    case Success(n) =>
      if d.to == Nanosecond then Marshaled(Decimal(n) + "i", None)
      else if d.to == Microsecond then Marshaled(Decimal(TruncDiv(n, 1000)) + "i", None)
      else if d.to == Millisecond then Marshaled(Decimal(TruncDiv(n, 1_000_000)) + "i", None)
      else if d.to == Second then Marshaled(FixedTwo(n, Second), None)
      else if d.to == Minute then Marshaled(FixedTwo(n, Minute), None)
      else if d.to == Hour then Marshaled(FixedTwo(n, Hour), None)
      else Marshaled(d.value, None)
  }

  /** Truncating division: the quotient has the sign of the dividend and
      the largest magnitude that does not overshoot it. */
  lemma TruncDivBounds(a: int, b: int)
    requires b > 0
    ensures var q := TruncDiv(a, b);
      (a >= 0 ==> q >= 0) && (a <= 0 ==> q <= 0) &&
      (if q >= 0 then q else -q) * b <= (if a >= 0 then a else -a) <
      ((if q >= 0 then q else -q) + 1) * b
  {
  }

  /** Rounding to the nearest: the result is within half a step. */
  lemma RoundHalfEvenNearest(a: nat, b: nat)
    requires b > 0
    ensures var h := RoundHalfEven(a, b);
      2 * (if a >= h * b then a - h * b else h * b - a) <= b
  {
    var q, r := a / b, a % b;
    assert a == q * b + r;
    assert (q + 1) * b == q * b + b;
  }

  /** The parts of `whole + "." + frac` for a two-digit `frac`. */
  lemma FixedParts(whole: string, frac: string)
    requires |frac| == 2
    ensures var s := whole + "." + frac;
      |s| == |whole| + 3 && s[..|s| - 3] == whole && s[|s| - 3] == '.' &&
      s[|s| - 2] == frac[0] && s[|s| - 1] == frac[1]
  {
    var s := whole + "." + frac;
    assert s[..|s| - 3] == whole;
  }

  /** The whole-number part reads back as `h / 100` with its sign. */
  lemma WholePart(negative: bool, q: nat)
    ensures var whole := (if negative then "-" else "") + NatDigits(q);
      (AllDigits(whole) <==> !negative) &&
      (!negative ==> NatValue(whole) == q) &&
      (negative ==> |whole| >= 2 && whole[0] == '-' && AllDigits(whole[1..]) && NatValue(whole[1..]) == q)
  {
    NatDigitsRoundTrip(q);
    var whole := (if negative then "-" else "") + NatDigits(q);
    if negative {
      assert whole[1..] == NatDigits(q);
      assert !IsDigit(whole[0]);
    } else {
      assert whole == NatDigits(q);
    }
  }

  /** Fixed-point text reads back as the number of hundredths it was
      made from. */
  lemma FixedTextRoundTrip(negative: bool, h: nat)
    ensures FixedTwoShape(FixedText(negative, h))
    ensures ParseFixedTwo(FixedText(negative, h)) == Some(if negative then 0 - h else h)
  {
    var whole := (if negative then "-" else "") + NatDigits(h / 100);
    var cents := h % 100;
    var d1, d0 := cents / 10, cents % 10;
    var frac := [DigitChar(d1), DigitChar(d0)];
    var s := FixedText(negative, h);
    assert s == whole + "." + frac;
    FixedParts(whole, frac);
    WholePart(negative, h / 100);
    var q := h / 100;
    assert 100 * q + cents == h;
    var f := 10 * DigitValue(s[|s| - 2]) + DigitValue(s[|s| - 1]);
    assert f == cents;
    assert FixedTwoShape(s);
    if negative {
      assert ParseFixedTwo(s) == Some(0 - (100 * NatValue(whole[1..]) + f));
    } else {
      assert ParseFixedTwo(s) == Some(100 * NatValue(whole) + f);
    }
  }

  /** A failed parse gives empty text and the parser's error. */
  lemma ParseFailure(d: Duration, parse: Parser)
    requires parse(d.value).Failure?
    ensures MarshalInflux(d, parse) == Marshaled("", Some(parse(d.value).error))
  {
  }

  /** Nanoseconds, microseconds and milliseconds give the truncated count
      of the unit followed by `i`, and the count reads back. */
  lemma IntegerUnit(d: Duration, parse: Parser)
    requires parse(d.value).Success? && IsIntegerUnit(d.to)
    ensures var r := MarshalInflux(d, parse);
      r.err == None && |r.text| >= 2 && r.text[|r.text| - 1] == 'i' &&
      ParseDecimal(r.text[..|r.text| - 1]) == Some(TruncDiv(parse(d.value).value, d.to))
  {
    var n := parse(d.value).value;
    var q := TruncDiv(n, d.to);
    var r := MarshalInflux(d, parse);
    assert r.text == Decimal(q) + "i";
    assert r.text[..|r.text| - 1] == Decimal(q);
    DecimalRoundTrip(q);
  }

  /** The rounded hundredths are within half a hundredth of the exact
      magnitude of `n` nanoseconds measured in `unit`. */
  lemma HundredthsNearest(n: int, unit: int)
    requires unit > 0
    ensures var h := Hundredths(n, unit);
      var scaled := if n < 0 then -100 * n else 100 * n;
      2 * (if scaled >= h * unit then scaled - h * unit else h * unit - scaled) <= unit
  {
    RoundHalfEvenNearest(if n < 0 then -100 * n else 100 * n, unit);
  }

  /** Away from a tie the rounding is forced: a quotient within less
      than half a step of `k` rounds to `k`. */
  lemma RoundHalfEvenForced(a: nat, b: nat, k: nat)
    requires b > 0
    requires 2 * (if a >= k * b then a - k * b else k * b - a) < b
    ensures RoundHalfEven(a, b) == k
  {
    var h := RoundHalfEven(a, b);
    RoundHalfEvenNearest(a, b);
    if h > k {
      MulGap(k, h, b);
    } else if h < k {
      MulGap(h, k, b);
    }
  }

  /** Multiples of `b` at distinct indices are at least `b` apart. */
  lemma MulGap(x: nat, y: nat, b: nat)
    requires x < y
    ensures x * b + b <= y * b
  {
    var d: nat := y - x - 1;
    assert y == x + 1 + d;
    assert y * b == x * b + b + d * b;
  }

  /** Away from a half-hundredth tie the rounding is forced: any number of
      hundredths strictly within half a hundredth of the exact magnitude
      is the one the model writes, whichever way a tie would be broken. */
  lemma HundredthsOffTie(n: int, unit: int, k: nat)
    requires unit > 0
    requires var scaled := if n < 0 then -100 * n else 100 * n;
      2 * (if scaled >= k * unit then scaled - k * unit else k * unit - scaled) < unit
    ensures Hundredths(n, unit) == k
  {
    RoundHalfEvenForced(if n < 0 then -100 * n else 100 * n, unit, k);
  }

  /** Seconds, minutes and hours give `[-]digits.dd` with no suffix, which
      reads back as the rounded hundredths of the unit (see
      HundredthsNearest), negative exactly when the duration is. */
  lemma FractionalUnit(d: Duration, parse: Parser)
    requires parse(d.value).Success? && IsFractionalUnit(d.to)
    ensures var r := MarshalInflux(d, parse);
      var n := parse(d.value).value;
      var h := Hundredths(n, d.to);
      r.err == None && FixedTwoShape(r.text) && IsDigit(r.text[|r.text| - 1]) &&
      ParseFixedTwo(r.text) == Some(if n < 0 then 0 - h else h)
  {
    var n := parse(d.value).value;
    var h := Hundredths(n, d.to);
    FixedTextRoundTrip(n < 0, h);
    assert MarshalInflux(d, parse).text == FixedText(n < 0, h);
  }

  /** Any other target unit, the zero value included, passes the text
      through unchanged. */
  lemma OtherUnit(d: Duration, parse: Parser)
    requires parse(d.value).Success? && !IsIntegerUnit(d.to) && !IsFractionalUnit(d.to)
    ensures MarshalInflux(d, parse) == Marshaled(d.value, None)
  {
  }
}
