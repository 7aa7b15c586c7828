/**
 * The interval string of `download_clean_update` ("5m", "15m", "1h", ...) and
 * the bar increment, in minutes, that the time index is stepped by.
 *
 * The source looks at the last character: `'m'` means minutes, anything else
 * means hours, and the characters before it go through Python's `int()`. The
 * `timedelta` built from the number holds at most 999999999 days either way.
 */
module Interval {
  import opened Wrappers

  /** The three exceptions the parse can raise in the source. */
  datatype ParseError =
    | IndexError     // `interval[-1]` on the empty string
    | ValueError     // `int(interval[:-1])` on a prefix that is not an integer literal
    | OverflowError  // `timedelta(...)` of 10^9 days or more either way

  predicate IsDigit(c: char) {
    '0' <= c <= '9'
  }

  predicate AllDigits(s: string) {
    forall i :: 0 <= i < |s| ==> IsDigit(s[i])
  }

  function DigitValue(c: char): (d: nat)
    requires IsDigit(c)
    ensures d < 10
  {
    (c as int) - ('0' as int)
  }

  function DigitChar(d: nat): (c: char)
    requires d < 10
    ensures IsDigit(c) && DigitValue(c) == d
  {
    (('0' as int) + d) as char
  }

  /** The value of a string of decimal digits, most significant first. */
  function DigitsValue(s: string): nat
    requires AllDigits(s)
    decreases |s|
  {
    if s == [] then 0 else DigitsValue(s[..|s| - 1]) * 10 + DigitValue(s[|s| - 1])
  }

  /** A decimal integer literal: an optional sign, then one or more digits. */
  predicate IsIntLiteral(s: string) {
    || (|s| > 0 && AllDigits(s))
    || (|s| > 1 && (s[0] == '+' || s[0] == '-') && AllDigits(s[1..]))
  }

  /** Python's `int(s)`: it succeeds exactly on an integer literal, and fails with ValueError otherwise. */
  function ParseInt(s: string): (r: Result<int, ParseError>)
    ensures r.Err? ==> r.error == ValueError
    ensures r.Ok? <==> IsIntLiteral(s)
  {
    if |s| > 0 && (s[0] == '+' || s[0] == '-') then
      if |s| > 1 && AllDigits(s[1..]) then
        Ok(if s[0] == '-' then -(DigitsValue(s[1..]) as int) else DigitsValue(s[1..]))
      else
        Err(ValueError)
    else if |s| > 0 && AllDigits(s) then
      Ok(DigitsValue(s))
    else
      Err(ValueError)
  }

  /** `timedelta.max` and `timedelta.min` are 999999999 days either way. */
  const MaxTimedeltaDays: int := 999999999

  /** A `timedelta` of this many minutes exists: its whole days, rounded down, are within range. */
  predicate TimedeltaInRange(minutes: int) {
    -MaxTimedeltaDays <= minutes / (24 * 60) <= MaxTimedeltaDays
  }

  /**
   * The increment in minutes (source lines 58-61): `int(prefix)` minutes when
   * the interval ends in 'm', `int(prefix)` hours otherwise; the `timedelta`
   * of either raises OverflowError outside the range of days it can hold.
   */
  function ParseInterval(interval: string): (r: Result<int, ParseError>)
    ensures r.Ok? ==> TimedeltaInRange(r.value)
    ensures r.Err? ==> (r.error == IndexError <==> interval == [])
  {
    if |interval| == 0 then
      Err(IndexError)
    else
      var n :- ParseInt(interval[..|interval| - 1]);
      var minutes := if interval[|interval| - 1] == 'm' then n else 60 * n;
      if TimedeltaInRange(minutes) then Ok(minutes) else Err(OverflowError)
  }

  /** Decimal rendering of a natural number, without leading zeros. */
  function FormatNat(n: nat): (s: string)
    decreases n
  {
    if n < 10 then [DigitChar(n)] else FormatNat(n / 10) + [DigitChar(n % 10)]
  }

  /** Decimal rendering of an integer, with a '-' sign when it is negative. */
  function FormatInt(n: int): string {
    if n < 0 then "-" + FormatNat(-n) else FormatNat(n)
  }

  lemma {:induction false} FormatNatDigits(n: nat)
    ensures |FormatNat(n)| > 0 && AllDigits(FormatNat(n))
    ensures DigitsValue(FormatNat(n)) == n
    decreases n
  {
    if n >= 10 {
      FormatNatDigits(n / 10);
      var s := FormatNat(n);
      assert s[..|s| - 1] == FormatNat(n / 10);
    }
  }

  /** `int()` reads back every rendered integer. */
  lemma ParseIntFormatInt(n: int)
    ensures ParseInt(FormatInt(n)) == Ok(n)
  {
    if n < 0 {
      FormatNatDigits(-n);
      assert FormatInt(n) == "-" + FormatNat(-n);
      assert FormatInt(n)[1..] == FormatNat(-n);
      assert |FormatInt(n)| > 1 && AllDigits(FormatInt(n)[1..]);
    } else {
      FormatNatDigits(n);
    }
  }

  /**
   * "<n>m" is n minutes and "<n>" followed by any other unit letter is n
   * hours, unless that many minutes is beyond what a `timedelta` holds.
   */
  lemma ParseIntervalFormat(n: int, unit: char)
    ensures var minutes := if unit == 'm' then n else 60 * n;
      ParseInterval(FormatInt(n) + [unit]) == if TimedeltaInRange(minutes) then Ok(minutes) else Err(OverflowError)
  {
    var s := FormatInt(n) + [unit];
    assert s[..|s| - 1] == FormatInt(n);
    ParseIntFormatInt(n);
  }

  /**
   * The parse fails on the empty string with IndexError, on a prefix that is
   * not an integer literal with ValueError, and on a number of minutes
   * beyond the `timedelta` range with OverflowError; nothing else fails.
   */
  lemma ParseIntervalFailure(interval: string)
    ensures interval == [] ==> ParseInterval(interval) == Err(IndexError)
    ensures interval != [] ==>
      var prefix := interval[..|interval| - 1];
      && (!IsIntLiteral(prefix) ==> ParseInterval(interval) == Err(ValueError))
      && (IsIntLiteral(prefix) ==>
            var n := ParseInt(prefix).value;
            var minutes := if interval[|interval| - 1] == 'm' then n else 60 * n;
            ParseInterval(interval) == if TimedeltaInRange(minutes) then Ok(minutes) else Err(OverflowError))
  {
  }

  /** The intervals the repository passes ("5m", "15m"), and others whose reading may surprise: "1d" is one hour. */
  lemma ParseIntervalExamples()
    ensures ParseInterval("5m") == Ok(5)
    ensures ParseInterval("15m") == Ok(15)
    ensures ParseInterval("1h") == Ok(60)
    ensures ParseInterval("1d") == Ok(60)
    ensures ParseInterval("m") == Err(ValueError)
    ensures ParseInterval("1wk") == Err(ValueError)
  {
    ParseIntervalFormat(5, 'm');
    ParseIntervalFormat(15, 'm');
    assert FormatNat(1) == "1" && DigitChar(5) == '5';
    assert FormatInt(15) + ['m'] == "15m";
    ParseIntervalFormat(1, 'h');
    ParseIntervalFormat(1, 'd');
    assert "1wk"[..2] == "1w";
    assert !IsDigit("1w"[1]);
  }

  /** The edges of the `timedelta` range: 10^9 days of minutes or of hours overflow, one minute less does not. */
  lemma ParseIntervalRangeEdges()
    ensures ParseInterval(FormatInt(1440 * 1000000000) + "m") == Err(OverflowError)
    ensures ParseInterval(FormatInt(1440 * 1000000000 - 1) + "m") == Ok(1440 * 1000000000 - 1)
    ensures ParseInterval(FormatInt(24 * 1000000000) + "h") == Err(OverflowError)
    ensures ParseInterval(FormatInt(-1440 * 999999999) + "m") == Ok(-1440 * 999999999)
    ensures ParseInterval(FormatInt(-1440 * 999999999 - 1) + "m") == Err(OverflowError)
  {
    ParseIntervalFormat(1440 * 1000000000, 'm');
    ParseIntervalFormat(1440 * 1000000000 - 1, 'm');
    ParseIntervalFormat(24 * 1000000000, 'h');
    ParseIntervalFormat(-1440 * 999999999, 'm');
    ParseIntervalFormat(-1440 * 999999999 - 1, 'm');
  }
}
