/**
 * Event start and end times: the minute-precision date-times the create and
 * edit forms deliver (`datetime.strptime(..., "%Y-%m-%dT%H:%M")`), their
 * chronological order, and the `strftime("%Y%m%d_%H%M")` suffix of an
 * event's slug together with the parse that undoes it.
 */
module Clock {

  import opened Wrappers

  datatype DateTime = DateTime(year: int, month: int, day: int, hour: int, minute: int)

  predicate IsLeap(y: int)
  {
    (y % 4 == 0 && y % 100 != 0) || y % 400 == 0
  }

  function DaysIn(y: int, m: int): int
  {
    if m == 2 then (if IsLeap(y) then 29 else 28)
    else if m == 4 || m == 6 || m == 9 || m == 11 then 30
    else 31
  }

  /**
   * A date-time `strptime` can return, restricted to four-digit years (the
   * ones for which `%Y` prints exactly four digits on every platform).
   */
  predicate WellFormed(t: DateTime)
  {
    && 1000 <= t.year <= 9999
    && 1 <= t.month <= 12
    && 1 <= t.day <= DaysIn(t.year, t.month)
    && 0 <= t.hour < 24
    && 0 <= t.minute < 60
  }

  /** Python's `a < b` on datetimes: field by field, most significant first. */
  predicate Before(a: DateTime, b: DateTime)
  {
    || a.year < b.year
    || (a.year == b.year && a.month < b.month)
    || (a.year == b.year && a.month == b.month && a.day < b.day)
    || (a.year == b.year && a.month == b.month && a.day == b.day && a.hour < b.hour)
    || (a.year == b.year && a.month == b.month && a.day == b.day && a.hour == b.hour && a.minute < b.minute)
  }

  /** The number spelled by the digits YYYYMMDDHHMM; the sort key of `ORDER BY StartTime`. */
  function Key(t: DateTime): int
  {
    t.year * 100000000 + t.month * 1000000 + t.day * 10000 + t.hour * 100 + t.minute
  }

  /** On well-formed date-times the key orders exactly as time does, and identifies the date-time. */
  lemma KeyOrdersChronologically(a: DateTime, b: DateTime)
    requires WellFormed(a) && WellFormed(b)
    ensures Before(a, b) <==> Key(a) < Key(b)
    ensures Key(a) == Key(b) <==> a == b
  {
    var ra := a.month * 1000000 + a.day * 10000 + a.hour * 100 + a.minute;
    var rb := b.month * 1000000 + b.day * 10000 + b.hour * 100 + b.minute;
    assert 0 <= ra < 100000000 && 0 <= rb < 100000000;
    var sa := a.day * 10000 + a.hour * 100 + a.minute;
    var sb := b.day * 10000 + b.hour * 100 + b.minute;
    assert 0 <= sa < 1000000 && 0 <= sb < 1000000;
  }

  predicate IsDigit(c: char)
  {
    '0' <= c <= '9'
  }

  ghost predicate AllDigits(s: string)
  {
    forall i :: 0 <= i < |s| ==> IsDigit(s[i])
  }

  function Pow10(w: nat): nat
  {
    if w == 0 then 1 else 10 * Pow10(w - 1)
  }

  /** The number a string of decimal digits spells. */
  function DecimalValue(s: string): (v: nat)
    requires AllDigits(s)
    ensures v < Pow10(|s|)
  {
    if s == [] then 0
    else DecimalValue(s[..|s| - 1]) * 10 + (s[|s| - 1] as int - '0' as int)
  }

  /** `n` in decimal, zero-padded to `width` digits; `DecimalValue` reads it back. */
  function Pad(n: nat, width: nat): (r: string)
    requires n < Pow10(width)
    ensures |r| == width && AllDigits(r)
    ensures DecimalValue(r) == n
  {
    if width == 0 then ""
    else
      var r := Pad(n / 10, width - 1) + [('0' as int + n % 10) as char];
      assert r[..|r| - 1] == Pad(n / 10, width - 1);
      r
  }

  /** `strftime("%Y%m%d_%H%M")`. */
  function TimeSuffix(t: DateTime): (r: string)
    requires WellFormed(t)
    ensures |r| == 13 && r[8] == '_'
    ensures AllDigits(r[..8]) && AllDigits(r[9..])
  {
    var r := Pad(t.year, 4) + Pad(t.month, 2) + Pad(t.day, 2) + "_" + Pad(t.hour, 2) + Pad(t.minute, 2);
    assert r[..8] == Pad(t.year, 4) + Pad(t.month, 2) + Pad(t.day, 2);
    assert r[9..] == Pad(t.hour, 2) + Pad(t.minute, 2);
    r
  }

  /** `strptime(s, "%Y%m%d_%H%M")` for the fixed-width form `TimeSuffix` produces. */
  function ParseSuffix(s: string): (r: Option<DateTime>)
    ensures r.Some? ==> WellFormed(r.value)
  {
    if |s| == 13 && s[8] == '_' && AllDigitsAt(s, 0, 8) && AllDigitsAt(s, 9, 13) then
      var t := DateTime(DecimalValue(s[..4]), DecimalValue(s[4..6]), DecimalValue(s[6..8]),
                        DecimalValue(s[9..11]), DecimalValue(s[11..]));
      if WellFormed(t) then Some(t) else None
    else None
  }

  predicate AllDigitsAt(s: string, lo: nat, hi: nat)
    requires lo <= hi <= |s|
    ensures AllDigitsAt(s, lo, hi) <==> AllDigits(s[lo..hi])
  {
    forall i | lo <= i < hi :: IsDigit(s[i])
  }

  /** Formatting a start time and parsing the suffix back gives the start time. */
  lemma SuffixRoundTrip(t: DateTime)
    requires WellFormed(t)
    ensures ParseSuffix(TimeSuffix(t)) == Some(t)
  {
    var s := TimeSuffix(t);
    assert s[..4] == Pad(t.year, 4);
    assert s[4..6] == Pad(t.month, 2);
    assert s[6..8] == Pad(t.day, 2);
    assert s[9..11] == Pad(t.hour, 2);
    assert s[11..] == Pad(t.minute, 2);
    assert AllDigits(s[0..8]) by { assert s[0..8] == s[..8]; }
    assert AllDigits(s[9..13]) by { assert s[9..13] == s[9..]; }
  }

  /** Two start times give the same suffix only if they are the same minute. */
  lemma SuffixInjective(a: DateTime, b: DateTime)
    requires WellFormed(a) && WellFormed(b)
    ensures TimeSuffix(a) == TimeSuffix(b) <==> a == b
  {
    SuffixRoundTrip(a);
    SuffixRoundTrip(b);
  }

}
