/**
 * Calendar dates and instants, the `%Y-%m-%d` format written by `create_post`
 * (main.rs:63) and read back by the index builder (about.rs:176-187).
 *
 * chrono's `DateTime<Utc>` is an instant; here it is a calendar day plus the
 * time elapsed since that day's midnight, ordered lexicographically.  A
 * parsed file date is the day at 00:00:00.  The recogniser is the strict
 * fixed-width form of `%Y-%m-%d`: four year digits, two month digits, two day
 * digits, and a day that exists in that month of the proleptic Gregorian
 * calendar.
 */
module Dates {
  import opened Wrappers

  datatype Date = Date(year: int, month: int, day: int)

  /** An instant in UTC: a day and the time since its midnight. */
  datatype DateTime = DateTime(date: Date, sinceMidnight: int)

  predicate IsLeapYear(y: int) {
    y % 4 == 0 && (y % 100 != 0 || y % 400 == 0)
  }

  function DaysInMonth(y: int, m: int): (n: int)
    requires 1 <= m <= 12
    ensures 28 <= n <= 31
    ensures n == 29 <==> m == 2 && IsLeapYear(y)
  {
    if m == 2 then (if IsLeapYear(y) then 29 else 28)
    else if m == 4 || m == 6 || m == 9 || m == 11 then 30
    else 31
  }

  /** A real day whose year has four digits. */
  predicate IsCalendarDate(d: Date) {
    0 <= d.year <= 9999 && 1 <= d.month <= 12 && 1 <= d.day <= DaysInMonth(d.year, d.month)
  }

  /** `NaiveDate::and_hms_opt(0, 0, 0)` in UTC. */
  function Midnight(d: Date): DateTime {
    DateTime(d, 0)
  }

  /** `a < b` for chrono instants: by year, then month, then day, then time of day. */
  predicate Earlier(a: DateTime, b: DateTime) {
    || a.date.year < b.date.year
    || (a.date.year == b.date.year && a.date.month < b.date.month)
    || (a.date.year == b.date.year && a.date.month == b.date.month && a.date.day < b.date.day)
    || (a.date == b.date && a.sinceMidnight < b.sinceMidnight)
  }

  /** Earlier is a strict total order on instants, so sorting by it is well defined. */
  lemma EarlierIsStrictTotalOrder(a: DateTime, b: DateTime, c: DateTime)
    ensures !Earlier(a, a)
    ensures Earlier(a, b) && Earlier(b, c) ==> Earlier(a, c)
    ensures Earlier(a, b) || a == b || Earlier(b, a)
    ensures !(Earlier(a, b) && Earlier(b, a))
  {
  }

  predicate IsDigit(c: char) {
    '0' <= c <= '9'
  }

  function DigitChar(k: int): (c: char)
    requires 0 <= k <= 9
    ensures IsDigit(c)
  {
    ('0' as int + k) as char
  }

  function DigitValue(c: char): (k: int)
    requires IsDigit(c)
    ensures 0 <= k <= 9 && DigitChar(k) == c
  {
    c as int - '0' as int
  }

  /** Two digits, zero-padded: `%m` and `%d`. */
  function Pad2(n: int): (s: string)
    requires 0 <= n <= 99
  {
    [DigitChar(n / 10), DigitChar(n % 10)]
  }

  /** Four digits, zero-padded: `%Y` for the years 0 to 9999. */
  function Pad4(n: int): (s: string)
    requires 0 <= n <= 9999
  {
    Pad2(n / 100) + Pad2(n % 100)
  }

  function Value2(s: string): (n: int)
    requires |s| == 2 && IsDigit(s[0]) && IsDigit(s[1])
    ensures 0 <= n <= 99 && Pad2(n) == s
  {
    var hi, lo := DigitValue(s[0]), DigitValue(s[1]);
    assert (10 * hi + lo) / 10 == hi && (10 * hi + lo) % 10 == lo;
    10 * hi + lo
  }

  function Value4(s: string): (n: int)
    requires |s| == 4 && forall i :: 0 <= i < 4 ==> IsDigit(s[i])
    ensures 0 <= n <= 9999 && Pad4(n) == s
  {
    var hi, lo := Value2(s[..2]), Value2(s[2..]);
    assert (100 * hi + lo) / 100 == hi && (100 * hi + lo) % 100 == lo;
    assert s == s[..2] + s[2..];
    100 * hi + lo
  }

  /** The ten-character shape `DDDD-DD-DD`. */
  predicate IsDateShape(s: string) {
    && |s| == 10
    && s[4] == '-' && s[7] == '-'
    && forall i :: 0 <= i < 10 && i != 4 && i != 7 ==> IsDigit(s[i])
  }

  /** `date.format("%Y-%m-%d")` (main.rs:63): always the ten-character shape. */
  function FormatDate(d: Date): (s: string)
    requires 0 <= d.year <= 9999 && 1 <= d.month <= 12 && 1 <= d.day <= 31
    ensures IsDateShape(s)
  {
    Pad4(d.year) + "-" + Pad2(d.month) + "-" + Pad2(d.day)
  }

  /**
   * `NaiveDate::parse_from_str(s, "%Y-%m-%d")` in its strict form.  It
   * succeeds exactly on the formatted text of a calendar date: whatever it
   * returns is a real date that formats back to `s`, and every calendar date's
   * text parses (ParseFormatRoundTrip).
   */
  function ParseDate(s: string): (r: Option<Date>)
    ensures r.Some? ==> IsCalendarDate(r.value) && FormatDate(r.value) == s
    ensures !IsDateShape(s) ==> r.None?
  {
    if !IsDateShape(s) then None
    else
      var d := Date(Value4(s[..4]), Value2(s[5..7]), Value2(s[8..]));
      if IsCalendarDate(d) then
        assert s == s[..4] + "-" + s[5..7] + "-" + s[8..];
        Some(d)
      else None
  }

  lemma ParseFormatRoundTrip(d: Date)
    requires IsCalendarDate(d)
    ensures ParseDate(FormatDate(d)) == Some(d)
  {
    var s := FormatDate(d);
    assert s[..4] == Pad4(d.year) && s[5..7] == Pad2(d.month) && s[8..] == Pad2(d.day);
    Pad4Injective(Value4(s[..4]), d.year);
    Pad2Injective(Value2(s[5..7]), d.month);
    Pad2Injective(Value2(s[8..]), d.day);
  }

  lemma Pad2Injective(m: int, n: int)
    requires 0 <= m <= 99 && 0 <= n <= 99 && Pad2(m) == Pad2(n)
    ensures m == n
  {
    assert DigitValue(Pad2(m)[0]) == m / 10 && DigitValue(Pad2(m)[1]) == m % 10;
  }

  lemma Pad4Injective(m: int, n: int)
    requires 0 <= m <= 9999 && 0 <= n <= 9999 && Pad4(m) == Pad4(n)
    ensures m == n
  {
    assert Pad4(m)[..2] == Pad2(m / 100) && Pad4(m)[2..] == Pad2(m % 100);
    assert Pad4(n)[..2] == Pad2(n / 100) && Pad4(n)[2..] == Pad2(n % 100);
    Pad2Injective(m / 100, n / 100);
    Pad2Injective(m % 100, n % 100);
  }
}
