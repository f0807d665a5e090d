/** Proleptic Gregorian calendar dates as Python's `datetime` handles them
    (years 1 to 9999), their day ordinal (`toordinal`, 0001-01-01 is day 1),
    the following day, and the eight-digit YYYYMMDD text form of
    ISO 8601 basic calendar dates (section 4.1.2.2 of ISO 8601:2004) that
    `strptime`/`strftime` with "%Y%m%d" read and write. */
module Dates {
  import opened Text
  import opened Tables

  datatype Date = Date(year: int, month: int, day: int)

  predicate IsLeap(y: int) {
    y % 4 == 0 && (y % 100 != 0 || y % 400 == 0)
  }

  function DaysInYear(y: int): int {
    if IsLeap(y) then 366 else 365
  }

  function DaysInMonth(y: int, m: int): (n: int)
    requires 1 <= m <= 12
    ensures 28 <= n <= 31
  {
    if m == 2 then (if IsLeap(y) then 29 else 28)
    else if m == 4 || m == 6 || m == 9 || m == 11 then 30
    else 31
  }

  /** Days in the months before month m of year y. */
  function DaysBeforeMonth(y: int, m: int): int
    requires 1 <= m <= 12
  {
    var table := [0, 31, 59, 90, 120, 151, 181, 212, 243, 273, 304, 334];
    table[m - 1] + (if m > 2 && IsLeap(y) then 1 else 0)
  }

  /** Days in the years before year y. */
  function DaysBeforeYear(y: int): int
    requires y >= 1
  {
    if y == 1 then 0 else DaysBeforeYear(y - 1) + DaysInYear(y - 1)
  }

  predicate Valid(d: Date) {
    1 <= d.year <= 9999 && 1 <= d.month <= 12 && 1 <= d.day <= DaysInMonth(d.year, d.month)
  }

  const MaxDate := Date(9999, 12, 31)

  /** `date.toordinal()`. */
  function Ordinal(d: Date): int
    requires Valid(d)
  {
    DaysBeforeYear(d.year) + DaysBeforeMonth(d.year, d.month) + d.day
  }

  lemma MonthFits(y: int, m: int)
    requires 1 <= m <= 12
    ensures DaysBeforeMonth(y, m) + DaysInMonth(y, m) == if m == 12 then DaysInYear(y) else DaysBeforeMonth(y, m + 1)
  {
  }

  lemma MonthsAscend(y: int, m1: int, m2: int)
    requires 1 <= m1 < m2 <= 12
    ensures DaysBeforeMonth(y, m1) + DaysInMonth(y, m1) <= DaysBeforeMonth(y, m2)
  {
  }

  lemma {:induction false} YearsAscend(y1: int, y2: int)
    requires 1 <= y1 < y2
    ensures DaysBeforeYear(y1) + DaysInYear(y1) <= DaysBeforeYear(y2)
    decreases y2
  {
    if y2 > y1 + 1 {
      YearsAscend(y1, y2 - 1);
    }
  }

  /** A date's ordinal lies within its year. */
  lemma OrdinalInYear(d: Date)
    requires Valid(d)
    ensures DaysBeforeYear(d.year) < Ordinal(d) <= DaysBeforeYear(d.year) + DaysInYear(d.year)
  {
    MonthFits(d.year, d.month);
    if d.month < 12 {
      MonthsAscend(d.year, d.month, 12);
      MonthFits(d.year, 12);
    }
  }

  /** Later dates have larger ordinals: the calendar order and the ordinal agree. */
  lemma OrdinalOrder(a: Date, b: Date)
    requires Valid(a) && Valid(b)
    requires a.year < b.year
          || (a.year == b.year && a.month < b.month)
          || (a.year == b.year && a.month == b.month && a.day < b.day)
    ensures Ordinal(a) < Ordinal(b)
  {
    if a.year < b.year {
      OrdinalInYear(a);
      OrdinalInYear(b);
      YearsAscend(a.year, b.year);
    } else if a.month < b.month {
      MonthsAscend(a.year, a.month, b.month);
    }
  }

  /** Different dates have different ordinals. */
  lemma OrdinalInjective(a: Date, b: Date)
    requires Valid(a) && Valid(b) && Ordinal(a) == Ordinal(b)
    ensures a == b
  {
    if a.year < b.year || (a.year == b.year && a.month < b.month)
       || (a.year == b.year && a.month == b.month && a.day < b.day) {
      OrdinalOrder(a, b);
    } else if b.year < a.year || (a.year == b.year && b.month < a.month)
       || (a.year == b.year && a.month == b.month && b.day < a.day) {
      OrdinalOrder(b, a);
    }
  }

  /** The last representable date has the largest ordinal. */
  lemma OrdinalAtMost(d: Date)
    requires Valid(d)
    ensures Ordinal(d) <= Ordinal(MaxDate)
    ensures Ordinal(d) == Ordinal(MaxDate) ==> d == MaxDate
  {
    if d != MaxDate {
      OrdinalOrder(d, MaxDate);
    }
  }

  /** `d + timedelta(days=1)`. */
  function NextDay(d: Date): (r: Date)
    requires Valid(d) && d != MaxDate
    ensures Valid(r) && Ordinal(r) == Ordinal(d) + 1
  {
    if d.day < DaysInMonth(d.year, d.month) then Date(d.year, d.month, d.day + 1)
    else if d.month < 12 then
      MonthFits(d.year, d.month);
      Date(d.year, d.month + 1, 1)
    else
      MonthFits(d.year, 12);
      Date(d.year + 1, 1, 1)
  }

  /** `count` consecutive days from `start`. */
  function Days(start: Date, count: nat): (r: seq<Date>)
    requires Valid(start) && Ordinal(start) + count - 1 <= Ordinal(MaxDate)
    ensures |r| == count
    ensures count > 0 ==> r[0] == start
    ensures forall i :: 0 <= i < |r| ==> Valid(r[i]) && Ordinal(r[i]) == Ordinal(start) + i
    ensures forall i :: 0 <= i < |r| - 1 ==> r[i] != MaxDate && r[i + 1] == NextDay(r[i])
    decreases count
  {
    if count == 0 then []
    else if count == 1 then [start]
    else
      OrdinalAtMost(start);
      [start] + Days(NextDay(start), count - 1)
  }

  function TwoDigits(n: int): (s: string)
    requires 0 <= n < 100
    ensures |s| == 2
  {
    [DigitChar(n / 10), DigitChar(n % 10)]
  }

  function FourDigits(n: int): (s: string)
    requires 0 <= n < 10000
    ensures |s| == 4
  {
    [DigitChar(n / 1000), DigitChar(n / 100 % 10), DigitChar(n / 10 % 10), DigitChar(n % 10)]
  }

  /** `strftime("%Y%m%d")`. */
  function Format(d: Date): (s: string)
    requires Valid(d)
    ensures |s| == 8 && forall i :: 0 <= i < 8 ==> '0' <= s[i] <= '9'
  {
    FourDigits(d.year) + TwoDigits(d.month) + TwoDigits(d.day)
  }

  predicate IsDigit(c: char) {
    '0' <= c <= '9'
  }

  /** The value of two decimal digits. */
  function Value2(s: string): int
    requires |s| == 2
  {
    10 * DigitValue(s[0]) + DigitValue(s[1])
  }

  /** The value of four decimal digits. */
  function Value4(s: string): int
    requires |s| == 4
  {
    1000 * DigitValue(s[0]) + 100 * DigitValue(s[1]) + 10 * DigitValue(s[2]) + DigitValue(s[3])
  }

  /** `datetime.strptime(s, "%Y%m%d")` for the eight-digit form: an error
      (Python's ValueError) for anything else or a date that does not exist. */
  function Parse(s: string): (r: Result<Date>)
    ensures r.Ok? ==> Valid(r.value)
  {
    if |s| == 8 && (forall i :: 0 <= i < 8 ==> IsDigit(s[i])) then
      var d := Date(Value4(s[..4]), Value2(s[4..6]), Value2(s[6..]));
      if 1 <= d.year <= 9999 && 1 <= d.month <= 12 && 1 <= d.day <= DaysInMonth(d.year, d.month)
      then Ok(d)
      else Err("ValueError: time data does not match format '%Y%m%d'")
    else Err("ValueError: time data does not match format '%Y%m%d'")
  }

  lemma TwoDigitsValue(n: int)
    requires 0 <= n < 100
    ensures Value2(TwoDigits(n)) == n
  {
  }

  lemma FourDigitsValue(n: int)
    requires 0 <= n < 10000
    ensures Value4(FourDigits(n)) == n
  {
    var a, b, c, d := n / 1000, n / 100 % 10, n / 10 % 10, n % 10;
    assert n / 100 == 10 * a + b;
    assert n / 10 == 100 * a + 10 * b + c;
  }

  /** Reading a written date gives it back. */
  lemma ParseFormat(d: Date)
    requires Valid(d)
    ensures Parse(Format(d)) == Ok(d)
  {
    var s := Format(d);
    assert s[..4] == FourDigits(d.year);
    assert s[4..6] == TwoDigits(d.month);
    assert s[6..] == TwoDigits(d.day);
    FourDigitsValue(d.year);
    TwoDigitsValue(d.month);
    TwoDigitsValue(d.day);
  }

  lemma DigitRoundTrip(c: char)
    requires IsDigit(c)
    ensures DigitChar(DigitValue(c)) == c
  {
  }

  lemma TwoDigitsOf(s: string)
    requires |s| == 2 && IsDigit(s[0]) && IsDigit(s[1])
    ensures 0 <= Value2(s) < 100 && TwoDigits(Value2(s)) == s
  {
    DigitRoundTrip(s[0]);
    DigitRoundTrip(s[1]);
  }

  lemma FourDigitsOf(s: string)
    requires |s| == 4 && forall i :: 0 <= i < 4 ==> IsDigit(s[i])
    ensures 0 <= Value4(s) < 10000 && FourDigits(Value4(s)) == s
  {
    var a, b, c, d := DigitValue(s[0]), DigitValue(s[1]), DigitValue(s[2]), DigitValue(s[3]);
    var n := Value4(s);
    assert n / 1000 == a;
    assert n / 100 == 10 * a + b;
    assert n / 10 == 100 * a + 10 * b + c;
    DigitRoundTrip(s[0]);
    DigitRoundTrip(s[1]);
    DigitRoundTrip(s[2]);
    DigitRoundTrip(s[3]);
  }

  /** Writing a date that was read gives back the text read. */
  lemma FormatParse(s: string)
    requires Parse(s).Ok?
    ensures Format(Parse(s).value) == s
  {
    FourDigitsOf(s[..4]);
    TwoDigitsOf(s[4..6]);
    TwoDigitsOf(s[6..]);
    assert s == s[..4] + s[4..6] + s[6..];
  }
}
