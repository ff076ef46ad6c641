/**
 * Calendar dates, weekdays, and the "HH:MM" clock strings of a physician's
 * working-hours table. Times of day are minutes after midnight.
 */
module Clock {
  import opened Wrappers

  /** A date of the proleptic Gregorian calendar. */
  datatype Date = Date(year: int, month: int, day: int)

  predicate IsLeapYear(y: int) {
    y % 4 == 0 && (y % 100 != 0 || y % 400 == 0)
  }

  function DaysInMonth(y: int, m: int): (n: int)
    requires 1 <= m <= 12
    ensures 28 <= n <= 31
    ensures m == 2 ==> (n == 29 <==> IsLeapYear(y))
  {
    if m == 2 then (if IsLeapYear(y) then 29 else 28)
    else if m == 4 || m == 6 || m == 9 || m == 11 then 30
    else 31
  }

  /** A date that "YYYY-MM-DD" can name: four-digit year, existing month and day. */
  predicate ValidDate(d: Date) {
    0 <= d.year <= 9999 && 1 <= d.month <= 12 && 1 <= d.day <= DaysInMonth(d.year, d.month)
  }

  /** The calendar day after `d`. */
  function NextDay(d: Date): Date
    requires 1 <= d.month <= 12
  {
    if d.day < DaysInMonth(d.year, d.month) then Date(d.year, d.month, d.day + 1)
    else if d.month < 12 then Date(d.year, d.month + 1, 1)
    else Date(d.year + 1, 1, 1)
  }

  /** Days that the years before `y` contribute to the weekday, modulo 7. */
  function YearTerm(y: int): int {
    y + y / 4 - y / 100 + y / 400
  }

  const MonthOffsets: seq<int> := [0, 3, 2, 5, 0, 3, 5, 1, 4, 6, 2, 4]

  /**
   * Day of the week of `d`, 0 for Sunday up to 6 for Saturday, computed from
   * the date components alone (Sakamoto's method): January and February
   * count as months of the previous year.
   */
  function DayOfWeek(d: Date): (w: int)
    requires 1 <= d.month <= 12
    ensures 0 <= w < 7
  {
    var y := if d.month < 3 then d.year - 1 else d.year;
    (YearTerm(y) + MonthOffsets[d.month - 1] + d.day) % 7
  }

  const WeekdayLabels: seq<string> := ["sun", "mon", "tue", "wed", "thu", "fri", "sat"]

  /** The lower-cased short English weekday name under which working hours are stored. */
  function WeekdayLabel(d: Date): (name: string)
    requires 1 <= d.month <= 12
    ensures name in WeekdayLabels
  {
    WeekdayLabels[DayOfWeek(d)]
  }

  /** A leap year adds one more day to the year term than an ordinary year. */
  lemma YearTermStep(y: int)
    ensures YearTerm(y) - YearTerm(y - 1) == if IsLeapYear(y) then 2 else 1
  {
    DivStep(y, 4);
    DivStep(y, 100);
    DivStep(y, 400);
    if y % 400 == 0 {
      DivUnique(y, 100, 4 * (y / 400), 0);
    }
    if y % 100 == 0 {
      DivUnique(y, 4, 25 * (y / 100), 0);
    }
  }

  /** Going from y - 1 to y, the quotient by k grows exactly when k divides y. */
  lemma DivStep(y: int, k: int)
    requires k > 0
    ensures y / k - (y - 1) / k == if y % k == 0 then 1 else 0
  {
    var q, r := (y - 1) / k, (y - 1) % k;
    assert y == k * q + r + 1;
    if r + 1 < k {
      DivUnique(y, k, q, r + 1);
    } else {
      assert y == k * (q + 1) + 0;
      DivUnique(y, k, q + 1, 0);
    }
  }

  /** Quotient and remainder are determined by y == k * a + b with 0 <= b < k. */
  lemma DivUnique(y: int, k: int, a: int, b: int)
    requires k > 0 && 0 <= b < k && y == k * a + b
    ensures y / k == a && y % k == b
  {
    var q, r := y / k, y % k;
    assert k * (q - a) == b - r;
    MulAwayFromZero(k, q - a);
  }

  lemma MulAwayFromZero(k: int, n: int)
    requires k > 0
    ensures n >= 1 ==> k * n >= k
    ensures n <= -1 ==> k * n <= -k
  {
    if n >= 1 {
      assert k * n == k * (n - 1) + k;
    } else if n <= -1 {
      assert k * n == k * (n + 1) - k;
    }
  }

  /** Adding one day, less whole weeks, moves the weekday by one. */
  lemma ModStep(x: int, j: int)
    ensures (x + 1 - 7 * j) % 7 == (x % 7 + 1) % 7
  {
    var q, r := x / 7, x % 7;
    if r + 1 < 7 {
      DivUnique(x + 1 - 7 * j, 7, q - j, r + 1);
    } else {
      DivUnique(x + 1 - 7 * j, 7, q - j + 1, 0);
    }
  }

  /** Consecutive calendar days fall on consecutive weekdays, across month and year ends. */
  lemma DayOfWeekOfNextDay(d: Date)
    requires 1 <= d.month <= 12 && 1 <= d.day <= DaysInMonth(d.year, d.month)
    ensures DayOfWeek(NextDay(d)) == (DayOfWeek(d) + 1) % 7
  {
    var m := d.month;
    var y := if m < 3 then d.year - 1 else d.year;
    var x := YearTerm(y) + MonthOffsets[m - 1] + d.day;
    if d.day < DaysInMonth(d.year, m) {
      ModStep(x, 0);
    } else if m == 2 {
      YearTermStep(d.year);
      ModStep(x, 4);
    } else if m == 4 || m == 7 || m == 10 || m == 12 {
      ModStep(x, 5);
    } else {
      ModStep(x, 4);
    }
  }

  /** 9 July 2025 is a Wednesday. */
  lemma WeekdayOf20250709()
    ensures WeekdayLabel(Date(2025, 7, 9)) == "wed"
  {
    assert YearTerm(2025) == 2025 + 506 - 20 + 5;
  }

  predicate IsDigit(c: char) {
    '0' <= c <= '9'
  }

  function DigitValue(c: char): (n: int)
    requires IsDigit(c)
    ensures 0 <= n <= 9
  {
    c as int - '0' as int
  }

  function DigitChar(n: int): (c: char)
    requires 0 <= n <= 9
    ensures IsDigit(c) && DigitValue(c) == n
  {
    ('0' as int + n) as char
  }

  /**
   * The minute of the day that a strict "HH:MM" string names, or None when it
   * names none (the Date built from it is then invalid). "24:00" is the end of
   * the day.
   */
  function ParseClock(s: string): (r: Option<int>)
    ensures r.Some? ==> 0 <= r.value <= 1440
    ensures r.Some? ==> |s| == 5 && s[2] == ':'
    ensures r.Some? ==> IsDigit(s[0]) && IsDigit(s[1]) && IsDigit(s[3]) && IsDigit(s[4])
  {
    if |s| == 5 && IsDigit(s[0]) && IsDigit(s[1]) && s[2] == ':' && IsDigit(s[3]) && IsDigit(s[4]) then
      var hh := 10 * DigitValue(s[0]) + DigitValue(s[1]);
      var mm := 10 * DigitValue(s[3]) + DigitValue(s[4]);
      if (hh < 24 && mm < 60) || (hh == 24 && mm == 0) then Some(60 * hh + mm) else None
    else None
  }

  function TwoDigits(n: int): (s: string)
    requires 0 <= n < 100
    ensures |s| == 2 && IsDigit(s[0]) && IsDigit(s[1])
    ensures 10 * DigitValue(s[0]) + DigitValue(s[1]) == n
  {
    [DigitChar(n / 10), DigitChar(n % 10)]
  }

  function FourDigits(n: int): (s: string)
    requires 0 <= n < 10000
    ensures |s| == 4
    ensures forall i :: 0 <= i < 4 ==> IsDigit(s[i])
    ensures 1000 * DigitValue(s[0]) + 100 * DigitValue(s[1]) + 10 * DigitValue(s[2]) + DigitValue(s[3]) == n
  {
    var high, low := TwoDigits(n / 100), TwoDigits(n % 100);
    assert n == 100 * (n / 100) + n % 100;
    high + low
  }

  /** Minute `m` of the day as "HH:MM". */
  function FormatClock(m: int): (s: string)
    requires 0 <= m < 1440
    ensures |s| == 5 && s[2] == ':'
  {
    TwoDigits(m / 60) + ":" + TwoDigits(m % 60)
  }

  /** Reading back a formatted clock string gives the minute it was made from. */
  lemma ParseFormatClock(m: int)
    requires 0 <= m < 1440
    ensures ParseClock(FormatClock(m)) == Some(m)
  {
    var s := FormatClock(m);
    assert s[..2] == TwoDigits(m / 60) && s[3..] == TwoDigits(m % 60);
  }

  /** Every strict clock string before midnight is the formatting of the minute it names. */
  lemma FormatParseClock(s: string)
    requires ParseClock(s).Some? && ParseClock(s).value < 1440
    ensures FormatClock(ParseClock(s).value) == s
  {
    var hh := 10 * DigitValue(s[0]) + DigitValue(s[1]);
    var mm := 10 * DigitValue(s[3]) + DigitValue(s[4]);
    var m := ParseClock(s).value;
    assert m / 60 == hh && m % 60 == mm;
    assert DigitChar(hh / 10) == s[0] && DigitChar(hh % 10) == s[1];
    assert DigitChar(mm / 10) == s[3] && DigitChar(mm % 10) == s[4];
  }

  /** The date as "YYYY-MM-DD". */
  function DateString(d: Date): (s: string)
    requires ValidDate(d)
    ensures |s| == 10 && s[4] == '-' && s[7] == '-'
    ensures IsDigit(s[0]) && IsDigit(s[1]) && IsDigit(s[2]) && IsDigit(s[3])
    ensures IsDigit(s[5]) && IsDigit(s[6]) && IsDigit(s[8]) && IsDigit(s[9])
    ensures 1000 * DigitValue(s[0]) + 100 * DigitValue(s[1]) + 10 * DigitValue(s[2]) + DigitValue(s[3]) == d.year
    ensures 10 * DigitValue(s[5]) + DigitValue(s[6]) == d.month
    ensures 10 * DigitValue(s[8]) + DigitValue(s[9]) == d.day
  {
    var y, m, dd := FourDigits(d.year), TwoDigits(d.month), TwoDigits(d.day);
    var s := y + "-" + m + "-" + dd;
    assert s[0] == y[0] && s[1] == y[1] && s[2] == y[2] && s[3] == y[3];
    assert s[5] == m[0] && s[6] == m[1] && s[8] == dd[0] && s[9] == dd[1];
    s
  }

  /**
   * Minute `m` of date `d` as an ISO timestamp cut to the minute with ":00"
   * appended, "YYYY-MM-DDTHH:MM:00".
   */
  function SlotString(d: Date, m: int): (s: string)
    requires ValidDate(d) && 0 <= m < 1440
    ensures |s| == 19 && s[16..] == ":00" && s[10] == 'T'
    ensures s[..10] == DateString(d)
    ensures ParseClock(s[11..16]) == Some(m)
  {
    var s := DateString(d) + "T" + FormatClock(m) + ":00";
    ParseFormatClock(m);
    assert s[11..16] == FormatClock(m);
    s
  }
}
