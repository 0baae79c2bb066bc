/** UNIX seconds to the UTC text `YYYY-MM-DDTHH:MM:SSZ`, the profile of
    ISO 8601 extended format (RFC 3339 section 5.6) that the ingester
    writes into `@timestamp`. The civil-date arithmetic is the proleptic
    Gregorian calendar used by Python's datetime, which represents years
    1 to 9999; outside that range `datetime.fromtimestamp` raises. */
module Timestamp {
  import opened Wrappers
  import opened PyData

  const SecondsPerDay: int := 86400
  /** Days from 0001-01-01 to 1970-01-01. */
  const EpochDay: int := 719162
  /** The first UNIX second datetime can represent: 0001-01-01T00:00:00Z. */
  const MinTimestamp: int := -62135596800
  /** One past the last representable second: 10000-01-01T00:00:00Z. */
  const EndTimestamp: int := 253402300800

  predicate IsLeap(y: int) {
    y % 4 == 0 && (y % 100 != 0 || y % 400 == 0)
  }

  function YearLength(y: int): int {
    if IsLeap(y) then 366 else 365
  }

  function MonthLength(y: int, m: int): int
    requires 1 <= m <= 12
  {
    if m == 2 then (if IsLeap(y) then 29 else 28)
    else if m == 4 || m == 6 || m == 9 || m == 11 then 30
    else 31
  }

  /** Days from 0001-01-01 to the first day of year `y`. */
  function DaysBeforeYear(y: int): int {
    var p := y - 1;
    365 * p + p / 4 - p / 100 + p / 400
  }

  /** Days from the first of January of `y` to the first day of month `m`
      (`m == 13` gives the length of the year). */
  function DaysBeforeMonth(y: int, m: int): int
    requires 1 <= m <= 13
    decreases m
  {
    if m == 1 then 0 else DaysBeforeMonth(y, m - 1) + MonthLength(y, m - 1)
  }

  lemma DaysBeforeYearStep(y: int)
    ensures DaysBeforeYear(y + 1) == DaysBeforeYear(y) + YearLength(y)
  {
    CountStep4(y);
    CountStep100(y);
    CountStep400(y);
  }

  /* The number of multiples of 4, 100 and 400 below `y` grows by one
     exactly when `y` is itself a multiple. */
  lemma CountStep4(y: int)
    ensures y / 4 - (y - 1) / 4 == if y % 4 == 0 then 1 else 0
  {
    var q, r := (y - 1) / 4, (y - 1) % 4;
    if r == 3 {
      assert y == 4 * (q + 1);
    } else {
      assert y == 4 * q + (r + 1);
    }
  }

  lemma CountStep100(y: int)
    ensures y / 100 - (y - 1) / 100 == if y % 100 == 0 then 1 else 0
  {
    var q, r := (y - 1) / 100, (y - 1) % 100;
    if r == 99 {
      assert y == 100 * (q + 1);
    } else {
      assert y == 100 * q + (r + 1);
    }
  }

  lemma CountStep400(y: int)
    ensures y / 400 - (y - 1) / 400 == if y % 400 == 0 then 1 else 0
  {
    var q, r := (y - 1) / 400, (y - 1) % 400;
    if r == 399 {
      assert y == 400 * (q + 1);
    } else {
      assert y == 400 * q + (r + 1);
    }
  }

  /** Every year has at least 365 days, so the year starts are increasing. */
  lemma {:induction false} DaysBeforeYearMonotone(a: int, b: int)
    requires a <= b
    ensures DaysBeforeYear(a) + 365 * (b - a) <= DaysBeforeYear(b)
    decreases b - a
  {
    if a < b {
      DaysBeforeYearMonotone(a, b - 1);
      DaysBeforeYearStep(b - 1);
    }
  }

  lemma YearIsTwelveMonths(y: int)
    ensures DaysBeforeMonth(y, 13) == YearLength(y)
  {
  }

  lemma {:induction false} DaysBeforeMonthMonotone(y: int, a: int, b: int)
    requires 1 <= a <= b <= 13
    ensures DaysBeforeMonth(y, a) + 28 * (b - a) <= DaysBeforeMonth(y, b)
    decreases b - a
  {
    if a < b {
      DaysBeforeMonthMonotone(y, a, b - 1);
    }
  }

  /** The broken-down UTC time that `strftime` renders. */
  datatype DateTime = DateTime(year: int, month: int, day: int, hour: int, minute: int, second: int)

  /** Every field is in range: a real calendar day of a year datetime can
      represent, and a time of day without leap seconds. */
  predicate Valid(d: DateTime) {
    && 1 <= d.year <= 9999
    && 1 <= d.month <= 12
    && 1 <= d.day <= MonthLength(d.year, d.month)
    && 0 <= d.hour < 24
    && 0 <= d.minute < 60
    && 0 <= d.second < 60
  }

  /** Zero-based day of the year (POSIX `tm_yday`). */
  function DayOfYear(d: DateTime): int
    requires 1 <= d.month <= 12
  {
    DaysBeforeMonth(d.year, d.month) + d.day - 1
  }

  /** Seconds since 1970-01-01T00:00:00Z of a broken-down time, counted in
      the proleptic Gregorian calendar. */
  function ToUnix(d: DateTime): int
    requires 1 <= d.month <= 12
  {
    (DaysBeforeYear(d.year) + DayOfYear(d) - EpochDay) * SecondsPerDay
      + d.hour * 3600 + d.minute * 60 + d.second
  }

  /** C's `/`, which truncates toward zero. */
  function CDiv(a: int, b: int): int
    requires b > 0
  {
    if a >= 0 then a / b else -((-a) / b)
  }

  /** The "Seconds Since the Epoch" expression of POSIX.1-2017, XBD
      section 4.16, applied to the fields of a broken-down time. */
  function PosixSeconds(d: DateTime): int
    requires 1 <= d.month <= 12
  {
    var tmYear := d.year - 1900;
    d.second + d.minute * 60 + d.hour * 3600 + DayOfYear(d) * 86400
      + (tmYear - 70) * 31536000 + CDiv(tmYear - 69, 4) * 86400
      - CDiv(tmYear - 1, 100) * 86400 + CDiv(tmYear + 299, 400) * 86400
  }

  /** Splits `days` counted from the first of January of `y` into a year
      and a zero-based day of that year. */
  function YearOf(days: int, y: int): (r: (int, int))
    requires 0 <= days
    ensures y <= r.0 && 0 <= r.1 < YearLength(r.0)
    ensures DaysBeforeYear(r.0) + r.1 == DaysBeforeYear(y) + days
    decreases days
  {
    if days < YearLength(y) then (y, days)
    else
      DaysBeforeYearStep(y);
      YearOf(days - YearLength(y), y + 1)
  }

  /** Splits a zero-based day of year `y`, counted from the first day of
      month `m`, into a month and a zero-based day of that month. */
  function MonthOf(yday: int, y: int, m: int): (r: (int, int))
    requires 1 <= m <= 12
    requires 0 <= yday < DaysBeforeMonth(y, 13) - DaysBeforeMonth(y, m)
    ensures m <= r.0 <= 12 && 0 <= r.1 < MonthLength(y, r.0)
    ensures DaysBeforeMonth(y, r.0) + r.1 == DaysBeforeMonth(y, m) + yday
    decreases 12 - m
  {
    if yday < MonthLength(y, m) then (m, yday)
    else MonthOf(yday - MonthLength(y, m), y, m + 1)
  }

  lemma YearOfBelowTenThousand(days: int)
    requires 0 <= days < DaysBeforeYear(10000)
    ensures YearOf(days, 1).0 <= 9999
  {
    var y := YearOf(days, 1).0;
    if y >= 10000 {
      DaysBeforeYearMonotone(10000, y);
    }
  }

  /** `datetime.fromtimestamp(t, tz=timezone.utc)` for a representable
      `t`: the broken-down UTC time, every field in range, that denotes
      exactly the second `t`. */
  function Decompose(t: int): (d: DateTime)
    requires MinTimestamp <= t < EndTimestamp
    ensures Valid(d)
    ensures ToUnix(d) == t
  {
    var date := CivilDate(t / SecondsPerDay + EpochDay);
    var secs := t % SecondsPerDay;
    DateTime(date.0, date.1, date.2, secs / 3600, secs % 3600 / 60, secs % 60)
  }

  /** The calendar date (year, month, day) that lies `days` days after
      0001-01-01. */
  function CivilDate(days: int): (r: (int, int, int))
    requires 0 <= days < DaysBeforeYear(10000)
    ensures 1 <= r.0 <= 9999 && 1 <= r.1 <= 12 && 1 <= r.2 <= MonthLength(r.0, r.1)
    ensures DaysBeforeYear(r.0) + DaysBeforeMonth(r.0, r.1) + r.2 - 1 == days
  {
    YearOfBelowTenThousand(days);
    var year := YearOf(days, 1);
    YearIsTwelveMonths(year.0);
    var month := MonthOf(year.1, year.0, 1);
    (year.0, month.0, month.1 + 1)
  }

  /** YearOf finds the one year whose span contains the day. */
  lemma YearOfUnique(days: int, y0: int, y: int, yday: int)
    requires y0 <= y && 0 <= yday < YearLength(y)
    requires days == DaysBeforeYear(y) - DaysBeforeYear(y0) + yday
    ensures 0 <= days
    ensures YearOf(days, y0) == (y, yday)
  {
    DaysBeforeYearMonotone(y0, y);
    var r := YearOf(days, y0);
    SameDayOfEra(r.0, y, r.1, yday);
  }

  /** A day counted from 0001-01-01 falls in exactly one year. */
  lemma SameDayOfEra(a: int, b: int, da: int, db: int)
    requires 0 <= da < YearLength(a) && 0 <= db < YearLength(b)
    requires DaysBeforeYear(a) + da == DaysBeforeYear(b) + db
    ensures a == b && da == db
  {
    if a < b {
      YearEndsBefore(a, b);
    } else if b < a {
      YearEndsBefore(b, a);
    }
  }

  /** A year ends no later than any later year begins. */
  lemma YearEndsBefore(a: int, b: int)
    requires a < b
    ensures DaysBeforeYear(a) + YearLength(a) <= DaysBeforeYear(b)
  {
    DaysBeforeYearStep(a);
    DaysBeforeYearMonotone(a + 1, b);
  }

  /** MonthOf finds the one month whose span contains the day. */
  lemma {:induction false} MonthOfUnique(yday: int, y: int, m0: int, m: int, mday: int)
    requires 1 <= m0 <= m <= 12 && 0 <= mday < MonthLength(y, m)
    requires yday == DaysBeforeMonth(y, m) - DaysBeforeMonth(y, m0) + mday
    ensures 0 <= yday < DaysBeforeMonth(y, 13) - DaysBeforeMonth(y, m0)
    ensures MonthOf(yday, y, m0) == (m, mday)
  {
    DaysBeforeMonthMonotone(y, m0, m);
    MonthEndsBefore(y, m, 13);
    var r := MonthOf(yday, y, m0);
    SameDayOfYear(y, r.0, m, r.1, mday);
  }

  /** A day of the year falls in exactly one month. */
  lemma SameDayOfYear(y: int, a: int, b: int, da: int, db: int)
    requires 1 <= a <= 12 && 0 <= da < MonthLength(y, a)
    requires 1 <= b <= 12 && 0 <= db < MonthLength(y, b)
    requires DaysBeforeMonth(y, a) + da == DaysBeforeMonth(y, b) + db
    ensures a == b && da == db
  {
    if a < b {
      MonthEndsBefore(y, a, b);
    } else if b < a {
      MonthEndsBefore(y, b, a);
    }
  }

  /** A month ends no later than any later month begins. */
  lemma MonthEndsBefore(y: int, a: int, b: int)
    requires 1 <= a < b <= 13
    ensures DaysBeforeMonth(y, a) + MonthLength(y, a) <= DaysBeforeMonth(y, b)
  {
    DaysBeforeMonthMonotone(y, a + 1, b);
  }

  lemma SplitDays(t: int, days: int, secs: int)
    requires t == days * SecondsPerDay + secs && 0 <= secs < SecondsPerDay
    ensures t / SecondsPerDay == days && t % SecondsPerDay == secs
  {
  }

  lemma SplitClock(hour: int, minute: int, second: int)
    requires 0 <= hour < 24 && 0 <= minute < 60 && 0 <= second < 60
    ensures var secs := hour * 3600 + minute * 60 + second;
      secs / 3600 == hour && secs % 3600 / 60 == minute && secs % 60 == second
  {
  }

  /** The converse of Decompose's contract: every valid broken-down time
      denotes a representable second, and decomposing that second gives
      back exactly the same fields. */
  lemma DecomposeUnique(d: DateTime)
    requires Valid(d)
    ensures MinTimestamp <= ToUnix(d) < EndTimestamp
    ensures Decompose(ToUnix(d)) == d
  {
    var t := ToUnix(d);
    var days := DaysBeforeYear(d.year) + DayOfYear(d);
    CivilDateUnique(days, d.year, d.month, d.day);
    assert DaysBeforeYear(10000) == 3652059;
    SplitTime(d, t, days);
  }

  /** The second of a valid time splits back into its day count and its
      time of day. */
  lemma SplitTime(d: DateTime, t: int, days: int)
    requires Valid(d) && t == ToUnix(d) && days == DaysBeforeYear(d.year) + DayOfYear(d)
    ensures t / SecondsPerDay + EpochDay == days
    ensures var secs := t % SecondsPerDay;
      secs / 3600 == d.hour && secs % 3600 / 60 == d.minute && secs % 60 == d.second
  {
    var secs := d.hour * 3600 + d.minute * 60 + d.second;
    assert t == (days - EpochDay) * SecondsPerDay + secs;
    SplitDays(t, days - EpochDay, secs);
    SplitClock(d.hour, d.minute, d.second);
  }

  /** CivilDate finds the one date that lies the given number of days
      after 0001-01-01. */
  lemma CivilDateUnique(days: int, y: int, m: int, day: int)
    requires 1 <= y <= 9999 && 1 <= m <= 12 && 1 <= day <= MonthLength(y, m)
    requires days == DaysBeforeYear(y) + DaysBeforeMonth(y, m) + day - 1
    ensures 0 <= days < DaysBeforeYear(10000)
    ensures CivilDate(days) == (y, m, day)
  {
    var yday := DaysBeforeMonth(y, m) + day - 1;
    assert 0 <= yday < YearLength(y) by {
      DaysBeforeMonthMonotone(y, 1, m);
      DaysBeforeMonthMonotone(y, m + 1, 13);
      YearIsTwelveMonths(y);
    }
    assert days < DaysBeforeYear(10000) by {
      DaysBeforeYearStep(y);
      DaysBeforeYearMonotone(y + 1, 10000);
    }
    assert DaysBeforeYear(1) == 0;
    YearOfUnique(days, 1, y, yday);
    assert DaysBeforeMonth(y, 1) == 0;
    MonthOfUnique(yday, y, 1, m, day - 1);
  }

  /** For the years the POSIX expression covers, it counts the same
      seconds as the Gregorian day count. */
  lemma PosixAgrees(d: DateTime)
    requires Valid(d) && d.year >= 1970
    ensures PosixSeconds(d) == ToUnix(d)
  {
    var p := d.year - 1;
    assert (d.year - 1969) / 4 == p / 4 - 492;
    assert (d.year - 1901) / 100 == p / 100 - 19;
    assert (d.year - 1601) / 400 == p / 400 - 4;
  }

  /** Every non-negative representable UNIX time decomposes into fields
      from which the POSIX "Seconds Since the Epoch" expression recovers it. */
  lemma PosixRoundTrip(t: int)
    requires 0 <= t < EndTimestamp
    ensures Decompose(t).year >= 1970
    ensures PosixSeconds(Decompose(t)) == t
  {
    var d := Decompose(t);
    if d.year < 1970 {
      DaysBeforeYearStep(d.year);
      DaysBeforeYearMonotone(d.year + 1, 1970);
      DaysBeforeMonthMonotone(d.year, d.month + 1, 13);
      YearIsTwelveMonths(d.year);
      assert false;
    }
    PosixAgrees(d);
  }

  /** `%m`, `%d`, `%H`, `%M`, `%S`: two digits, zero-padded. */
  function Pad2(n: int): string
    requires 0 <= n < 100
  {
    [Digit(n / 10), Digit(n % 10)]
  }

  /** `%Y`: four digits, zero-padded. */
  function Pad4(n: int): string
    requires 0 <= n < 10000
  {
    [Digit(n / 1000), Digit(n / 100 % 10), Digit(n / 10 % 10), Digit(n % 10)]
  }

  /** `strftime("%Y-%m-%dT%H:%M:%SZ")` of a valid broken-down time. */
  function Render(d: DateTime): string
    requires Valid(d)
  {
    var y, mo, dd := Pad4(d.year), Pad2(d.month), Pad2(d.day);
    var h, mi, se := Pad2(d.hour), Pad2(d.minute), Pad2(d.second);
    [y[0], y[1], y[2], y[3], '-', mo[0], mo[1], '-', dd[0], dd[1], 'T',
     h[0], h[1], ':', mi[0], mi[1], ':', se[0], se[1], 'Z']
  }

  /** The text has the shape `YYYY-MM-DDTHH:MM:SSZ`: twenty characters,
      digits everywhere except the fixed separators. */
  predicate IsUtcText(s: string) {
    && |s| == 20
    && s[4] == '-' && s[7] == '-' && s[10] == 'T'
    && s[13] == ':' && s[16] == ':' && s[19] == 'Z'
    && forall i :: 0 <= i < 19 && i !in {4, 7, 10, 13, 16} ==> IsDigit(s[i])
  }

  /** The two-digit number starting at position `i`. */
  function Number2(s: string, i: int): int
    requires 0 <= i < |s| - 1
  {
    DigitValue(s[i]) * 10 + DigitValue(s[i + 1])
  }

  /** Reads the fields back out of a `YYYY-MM-DDTHH:MM:SSZ` text. */
  function Parse(s: string): Option<DateTime> {
    if !IsUtcText(s) then None
    else Some(DateTime(Number2(s, 0) * 100 + Number2(s, 2), Number2(s, 5), Number2(s, 8),
                       Number2(s, 11), Number2(s, 14), Number2(s, 17)))
  }

  lemma ReadPad2(n: int)
    requires 0 <= n < 100
    ensures IsDigit(Pad2(n)[0]) && IsDigit(Pad2(n)[1])
    ensures Number2(Pad2(n), 0) == n
  {
  }

  lemma ReadPad4(n: int)
    requires 0 <= n < 10000
    ensures forall i :: 0 <= i < 4 ==> IsDigit(Pad4(n)[i])
    ensures Number2(Pad4(n), 0) * 100 + Number2(Pad4(n), 2) == n
  {
    var century, rest := n / 100, n % 100;
    Pad4Halves(n);
    ReadPad2(century);
    ReadPad2(rest);
    assert Number2(Pad4(n), 0) == Number2(Pad2(century), 0);
    assert Number2(Pad4(n), 2) == Number2(Pad2(rest), 0);
  }

  /** The four year digits are the two-digit century followed by the two
      digits of the year within it. */
  lemma Pad4Halves(n: int)
    requires 0 <= n < 10000
    ensures Pad4(n) == Pad2(n / 100) + Pad2(n % 100)
  {
    var century, rest := n / 100, n % 100;
    assert n == 100 * century + rest;
    assert n / 10 == 10 * century + rest / 10;
    assert n / 10 % 10 == rest / 10;
    assert n / 1000 == century / 10;
    assert n % 10 == rest % 10;
  }

  /** Parsing the rendered text gives back every field. */
  lemma ParseRender(d: DateTime)
    requires Valid(d)
    ensures IsUtcText(Render(d))
    ensures Parse(Render(d)) == Some(d)
  {
    ReadPad4(d.year);
    ReadPad2(d.month);
    ReadPad2(d.day);
    ReadPad2(d.hour);
    ReadPad2(d.minute);
    ReadPad2(d.second);
    var s := Render(d);
    assert IsUtcText(s);
    assert Number2(s, 0) == Number2(Pad4(d.year), 0);
    assert Number2(s, 2) == Number2(Pad4(d.year), 2);
  }

  /** The range of a 64-bit `time_t`, the platform type `datetime`
      converts an integer to first. */
  const TimeTMin: int := -0x8000_0000_0000_0000
  const TimeTEnd: int := 0x8000_0000_0000_0000

  /** Whether the C library's `gmtime_r` can represent the UTC time `t`:
      its `tm_year` field is a 32-bit `int` holding the year minus 1900, so
      the year must lie in [1900 - 2^31, 1900 + 2^31). */
  predicate YearFitsTm(t: int) {
    var days := t / SecondsPerDay + EpochDay;
    DaysBeforeYear(1900 - 0x8000_0000) <= days < DaysBeforeYear(1900 + 0x8000_0000)
  }

  /** `format_unix_timestamp(t)`: the UTC text of a UNIX time. Python's
      datetime raises OverflowError for an integer outside `time_t`,
      OSError when `gmtime_r` fails, and ValueError for a year outside 1 to
      9999. Otherwise the text is twenty characters of the form
      `YYYY-MM-DDTHH:MM:SSZ`, its fields are in range, and reading them
      back gives exactly `t`. */
  function FormatUnixTimestamp(t: int): (r: Result<string, Exception>)
    ensures r.Success? <==> MinTimestamp <= t < EndTimestamp
    ensures r.Failure? ==>
      r.error == (if !(TimeTMin <= t < TimeTEnd) then OverflowError
                  else if !YearFitsTm(t) then OSError
                  else ValueError)
    ensures r.Success? ==> IsUtcText(r.value)
    ensures r.Success? ==> Parse(r.value).Some? && Valid(Parse(r.value).value)
    ensures r.Success? ==> ToUnix(Parse(r.value).value) == t
  {
    if !(TimeTMin <= t < TimeTEnd) then Failure(OverflowError)
    else if !YearFitsTm(t) then Failure(OSError)
    else if MinTimestamp <= t < EndTimestamp then
      ParseRender(Decompose(t));
      Success(Render(Decompose(t)))
    else Failure(ValueError)
  }

  /** The three failures, one witness each: past `time_t`, past the years
      `gmtime_r` can hold, and past year 9999. */
  lemma FormatUnixTimestampErrors()
    ensures FormatUnixTimestamp(TimeTEnd) == Failure(OverflowError)
    ensures FormatUnixTimestamp(TimeTEnd - 1) == Failure(OSError)
    ensures FormatUnixTimestamp(EndTimestamp) == Failure(ValueError)
  {
  }

  lemma RenderExample()
    ensures Render(DateTime(2015, 1, 1, 12, 10, 30)) == "2015-01-01T12:10:30Z"
  {
    assert Digit(0) == '0' && Digit(1) == '1' && Digit(2) == '2';
    assert Digit(3) == '3' && Digit(5) == '5';
    assert Pad4(2015) == "2015";
  }

  /** The docstring's example: 1420114230 is 2015-01-01T12:10:30Z. */
  lemma FormatExample()
    ensures FormatUnixTimestamp(1420114230) == Success("2015-01-01T12:10:30Z")
  {
    var d := DateTime(2015, 1, 1, 12, 10, 30);
    assert DaysBeforeYear(2015) == 735598;
    assert DayOfYear(d) == 0;
    assert ToUnix(d) == 1420114230;
    DecomposeUnique(d);
    RenderExample();
  }
}
