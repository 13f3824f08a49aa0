/**
 * The UTC text SQLite's date functions give a second count secs >= 0 read
 * as Unix time and printed with the pattern YYYY-MM-DDTHH:MM:SSZ: the
 * proleptic Gregorian calendar counted from 1970-01-01T00:00:00Z, in the
 * 20-character extended format of ISO 8601. Parse is its inverse.
 */
module UtcTime {
  import opened Wrappers

  const SecondsPerDay: nat := 86400

  /** 9999-12-31T23:59:59Z, the last instant SQLite's 'unixepoch' modifier accepts. */
  const MaxSeconds: nat := 253402300799

  /** Days from 1970-01-01 to 10000-01-01. */
  const DaysTo10000: nat := 2932897

  predicate IsLeapYear(y: int) {
    y % 4 == 0 && (y % 100 != 0 || y % 400 == 0)
  }

  function DaysInYear(y: int): nat {
    if IsLeapYear(y) then 366 else 365
  }

  function DaysInMonth(y: int, m: int): nat
    requires 1 <= m <= 12
  {
    if m == 2 then (if IsLeapYear(y) then 29 else 28)
    else if m == 4 || m == 6 || m == 9 || m == 11 then 30
    else 31
  }

  /** Days from January 1 of year y to the first day of month m. */
  function DaysBeforeMonth(y: int, m: int): nat
    requires 1 <= m <= 12
  {
    var common := [0, 31, 59, 90, 120, 151, 181, 212, 243, 273, 304, 334][m - 1];
    if m > 2 && IsLeapYear(y) then common + 1 else common
  }

  /** Days from 1970-01-01 to January 1 of year y. */
  function DaysBeforeYear(y: int): nat
    requires y >= 1970
    decreases y - 1970
  {
    if y == 1970 then 0 else DaysBeforeYear(y - 1) + DaysInYear(y - 1)
  }

  datatype Date = Date(year: int, month: int, day: int)

  /** A calendar date from 1970 on, with a day that exists in its month. */
  predicate ValidDate(d: Date) {
    d.year >= 1970 && 1 <= d.month <= 12 && 1 <= d.day <= DaysInMonth(d.year, d.month)
  }

  /** The number of days from 1970-01-01 to d. */
  function DaysFromCivil(d: Date): nat
    requires ValidDate(d)
  {
    DaysBeforeYear(d.year) + DaysBeforeMonth(d.year, d.month) + d.day - 1
  }

  /** The year in which day `days` after January 1 of year y falls, and the day within that year. */
  function YearFrom(y: int, days: nat): (r: (int, nat))
    requires y >= 1970
    ensures r.0 >= y && r.1 < DaysInYear(r.0)
    ensures DaysBeforeYear(r.0) + r.1 == DaysBeforeYear(y) + days
    decreases days
  {
    if days < DaysInYear(y) then (y, days) else YearFrom(y + 1, days - DaysInYear(y))
  }

  /** The month (at most m) holding day-of-year doy of year y. */
  function MonthFrom(y: int, doy: nat, m: int): (r: int)
    requires 1 <= m <= 12 && doy < DaysInYear(y)
    requires m < 12 ==> doy < DaysBeforeMonth(y, m + 1)
    ensures 1 <= r <= m
    ensures DaysBeforeMonth(y, r) <= doy < DaysBeforeMonth(y, r) + DaysInMonth(y, r)
    decreases m
  {
    if DaysBeforeMonth(y, m) <= doy then m else MonthFrom(y, doy, m - 1)
  }

  /** The calendar date `days` days after 1970-01-01. */
  function CivilFromDays(days: nat): (d: Date)
    ensures ValidDate(d)
    ensures DaysFromCivil(d) == days
  {
    var (y, doy) := YearFrom(1970, days);
    var m := MonthFrom(y, doy, 12);
    Date(y, m, doy - DaysBeforeMonth(y, m) + 1)
  }

  /** Each year starts after every day of the years before it. */
  lemma {:induction false} DaysBeforeYearGrows(a: int, b: int)
    requires 1970 <= a < b
    ensures DaysBeforeYear(a) + DaysInYear(a) <= DaysBeforeYear(b)
    decreases b - a
  {
    if b > a + 1 {
      DaysBeforeYearGrows(a, b - 1);
    }
  }

  /** A day count names one year and one day within it. */
  lemma YearPositionUnique(y1: int, a: nat, y2: int, b: nat)
    requires y1 >= 1970 && y2 >= 1970
    requires a < DaysInYear(y1) && b < DaysInYear(y2)
    requires DaysBeforeYear(y1) + a == DaysBeforeYear(y2) + b
    ensures y1 == y2 && a == b
  {
    if y1 < y2 {
      DaysBeforeYearGrows(y1, y2);
    } else if y2 < y1 {
      DaysBeforeYearGrows(y2, y1);
    }
  }

  /** Distinct valid dates lie on distinct days. */
  lemma DaysFromCivilInjective(d1: Date, d2: Date)
    requires ValidDate(d1) && ValidDate(d2)
    requires DaysFromCivil(d1) == DaysFromCivil(d2)
    ensures d1 == d2
  {
    YearPositionUnique(d1.year, DaysBeforeMonth(d1.year, d1.month) + d1.day - 1,
                       d2.year, DaysBeforeMonth(d2.year, d2.month) + d2.day - 1);
  }

  /** Counting the days of a date and converting back gives the date. */
  lemma CivilRoundTrip(d: Date)
    requires ValidDate(d)
    ensures CivilFromDays(DaysFromCivil(d)) == d
  {
    DaysFromCivilInjective(CivilFromDays(DaysFromCivil(d)), d);
  }

  /** The number of leap years among 1 .. n, for n >= 0. */
  function LeapsThrough(n: int): int {
    n / 4 - n / 100 + n / 400
  }

  lemma QuarterStep(n: int)
    ensures n / 4 - (n - 1) / 4 == if n % 4 == 0 then 1 else 0
  {
  }

  lemma CenturyStep(n: int)
    ensures n / 100 - (n - 1) / 100 == if n % 100 == 0 then 1 else 0
  {
  }

  lemma FourCenturyStep(n: int)
    ensures n / 400 - (n - 1) / 400 == if n % 400 == 0 then 1 else 0
  {
  }

  lemma FourCenturiesAreCenturies(n: int)
    requires n % 400 == 0
    ensures n % 100 == 0
  {
    var k := n / 400;
    assert n == 400 * k;
    assert n == 100 * (4 * k);
  }

  lemma CenturiesAreQuarters(n: int)
    requires n % 100 == 0
    ensures n % 4 == 0
  {
    var k := n / 100;
    assert n == 100 * k;
    assert n == 4 * (25 * k);
  }

  lemma LeapsStep(n: int)
    ensures LeapsThrough(n) - LeapsThrough(n - 1) == if IsLeapYear(n) then 1 else 0
  {
    QuarterStep(n);
    CenturyStep(n);
    FourCenturyStep(n);
    if n % 400 == 0 {
      FourCenturiesAreCenturies(n);
    }
    if n % 100 == 0 {
      CenturiesAreQuarters(n);
    }
  }

  /** The number of days before a year, in closed form. */
  lemma {:induction false} DaysBeforeYearClosedForm(y: int)
    requires y >= 1970
    ensures DaysBeforeYear(y) == 365 * (y - 1970) + LeapsThrough(y - 1) - LeapsThrough(1969)
    decreases y - 1970
  {
    if y > 1970 {
      DaysBeforeYearClosedForm(y - 1);
      LeapsStep(y - 1);
    }
  }

  lemma DaysBefore10000()
    ensures DaysBeforeYear(10000) == DaysTo10000
  {
    DaysBeforeYearClosedForm(10000);
  }

  /** A date falls before 10000-01-01 exactly when its year has four digits. */
  lemma YearBelow10000(d: Date)
    requires ValidDate(d)
    ensures d.year <= 9999 <==> DaysFromCivil(d) < DaysTo10000
  {
    DaysBefore10000();
    if d.year <= 9999 {
      if d.year < 9999 {
        DaysBeforeYearGrows(d.year, 10000);
      }
      assert DaysBeforeMonth(d.year, d.month) + d.day - 1 < DaysInYear(d.year);
    } else if d.year > 10000 {
      DaysBeforeYearGrows(10000, d.year);
    }
  }

  /** A calendar date with a time of day, to the second. */
  datatype Instant = Instant(date: Date, hour: int, minute: int, second: int)

  predicate ValidInstant(t: Instant) {
    ValidDate(t.date) && 0 <= t.hour < 24 && 0 <= t.minute < 60 && 0 <= t.second < 60
  }

  /** Seconds since 1970-01-01T00:00:00Z. */
  function SecondsOf(t: Instant): nat
    requires ValidInstant(t)
  {
    DaysFromCivil(t.date) * SecondsPerDay + t.hour * 3600 + t.minute * 60 + t.second
  }

  /** The instant `secs` seconds after 1970-01-01T00:00:00Z. */
  function InstantOf(secs: nat): (t: Instant)
    ensures ValidInstant(t)
    ensures SecondsOf(t) == secs
  {
    var tod := secs % SecondsPerDay;
    Instant(CivilFromDays(secs / SecondsPerDay), tod / 3600, tod % 3600 / 60, tod % 60)
  }

  lemma InstantRoundTrip(t: Instant)
    requires ValidInstant(t)
    ensures InstantOf(SecondsOf(t)) == t
  {
    var secs := SecondsOf(t);
    var tod := t.hour * 3600 + t.minute * 60 + t.second;
    assert secs / SecondsPerDay == DaysFromCivil(t.date) && secs % SecondsPerDay == tod;
    CivilRoundTrip(t.date);
  }

  /** The second counts whose rendering has a four-digit year. */
  lemma InstantInRange(secs: nat)
    ensures InstantOf(secs).date.year <= 9999 <==> secs <= MaxSeconds
  {
    YearBelow10000(InstantOf(secs).date);
  }

  function Digit(n: int): char
    requires 0 <= n < 10
  {
    ('0' as int + n) as char
  }

  predicate IsDigit(c: char) {
    '0' <= c <= '9'
  }

  function DigitValue(c: char): int {
    c as int - '0' as int
  }

  /** n in two digits, zero-padded, as the month, day, hour, minute and second fields are printed. */
  function Pad2(n: int): string
    requires 0 <= n < 100
  {
    [Digit(n / 10), Digit(n % 10)]
  }

  /** n in four digits, zero-padded, as the year field is printed. */
  function Pad4(n: int): string
    requires 0 <= n < 10000
  {
    Pad2(n / 100) + Pad2(n % 100)
  }

  predicate AllDigits(s: string) {
    forall i | 0 <= i < |s| :: IsDigit(s[i])
  }

  function Decode2(s: string): int
    requires |s| == 2
  {
    DigitValue(s[0]) * 10 + DigitValue(s[1])
  }

  function Decode4(s: string): int
    requires |s| == 4
  {
    Decode2(s[0..2]) * 100 + Decode2(s[2..4])
  }

  lemma Pad2RoundTrip(n: int)
    requires 0 <= n < 100
    ensures AllDigits(Pad2(n)) && Decode2(Pad2(n)) == n
  {
  }

  lemma Pad4RoundTrip(n: int)
    requires 0 <= n < 10000
    ensures AllDigits(Pad4(n)) && Decode4(Pad4(n)) == n
  {
    var s := Pad4(n);
    Pad2RoundTrip(n / 100);
    Pad2RoundTrip(n % 100);
    assert s[0..2] == Pad2(n / 100) && s[2..4] == Pad2(n % 100);
  }

  lemma Decode2RoundTrip(s: string)
    requires |s| == 2 && AllDigits(s)
    ensures 0 <= Decode2(s) < 100 && Pad2(Decode2(s)) == s
  {
    assert IsDigit(s[0]) && IsDigit(s[1]);
  }

  lemma Decode4RoundTrip(s: string)
    requires |s| == 4 && AllDigits(s)
    ensures 0 <= Decode4(s) < 10000 && Pad4(Decode4(s)) == s
  {
    var hi, lo := s[0..2], s[2..4];
    assert AllDigits(hi) && AllDigits(lo);
    Decode2RoundTrip(hi);
    Decode2RoundTrip(lo);
    var n := Decode4(s);
    assert n / 100 == Decode2(hi) && n % 100 == Decode2(lo);
    assert s == hi + lo;
  }

  /** The text of an instant whose year has four digits. */
  function Format(t: Instant): string
    requires ValidInstant(t) && t.date.year <= 9999
  {
    Pad4(t.date.year) + "-" + Pad2(t.date.month) + "-" + Pad2(t.date.day) + "T"
      + Pad2(t.hour) + ":" + Pad2(t.minute) + ":" + Pad2(t.second) + "Z"
  }

  /** The fields of a text in the shape YYYY-MM-DDTHH:MM:SSZ, read as numbers. */
  function Fields(s: string): Instant
    requires |s| == 20
  {
    Instant(Date(Decode4(s[0..4]), Decode2(s[5..7]), Decode2(s[8..10])),
            Decode2(s[11..13]), Decode2(s[14..16]), Decode2(s[17..19]))
  }

  /** Twenty characters: digits, with the separators of YYYY-MM-DDTHH:MM:SSZ in their places. */
  predicate WellShaped(s: string) {
    && |s| == 20
    && s[4] == '-' && s[7] == '-' && s[10] == 'T' && s[13] == ':' && s[16] == ':' && s[19] == 'Z'
    && AllDigits(s[0..4]) && AllDigits(s[5..7]) && AllDigits(s[8..10])
    && AllDigits(s[11..13]) && AllDigits(s[14..16]) && AllDigits(s[17..19])
  }

  /** Formatting an instant gives a well-shaped text whose fields are the instant's. */
  lemma FormatFields(t: Instant)
    requires ValidInstant(t) && t.date.year <= 9999
    ensures WellShaped(Format(t)) && Fields(Format(t)) == t
  {
    var s := Format(t);
    Pad4RoundTrip(t.date.year);
    Pad2RoundTrip(t.date.month);
    Pad2RoundTrip(t.date.day);
    Pad2RoundTrip(t.hour);
    Pad2RoundTrip(t.minute);
    Pad2RoundTrip(t.second);
    assert s[0..4] == Pad4(t.date.year);
    assert s[5..7] == Pad2(t.date.month);
    assert s[8..10] == Pad2(t.date.day);
    assert s[11..13] == Pad2(t.hour);
    assert s[14..16] == Pad2(t.minute);
    assert s[17..19] == Pad2(t.second);
  }

  /** The UTC text of `secs` seconds after the epoch. */
  function Render(secs: nat): (s: string)
    requires secs <= MaxSeconds
    ensures WellShaped(s)
  {
    InstantInRange(secs);
    FormatFields(InstantOf(secs));
    Format(InstantOf(secs))
  }

  /** The second count a YYYY-MM-DDTHH:MM:SSZ text denotes, if it denotes a real instant from 1970 on. */
  function Parse(s: string): Option<nat> {
    if WellShaped(s) && ValidInstant(Fields(s)) then Some(SecondsOf(Fields(s))) else None
  }

  /** Parse undoes Render. */
  lemma ParseRender(secs: nat)
    requires secs <= MaxSeconds
    ensures Parse(Render(secs)) == Some(secs)
  {
    InstantInRange(secs);
    FormatFields(InstantOf(secs));
  }

  /** A well-shaped text is determined by its fields. */
  lemma FieldsDetermineText(a: string, b: string)
    requires WellShaped(a) && WellShaped(b) && Fields(a) == Fields(b)
    ensures a == b
  {
    Decode4RoundTrip(a[0..4]);
    Decode4RoundTrip(b[0..4]);
    Decode2RoundTrip(a[5..7]);
    Decode2RoundTrip(b[5..7]);
    Decode2RoundTrip(a[8..10]);
    Decode2RoundTrip(b[8..10]);
    Decode2RoundTrip(a[11..13]);
    Decode2RoundTrip(b[11..13]);
    Decode2RoundTrip(a[14..16]);
    Decode2RoundTrip(b[14..16]);
    Decode2RoundTrip(a[17..19]);
    Decode2RoundTrip(b[17..19]);
    forall i | 0 <= i < 20
      ensures a[i] == b[i]
    {
      if i < 4 { assert a[i] == a[0..4][i] && b[i] == b[0..4][i]; }
      else if 4 < i < 7 { assert a[i] == a[5..7][i - 5] && b[i] == b[5..7][i - 5]; }
      else if 7 < i < 10 { assert a[i] == a[8..10][i - 8] && b[i] == b[8..10][i - 8]; }
      else if 10 < i < 13 { assert a[i] == a[11..13][i - 11] && b[i] == b[11..13][i - 11]; }
      else if 13 < i < 16 { assert a[i] == a[14..16][i - 14] && b[i] == b[14..16][i - 14]; }
      else if 16 < i < 19 { assert a[i] == a[17..19][i - 17] && b[i] == b[17..19][i - 17]; }
    }
  }

  /** Render undoes Parse: every text Parse accepts is the rendering of its second count. */
  lemma RenderParse(s: string)
    requires Parse(s).Some?
    ensures Parse(s).value <= MaxSeconds && Render(Parse(s).value) == s
  {
    var t := Fields(s);
    Decode4RoundTrip(s[0..4]);
    InstantRoundTrip(t);
    InstantInRange(SecondsOf(t));
    FormatFields(t);
    FieldsDetermineText(Render(SecondsOf(t)), s);
  }

  /** Distinct second counts give distinct texts. */
  lemma RenderInjective(a: nat, b: nat)
    requires a <= MaxSeconds && b <= MaxSeconds
    ensures Render(a) == Render(b) <==> a == b
  {
    ParseRender(a);
    ParseRender(b);
  }

  /** Every field of the rendering lies in its range; the day exists in its month. */
  lemma RenderFields(secs: nat)
    requires secs <= MaxSeconds
    ensures var t := Fields(Render(secs));
      && 1970 <= t.date.year <= 9999 && 1 <= t.date.month <= 12
      && 1 <= t.date.day <= DaysInMonth(t.date.year, t.date.month)
      && 0 <= t.hour < 24 && 0 <= t.minute < 60 && 0 <= t.second < 60
  {
    ParseRender(secs);
    Decode4RoundTrip(Render(secs)[0..4]);
  }

  lemma EpochRendering()
    ensures Render(0) == "1970-01-01T00:00:00Z"
  {
    CivilRoundTrip(Date(1970, 1, 1));
    assert InstantOf(0) == Instant(Date(1970, 1, 1), 0, 0, 0);
  }
}
