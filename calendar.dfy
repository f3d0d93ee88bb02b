/** Calendar dates as the dashboard receives them: ISO 8601 extended-format strings
    `YYYY-MM-DD` (section 4.1.2.2 of ISO 8601:2004). The weekday comes from the proleptic
    Gregorian calendar; the break-hour rule and the Russian day-and-month label that
    PoolWheelWidget and PoolWorkload both define are stated once here. */
module Calendar {
  import opened Wrappers
  import opened Digits
  import opened StringOrder

  datatype Date = Date(year: nat, month: nat, day: nat)

  predicate IsLeapYear(y: int)
  {
    y % 4 == 0 && (y % 100 != 0 || y % 400 == 0)
  }

  function DaysInMonth(y: int, m: int): int
    requires 1 <= m <= 12
  {
    if m == 2 then (if IsLeapYear(y) then 29 else 28)
    else if m == 4 || m == 6 || m == 9 || m == 11 then 30
    else 31
  }

  /** A real calendar day that fits the four-digit year of the extended format. */
  predicate ValidDate(d: Date)
  {
    d.year <= 9999 && 1 <= d.month <= 12 && 1 <= d.day <= DaysInMonth(d.year, d.month)
  }

  /** Chronological order of calendar days. */
  predicate Before(a: Date, b: Date)
  {
    a.year < b.year || (a.year == b.year && (a.month < b.month || (a.month == b.month && a.day < b.day)))
  }

  /** The fields fit the digit groups of the extended format. */
  predicate Fits(d: Date)
  {
    d.year < 10000 && d.month < 100 && d.day < 100
  }

  /** The `YYYY-MM-DD` text of a date. */
  function FormatIso(d: Date): string
    requires Fits(d)
  {
    Fixed(d.year, 4) + "-" + Fixed(d.month, 2) + "-" + Fixed(d.day, 2)
  }

  /** The three digit groups of a string shaped `DDDD-DD-DD`, as `iso.split("-")` and `Number`
      read them; no check that they name a real day. */
  function SplitIso(s: string): Option<Date>
  {
    if |s| == 10 && s[4] == '-' && s[7] == '-'
       && AllDigits(s[..4]) && AllDigits(s[5..7]) && AllDigits(s[8..])
    then Some(Date(ValueOf(s[..4]), ValueOf(s[5..7]), ValueOf(s[8..])))
    else None
  }

  /** The date an ISO string names, or None for any other string (the empty string,
      `undefined` and malformed text all give an invalid `Date`). */
  function ParseIso(s: string): Option<Date>
  {
    match SplitIso(s)
    case Some(d) => if ValidDate(d) then Some(d) else None
    case None => None
  }

  lemma Pow10Values()
    ensures Pow10(2) == 100 && Pow10(4) == 10000
  {
    assert Pow10(1) == 10;
    assert Pow10(3) == 1000;
  }

  /** A text made of a four-digit, a two-digit and a two-digit group joined by dashes
      splits into the values of the three groups. */
  lemma SplitIsoOf(ys: string, ms: string, ds: string)
    requires |ys| == 4 && |ms| == 2 && |ds| == 2
    requires AllDigits(ys) && AllDigits(ms) && AllDigits(ds)
    ensures SplitIso(ys + "-" + ms + "-" + ds) == Some(Date(ValueOf(ys), ValueOf(ms), ValueOf(ds)))
  {
    var s := ys + "-" + ms + "-" + ds;
    assert s[..4] == ys;
    assert s[5..7] == ms;
    assert s[8..] == ds;
  }

  /** Formatting a valid date and parsing the text back gives the date. */
  lemma ParseFormatRoundTrip(d: Date)
    requires ValidDate(d)
    ensures ParseIso(FormatIso(d)) == Some(d)
  {
    SplitFormat(d);
  }

  lemma SplitFormat(d: Date)
    requires Fits(d)
    ensures SplitIso(FormatIso(d)) == Some(d)
  {
    var ys, ms, ds := Fixed(d.year, 4), Fixed(d.month, 2), Fixed(d.day, 2);
    GroupValues(d);
    SplitIsoOf(ys, ms, ds);
  }

  lemma GroupValues(d: Date)
    requires Fits(d)
    ensures ValueOf(Fixed(d.year, 4)) == d.year
    ensures ValueOf(Fixed(d.month, 2)) == d.month
    ensures ValueOf(Fixed(d.day, 2)) == d.day
  {
    Pow10Values();
    FixedValue(d.year, 4);
    FixedValue(d.month, 2);
    FixedValue(d.day, 2);
  }

  lemma FixedValue(x: nat, w: nat)
    requires x < Pow10(w)
    ensures ValueOf(Fixed(x, w)) == x
  {
    FixedRoundTrip(x, w);
  }

  /** Every string that parses is the canonical text of the date it parses to. */
  lemma FormatParseRoundTrip(s: string)
    requires ParseIso(s).Some?
    ensures FormatIso(ParseIso(s).value) == s
  {
    FixedOfValue(s[..4]);
    FixedOfValue(s[5..7]);
    FixedOfValue(s[8..]);
    assert s == s[..4] + "-" + s[5..7] + "-" + s[8..];
  }

  /** Equal-width digit groups compare as text exactly as their values compare. */
  lemma {:induction false} FixedLess(x: nat, y: nat, w: nat)
    requires x < Pow10(w) && y < Pow10(w)
    ensures Less(Fixed(x, w), Fixed(y, w)) <==> x < y
    ensures Fixed(x, w) == Fixed(y, w) <==> x == y
  {
    if w == 0 {
      LessIrreflexive([]);
    } else {
      DropDigitBound(x, w);
      DropDigitBound(y, w);
      var hx, hy := Fixed(x / 10, w - 1), Fixed(y / 10, w - 1);
      var cx, cy := DigitChar(x % 10), DigitChar(y % 10);
      FixedLess(x / 10, y / 10, w - 1);
      LessConcat(hx, [cx], hy, [cy]);
      DigitCharLess(x % 10, y % 10);
      assert Less([cx], [cy]) <==> cx < cy;
      LastDigitOrder(x, y);
      assert Fixed(x, w) == hx + [cx] && Fixed(y, w) == hy + [cy];
      assert hx + [cx] == hy + [cy] <==> hx == hy && cx == cy by {
        if hx + [cx] == hy + [cy] {
          assert (hx + [cx])[..w - 1] == hx && (hy + [cy])[..w - 1] == hy;
          assert (hx + [cx])[w - 1] == cx && (hy + [cy])[w - 1] == cy;
        }
      }
    }
  }

  /** The default string sort puts ISO dates in chronological order: this is what lets
      both widgets order their date lists with a plain `sort()`. */
  lemma IsoOrderIsChronological(a: Date, b: Date)
    requires ValidDate(a) && ValidDate(b)
    ensures Less(FormatIso(a), FormatIso(b)) <==> Before(a, b)
  {
    Pow10Values();
    FixedLess(a.year, b.year, 4);
    var ua, ub := MonthDayText(a), MonthDayText(b);
    MonthDayOrder(a, b);
    LessConcat(Fixed(a.year, 4), ua, Fixed(b.year, 4), ub);
    assert FormatIso(a) == Fixed(a.year, 4) + ua;
    assert FormatIso(b) == Fixed(b.year, 4) + ub;
  }

  /** The `-MM-DD` part of the text. */
  function MonthDayText(d: Date): string
    requires Fits(d)
  {
    "-" + (Fixed(d.month, 2) + ("-" + Fixed(d.day, 2)))
  }

  lemma MonthDayOrder(a: Date, b: Date)
    requires ValidDate(a) && ValidDate(b)
    ensures Less(MonthDayText(a), MonthDayText(b)) <==>
      a.month < b.month || (a.month == b.month && a.day < b.day)
  {
    Pow10Values();
    FixedLess(a.month, b.month, 2);
    FixedLess(a.day, b.day, 2);
    var ma, da := Fixed(a.month, 2), Fixed(a.day, 2);
    var mb, db := Fixed(b.month, 2), Fixed(b.day, 2);
    LessIrreflexive("-");
    LessConcat("-", da, "-", db);
    LessConcat(ma, "-" + da, mb, "-" + db);
    LessConcat("-", ma + ("-" + da), "-", mb + ("-" + db));
  }

  /* ---------- Weekdays ---------- */

  function DaysBeforeYear(y: int): int
  {
    var p := y - 1;
    365 * p + p / 4 - p / 100 + p / 400
  }

  function DaysBeforeMonth(y: int, m: int): int
    requires 1 <= m <= 12
  {
    [0, 31, 59, 90, 120, 151, 181, 212, 243, 273, 304, 334][m - 1]
      + (if m > 2 && IsLeapYear(y) then 1 else 0)
  }

  /** Days elapsed since 0001-01-01 in the proleptic Gregorian calendar. */
  function DayNumber(d: Date): int
    requires 1 <= d.month <= 12
  {
    DaysBeforeYear(d.year) + DaysBeforeMonth(d.year, d.month) + d.day - 1
  }

  /** The weekday numbered as `Date.prototype.getDay` numbers it: 0 is Sunday, 1 Monday,
      ..., 6 Saturday. 0001-01-01 was a Monday. */
  function Weekday(d: Date): (w: int)
    requires 1 <= d.month <= 12
    ensures 0 <= w < 7
  {
    (DayNumber(d) + 1) % 7
  }

  /** The following calendar day. */
  function NextDay(d: Date): Date
    requires ValidDate(d)
  {
    if d.day < DaysInMonth(d.year, d.month) then Date(d.year, d.month, d.day + 1)
    else if d.month < 12 then Date(d.year, d.month + 1, 1)
    else Date(d.year + 1, 1, 1)
  }

  lemma DivStep(y: int, k: int)
    requires k > 0
    ensures y / k - (y - 1) / k == if y % k == 0 then 1 else 0
  {
    var q, r := y / k, y % k;
    if r == 0 {
      DivModUnique(y - 1, k, q - 1, k - 1);
    } else {
      DivModUnique(y - 1, k, q, r - 1);
    }
  }

  /** A year holds 365 days, 366 in a leap year. */
  lemma YearLength(y: int)
    ensures DaysBeforeYear(y + 1) - DaysBeforeYear(y) == if IsLeapYear(y) then 366 else 365
  {
    DivStep(y, 4);
    DivStep(y, 100);
    DivStep(y, 400);
    if y % 400 == 0 {
      DivModUnique(y, 100, 4 * (y / 400), 0);
      DivModUnique(y, 4, 100 * (y / 400), 0);
    }
    if y % 100 == 0 {
      DivModUnique(y, 4, 25 * (y / 100), 0);
    }
  }

  /** The day count advances by exactly one from each valid day to the next. */
  lemma DayNumberNext(d: Date)
    requires ValidDate(d) && d != Date(9999, 12, 31)
    ensures ValidDate(NextDay(d))
    ensures DayNumber(NextDay(d)) == DayNumber(d) + 1
  {
    if d.day == DaysInMonth(d.year, d.month) && d.month == 12 {
      YearLength(d.year);
    }
  }

  /** Consecutive days have consecutive weekdays. */
  lemma WeekdayNext(d: Date)
    requires ValidDate(d) && d != Date(9999, 12, 31)
    ensures Weekday(NextDay(d)) == (Weekday(d) + 1) % 7
  {
    var n := DayNumber(d) + 1;
    DayNumberNext(d);
    assert Weekday(NextDay(d)) == (n + 1) % 7;
    ModSucc(n, 7);
  }

  lemma ModSucc(n: int, k: int)
    requires k > 0
    ensures (n + 1) % k == (n % k + 1) % k
  {
    var q, r := n / k, n % k;
    assert n == k * q + r && 0 <= r < k;
    if r + 1 < k {
      DivModUnique(n + 1, k, q, r + 1);
      DivModUnique(r + 1, k, 0, r + 1);
    } else {
      assert k * (q + 1) == k * q + k;
      DivModUnique(n + 1, k, q + 1, 0);
      DivModUnique(k, k, 1, 0);
    }
  }

  /* ---------- Rules the widgets derive from a date ---------- */

  const BreakHour: int := 12

  /** Monday to Friday. */
  predicate IsWorkingDay(iso: string)
  {
    match ParseIso(iso)
    case Some(d) => 1 <= Weekday(d) <= 5
    case None => false
  }

  /** `isBreakHour`: the hour is the fixed break hour and the date falls on a working day.
      An empty or unparsable date is never a break. */
  predicate IsBreakHour(iso: string, hour: int)
  {
    hour == BreakHour && IsWorkingDay(iso)
  }

  lemma IsBreakHourIff(iso: string, hour: int)
    ensures IsBreakHour(iso, hour) <==>
      hour == 12 && ParseIso(iso).Some? && 1 <= Weekday(ParseIso(iso).value) <= 5
    ensures iso == "" ==> !IsBreakHour(iso, hour)
  {
  }

  /** What `new Date(iso).getDay()` reads: the ISO date is taken as midnight UTC and its
      weekday read in the browser's time zone, `tzOffsetMinutes` east of UTC. West of UTC
      that instant is still the previous local day. */
  function LocalWeekdayOfUtcMidnight(d: Date, tzOffsetMinutes: int): (w: int)
    requires 1 <= d.month <= 12
    requires -1440 < tzOffsetMinutes < 1440
    ensures 0 <= w < 7
  {
    if tzOffsetMinutes < 0 then (Weekday(d) + 6) % 7 else Weekday(d)
  }

  /** `isBreakHour` as the source computes it, time zone included. */
  predicate IsBreakHourAsWritten(iso: string, hour: int, tzOffsetMinutes: int)
    requires -1440 < tzOffsetMinutes < 1440
  {
    hour == BreakHour &&
    match ParseIso(iso)
    case Some(d) => 1 <= LocalWeekdayOfUtcMidnight(d, tzOffsetMinutes) <= 5
    case None => false
  }

  /** At UTC or east of it (Moscow is +180) the source's weekday is the calendar weekday. */
  lemma BreakAsWrittenAgreesEastOfUtc(iso: string, hour: int, tzOffsetMinutes: int)
    requires 0 <= tzOffsetMinutes < 1440
    ensures IsBreakHourAsWritten(iso, hour, tzOffsetMinutes) <==> IsBreakHour(iso, hour)
  {
  }

  /** West of UTC the source reads every date as the day before: Monday 2024-06-03 loses
      its break and Saturday 2024-06-08 gains one (at UTC-5, for example Chicago in summer). */
  lemma BreakAsWrittenShiftsWestOfUtc()
    ensures !IsBreakHourAsWritten("2024-06-03", 12, -300) && IsBreakHour("2024-06-03", 12)
    ensures IsBreakHourAsWritten("2024-06-08", 12, -300) && !IsBreakHour("2024-06-08", 12)
  {
    June2024();
  }

  /** 2024-06-03 was a Monday and 2024-06-08 a Saturday. */
  lemma June2024()
    ensures ParseIso("2024-06-03") == Some(Date(2024, 6, 3)) && Weekday(Date(2024, 6, 3)) == 1
    ensures ParseIso("2024-06-08") == Some(Date(2024, 6, 8)) && Weekday(Date(2024, 6, 8)) == 6
  {
    JuneDay(3);
    assert "2024-06-0" + [DigitChar(3)] == "2024-06-03";
    JuneDay(8);
    assert "2024-06-0" + [DigitChar(8)] == "2024-06-08";
  }

  lemma JuneDay(d: nat)
    requires 1 <= d <= 9
    ensures ParseIso("2024-06-0" + [DigitChar(d)]) == Some(Date(2024, 6, d))
    ensures Weekday(Date(2024, 6, d)) == (d + 5) % 7
  {
    ParseFormatRoundTrip(Date(2024, 6, d));
    JuneText(d);
    JuneWeekday(d);
  }

  /** The ISO text of a one-digit day of June 2024. */
  lemma JuneText(d: nat)
    requires 1 <= d <= 9
    ensures FormatIso(Date(2024, 6, d)) == "2024-06-0" + [DigitChar(d)]
  {
    YearText();
    TwoDigitText(6);
    TwoDigitText(d);
    assert FormatIso(Date(2024, 6, d)) == "2024" + "-" + "06" + "-" + ("0" + [DigitChar(d)]);
  }

  lemma YearText()
    ensures Fixed(2024, 4) == "2024"
  {
    assert Fixed(2, 1) == [DigitChar(2)];
    assert Fixed(20, 2) == Fixed(2, 1) + [DigitChar(0)];
    assert Fixed(202, 3) == Fixed(20, 2) + [DigitChar(2)];
  }

  /** A one-digit number takes a leading zero. */
  lemma TwoDigitText(x: nat)
    requires x < 10
    ensures Fixed(x, 2) == "0" + [DigitChar(x)]
  {
    assert x / 10 == 0 && x % 10 == x;
    assert Fixed(0, 1) == [DigitChar(0)];
    assert Fixed(x, 2) == Fixed(0, 1) + [DigitChar(x)];
  }

  lemma JuneWeekday(d: nat)
    requires 1 <= d <= 9
    ensures Weekday(Date(2024, 6, d)) == (d + 5) % 7
  {
    JuneDayNumber(d);
    var q, r := (d + 5) / 7, (d + 5) % 7;
    assert d + 5 == 7 * q + r && 0 <= r < 7;
    assert 739037 + d == 7 * (105576 + q) + r;
    DivModUnique(739037 + d, 7, 105576 + q, r);
  }

  lemma JuneDayNumber(d: nat)
    requires 1 <= d <= 30
    ensures DayNumber(Date(2024, 6, d)) == 739036 + d
  {
    assert DaysBeforeYear(2024) == 738885;
    assert IsLeapYear(2024);
  }

  /* ---------- Labels ---------- */

  const MonthsGenitive: seq<string> := [
    "января", "февраля", "марта", "апреля", "мая", "июня",
    "июля", "августа", "сентября", "октября", "ноября", "декабря"
  ]

  /** `formatDateShortRu` (and the identical `formatDateRuLong`): the day without a
      leading zero, a space, and the month in the genitive. */
  function FormatDayMonthRu(iso: string): (r: string)
    requires iso == "" || (SplitIso(iso).Some? && 1 <= SplitIso(iso).value.month <= 12)
    ensures r == "" <==> iso == ""
  {
    if iso == "" then ""
    else
      var d := SplitIso(iso).value;
      NatToString(d.day) + " " + MonthsGenitive[d.month - 1]
  }

  /** The label of a date's ISO text names that date's day and month, and the day reads
      back as its number. */
  lemma FormatDayMonthRuOfDate(d: Date)
    requires ValidDate(d)
    ensures SplitIso(FormatIso(d)) == Some(d)
    ensures FormatDayMonthRu(FormatIso(d)) == NatToString(d.day) + " " + MonthsGenitive[d.month - 1]
    ensures ValueOf(NatToString(d.day)) == d.day
  {
    ParseFormatRoundTrip(d);
    NatToStringRoundTrip(d.day);
  }
}
