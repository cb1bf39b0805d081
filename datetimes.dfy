/**
 * The naive local dates and times the calendar stores as strings:
 * `YYYY-MM-DD` dates, `HH:MM` 24-hour times, the instants they combine into,
 * and the `%I:%M %p` clock used for display. Parsing is strict (fixed-width
 * fields only); formatting is the zero-padded `strftime` form.
 */
module DateTimes {
  import opened Text

  datatype Date = Date(year: int, month: int, day: int)

  /** A naive local date-time: a calendar date and the minute of that day (`HH * 60 + MM`). */
  datatype DateTime = DateTime(date: Date, minute: int)

  const MinutesPerDay: int := 1440

  predicate IsLeapYear(y: int)
  {
    y % 4 == 0 && (y % 100 != 0 || y % 400 == 0)
  }

  function DaysInMonth(y: int, m: int): (n: int)
    requires 1 <= m <= 12
    ensures 28 <= n <= 31
    ensures n == 29 <==> m == 2 && IsLeapYear(y)
  {
    if m == 2 then (if IsLeapYear(y) then 29 else 28)
    else if m == 4 || m == 6 || m == 9 || m == 11 then 30
    else 31
  }

  /** The dates Python's `date` type can hold. */
  predicate ValidDate(d: Date)
  {
    && 1 <= d.year <= 9999
    && 1 <= d.month <= 12
    && 1 <= d.day <= DaysInMonth(d.year, d.month)
  }

  predicate ValidMinute(t: int)
  {
    0 <= t < MinutesPerDay
  }

  predicate ValidDateTime(t: DateTime)
  {
    ValidDate(t.date) && ValidMinute(t.minute)
  }

  /** Calendar order on dates. */
  predicate DateBefore(a: Date, b: Date)
  {
    || a.year < b.year
    || (a.year == b.year && a.month < b.month)
    || (a.year == b.year && a.month == b.month && a.day < b.day)
  }

  // ---------------------------------------------------------------------
  // Dates as YYYY-MM-DD
  // ---------------------------------------------------------------------

  /** `datetime.strptime(s, "%Y-%m-%d")`, keeping only its date; `None` where it raises. */
  function ParseDate(s: string): (r: Option<Date>)
    ensures r.Some? ==> ValidDate(r.value) && |s| == 10 && s[4] == '-' && s[7] == '-'
  {
    if |s| == 10 && AllDigits(s[..4]) && s[4] == '-' && AllDigits(s[5..7]) && s[7] == '-' && AllDigits(s[8..])
    then
      var d := Date(ValueOf(s[..4]), ValueOf(s[5..7]), ValueOf(s[8..]));
      if ValidDate(d) then Some(d) else None
    else None
  }

  /** `d.strftime("%Y-%m-%d")`. */
  function FormatDate(d: Date): (s: string)
    requires ValidDate(d)
    ensures |s| == 10 && s[4] == '-' && s[7] == '-'
  {
    Digits(d.year, 4) + "-" + Digits(d.month, 2) + "-" + Digits(d.day, 2)
  }

  lemma ParseFormatDate(d: Date)
    requires ValidDate(d)
    ensures ParseDate(FormatDate(d)) == Some(d)
  {
    var s := FormatDate(d);
    assert s[..4] == Digits(d.year, 4) && s[5..7] == Digits(d.month, 2) && s[8..] == Digits(d.day, 2);
    ValueOfDigits(d.year, 4);
    ValueOfDigits(d.month, 2);
    ValueOfDigits(d.day, 2);
  }

  /** A string that parses as a date is the canonical form of that date. */
  lemma FormatParseDate(s: string)
    requires ParseDate(s).Some?
    ensures FormatDate(ParseDate(s).value) == s
  {
    DigitsOfValue(s[..4]);
    DigitsOfValue(s[5..7]);
    DigitsOfValue(s[8..]);
    DateFields(s);
  }

  lemma DateFields(s: string)
    requires |s| == 10 && s[4] == '-' && s[7] == '-'
    ensures s == s[..4] + "-" + s[5..7] + "-" + s[8..]
  {
  }

  /** Comparing canonical date strings, as the scan and the all-events view do, is comparing dates. */
  lemma DateStringOrder(a: Date, b: Date)
    requires ValidDate(a) && ValidDate(b)
    ensures LexLess(FormatDate(a), FormatDate(b)) <==> DateBefore(a, b)
  {
    var ya, ma, da := Digits(a.year, 4), Digits(a.month, 2), Digits(a.day, 2);
    var yb, mb, db := Digits(b.year, 4), Digits(b.month, 2), Digits(b.day, 2);
    assert FormatDate(a) == ya + ("-" + ma + "-" + da);
    assert FormatDate(b) == yb + ("-" + mb + "-" + db);
    LexLessAppend(ya, "-" + ma + "-" + da, yb, "-" + mb + "-" + db);
    LexLessAppend("-", ma + "-" + da, "-", mb + "-" + db);
    LexLessAppend(ma, "-" + da, mb, "-" + db);
    LexLessAppend("-", da, "-", db);
    assert "-" + ma + "-" + da == "-" + (ma + "-" + da);
    assert "-" + mb + "-" + db == "-" + (mb + "-" + db);
    assert ma + "-" + da == ma + ("-" + da);
    assert mb + "-" + db == mb + ("-" + db);
    LexLessIrreflexive("-");
    DigitsOrder(a.year, b.year, 4);
    DigitsOrder(a.month, b.month, 2);
    DigitsOrder(a.day, b.day, 2);
    DigitsInjective(a.year, b.year, 4);
    DigitsInjective(a.month, b.month, 2);
  }

  // ---------------------------------------------------------------------
  // Times as HH:MM
  // ---------------------------------------------------------------------

  /** `datetime.strptime(s, "%H:%M")` as a minute of the day; `None` where it raises. */
  function ParseTime(s: string): (r: Option<int>)
    ensures r.Some? ==> ValidMinute(r.value) && |s| == 5 && s[2] == ':'
  {
    if |s| == 5 && AllDigits(s[..2]) && s[2] == ':' && AllDigits(s[3..])
       && ValueOf(s[..2]) <= 23 && ValueOf(s[3..]) <= 59
    then Some(ValueOf(s[..2]) * 60 + ValueOf(s[3..]))
    else None
  }

  /** `t.strftime("%H:%M")`. */
  function FormatTime(t: int): (s: string)
    requires ValidMinute(t)
    ensures |s| == 5
  {
    Digits(t / 60, 2) + ":" + Digits(t % 60, 2)
  }

  lemma ParseFormatTime(t: int)
    requires ValidMinute(t)
    ensures ParseTime(FormatTime(t)) == Some(t)
  {
    var s := FormatTime(t);
    assert s[..2] == Digits(t / 60, 2) && s[3..] == Digits(t % 60, 2);
    ValueOfDigits(t / 60, 2);
    ValueOfDigits(t % 60, 2);
  }

  lemma FormatParseTime(s: string)
    requires ParseTime(s).Some?
    ensures FormatTime(ParseTime(s).value) == s
  {
    var t := ParseTime(s).value;
    assert t / 60 == ValueOf(s[..2]) && t % 60 == ValueOf(s[3..]);
    DigitsOfValue(s[..2]);
    DigitsOfValue(s[3..]);
    TimeFields(s);
  }

  lemma TimeFields(s: string)
    requires |s| == 5 && s[2] == ':'
    ensures s == s[..2] + ":" + s[3..]
  {
  }

  /** `HH:MM` strings sort lexically in the order of the times they stand for. */
  lemma TimeStringOrder(a: int, b: int)
    requires ValidMinute(a) && ValidMinute(b)
    ensures LexLess(FormatTime(a), FormatTime(b)) <==> a < b
  {
    var ha, ma := Digits(a / 60, 2), Digits(a % 60, 2);
    var hb, mb := Digits(b / 60, 2), Digits(b % 60, 2);
    assert FormatTime(a) == ha + (":" + ma) && FormatTime(b) == hb + (":" + mb);
    LexLessAppend(ha, ":" + ma, hb, ":" + mb);
    LexLessAppend(":", ma, ":", mb);
    LexLessIrreflexive(":");
    DigitsOrder(a / 60, b / 60, 2);
    DigitsOrder(a % 60, b % 60, 2);
    DigitsInjective(a / 60, b / 60, 2);
  }

  // ---------------------------------------------------------------------
  // Date and time together
  // ---------------------------------------------------------------------

  /** `datetime.strptime(s, "%Y-%m-%d %H:%M")`; `None` where it raises. */
  function ParseDateTime(s: string): (r: Option<DateTime>)
    ensures r.Some? ==> ValidDateTime(r.value)
    ensures r.Some? <==> |s| == 16 && s[10] == ' ' && ParseDate(s[..10]).Some? && ParseTime(s[11..]).Some?
    ensures r.Some? ==> r.value.date == ParseDate(s[..10]).value && r.value.minute == ParseTime(s[11..]).value
  {
    if |s| == 16 && s[10] == ' ' then
      match (ParseDate(s[..10]), ParseTime(s[11..]))
      case (Some(d), Some(t)) => Some(DateTime(d, t))
      case _ => None
    else None
  }

  /** Days before January 1st of year `y`, counted from 0001-01-01. */
  function DaysBeforeYear(y: int): (n: int)
    requires y >= 1
  {
    var p := y - 1;
    p * 365 + p / 4 - p / 100 + p / 400
  }

  function DaysInYear(y: int): (n: int)
  {
    if IsLeapYear(y) then 366 else 365
  }

  /** Days in year `y` before the first of month `m`. */
  function DaysBeforeMonth(y: int, m: int): (n: int)
    requires 1 <= m <= 12
    ensures 28 * (m - 1) <= n <= 31 * (m - 1)
  {
    if m == 1 then 0 else DaysBeforeMonth(y, m - 1) + DaysInMonth(y, m - 1)
  }

  /** `d.toordinal()`: 0001-01-01 is day 1. */
  function DayNumber(d: Date): (n: int)
    requires ValidDate(d)
  {
    DaysBeforeYear(d.year) + DaysBeforeMonth(d.year, d.month) + d.day
  }

  /** Minutes since 0001-01-01 00:00, the scale on which `datetime` values compare and `timedelta`s add. */
  function Instant(t: DateTime): (n: int)
    requires ValidDateTime(t)
  {
    (DayNumber(t.date) - 1) * MinutesPerDay + t.minute
  }

  lemma YearLength(y: int)
    requires y >= 1
    ensures DaysBeforeYear(y + 1) == DaysBeforeYear(y) + DaysInYear(y)
  {
    DivStep(y, 4);
    DivStep(y, 100);
    DivStep(y, 400);
    DivisorChain(y);
    assert DaysBeforeYear(y + 1) == y * 365 + y / 4 - y / 100 + y / 400;
  }

  /** Every 400th year is a 100th year, and every 100th year a 4th one. */
  lemma DivisorChain(y: int)
    ensures y % 400 == 0 ==> y % 100 == 0
    ensures y % 100 == 0 ==> y % 4 == 0
  {
    MultipleOf(y, 400, 100);
    MultipleOf(y, 100, 4);
  }

  lemma MultipleOf(y: int, big: int, small: int)
    requires (big == 400 && small == 100) || (big == 100 && small == 4)
    ensures y % big == 0 ==> y % small == 0
  {
    if big == 400 && y % 400 == 0 {
      var k := y / 400;
      assert y == 100 * (4 * k);
    } else if big == 100 && y % 100 == 0 {
      var k := y / 100;
      assert y == 4 * (25 * k);
    }
  }

  /** Going from `y - 1` to `y`, the count of multiples of `n` grows exactly when `n` divides `y`. */
  lemma DivStep(y: int, n: int)
    requires y >= 1 && (n == 4 || n == 100 || n == 400)
    ensures y / n == (y - 1) / n + (if y % n == 0 then 1 else 0)
  {
    if n == 4 {
      assert y / 4 == (y - 1) / 4 + (if y % 4 == 0 then 1 else 0);
    } else if n == 100 {
      assert y / 100 == (y - 1) / 100 + (if y % 100 == 0 then 1 else 0);
    } else {
      assert y / 400 == (y - 1) / 400 + (if y % 400 == 0 then 1 else 0);
    }
  }

  /** The twelve months of a year add up to its length. */
  lemma MonthsFillYear(y: int)
    ensures DaysBeforeMonth(y, 12) + DaysInMonth(y, 12) == DaysInYear(y)
  {
    var feb := DaysInMonth(y, 2);
    assert DaysBeforeMonth(y, 2) == 31;
    assert DaysBeforeMonth(y, 3) == 31 + feb;
    assert DaysBeforeMonth(y, 4) == 62 + feb;
    assert DaysBeforeMonth(y, 5) == 92 + feb;
    assert DaysBeforeMonth(y, 6) == 123 + feb;
    assert DaysBeforeMonth(y, 7) == 153 + feb;
    assert DaysBeforeMonth(y, 8) == 184 + feb;
    assert DaysBeforeMonth(y, 9) == 215 + feb;
    assert DaysBeforeMonth(y, 10) == 245 + feb;
    assert DaysBeforeMonth(y, 11) == 276 + feb;
    assert DaysBeforeMonth(y, 12) == 306 + feb;
  }

  lemma {:induction false} DaysBeforeMonthGrows(y: int, m: int, k: int)
    requires 1 <= m <= k <= 12
    ensures DaysBeforeMonth(y, m) + (if m < k then DaysInMonth(y, m) else 0) <= DaysBeforeMonth(y, k)
  {
    if m < k {
      DaysBeforeMonthGrows(y, m, k - 1);
    }
  }

  lemma {:induction false} DaysBeforeYearGrows(y: int, k: int)
    requires 1 <= y <= k
    ensures DaysBeforeYear(y) + (if y < k then DaysInYear(y) else 0) <= DaysBeforeYear(k)
  {
    if y < k {
      DaysBeforeYearGrows(y, k - 1);
      YearLength(k - 1);
      YearLength(y);
    }
  }

  /** Day numbers run in calendar order, so instants of different days are ordered by their dates. */
  lemma DayNumberOrder(a: Date, b: Date)
    requires ValidDate(a) && ValidDate(b)
    ensures DateBefore(a, b) <==> DayNumber(a) < DayNumber(b)
    ensures a == b <==> DayNumber(a) == DayNumber(b)
  {
    forall a', b' | ValidDate(a') && ValidDate(b') && DateBefore(a', b')
      ensures DayNumber(a') < DayNumber(b')
    {
      if a'.year < b'.year {
        DaysBeforeMonthGrows(a'.year, a'.month, 12);
        MonthsFillYear(a'.year);
        DaysBeforeYearGrows(a'.year, b'.year);
      } else if a'.month < b'.month {
        DaysBeforeMonthGrows(a'.year, a'.month, b'.month);
      }
    }
    if !DateBefore(a, b) && !DateBefore(b, a) {
      assert a == b;
    }
  }

  // ---------------------------------------------------------------------
  // 12-hour display clock
  // ---------------------------------------------------------------------

  /** The hour as `%I` shows it: 12 for midnight and noon, 1 to 11 otherwise. */
  function Hour12(h: int): (n: int)
  {
    if h % 12 == 0 then 12 else h % 12
  }

  /** `t.strftime("%I:%M %p")` with the C locale's `AM`/`PM`. */
  function Clock12(t: int): (s: string)
    requires ValidMinute(t)
    ensures |s| == 8 && s[2] == ':' && s[5] == ' ' && s[7] == 'M'
    ensures s[6] == 'A' <==> t < 12 * 60
    ensures s[6] == 'A' || s[6] == 'P'
  {
    var h := t / 60;
    Digits(Hour12(h), 2) + ":" + Digits(t % 60, 2) + " " + (if h < 12 then "AM" else "PM")
  }

  lemma Clock12Fields(t: int)
    requires ValidMinute(t)
    ensures Clock12(t)[..2] == Digits(Hour12(t / 60), 2)
    ensures Clock12(t)[3..5] == Digits(t % 60, 2)
    ensures Clock12(t)[6] == if t / 60 < 12 then 'A' else 'P'
  {
  }

  /** `%I` together with `%p` gives back the hour of the day. */
  lemma Hour12AndHalf(ha: int, hb: int)
    requires 0 <= ha < 24 && 0 <= hb < 24
    requires Hour12(ha) == Hour12(hb) && (ha < 12 <==> hb < 12)
    ensures ha == hb
  {
  }

  /** The 12-hour display loses nothing: different times are shown differently. */
  lemma Clock12Injective(a: int, b: int)
    requires ValidMinute(a) && ValidMinute(b)
    requires Clock12(a) == Clock12(b)
    ensures a == b
  {
    Clock12Fields(a);
    Clock12Fields(b);
    DigitsInjective(Hour12(a / 60), Hour12(b / 60), 2);
    DigitsInjective(a % 60, b % 60, 2);
    Hour12AndHalf(a / 60, b / 60);
  }
}
