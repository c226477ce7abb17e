/**
 * `generate_dates` of the Ceará gazette downloader: the `YYYYMMDD` strings of
 * the last N days counted back from today, or of every day of a year up to
 * its last day (or up to today, for the current year).  Calendar dates follow
 * the proleptic Gregorian calendar of Python's `datetime`, over its years
 * 1..9999; "today" is a parameter.
 */
module CearaDates {
  import opened Wrappers
  import opened Text

  datatype Date = Date(year: int, month: int, day: int)

  predicate IsLeap(y: int) { y % 4 == 0 && (y % 100 != 0 || y % 400 == 0) }

  function DaysInMonth(y: int, m: int): int
    requires 1 <= m <= 12
  {
    if m == 2 then (if IsLeap(y) then 29 else 28)
    else if m == 4 || m == 6 || m == 9 || m == 11 then 30
    else 31
  }

  function YearLength(y: int): int { if IsLeap(y) then 366 else 365 }

  /** A date `datetime` can represent. */
  predicate Valid(d: Date) {
    1 <= d.year <= 9999 && 1 <= d.month <= 12 && 1 <= d.day <= DaysInMonth(d.year, d.month)
  }

  const First: Date := Date(1, 1, 1)

  const Last: Date := Date(9999, 12, 31)

  // ---------------------------------------------------------------- day numbers

  /** Days in the years before `y`, counted as `datetime` does: 365 a year plus the leap days. */
  function DaysBeforeYear(y: int): nat
    requires y >= 1
  {
    var q := y - 1;
    assert q / 100 <= q / 4;
    365 * q + q / 4 - q / 100 + q / 400
  }

  /** How `q / n` moves when `q` grows by one. */
  lemma DivStep(q: nat, n: int)
    requires n == 4 || n == 100 || n == 400
    ensures (q + 1) / n == q / n + (if (q + 1) % n == 0 then 1 else 0)
  {
    if n == 4 {
      assert (q + 1) / 4 == q / 4 + (if (q + 1) % 4 == 0 then 1 else 0);
    } else if n == 100 {
      assert (q + 1) / 100 == q / 100 + (if (q + 1) % 100 == 0 then 1 else 0);
    } else {
      assert (q + 1) / 400 == q / 400 + (if (q + 1) % 400 == 0 then 1 else 0);
    }
  }

  /** One year on, the count grows by that year's length. */
  lemma YearStep(y: int)
    requires y >= 1
    ensures DaysBeforeYear(y + 1) == DaysBeforeYear(y) + YearLength(y)
  {
    var q := y - 1;
    DivStep(q, 4);
    DivStep(q, 100);
    DivStep(q, 400);
    Divisors(y);
  }

  lemma Divisors(y: int)
    ensures y % 400 == 0 ==> y % 100 == 0
    ensures y % 100 == 0 ==> y % 4 == 0
  {
    if y % 400 == 0 {
      MultipleOf(y / 400 * 4, 100);
      assert y == y / 400 * 4 * 100;
    }
    if y % 100 == 0 {
      MultipleOf(y / 100 * 25, 4);
      assert y == y / 100 * 25 * 4;
    }
  }

  lemma MultipleOf(k: int, n: int)
    requires n == 4 || n == 100
    ensures (k * n) % n == 0
  {
    if n == 4 {
      assert (k * 4) % 4 == 0;
    } else {
      assert (k * 100) % 100 == 0;
    }
  }

  function DaysBeforeMonth(y: int, m: int): nat
    requires 1 <= m <= 12
  {
    if m == 1 then 0 else DaysBeforeMonth(y, m - 1) + DaysInMonth(y, m - 1)
  }

  /** Days elapsed since 0001-01-01: `date.toordinal() - 1`. */
  function DayNumber(d: Date): nat
    requires Valid(d)
  {
    DaysBeforeYear(d.year) + DaysBeforeMonth(d.year, d.month) + d.day - 1
  }

  lemma DecemberStart(y: int)
    ensures DaysBeforeMonth(y, 12) + 31 == YearLength(y)
  {
    assert DaysBeforeMonth(y, 2) == 31;
    assert DaysBeforeMonth(y, 3) == 31 + DaysInMonth(y, 2);
    assert DaysBeforeMonth(y, 4) == 62 + DaysInMonth(y, 2);
    assert DaysBeforeMonth(y, 5) == 92 + DaysInMonth(y, 2);
    assert DaysBeforeMonth(y, 6) == 123 + DaysInMonth(y, 2);
    assert DaysBeforeMonth(y, 7) == 153 + DaysInMonth(y, 2);
    assert DaysBeforeMonth(y, 8) == 184 + DaysInMonth(y, 2);
    assert DaysBeforeMonth(y, 9) == 215 + DaysInMonth(y, 2);
    assert DaysBeforeMonth(y, 10) == 245 + DaysInMonth(y, 2);
    assert DaysBeforeMonth(y, 11) == 276 + DaysInMonth(y, 2);
  }

  /** The months before `m'` take at least as long as the months before `m` and month `m` itself. */
  lemma {:induction false} MonthsFit(y: int, m: int, m': int)
    requires 1 <= m < m' <= 12
    ensures DaysBeforeMonth(y, m) + DaysInMonth(y, m) <= DaysBeforeMonth(y, m')
    decreases m' - m
  {
    if m + 1 < m' {
      MonthsFit(y, m + 1, m');
    }
  }

  lemma DayWithinYear(d: Date)
    requires Valid(d)
    ensures DaysBeforeYear(d.year) <= DayNumber(d) < DaysBeforeYear(d.year) + YearLength(d.year)
  {
    DecemberStart(d.year);
    if d.month < 12 {
      MonthsFit(d.year, d.month, 12);
    }
  }

  lemma {:induction false} YearsFit(y: int, y': int)
    requires 1 <= y < y'
    ensures DaysBeforeYear(y) + YearLength(y) <= DaysBeforeYear(y')
    decreases y' - y
  {
    YearStep(y);
    if y + 1 < y' {
      YearsFit(y + 1, y');
      YearStep(y + 1);
    }
  }

  /** Strict calendar order: what `datetime`'s `<` compares, field by field. */
  predicate Before(a: Date, b: Date) {
    a.year < b.year || (a.year == b.year && (a.month < b.month || (a.month == b.month && a.day < b.day)))
  }

  predicate NotAfter(a: Date, b: Date) { Before(a, b) || a == b }

  lemma BeforeNumbers(a: Date, b: Date)
    requires Valid(a) && Valid(b) && Before(a, b)
    ensures DayNumber(a) < DayNumber(b)
  {
    if a.year < b.year {
      DayWithinYear(a);
      DayWithinYear(b);
      YearsFit(a.year, b.year);
    } else if a.month < b.month {
      MonthsFit(a.year, a.month, b.month);
    }
  }

  /** Comparing dates is comparing day numbers. */
  lemma OrderIsDayNumberOrder(a: Date, b: Date)
    requires Valid(a) && Valid(b)
    ensures NotAfter(a, b) <==> DayNumber(a) <= DayNumber(b)
    ensures a == b <==> DayNumber(a) == DayNumber(b)
  {
    if Before(a, b) {
      BeforeNumbers(a, b);
    } else if a != b {
      assert Before(b, a);
      BeforeNumbers(b, a);
    }
  }

  // ---------------------------------------------------------------- one day on, one day back

  /** `d + timedelta(days=1)`; past 9999-12-31 `datetime` overflows. */
  function NextDay(d: Date): (r: Date)
    requires Valid(d) && d != Last
    ensures Valid(r) && DayNumber(r) == DayNumber(d) + 1
  {
    if d.day < DaysInMonth(d.year, d.month) then
      assert d == Date(d.year, d.month, d.day);
      StepInMonth(d.year, d.month, d.day);
      Date(d.year, d.month, d.day + 1)
    else if d.month < 12 then
      assert d == Date(d.year, d.month, DaysInMonth(d.year, d.month));
      StepOverMonth(d.year, d.month);
      Date(d.year, d.month + 1, 1)
    else
      assert d == Date(d.year, 12, 31);
      StepOverYear(d.year);
      Date(d.year + 1, 1, 1)
  }

  /** `d - timedelta(days=1)`; before 0001-01-01 `datetime` overflows. */
  function PrevDay(d: Date): (r: Date)
    requires Valid(d) && d != First
    ensures Valid(r) && DayNumber(r) + 1 == DayNumber(d)
  {
    if d.day > 1 then
      assert d == Date(d.year, d.month, d.day - 1 + 1);
      StepInMonth(d.year, d.month, d.day - 1);
      Date(d.year, d.month, d.day - 1)
    else if d.month > 1 then
      assert d == Date(d.year, d.month - 1 + 1, 1);
      StepOverMonth(d.year, d.month - 1);
      Date(d.year, d.month - 1, DaysInMonth(d.year, d.month - 1))
    else
      assert d == Date(d.year - 1 + 1, 1, 1);
      StepOverYear(d.year - 1);
      Date(d.year - 1, 12, 31)
  }

  /** A day on within the month. */
  lemma StepInMonth(y: int, m: int, day: int)
    requires Valid(Date(y, m, day)) && day < DaysInMonth(y, m)
    ensures Valid(Date(y, m, day + 1))
    ensures DayNumber(Date(y, m, day + 1)) == DayNumber(Date(y, m, day)) + 1
  {
  }

  /** From the last day of month `m` to the first of the next. */
  lemma StepOverMonth(y: int, m: int)
    requires 1 <= y <= 9999 && 1 <= m < 12
    ensures Valid(Date(y, m, DaysInMonth(y, m))) && Valid(Date(y, m + 1, 1))
    ensures DayNumber(Date(y, m + 1, 1)) == DayNumber(Date(y, m, DaysInMonth(y, m))) + 1
  {
  }

  /** From 31 December of `y` to 1 January of the next year. */
  lemma StepOverYear(y: int)
    requires 1 <= y < 9999
    ensures Valid(Date(y, 12, 31)) && Valid(Date(y + 1, 1, 1))
    ensures DayNumber(Date(y + 1, 1, 1)) == DayNumber(Date(y, 12, 31)) + 1
  {
    DecemberStart(y);
    YearStep(y);
  }

  lemma NextDayThenPrevDay(d: Date)
    requires Valid(d) && d != Last
    ensures NextDay(d) != First && PrevDay(NextDay(d)) == d
  {
    OrderIsDayNumberOrder(PrevDay(NextDay(d)), d);
  }

  lemma PrevDayThenNextDay(d: Date)
    requires Valid(d) && d != First
    ensures PrevDay(d) != Last && NextDay(PrevDay(d)) == d
  {
    var p := PrevDay(d);
    assert p != Last by {
      OrderIsDayNumberOrder(d, Last);
    }
    OrderIsDayNumberOrder(NextDay(p), d);
  }

  /** The date `i` days after `d`. */
  function Forward(d: Date, i: nat): (r: Date)
    requires Valid(d) && DayNumber(d) + i <= DayNumber(Last)
    ensures Valid(r) && DayNumber(r) == DayNumber(d) + i
  {
    if i == 0 then d
    else
      var p := Forward(d, i - 1);
      OrderIsDayNumberOrder(p, Last);
      NextDay(p)
  }

  /** The date `i` days before `d`: `d - timedelta(days=i)`. */
  function Backward(d: Date, i: nat): (r: Date)
    requires Valid(d) && i <= DayNumber(d)
    ensures Valid(r) && DayNumber(r) + i == DayNumber(d)
  {
    if i == 0 then d
    else
      var p := Backward(d, i - 1);
      OrderIsDayNumberOrder(p, First);
      PrevDay(p)
  }

  // ---------------------------------------------------------------- YYYYMMDD

  function Zeros(n: nat): (r: string)
    ensures |r| == n && forall i :: 0 <= i < n ==> r[i] == '0'
  {
    if n == 0 then [] else Zeros(n - 1) + ['0']
  }

  /** `n` in decimal, left-padded with zeros to `width` characters. */
  function Pad(n: nat, width: nat): (r: string)
    ensures |r| >= width && AllAsciiDigits(r)
  {
    var s := NatToDecimal(n);
    if |s| < width then Zeros(width - |s|) + s else s
  }

  lemma NarrowDecimal(n: nat, width: nat)
    requires 1 <= width
    requires n < if width == 1 then 10 else if width == 2 then 100 else if width == 3 then 1000 else 10000
    ensures |NatToDecimal(n)| <= width
  {
    if n >= 10 {
      NarrowDecimal(n / 10, width - 1);
    }
  }

  /** `strftime('%Y%m%d')`. */
  function Format(d: Date): (s: string)
    requires Valid(d)
    ensures |s| == 8 && AllAsciiDigits(s)
  {
    NarrowDecimal(d.year, 4);
    NarrowDecimal(d.month, 2);
    NarrowDecimal(d.day, 2);
    Pad(d.year, 4) + Pad(d.month, 2) + Pad(d.day, 2)
  }

  /** A `YYYYMMDD` string: eight ASCII digits. */
  predicate DateString(s: string) { |s| == 8 && AllAsciiDigits(s) }

  /** `int(date_str[:4])`, the year `main` files a date's gazettes under. */
  function YearOf(s: string): nat
    requires DateString(s)
  {
    assert AllAsciiDigits(s[..4]) by { assert forall i :: 0 <= i < 4 ==> s[..4][i] == s[i]; }
    DecimalValue(s[..4])
  }

  /** Reads the three fields back from a `YYYYMMDD` string. */
  function ParseDate(s: string): Date
    requires |s| == 8 && AllAsciiDigits(s)
  {
    Date(DecimalValue(s[..4]), DecimalValue(s[4..6]), DecimalValue(s[6..]))
  }

  lemma {:induction false} LeadingZero(s: string)
    requires AllAsciiDigits(s)
    ensures AllAsciiDigits("0" + s) && DecimalValue("0" + s) == DecimalValue(s)
    decreases |s|
  {
    if s != [] {
      var t := "0" + s;
      assert t[..|t| - 1] == "0" + s[..|s| - 1];
      LeadingZero(s[..|s| - 1]);
    }
  }

  lemma {:induction false} LeadingZeros(k: nat, s: string)
    requires AllAsciiDigits(s)
    ensures AllAsciiDigits(Zeros(k) + s) && DecimalValue(Zeros(k) + s) == DecimalValue(s)
  {
    if k == 0 {
      assert Zeros(k) + s == s;
    } else {
      assert Zeros(k) + s == Zeros(k - 1) + ("0" + s);
      LeadingZero(s);
      LeadingZeros(k - 1, "0" + s);
    }
  }

  lemma PadValue(n: nat, width: nat)
    ensures DecimalValue(Pad(n, width)) == n
  {
    DecimalRoundTrip(n);
    var s := NatToDecimal(n);
    if |s| < width {
      LeadingZeros(width - |s|, s);
    }
  }

  /** Parsing a formatted date gives the date back, so distinct dates format differently. */
  lemma FormatRoundTrip(d: Date)
    requires Valid(d)
    ensures ParseDate(Format(d)) == d
  {
    var s := Format(d);
    NarrowDecimal(d.year, 4);
    NarrowDecimal(d.month, 2);
    NarrowDecimal(d.day, 2);
    assert s[..4] == Pad(d.year, 4);
    assert s[4..6] == Pad(d.month, 2);
    assert s[6..] == Pad(d.day, 2);
    PadValue(d.year, 4);
    PadValue(d.month, 2);
    PadValue(d.day, 2);
  }

  /** `int(date_str[:4])`, as the downloader reads the year back, is the date's year. */
  lemma FormatYear(d: Date)
    requires Valid(d)
    ensures ParseInt(Format(d)[..4]) == Some(d.year)
  {
    FormatRoundTrip(d);
    var s := Format(d);
    assert AllAsciiDigits(s[..4]);
  }

  // ---------------------------------------------------------------- generate_dates

  /** The last day a year-mode run covers: today for the current year, else 31 December. */
  function YearEnd(value: int, today: Date): Date {
    if value == today.year then today else Date(value, 12, 31)
  }

  /** What `generate_dates` demands of its arguments for `datetime` not to raise. */
  predicate GenerateDatesDomain(mode: string, value: int, today: Date) {
    Valid(today) &&
    (mode == "year" ==> 1 <= value < 9999) &&
    (mode == "days" ==> value <= DayNumber(today) + 1)
  }

  /** The number of dates a run yields. */
  function DateCount(mode: string, value: int, today: Date): nat
    requires GenerateDatesDomain(mode, value, today)
  {
    if mode == "year" then
      OrderIsDayNumberOrder(Date(value, 1, 1), YearEnd(value, today));
      DayNumber(YearEnd(value, today)) - DayNumber(Date(value, 1, 1)) + 1
    else if mode == "days" then (if value > 0 then value else 0)
    else 0
  }

  /** The dates of year mode, formatted. */
  predicate YearModeDates(dates: seq<string>, start: Date)
    requires Valid(start)
  {
    forall i :: 0 <= i < |dates| ==>
      (DayNumber(start) + i <= DayNumber(Last) && dates[i] == Format(Forward(start, i)))
  }

  /** The dates of days mode, formatted. */
  predicate DaysModeDates(dates: seq<string>, today: Date)
    requires Valid(today)
  {
    forall i :: 0 <= i < |dates| ==> (i <= DayNumber(today) && dates[i] == Format(Backward(today, i)))
  }

  lemma YearModeDatesExtend(dates: seq<string>, start: Date, current: Date)
    requires Valid(start) && YearModeDates(dates, start)
    requires DayNumber(start) + |dates| + 1 <= DayNumber(Last)
    requires current == Forward(start, |dates|)
    ensures YearModeDates(dates + [Format(current)], start)
    ensures current != Last && NextDay(current) == Forward(start, |dates| + 1)
  {
    var n := |dates|;
    assert DayNumber(current) < DayNumber(Last);
    var next := dates + [Format(current)];
    forall i | 0 <= i < |next|
      ensures DayNumber(start) + i <= DayNumber(Last) && next[i] == Format(Forward(start, i))
    {
      if i < n {
        assert next[i] == dates[i];
      } else {
        assert i == n && next[i] == Format(current);
      }
    }
  }

  lemma DaysModeDatesExtend(dates: seq<string>, today: Date)
    requires Valid(today) && DaysModeDates(dates, today) && |dates| <= DayNumber(today)
    ensures DaysModeDates(dates + [Format(Backward(today, |dates|))], today)
  {
    var n := |dates|;
    var last := Format(Backward(today, n));
    var next := dates + [last];
    forall i | 0 <= i < |next| ensures i <= DayNumber(today) && next[i] == Format(Backward(today, i)) {
      if i < n {
        assert next[i] == dates[i];
      } else {
        assert i == n && next[i] == last;
      }
    }
  }

  /** Year mode: every day from 1 January of `value` to `YearEnd`. */
  method YearDates(value: int, today: Date) returns (dates: seq<string>)
    requires GenerateDatesDomain("year", value, today)
    ensures |dates| == DateCount("year", value, today)
    ensures YearModeDates(dates, Date(value, 1, 1))
  {
    YearModeSpan(value, today);
    dates := DatesFrom(Date(value, 1, 1), YearEnd(value, today));
  }

  /** The year-mode loop: from `start` while the date is not after `end`, one day at a time. */
  method DatesFrom(start: Date, end: Date) returns (dates: seq<string>)
    requires Valid(start) && Valid(end) && DayNumber(start) <= DayNumber(end) < DayNumber(Last)
    ensures |dates| == DayNumber(end) + 1 - DayNumber(start)
    ensures YearModeDates(dates, start)
  {
    dates := [];
    var current := start;
    while NotAfter(current, end)
      invariant Valid(current) && DayNumber(current) == DayNumber(start) + |dates|
      invariant DayNumber(current) <= DayNumber(end) + 1
      invariant YearModeDates(dates, start)
      invariant current == Forward(start, |dates|)
      decreases DayNumber(end) + 1 - DayNumber(current)
    {
      OrderIsDayNumberOrder(current, end);
      YearModeDatesExtend(dates, start, current);
      dates := dates + [Format(current)];
      current := NextDay(current);
    }
    OrderIsDayNumberOrder(current, end);
  }

  /** The days-mode loop: `today - timedelta(days=i)` for each `i` in `range(value)`. */
  method DaysBack(value: int, today: Date) returns (dates: seq<string>)
    requires GenerateDatesDomain("days", value, today)
    ensures |dates| == DateCount("days", value, today)
    ensures DaysModeDates(dates, today)
  {
    assert "days" != "year" by {
      assert "days"[0] != "year"[0];
    }
    dates := [];
    var i := 0;
    while i < value
      invariant 0 <= i <= (if value > 0 then value else 0) && |dates| == i
      invariant DaysModeDates(dates, today)
    {
      DaysModeDatesExtend(dates, today);
      dates := dates + [Format(Backward(today, i))];
      i := i + 1;
    }
  }

  /**
   * `generate_dates`: in days mode the `value` days counting back from today;
   * in year mode every day from 1 January of `value` to `YearEnd`; no dates
   * for any other mode.
   */
  method GenerateDates(mode: string, value: int, today: Date) returns (dates: seq<string>)
    requires GenerateDatesDomain(mode, value, today)
    ensures |dates| == DateCount(mode, value, today)
    ensures mode == "days" ==> DaysModeDates(dates, today)
    ensures mode == "year" ==> YearModeDates(dates, Date(value, 1, 1))
    ensures forall k :: 0 <= k < |dates| ==> DateString(dates[k])
  {
    if mode == "year" {
      dates := YearDates(value, today);
    } else if mode == "days" {
      dates := DaysBack(value, today);
    } else {
      dates := [];
    }
  }

  /** Days mode counts back one day at a time from today. */
  lemma DaysModeSteps(today: Date, i: nat)
    requires Valid(today) && i + 1 <= DayNumber(today)
    ensures Backward(today, 0) == today
    ensures Backward(today, i + 1) == PrevDay(Backward(today, i))
  {
  }

  /**
   * Year mode runs from 1 January of `value` to `YearEnd`, both dates
   * `datetime` can represent, and yields one date per day of that span.
   */
  lemma YearModeSpan(value: int, today: Date)
    requires GenerateDatesDomain("year", value, today)
    ensures Valid(Date(value, 1, 1)) && Valid(YearEnd(value, today))
    ensures DayNumber(Date(value, 1, 1)) <= DayNumber(YearEnd(value, today)) < DayNumber(Last)
    ensures DateCount("year", value, today) == DayNumber(YearEnd(value, today)) - DayNumber(Date(value, 1, 1)) + 1
  {
    OrderIsDayNumberOrder(Date(value, 1, 1), YearEnd(value, today));
    OrderIsDayNumberOrder(YearEnd(value, today), Last);
  }

  /** Moving forward by the difference of two day numbers lands on the later date. */
  lemma ForwardLands(start: Date, end: Date, k: nat)
    requires Valid(start) && Valid(end) && DayNumber(end) <= DayNumber(Last)
    requires DayNumber(start) + k == DayNumber(end)
    ensures Forward(start, k) == end
  {
    OrderIsDayNumberOrder(Forward(start, k), end);
  }
}
