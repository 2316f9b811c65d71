/** The local calendar, and the text the clock is read as. */
module Calendar {
  import opened Decimals

  datatype Date = Date(year: nat, month: nat, day: nat)

  predicate Leap(year: nat)
  {
    year % 4 == 0 && (year % 100 != 0 || year % 400 == 0)
  }

  function DaysIn(year: nat, month: nat): (d: nat)
    ensures 28 <= d <= 31
  {
    if month == 2 then (if Leap(year) then 29 else 28)
    else if month in {4, 6, 9, 11} then 30
    else 31
  }

  /** The Gregorian year: month by month, February longer in every fourth year but three in four centuries. */
  lemma MonthLengths(year: nat)
    ensures DaysIn(year, 1) == DaysIn(year, 3) == DaysIn(year, 5) == DaysIn(year, 7) == DaysIn(year, 8) == 31
    ensures DaysIn(year, 10) == DaysIn(year, 12) == 31
    ensures DaysIn(year, 4) == DaysIn(year, 6) == DaysIn(year, 9) == DaysIn(year, 11) == 30
    ensures year % 4 != 0 ==> DaysIn(year, 2) == 28
    ensures year % 4 == 0 && year % 100 != 0 ==> DaysIn(year, 2) == 29
    ensures year % 100 == 0 && year % 400 != 0 ==> DaysIn(year, 2) == 28
    ensures year % 400 == 0 ==> DaysIn(year, 2) == 29
  {
    if year % 400 == 0 {
      var k := year / 400;
      assert year == 4 * (100 * k);
    }
  }

  predicate ValidDate(d: Date)
  {
    1 <= d.month <= 12 && 1 <= d.day <= DaysIn(d.year, d.month)
  }

  function NextDate(d: Date): (n: Date)
    requires ValidDate(d)
    ensures ValidDate(n)
  {
    if d.day < DaysIn(d.year, d.month) then d.(day := d.day + 1)
    else if d.month < 12 then Date(d.year, d.month + 1, 1)
    else Date(d.year + 1, 1, 1)
  }

  /** The date so many days after the first. */
  function DateOf(first: Date, day: nat): (d: Date)
    requires ValidDate(first)
    ensures ValidDate(d)
  {
    if day == 0 then first else NextDate(DateOf(first, day - 1))
  }

  function TwoDigits(n: nat): (s: string)
    requires n < 100
  {
    [DigitChar(n / 10), DigitChar(n % 10)]
  }

  /** The text of a local time, %Y%m%d%H%M%S. The time is in seconds from the first date's midnight. */
  function TimeText(first: Date, time: nat): (s: string)
    requires ValidDate(first)
  {
    var d := DateOf(first, time / 86400);
    var second := time % 86400;
    Digits(d.year) + TwoDigits(d.month) + TwoDigits(d.day)
    + TwoDigits(second / 3600) + TwoDigits(second / 60 % 60) + TwoDigits(second % 60)
  }

  /** The month and day of a date, as the text shows them. */
  function MonthDay(d: Date): (s: string)
    requires ValidDate(d)
  {
    TwoDigits(d.month) + TwoDigits(d.day)
  }

  predicate FourDigitYear(d: Date)
  {
    1000 <= d.year <= 9999
  }

  lemma FourDigits(n: nat)
    ensures |Digits(n)| == 4 <==> 1000 <= n <= 9999
  {
    DigitsLength(n / 10);
    if n >= 10 {
      DigitsLength(n / 10 / 10);
      if n >= 100 {
        DigitsLength(n / 10 / 10 / 10);
      }
    }
  }

  lemma DigitsLength(n: nat)
    ensures |Digits(n)| >= 1 && (|Digits(n)| == 1 <==> n < 10)
  {
  }

  lemma TwoDigitsDiffer(m: nat, n: nat)
    requires m < 100 && n < 100
    ensures TwoDigits(m) == TwoDigits(n) ==> m == n
  {
    if TwoDigits(m) == TwoDigits(n) {
      assert TwoDigits(m)[0] == TwoDigits(n)[0] && TwoDigits(m)[1] == TwoDigits(n)[1];
    }
  }

  /** What the thread cuts out of the text: it has 14 characters when the year has four digits, then
  characters 4 to 7 are the month and day, and 8 and 9 are "04" from 04:00:00 to 04:59:59. */
  lemma TextParts(first: Date, time: nat)
    requires ValidDate(first)
    ensures var d := DateOf(first, time / 86400);
            var s := TimeText(first, time);
            && (|s| == 14 <==> FourDigitYear(d))
            && (|s| == 14 ==> s[4..8] == MonthDay(d) && (s[8..10] == "04" <==> 14400 <= time % 86400 < 18000))
  {
    var d := DateOf(first, time / 86400);
    var s := TimeText(first, time);
    var second := time % 86400;
    FourDigits(d.year);
    if |s| == 14 {
      assert s[4..8] == MonthDay(d);
      assert s[8..10] == TwoDigits(second / 3600);
      assert TwoDigits(4) == "04";
      TwoDigitsDiffer(second / 3600, 4);
    }
  }

  /** Two consecutive days never have the same month and day. */
  lemma ConsecutiveDaysDiffer(d: Date)
    requires ValidDate(d)
    ensures MonthDay(NextDate(d)) != MonthDay(d)
  {
    if MonthDay(NextDate(d)) == MonthDay(d) {
      MonthDayShows(NextDate(d), d);
    }
  }

  // ---------- counting days ----------

  function YearLength(year: nat): nat
  {
    if Leap(year) then 366 else 365
  }

  function YearStart(year: nat): nat
  {
    if year == 0 then 0 else YearStart(year - 1) + YearLength(year - 1)
  }

  function MonthStart(year: nat, month: nat): nat
  {
    if month <= 1 then 0 else MonthStart(year, month - 1) + DaysIn(year, month - 1)
  }

  function Ordinal(d: Date): nat
  {
    YearStart(d.year) + MonthStart(d.year, d.month) + d.day
  }

  lemma MonthsMakeAYear(year: nat)
    ensures MonthStart(year, 12) + 31 == YearLength(year)
  {
    assert MonthStart(year, 2) == 31 + MonthStart(year, 1);
    assert MonthStart(year, 4) == MonthStart(year, 2) + DaysIn(year, 2) + 31;
    assert MonthStart(year, 6) == MonthStart(year, 4) + 61;
    assert MonthStart(year, 8) == MonthStart(year, 6) + 61;
    assert MonthStart(year, 10) == MonthStart(year, 8) + 61;
    assert MonthStart(year, 12) == MonthStart(year, 10) + 61;
  }

  lemma MonthStartUnfolds(year: nat, month: nat)
    requires 1 <= month
    ensures MonthStart(year, month + 1) == MonthStart(year, month) + DaysIn(year, month) && MonthStart(year, 1) == 0
  {
    hide DaysIn;
  }

  lemma NextOrdinal(d: Date)
    requires ValidDate(d)
    ensures Ordinal(NextDate(d)) == Ordinal(d) + 1
  {
    MonthsMakeAYear(d.year);
    MonthStartUnfolds(d.year, d.month);
    MonthStartUnfolds(d.year + 1, 1);
    assert d.month == 12 ==> DaysIn(d.year, d.month) == 31;
    assert YearStart(d.year + 1) == YearStart(d.year) + YearLength(d.year);
    hide YearStart, MonthStart, DaysIn, YearLength;
  }

  lemma {:induction false} OrdinalOf(first: Date, day: nat)
    requires ValidDate(first)
    ensures Ordinal(DateOf(first, day)) == Ordinal(first) + day
  {
    hide Ordinal, NextDate, ValidDate;
    if day > 0 {
      OrdinalOf(first, day - 1);
      NextOrdinal(DateOf(first, day - 1));
    }
  }

  /** Only the leap day sets the months of two years apart. */
  lemma {:induction false} MonthStartsCompare(y: nat, z: nat, month: nat)
    ensures MonthStart(y, month) + (if month > 2 && Leap(z) then 1 else 0)
            == MonthStart(z, month) + (if month > 2 && Leap(y) then 1 else 0)
  {
    if month > 1 {
      MonthStartsCompare(y, z, month - 1);
    }
  }

  lemma {:induction false} YearStartsGrow(y: nat, z: nat)
    requires y < z
    ensures YearStart(y) + YearLength(y) <= YearStart(z)
    decreases z - y
  {
    if y + 1 < z {
      YearStartsGrow(y, z - 1);
    }
  }

  /** The next date that shows the same month and day is at least 365 days on. */
  lemma SameMonthDayOrdinals(a: Date, b: Date)
    requires a.month == b.month && a.day == b.day && Ordinal(a) < Ordinal(b)
    ensures Ordinal(b) >= Ordinal(a) + 365
  {
    hide YearStart, MonthStart, Leap;
    MonthStartsCompare(a.year, b.year, a.month);
    if a.year < b.year {
      YearStartsGrow(a.year, b.year);
    } else if b.year < a.year {
      YearStartsGrow(b.year, a.year);
    }
  }

  lemma MonthDayShows(a: Date, b: Date)
    requires ValidDate(a) && ValidDate(b) && MonthDay(a) == MonthDay(b)
    ensures a.month == b.month && a.day == b.day
  {
    assert MonthDay(a)[..2] == TwoDigits(a.month) && MonthDay(a)[2..] == TwoDigits(a.day);
    assert MonthDay(b)[..2] == TwoDigits(b.month) && MonthDay(b)[2..] == TwoDigits(b.day);
    TwoDigitsDiffer(a.month, b.month);
    TwoDigitsDiffer(a.day, b.day);
  }

  /** Two different days that show the same month and day are at least 365 days apart. */
  lemma SameMonthDayFarApart(first: Date, d: nat, e: nat)
    requires ValidDate(first) && d < e && MonthDay(DateOf(first, d)) == MonthDay(DateOf(first, e))
    ensures e - d >= 365
  {
    hide DateOf, MonthDay, Ordinal;
    OrdinalOf(first, d);
    OrdinalOf(first, e);
    MonthDayShows(DateOf(first, d), DateOf(first, e));
    SameMonthDayOrdinals(DateOf(first, d), DateOf(first, e));
  }
}
