/** The date of a day number, as certificate validity is shown, against the Gregorian calendar. */
module Calendar {
  import opened Division

  /** A date: any year, a month from 1, a day from 1. */
  datatype Date = Date(year: int, month: int, day: int)

  // ----- The calendar

  predicate Leap(y: int) {
    y % 4 == 0 && (y % 100 != 0 || y % 400 == 0)
  }

  function LeapDay(y: int): int {
    if Leap(y) then 1 else 0
  }

  function MonthLength(y: int, m: int): int {
    if m == 2 then 28 + LeapDay(y) else if m == 4 || m == 6 || m == 9 || m == 11 then 30 else 31
  }

  predicate Valid(d: Date) {
    1 <= d.month <= 12 && 1 <= d.day <= MonthLength(d.year, d.month)
  }

  /** Leap years before year `y`. */
  function LeapsBefore(y: int): int {
    (y - 1) / 4 - (y - 1) / 100 + (y - 1) / 400
  }

  /** Days from the start of 1970 to the start of year `y`. */
  function DaysBeforeYear(y: int): int {
    365 * (y - 1970) + LeapsBefore(y) - LeapsBefore(1970)
  }

  function DaysBeforeMonth(y: int, m: int): int
    decreases m
  {
    if m <= 1 then 0 else DaysBeforeMonth(y, m - 1) + MonthLength(y, m - 1)
  }

  /** Days from 1 January 1970 to a date. */
  function DayNumber(d: Date): int {
    DaysBeforeYear(d.year) + DaysBeforeMonth(d.year, d.month) + d.day - 1
  }

  function NextDate(d: Date): Date {
    if d.day < MonthLength(d.year, d.month) then Date(d.year, d.month, d.day + 1)
    else if d.month < 12 then Date(d.year, d.month + 1, 1)
    else Date(d.year + 1, 1, 1)
  }

  /** Every year is 365 days, and one more when it is a leap year; 1970 starts at day 0. */
  lemma YearsAddUp(y: int)
    ensures DaysBeforeYear(y + 1) == DaysBeforeYear(y) + 365 + LeapDay(y) && DaysBeforeYear(1970) == 0
  {
    Steps(y, 4);
    Steps(y, 100);
    Steps(y, 400);
    Multiples(y);
    assert LeapsBefore(y + 1) == y / 4 - y / 100 + y / 400 by {
      assert y + 1 - 1 == y;
    }
    AddOne(y / 4, y / 100, y / 400, (y - 1) / 4, (y - 1) / 100, (y - 1) / 400, y);
  }

  lemma AddOne(a: int, b: int, c: int, a0: int, b0: int, c0: int, y: int)
    requires a == a0 + (if y % 4 == 0 then 1 else 0)
    requires b == b0 + (if y % 100 == 0 then 1 else 0)
    requires c == c0 + (if y % 400 == 0 then 1 else 0)
    requires (y % 400 == 0 ==> y % 100 == 0) && (y % 100 == 0 ==> y % 4 == 0)
    ensures a - b + c == a0 - b0 + c0 + LeapDay(y)
  {
  }

  lemma Multiples(y: int)
    ensures (y % 400 == 0 ==> y % 100 == 0) && (y % 100 == 0 ==> y % 4 == 0)
  {
    if y % 400 == 0 {
      Divided(y, 100, 4 * (y / 400), 0);
    }
    if y % 100 == 0 {
      Divided(y, 4, 25 * (y / 100), 0);
    }
  }

  /** A quotient grows by one exactly at the multiples. */
  lemma Steps(y: int, k: int)
    requires k == 4 || k == 100 || k == 400
    ensures y / k == (y - 1) / k + if y % k == 0 then 1 else 0
  {
  }

  /** The days before each month, and the length of a year. */
  lemma MonthStarts(y: int)
    ensures DaysBeforeMonth(y, 1) == 0 && DaysBeforeMonth(y, 2) == 31
    ensures var l := LeapDay(y);
            && DaysBeforeMonth(y, 3) == 59 + l && DaysBeforeMonth(y, 4) == 90 + l
            && DaysBeforeMonth(y, 5) == 120 + l && DaysBeforeMonth(y, 6) == 151 + l
            && DaysBeforeMonth(y, 7) == 181 + l && DaysBeforeMonth(y, 8) == 212 + l
            && DaysBeforeMonth(y, 9) == 243 + l && DaysBeforeMonth(y, 10) == 273 + l
            && DaysBeforeMonth(y, 11) == 304 + l && DaysBeforeMonth(y, 12) == 334 + l
  {
    hide Leap;
    assert DaysBeforeMonth(y, 2) == DaysBeforeMonth(y, 1) + MonthLength(y, 1);
    assert DaysBeforeMonth(y, 3) == DaysBeforeMonth(y, 2) + MonthLength(y, 2);
    assert DaysBeforeMonth(y, 4) == DaysBeforeMonth(y, 3) + MonthLength(y, 3);
    assert DaysBeforeMonth(y, 5) == DaysBeforeMonth(y, 4) + MonthLength(y, 4);
    assert DaysBeforeMonth(y, 6) == DaysBeforeMonth(y, 5) + MonthLength(y, 5);
    assert DaysBeforeMonth(y, 7) == DaysBeforeMonth(y, 6) + MonthLength(y, 6);
    assert DaysBeforeMonth(y, 8) == DaysBeforeMonth(y, 7) + MonthLength(y, 7);
    assert DaysBeforeMonth(y, 9) == DaysBeforeMonth(y, 8) + MonthLength(y, 8);
    assert DaysBeforeMonth(y, 10) == DaysBeforeMonth(y, 9) + MonthLength(y, 9);
    assert DaysBeforeMonth(y, 11) == DaysBeforeMonth(y, 10) + MonthLength(y, 10);
    assert DaysBeforeMonth(y, 12) == DaysBeforeMonth(y, 11) + MonthLength(y, 11);
  }

  // ----- The code's arithmetic

  /** Division that truncates toward zero. */
  function Truncated(a: int, b: int): int
    requires b > 0
  {
    if a >= 0 then a / b else -(-a / b)
  }

  /** The 400-year era of a day counted from 1 March of year 0. */
  function Era(z: int): int {
    Truncated(if z >= 0 then z else z - 146_096, 146_097)
  }

  function YearOfEra(doe: int): int {
    (doe - doe / 1_460 + doe / 36_524 - doe / 146_096) / 365
  }

  /** Days before year `yoe` of an era, years starting in March. */
  function YearStart(yoe: int): int {
    365 * yoe + yoe / 4 - yoe / 100
  }

  /** Days before month `mp`, counted from March. */
  function MonthStart(mp: int): int {
    (153 * mp + 2) / 5
  }

  function MonthOf(mp: int): int {
    if mp < 10 then mp + 3 else mp - 9
  }

  function CivilFromDays(days: int): Date {
    var z := days + 719_468;
    var era := Era(z);
    var doe := z - era * 146_097;
    var yoe := YearOfEra(doe);
    var y := yoe + era * 400;
    var doy := doe - YearStart(yoe);
    var mp := (5 * doy + 2) / 153;
    var d := doy - MonthStart(mp) + 1;
    var m := MonthOf(mp);
    Date(y + (if m <= 2 then 1 else 0), m, d)
  }

  /** The truncating division rounds down, so the day of the era is in range. */
  lemma EraRounds(z: int)
    ensures 0 <= z - Era(z) * 146_097 < 146_097
  {
  }

  /** A day of an era, by century, four-year cycle, year and day of the year. */
  predicate Lies(doe: int, c: int, q: int, r: int, k: int) {
    && 0 <= c <= 3 && 0 <= q <= 24 && 0 <= r <= 3 && 0 <= k <= 365
    && doe == 36_524 * c + 1_461 * q + 365 * r + k
    && (k == 365 ==> r == 3 && (q < 24 || c == 3))
  }

  /** What each division in the formula for the year comes to. */
  lemma Corrections(doe: int, c: int, q: int, r: int, k: int)
    requires Lies(doe, c, q, r, k)
    ensures doe / 1_460 == 25 * c + q + if 24 * c + q + 365 * r + k >= 1_460 then 1 else 0
    ensures doe / 36_524 == c + if 1_461 * q + 365 * r + k >= 36_524 then 1 else 0
    ensures doe / 146_096 == if doe == 146_096 then 1 else 0
  {
    var past := 24 * c + q + 365 * r + k;
    var cycle := if past >= 1_460 then 1 else 0;
    Quotient(doe, 1_460, 25 * c + q + cycle, past - 1_460 * cycle);
    var inCentury := 1_461 * q + 365 * r + k;
    var century := if inCentury >= 36_524 then 1 else 0;
    Quotient(doe, 36_524, c + century, inCentury - 36_524 * century);
    var last := if doe == 146_096 then 1 else 0;
    Quotient(doe, 146_096, last, doe - 146_096 * last);
  }

  /** They take off a day for each leap day, and for day 1460 of a cycle, so the year divides out. */
  lemma YearDivides(doe: int, c: int, q: int, r: int, k: int)
    requires Lies(doe, c, q, r, k)
    ensures YearOfEra(doe) == 100 * c + 4 * q + r
  {
    Corrections(doe, c, q, r, k);
    var yoe := 100 * c + 4 * q + r;
    var days := doe - doe / 1_460 + doe / 36_524 - doe / 146_096;
    assert 365 * yoe <= days < 365 * yoe + 365;
    Quotient(days, 365, yoe, days - 365 * yoe);
  }

  /** Year, and day of the year, of a day of an era. */
  lemma YearFound(doe: int, c: int, q: int, r: int, k: int)
    requires Lies(doe, c, q, r, k)
    ensures YearOfEra(doe) == 100 * c + 4 * q + r
    ensures doe - YearStart(YearOfEra(doe)) == k
  {
    YearDivides(doe, c, q, r, k);
    hide YearOfEra;
    var yoe := 100 * c + 4 * q + r;
    Quotient(yoe, 4, 25 * c + q, r);
    Quotient(yoe, 100, c, 4 * q + r);
  }

  /** Where a day of an era lies. */
  lemma Located(doe: int) returns (c: int, q: int, r: int, k: int)
    requires 0 <= doe < 146_097
    ensures Lies(doe, c, q, r, k)
  {
    c := if doe == 146_096 then 3 else doe / 36_524;
    var inCentury := doe - 36_524 * c;
    q := inCentury / 1_461;
    var inCycle := inCentury - 1_461 * q;
    r := if inCycle == 1_460 then 3 else inCycle / 365;
    k := inCycle - 365 * r;
  }

  /** The month and day of a day of the year that starts in March. */
  lemma MonthFound(doy: int)
    requires 0 <= doy <= 365
    ensures var mp := (5 * doy + 2) / 153;
            && 0 <= mp <= 11 && MonthStart(mp) <= doy
            && (mp < 11 ==> doy < MonthStart(mp + 1))
  {
    var mp := (5 * doy + 2) / 153;
    assert 153 * mp <= 5 * doy + 2 < 153 * mp + 153;
    assert 5 * MonthStart(mp) <= 153 * mp + 2 < 5 * MonthStart(mp) + 5;
    assert 5 * MonthStart(mp + 1) <= 153 * mp + 155 < 5 * MonthStart(mp + 1) + 5;
  }

  /** Every unsigned subtraction the code makes stays at or above zero. */
  lemma NothingUnderflows(days: int)
    ensures var z := days + 719_468;
            var doe := z - Era(z) * 146_097;
            var yoe := YearOfEra(doe);
            var doy := doe - YearStart(yoe);
            var mp := (5 * doy + 2) / 153;
            && 0 <= doe < 146_097 && doe / 1_460 <= doe && 0 <= doe - doe / 1_460 + doe / 36_524 - doe / 146_096
            && 0 <= yoe <= 399 && 0 <= 365 * yoe + yoe / 4 - yoe / 100 <= doe
            && 0 <= doy <= 365 && MonthStart(mp) <= doy && (mp >= 10 ==> mp - 9 >= 1) && mp <= 11
  {
    var z := days + 719_468;
    var doe := z - Era(z) * 146_097;
    EraRounds(z);
    var c, q, r, k := Located(doe);
    YearFound(doe, c, q, r, k);
    MonthFound(k);
    hide YearOfEra, MonthStart, Era;
  }

  /** The day on which the year that starts in March of `y` begins. */
  lemma MarchFirst(era: int, yoe: int)
    requires 0 <= yoe <= 399
    ensures var y := yoe + era * 400;
            DaysBeforeYear(y) + 59 + LeapDay(y) == era * 146_097 + YearStart(yoe) - 719_468
  {
    var y := yoe + era * 400;
    Steps(y, 4);
    Steps(y, 100);
    Steps(y, 400);
    Quotient(y, 4, 100 * era + yoe / 4, yoe % 4);
    Quotient(y, 100, 4 * era + yoe / 100, yoe % 100);
    Quotient(y, 400, era, yoe);
    Multiples(y);
    AddOne(y / 4, y / 100, y / 400, (y - 1) / 4, (y - 1) / 100, (y - 1) / 400, y);
  }

  /** Day 365 of a year from March is 29 February of a leap year. */
  lemma LastDay(era: int, c: int, q: int, r: int)
    requires 0 <= c <= 3 && 0 <= q <= 24 && r == 3 && (q < 24 || c == 3)
    ensures Leap(100 * c + 4 * q + r + era * 400 + 1)
  {
    var y := 100 * c + 4 * q + 4 + era * 400;
    assert y == 4 * (25 * c + q + 1 + 100 * era);
    if q < 24 {
      assert y == 100 * (c + 4 * era) + (4 * q + 4);
      Divided(y, 100, c + 4 * era, 4 * q + 4);
    } else {
      assert y == 400 * (era + 1);
    }
  }

  /**
   The date of a day number is a real date, and counting its days gives the
   day number back: for every day, before or after 1970.
   */
  lemma DateOfDay(days: int)
    ensures Valid(CivilFromDays(days)) && DayNumber(CivilFromDays(days)) == days
  {
    hide YearOfEra, Era, Leap, MonthStart, YearStart, DaysBeforeYear;
    var z := days + 719_468;
    var era := Era(z);
    var doe := z - era * 146_097;
    EraRounds(z);
    var c, q, r, k := Located(doe);
    YearFound(doe, c, q, r, k);
    MonthFound(k);
    var yoe := YearOfEra(doe);
    var y := yoe + era * 400;
    MarchFirst(era, yoe);
    YearsAddUp(y);
    if k == 365 {
      LastDay(era, c, q, r);
    }
    MonthCase(y, k, (5 * k + 2) / 153, YearStart(yoe) + era * 146_097 - 719_468);
    assert YearStart(yoe) + era * 146_097 - 719_468 + k == days;
    hide DayNumber, Valid;
  }

  /** The month found is the month of the calendar, and the day lies in it. */
  lemma MonthCase(y: int, k: int, mp: int, start: int)
    requires 0 <= k <= 365 && 0 <= mp <= 11 && MonthStart(mp) <= k && (mp < 11 ==> k < MonthStart(mp + 1))
    requires k == 365 ==> Leap(y + 1)
    requires DaysBeforeYear(y) + 59 + LeapDay(y) == start
    requires DaysBeforeYear(y + 1) == DaysBeforeYear(y) + 365 + LeapDay(y)
    ensures var m := MonthOf(mp);
            var d := Date(y + (if m <= 2 then 1 else 0), m, k - MonthStart(mp) + 1);
            Valid(d) && DayNumber(d) == start + k
  {
    hide Leap, DaysBeforeYear;
    MonthStarts(y);
    MonthStarts(y + 1);
    hide DaysBeforeMonth;
  }

  // ----- The inverse, the other way

  lemma {:induction false} LaterYears(y: int, w: int)
    requires y <= w
    ensures DaysBeforeYear(y) + 365 * (w - y) <= DaysBeforeYear(w)
    decreases w - y
  {
    hide DaysBeforeYear;
    if y < w {
      YearsAddUp(y);
      LaterYears(y + 1, w);
    }
  }

  lemma {:induction false} LaterMonths(y: int, m: int, n: int)
    requires 1 <= m <= n <= 12
    ensures n > m ==> DaysBeforeMonth(y, m) + MonthLength(y, m) <= DaysBeforeMonth(y, n)
    ensures DaysBeforeMonth(y, m) <= DaysBeforeMonth(y, n)
    decreases n - m
  {
    hide MonthLength;
    if m < n {
      LaterMonths(y, m, n - 1);
      assert MonthLength(y, n - 1) >= 28 by { SomeDays(y, n - 1); }
    }
  }

  lemma SomeDays(y: int, m: int)
    ensures MonthLength(y, m) >= 28
  {
    hide Leap;
  }

  /** A date's day is before the next year. */
  lemma InItsYear(d: Date)
    requires Valid(d)
    ensures DaysBeforeYear(d.year) <= DayNumber(d) < DaysBeforeYear(d.year + 1)
  {
    YearsAddUp(d.year);
    MonthStarts(d.year);
    LaterMonths(d.year, 1, d.month);
    LaterMonths(d.year, d.month, 12);
    hide DaysBeforeYear, DaysBeforeMonth, Leap;
  }

  /** Two dates of one day number are one date. */
  lemma OneDateADay(d: Date, e: Date)
    requires Valid(d) && Valid(e) && DayNumber(d) == DayNumber(e)
    ensures d == e
  {
    hide DaysBeforeYear, DaysBeforeMonth, MonthLength;
    InItsYear(d);
    InItsYear(e);
    if d.year < e.year {
      LaterYears(d.year + 1, e.year);
    } else if e.year < d.year {
      LaterYears(e.year + 1, d.year);
    } else if d.month < e.month {
      LaterMonths(d.year, d.month, e.month);
    } else if e.month < d.month {
      LaterMonths(d.year, e.month, d.month);
    }
  }

  /** Counting the days of a real date and asking for the date of that day gives the date back. */
  lemma DayOfDate(d: Date)
    requires Valid(d)
    ensures CivilFromDays(DayNumber(d)) == d
  {
    hide CivilFromDays, DayNumber, Valid;
    DateOfDay(DayNumber(d));
    OneDateADay(CivilFromDays(DayNumber(d)), d);
  }

  /** The next day has the next date. */
  lemma NextDayNextDate(days: int)
    ensures CivilFromDays(days + 1) == NextDate(CivilFromDays(days))
  {
    hide CivilFromDays;
    var d := CivilFromDays(days);
    DateOfDay(days);
    var next := NextDate(d);
    assert Valid(next) && DayNumber(next) == days + 1 by {
      YearsAddUp(d.year);
      MonthStarts(d.year);
      SomeDays(d.year, d.month + 1);
      hide DaysBeforeYear, Leap;
      assert DaysBeforeMonth(d.year + 1, 1) == 0;
      assert DaysBeforeMonth(d.year, d.month + 1) == DaysBeforeMonth(d.year, d.month) + MonthLength(d.year, d.month);
    }
    DayOfDate(next);
  }
}
