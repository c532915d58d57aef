// Date.cpp: days counted from 1 January 1000 in the proleptic Gregorian calendar,
// converted to and from (day, month, year), and a weekday formula.

module Calendar {

  const BASE_YEAR := 1000
  const WORD := 0x1_0000_0000   // unsigned int

  predicate LeapYear(year: nat) {
    year % 400 == 0 || (year % 4 == 0 && year % 100 != 0)
  }

  function YearDays(year: nat): nat {
    if LeapYear(year) then 366 else 365
  }

  function MonthDays(month: nat, year: nat): nat {
    if month < 1 || month > 12 then 0
    else if month == 2 then if LeapYear(year) then 29 else 28
    else if month == 4 || month == 6 || month == 9 || month == 11 then 30
    else 31
  }

  // ----- counting days one unit at a time -----

  // Days in the years from the base year up to, not including, y.
  function DaysBeforeYear(y: nat): nat {
    if y <= BASE_YEAR then 0 else DaysBeforeYear(y - 1) + YearDays(y - 1)
  }

  // Days in the months of year y before month m.
  function DaysBeforeMonth(m: nat, y: nat): nat {
    if m <= 1 then 0 else DaysBeforeMonth(m - 1, y) + MonthDays(m - 1, y)
  }

  datatype DMY = DMY(d: nat, m: nat, y: nat)

  predicate ValidDate(t: DMY) {
    && t.y >= BASE_YEAR
    && 1 <= t.m <= 12
    && 1 <= t.d <= MonthDays(t.m, t.y)
  }

  function DayCount(t: DMY): nat
    requires ValidDate(t)
  {
    DaysBeforeYear(t.y) + DaysBeforeMonth(t.m, t.y) + t.d - 1
  }

  predicate Before(s: DMY, t: DMY) {
    s.y < t.y || (s.y == t.y && (s.m < t.m || (s.m == t.m && s.d < t.d)))
  }

  // The date after t.
  function Tomorrow(t: DMY): DMY {
    if t.d < MonthDays(t.m, t.y) then DMY(t.d + 1, t.m, t.y)
    else if t.m < 12 then DMY(1, t.m + 1, t.y)
    else DMY(1, 1, t.y + 1)
  }

  lemma MonthTable(y: nat)
    ensures DaysBeforeMonth(1, y) == 0
    ensures DaysBeforeMonth(2, y) == 31
    ensures var k := if LeapYear(y) then 1 else 0;
      && DaysBeforeMonth(3, y) == 59 + k && DaysBeforeMonth(4, y) == 90 + k
      && DaysBeforeMonth(5, y) == 120 + k && DaysBeforeMonth(6, y) == 151 + k
      && DaysBeforeMonth(7, y) == 181 + k && DaysBeforeMonth(8, y) == 212 + k
      && DaysBeforeMonth(9, y) == 243 + k && DaysBeforeMonth(10, y) == 273 + k
      && DaysBeforeMonth(11, y) == 304 + k && DaysBeforeMonth(12, y) == 334 + k
      && DaysBeforeMonth(13, y) == YearDays(y)
  {
    hide LeapYear;
    assert DaysBeforeMonth(4, y) == DaysBeforeMonth(3, y) + 31;
    assert DaysBeforeMonth(6, y) == DaysBeforeMonth(5, y) + 31;
    assert DaysBeforeMonth(8, y) == DaysBeforeMonth(7, y) + 31;
    assert DaysBeforeMonth(10, y) == DaysBeforeMonth(9, y) + 30;
    assert DaysBeforeMonth(12, y) == DaysBeforeMonth(11, y) + 30;
  }

  lemma MonthMax(m: nat, y: nat)
    ensures MonthDays(m, y) <= 31
  {
  }

  lemma {:induction false} MonthsGrow(m: nat, k: nat, y: nat)
    requires 1 <= m < k <= 13
    ensures DaysBeforeMonth(m, y) + MonthDays(m, y) <= DaysBeforeMonth(k, y)
    decreases k
  {
    if m + 1 < k {
      MonthsGrow(m, k - 1, y);
    }
  }

  lemma {:induction false} YearsGrow(y: nat, z: nat)
    requires BASE_YEAR <= y < z
    ensures DaysBeforeYear(y) + YearDays(y) <= DaysBeforeYear(z)
    decreases z
  {
    if y + 1 < z {
      YearsGrow(y, z - 1);
    }
  }

  lemma InsideYear(t: DMY)
    requires ValidDate(t)
    ensures DaysBeforeYear(t.y) <= DayCount(t) < DaysBeforeYear(t.y + 1)
  {
    MonthTable(t.y);
    MonthsGrow(t.m, 13, t.y);
  }

  // ----- the order of dates is the order of day counts -----

  lemma CountsFollowDates(s: DMY, t: DMY)
    requires ValidDate(s) && ValidDate(t)
    ensures Before(s, t) <==> DayCount(s) < DayCount(t)
    ensures s == t <==> DayCount(s) == DayCount(t)
  {
    if Before(s, t) {
      Earlier(s, t);
    } else if Before(t, s) {
      Earlier(t, s);
    }
  }

  lemma Earlier(s: DMY, t: DMY)
    requires ValidDate(s) && ValidDate(t) && Before(s, t)
    ensures DayCount(s) < DayCount(t)
  {
    if s.y < t.y {
      InsideYear(s);
      InsideYear(t);
      if s.y + 1 < t.y {
        YearsGrow(s.y + 1, t.y);
      }
    } else if s.m < t.m {
      MonthsGrow(s.m, t.m, s.y);
    }
  }

  lemma TomorrowIsNext(t: DMY)
    requires ValidDate(t)
    ensures ValidDate(Tomorrow(t))
    ensures DayCount(Tomorrow(t)) == DayCount(t) + 1
    ensures Before(t, Tomorrow(t))
  {
    MonthTable(t.y);
  }

  // ----- the weekday formula -----

  function Leaps(y: nat): nat {
    y / 4 - y / 100 + y / 400
  }

  lemma DivIs4(n: int, q: int, r: int)
    requires n == 4 * q + r && 0 <= r < 4
    ensures n / 4 == q && n % 4 == r
  {
  }

  lemma DivIs100(n: int, q: int, r: int)
    requires n == 100 * q + r && 0 <= r < 100
    ensures n / 100 == q && n % 100 == r
  {
  }

  lemma DivIs400(n: int, q: int, r: int)
    requires n == 400 * q + r && 0 <= r < 400
    ensures n / 400 == q && n % 400 == r
  {
  }

  lemma Split4(n: int)
    ensures n == 4 * (n / 4) + n % 4 && 0 <= n % 4 < 4
  {
  }

  lemma Split100(n: int)
    ensures n == 100 * (n / 100) + n % 100 && 0 <= n % 100 < 100
  {
  }

  lemma Split400(n: int)
    ensures n == 400 * (n / 400) + n % 400 && 0 <= n % 400 < 400
  {
  }

  lemma Div4Step(y: nat)
    requires y >= 1
    ensures y / 4 == (y - 1) / 4 + if y % 4 == 0 then 1 else 0
  {
    Split4(y);
    DivIs4(y - 1, if y % 4 == 0 then y / 4 - 1 else y / 4, if y % 4 == 0 then 3 else y % 4 - 1);
  }

  lemma Div100Step(y: nat)
    requires y >= 1
    ensures y / 100 == (y - 1) / 100 + if y % 100 == 0 then 1 else 0
  {
    Split100(y);
    DivIs100(y - 1, if y % 100 == 0 then y / 100 - 1 else y / 100, if y % 100 == 0 then 99 else y % 100 - 1);
  }

  lemma Div400Step(y: nat)
    requires y >= 1
    ensures y / 400 == (y - 1) / 400 + if y % 400 == 0 then 1 else 0
  {
    Split400(y);
    DivIs400(y - 1, if y % 400 == 0 then y / 400 - 1 else y / 400, if y % 400 == 0 then 399 else y % 400 - 1);
  }

  lemma FourHundreds(y: nat)
    requires y % 400 == 0
    ensures y % 100 == 0
  {
    Split400(y);
    DivIs100(y, 4 * (y / 400), 0);
  }

  lemma Hundreds(y: nat)
    requires y % 100 == 0
    ensures y % 4 == 0
  {
    Split100(y);
    DivIs4(y, 25 * (y / 100), 0);
  }

  lemma LeapStep(y: nat)
    requires y >= 1
    ensures Leaps(y) == Leaps(y - 1) + if LeapYear(y) then 1 else 0
  {
    Div4Step(y);
    Div100Step(y);
    Div400Step(y);
    if y % 400 == 0 {
      FourHundreds(y);
    }
    if y % 100 == 0 {
      Hundreds(y);
    }
  }

  lemma {:induction false} YearsInClosedForm(y: nat)
    requires y >= BASE_YEAR
    ensures DaysBeforeYear(y) == 365 * (y - BASE_YEAR) + Leaps(y - 1) - Leaps(BASE_YEAR - 1)
    decreases y
  {
    if y > BASE_YEAR {
      LeapStep(y - 1);
      YearsInClosedForm(y - 1);
    }
  }

  const MONTH_TABLE_NOT_LEAP := [0, 3, 3, 6, 1, 4, 6, 2, 5, 0, 3, 5]
  const MONTH_TABLE_LEAP := [6, 2, 3, 6, 1, 4, 6, 2, 5, 0, 3, 5]

  // The index getWeekDay computes, in unsigned arithmetic; 0 is Monday.
  function WeekDayIndex(t: DMY): nat
    requires 1 <= t.m <= 12
  {
    var century := 2 * (3 - (t.y / 100) % 4);
    var year := t.y % 100 + (t.y % 100) / 4;
    var month := if LeapYear(t.y) then MONTH_TABLE_LEAP[t.m - 1] else MONTH_TABLE_NOT_LEAP[t.m - 1];
    ((t.d + century + year + month) % WORD + 6) % WORD % 7
  }

  // The year part of the formula counts days in step with the calendar.
  lemma YearResidue(y: nat)
    ensures (2 * (3 - (y / 100) % 4) + y % 100 + (y % 100) / 4) % 7
         == (365 * y + Leaps(y) + 6) % 7
  {
    var h, t := y / 100, y % 100;
    var a, b, c, e := h / 4, h % 4, t / 4, t % 4;
    Split100(y);
    Split4(h);
    Split4(t);
    DivIs400(y, a, 100 * b + t);
    DivIs4(y, 25 * h + c, e);
    var r := 6 + 5 * b + 5 * c + e;
    SevenMore(r, 20871 * a + 5217 * b + 208 * c + 52 * e);
    SevenMore(r, -b);
  }

  lemma SevenMore(r: int, k: int)
    ensures (r + 7 * k) % 7 == r % 7
  {
  }

  lemma MonthResidue(m: nat, y: nat)
    requires 1 <= m <= 12
    ensures var month := if LeapYear(y) then MONTH_TABLE_LEAP[m - 1] else MONTH_TABLE_NOT_LEAP[m - 1];
      var k := if LeapYear(y) then 1 else 0;
      (month + k) % 7 == DaysBeforeMonth(m, y) % 7
  {
    hide LeapYear;
    MonthTable(y);
  }

  // Whatever the date, the formula agrees with counting days modulo 7 from the base date,
  // a Wednesday.
  lemma WeekDaysCount(t: DMY)
    requires ValidDate(t)
    ensures WeekDayIndex(t) == (DayCount(t) + 2) % 7
  {
    hide LeapYear, DaysBeforeYear, DaysBeforeMonth, MonthDays;
    var k := if LeapYear(t.y) then 1 else 0;
    var month := if LeapYear(t.y) then MONTH_TABLE_LEAP[t.m - 1] else MONTH_TABLE_NOT_LEAP[t.m - 1];
    var years := 2 * (3 - (t.y / 100) % 4) + t.y % 100 + (t.y % 100) / 4;
    YearResidue(t.y);
    MonthResidue(t.m, t.y);
    YearsInClosedForm(t.y);
    LeapStep(t.y);
    assert Leaps(BASE_YEAR - 1) == 242;
    MonthMax(t.m, t.y);
    NoWrap(t);
    WeekArithmetic(years, 365 * t.y + Leaps(t.y) + 6, month + k, DaysBeforeMonth(t.m, t.y), t.d, k);
  }

  // Within a month the unsigned sum does not wrap.
  lemma NoWrap(t: DMY)
    requires 1 <= t.m <= 12 && t.d <= 31
    ensures var month := if LeapYear(t.y) then MONTH_TABLE_LEAP[t.m - 1] else MONTH_TABLE_NOT_LEAP[t.m - 1];
      WeekDayIndex(t) == (t.d + 2 * (3 - (t.y / 100) % 4) + (t.y % 100 + (t.y % 100) / 4) + month + 6) % 7
  {
    hide LeapYear;
    var month := if LeapYear(t.y) then MONTH_TABLE_LEAP[t.m - 1] else MONTH_TABLE_NOT_LEAP[t.m - 1];
    assert month <= 6 && (t.y % 100) / 4 <= 24;
    Small(t.d + 2 * (3 - (t.y / 100) % 4) + (t.y % 100 + (t.y % 100) / 4) + month);
  }

  lemma Small(n: nat)
    requires n < WORD - 6
    ensures (n % WORD + 6) % WORD == n + 6
  {
  }

  lemma WeekArithmetic(years: int, years': int, months: int, months': int, d: int, k: int)
    requires years % 7 == years' % 7 && months % 7 == months' % 7
    ensures (d + years + (months - k) + 6) % 7
         == (years' - 6 - k - 365000 - 242 + months' + d - 1 + 2) % 7
  {
    var p, q := years / 7 - years' / 7, months / 7 - months' / 7;
    assert years == years' + 7 * p && months == months' + 7 * q;
    SevenMore(years' - 6 - k - 365000 - 242 + months' + d - 1 + 2, p + q + 52179);
  }

  lemma BeforeBase(n: int)
    requires n < 0
    ensures WeekDayIndex(DMY((n + 1) % WORD, 1, BASE_YEAR)) == (n + 9) % WORD % 7
    ensures n >= -9 ==> (n + 9) % WORD % 7 == (n + 2) % 7
  {
    assert !LeapYear(BASE_YEAR);
    WrapTwice(n + 1, 2, 6);
    if n >= -9 {
      SevenMore(n + 2, 1);
    }
  }

  lemma WrapTwice(n: int, a: nat, b: nat)
    ensures ((n % WORD + a) % WORD + b) % WORD == (n + a + b) % WORD
  {
    WrapOnce(n, a);
    WrapOnce(n + a, b);
  }

  lemma WrapOnce(n: int, a: nat)
    ensures (n % WORD + a) % WORD == (n + a) % WORD
  {
    var q := n / WORD;
    assert n == WORD * q + n % WORD;
    SameResidue(n % WORD + a, q);
  }

  lemma SameResidue(r: int, q: int)
    ensures (r + WORD * q) % WORD == r % WORD
  {
  }

  // ----- 400 years -----

  lemma FourCenturies(t: DMY)
    requires ValidDate(t)
    ensures ValidDate(t.(y := t.y + 400))
    ensures DayCount(t.(y := t.y + 400)) == DayCount(t) + 146097
    ensures WeekDayIndex(t.(y := t.y + 400)) == WeekDayIndex(t)
  {
    var u := t.(y := t.y + 400);
    hide LeapYear, WeekDayIndex, DaysBeforeYear, DaysBeforeMonth, MonthDays;
    FourHundredYears(t.y);
    SameMonths(t.m, t.y);
    WeekDaysCount(t);
    WeekDaysCount(u);
    WholeWeeks(DayCount(t));
  }

  lemma WholeWeeks(n: nat)
    ensures (n + 146097 + 2) % 7 == (n + 2) % 7
  {
  }

  lemma FourHundredYears(y: nat)
    requires y >= BASE_YEAR
    ensures DaysBeforeYear(y + 400) == DaysBeforeYear(y) + 146097
  {
    hide LeapYear, Leaps, DaysBeforeYear;
    YearsInClosedForm(y);
    YearsInClosedForm(y + 400);
    SameShape(y);
  }

  lemma SameShape(y: nat)
    ensures LeapYear(y + 400) == LeapYear(y)
    ensures y >= 1 ==> Leaps(y + 399) == Leaps(y - 1) + 97
  {
    MoreYears(y);
    if y >= 1 {
      MoreYears(y - 1);
    }
  }

  lemma MoreYears(y: nat)
    ensures (y + 400) % 4 == y % 4 && (y + 400) % 100 == y % 100 && (y + 400) % 400 == y % 400
    ensures Leaps(y + 400) == Leaps(y) + 97
  {
    Split4(y);
    Split100(y);
    Split400(y);
    DivIs4(y + 400, y / 4 + 100, y % 4);
    DivIs100(y + 400, y / 100 + 4, y % 100);
    DivIs400(y + 400, y / 400 + 1, y % 400);
  }

  lemma {:induction false} SameMonths(m: nat, y: nat)
    ensures DaysBeforeMonth(m, y + 400) == DaysBeforeMonth(m, y)
    ensures MonthDays(m, y + 400) == MonthDays(m, y)
  {
    SameShape(y);
    hide LeapYear;
    if m > 1 {
      SameMonths(m - 1, y);
    }
  }

  // ----- the calendar advanced one day at a time -----

  function DateAfter(n: nat): (t: DMY)
    ensures ValidDate(t)
  {
    if n == 0 then DMY(1, 1, BASE_YEAR)
    else
      var t := DateAfter(n - 1);
      TomorrowIsNext(t);
      Tomorrow(t)
  }

  // Counting days and advancing the calendar are inverse to each other.
  lemma {:induction false} CountAndDate(n: nat)
    ensures DayCount(DateAfter(n)) == n
    ensures forall t :: ValidDate(t) && DayCount(t) == n ==> t == DateAfter(n)
  {
    if n > 0 {
      CountAndDate(n - 1);
      TomorrowIsNext(DateAfter(n - 1));
    }
    forall t | ValidDate(t) && DayCount(t) == n && DayCount(DateAfter(n)) == n
      ensures t == DateAfter(n)
    {
      CountsFollowDates(t, DateAfter(n));
    }
  }

  lemma DateOfCount(t: DMY)
    requires ValidDate(t)
    ensures DateAfter(DayCount(t)) == t
  {
    CountAndDate(DayCount(t));
  }

  // The calendar advanced n days from t.
  function Advance(t: DMY, n: nat): DMY {
    if n == 0 then t else Tomorrow(Advance(t, n - 1))
  }

  lemma {:induction false} AdvanceAdds(k: nat, n: nat)
    ensures Advance(DateAfter(k), n) == DateAfter(k + n)
  {
    if n > 0 {
      AdvanceAdds(k, n - 1);
    }
  }

  lemma AdvanceFourCenturies(k: nat)
    ensures DateAfter(k + 146097) == DateAfter(k).(y := DateAfter(k).y + 400)
  {
    hide DateAfter;
    CountAndDate(k);
    FourCenturies(DateAfter(k));
    DateOfCount(DateAfter(k).(y := DateAfter(k).y + 400));
  }

  lemma DatesFollowCounts(j: nat, k: nat)
    ensures Before(DateAfter(j), DateAfter(k)) <==> j < k
    ensures DateAfter(j) == DateAfter(k) <==> j == k
  {
    hide DateAfter, Before;
    CountAndDate(j);
    CountAndDate(k);
    CountsFollowDates(DateAfter(j), DateAfter(k));
  }

  // A date given as numbers comes back from its count exactly when it is a possible date
  // from the base year on; any other becomes the base date.
  lemma ComesBackExactlyWhenValid(t: DMY)
    ensures DateAfter(if ValidDate(t) then DayCount(t) else 0) == t <==> ValidDate(t)
  {
    if ValidDate(t) {
      DateOfCount(t);
    }
  }

  // ----- the calendar in numbers -----

  // A multiple of 4 that is no century, or a century that is a multiple of 400.
  lemma LeapYearExactlyWhen(y: nat)
    ensures LeapYear(y) <==> if y % 100 == 0 then y / 100 % 4 == 0 else y % 4 == 0
  {
    if y % 100 == 0 {
      Split100(y);
      Split4(y / 100);
      DivIs400(y, y / 100 / 4, 100 * (y / 100 % 4));
    } else if y % 400 == 0 {
      FourHundreds(y);
    }
  }

  // A date is accepted from the year 1000 on if its month and day exist.
  lemma ValidExactlyWhen(t: DMY)
    ensures ValidDate(t) <==>
      && t.y >= 1000 && 1 <= t.m <= 12 && 1 <= t.d <= 31
      && (t.d == 31 ==> t.m in {1, 3, 5, 7, 8, 10, 12})
      && (t.d == 30 ==> t.m != 2)
      && (t.d == 29 && t.m == 2 ==> if t.y % 100 == 0 then t.y / 100 % 4 == 0 else t.y % 4 == 0)
  {
    LeapYearExactlyWhen(t.y);
    hide LeapYear;
  }

  // Its count: years, leap days before the year, months, the leap day of the year, days.
  lemma CountInNumbers(t: DMY)
    requires ValidDate(t)
    ensures DayCount(t) ==
      365 * (t.y - 1000) + (t.y - 1) / 4 - (t.y - 1) / 100 + (t.y - 1) / 400 - 242
      + [0, 31, 59, 90, 120, 151, 181, 212, 243, 273, 304, 334][t.m - 1]
      + (if t.m > 2 && LeapYear(t.y) then 1 else 0) + t.d - 1
  {
    hide LeapYear, DaysBeforeYear, DaysBeforeMonth;
    YearsInClosedForm(t.y);
    MonthTable(t.y);
    assert Leaps(BASE_YEAR - 1) == 242;
  }

  // The first date, a day of the year 1066, and the first day after a leap day.
  lemma Anchors()
    ensures DateAfter(0) == DMY(1, 1, 1000)
    ensures DateAfter(24392) == DMY(14, 10, 1066)
    ensures DateAfter(365302) == DMY(1, 3, 2000)
    ensures ValidDate(DMY(14, 10, 1066)) && DayCount(DMY(14, 10, 1066)) == 24392
  {
    hide DateAfter, DayCount;
    Anchor(DMY(1, 1, 1000), 0);
    Anchor(DMY(14, 10, 1066), 24392);
    Anchor(DMY(1, 3, 2000), 365302);
  }

  lemma Anchor(t: DMY, n: nat)
    requires ValidDate(t)
    requires n ==
      365 * (t.y - 1000) + (t.y - 1) / 4 - (t.y - 1) / 100 + (t.y - 1) / 400 - 242
      + [0, 31, 59, 90, 120, 151, 181, 212, 243, 273, 304, 334][t.m - 1]
      + (if t.m > 2 && LeapYear(t.y) then 1 else 0) + t.d - 1
    ensures DayCount(t) == n && DateAfter(n) == t
  {
    CountInNumbers(t);
    DateOfCount(t);
  }

  lemma AtBase()
    ensures DaysBeforeYear(BASE_YEAR) == 0 && forall y :: DaysBeforeMonth(1, y) == 0
  {
  }

  // ----- the class -----

  class Date {
    var daysSinceBaseDate: int

    constructor ()
      ensures daysSinceBaseDate == 0
    {
      daysSinceBaseDate := 0;
    }

    // An impossible date, or one before the base year, becomes the base date.
    constructor FromDMY(d: nat, m: nat, y: nat)
      ensures daysSinceBaseDate == if ValidDate(DMY(d, m, y)) then DayCount(DMY(d, m, y)) else 0
      ensures (d, m, y) == (14, 10, 1066) ==> daysSinceBaseDate == 24392
      ensures y < 1000 || m < 1 || m > 12 || d < 1 || d > 31 ==> daysSinceBaseDate == 0
    {
      hide ValidDate, DayCount, DateAfter;
      ValidExactlyWhen(DMY(d, m, y));
      Anchors();
      var n := ToDays(d, m, y);
      daysSinceBaseDate := n;
    }

    static method ToDays(d: nat, m: nat, y: nat) returns (n: nat)
      ensures n == if ValidDate(DMY(d, m, y)) then DayCount(DMY(d, m, y)) else 0
      ensures ValidDate(DMY(d, m, y)) ==>
        n == 365 * (y - 1000) + (y - 1) / 4 - (y - 1) / 100 + (y - 1) / 400 - 242
             + [0, 31, 59, 90, 120, 151, 181, 212, 243, 273, 304, 334][m - 1]
             + (if m > 2 && LeapYear(y) then 1 else 0) + d - 1
    {
      if ValidDate(DMY(d, m, y)) {
        CountInNumbers(DMY(d, m, y));
      }
      if d < 1 || d > MonthDays(m, y) || m < 1 || m > 12 || y < BASE_YEAR {
        return 0;
      }
      n := 0;
      for i := BASE_YEAR to y
        invariant n == DaysBeforeYear(i)
      {
        n := n + YearDays(i);
      }
      for i := 1 to m
        invariant n == DaysBeforeYear(y) + DaysBeforeMonth(i, y)
      {
        n := n + MonthDays(i, y);
      }
      n := n + d - 1;
    }

    // The year loop: the first year whose end lies beyond the count.
    static method YearOf(days: int) returns (y: nat, rest: int)
      ensures y >= BASE_YEAR && rest == days - DaysBeforeYear(y) && rest < YearDays(y)
      ensures days >= 0 ==> rest >= 0
      ensures days < 0 ==> y == BASE_YEAR
    {
      hide LeapYear;
      y := BASE_YEAR;
      rest := days - YearDays(y);
      while rest >= 0
        invariant y >= BASE_YEAR
        invariant rest == days - DaysBeforeYear(y + 1)
        invariant if y == BASE_YEAR then rest == days - YearDays(y) else rest + YearDays(y) >= 0 && days >= 0
        decreases rest
      {
        y := y + 1;
        rest := rest - YearDays(y);
      }
      rest := rest + YearDays(y);
    }

    // The month loop: it stops by December because twelve months make up a year.
    static method MonthOf(y: nat, days: int) returns (m: nat, rest: int)
      requires days < YearDays(y)
      ensures 1 <= m <= 12 && rest == days - DaysBeforeMonth(m, y) && rest < MonthDays(m, y)
      ensures days >= 0 ==> rest >= 0
      ensures days < 0 ==> m == 1
    {
      MonthTable(y);
      hide LeapYear, YearDays;
      m := 1;
      rest := days - MonthDays(m, y);
      while rest >= 0
        invariant 1 <= m <= 12
        invariant rest == days - DaysBeforeMonth(m + 1, y)
        invariant if m == 1 then rest == days - MonthDays(m, y) else rest + MonthDays(m, y) >= 0 && days >= 0
        decreases rest
      {
        m := m + 1;
        rest := rest - MonthDays(m, y);
      }
      rest := rest + MonthDays(m, y);
    }

    // For a count from 0 on, the date that many days after the base date. A negative count
    // leaves the day of January 1000 at or below 0, wrapped to unsigned.
    method GetDMY() returns (d: nat, m: nat, y: nat)
      ensures daysSinceBaseDate >= 0 ==> DMY(d, m, y) == DateAfter(daysSinceBaseDate)
      ensures daysSinceBaseDate < 0 ==>
        m == 1 && y == BASE_YEAR && d == (daysSinceBaseDate + 1) % WORD
      ensures daysSinceBaseDate == 0 ==> (d, m, y) == (1, 1, 1000)
      ensures daysSinceBaseDate == 24392 ==> (d, m, y) == (14, 10, 1066)
      ensures -0x1_0000_0000 < daysSinceBaseDate < -1 ==>
        (d, m, y) == (daysSinceBaseDate + 1 + 0x1_0000_0000, 1, 1000)
      ensures daysSinceBaseDate >= 0 ==> ValidDate(DMY(d, m, y)) && y >= 1000
      ensures (if ValidDate(DMY(d, m, y)) then DayCount(DMY(d, m, y)) else 0) == daysSinceBaseDate
        <==> daysSinceBaseDate >= 0
    {
      hide LeapYear, YearDays, MonthDays, DateAfter, DaysBeforeYear, DaysBeforeMonth;
      Anchors();
      AtBase();
      var tmp;
      y, tmp := YearOf(daysSinceBaseDate);
      m, tmp := MonthOf(y, tmp);
      d := (tmp + 1) % WORD;
      if daysSinceBaseDate >= 0 {
        MonthMax(m, y);
        CountAndDate(daysSinceBaseDate);
        assert ValidDate(DMY(d, m, y));
        assert DayCount(DMY(d, m, y)) == daysSinceBaseDate;
      }
    }

    // The count plus 2 modulo 7, down to 9 days before the base date; for every negative
    // count, what the wrapped sum comes to.
    method GetWeekDay() returns (w: nat)
      ensures daysSinceBaseDate >= -9 ==> w == (daysSinceBaseDate + 2) % 7
      ensures daysSinceBaseDate < 0 ==> w == (daysSinceBaseDate + 9) % WORD % 7
    {
      hide WeekDayIndex, DateAfter, DayCount, LeapYear, MonthDays;
      var d, m, y := GetDMY();
      w := WeekDayIndex(DMY(d, m, y));
      if daysSinceBaseDate >= 0 {
        CountAndDate(daysSinceBaseDate);
        WeekDaysCount(DMY(d, m, y));
      } else {
        BeforeBase(daysSinceBaseDate);
      }
    }

    // Comparing counts compares dates.
    method LessThan(date: Date) returns (b: bool)
      ensures b <==> daysSinceBaseDate < date.daysSinceBaseDate
      ensures daysSinceBaseDate >= 0 && date.daysSinceBaseDate >= 0 ==>
        (b <==> Before(DateAfter(daysSinceBaseDate), DateAfter(date.daysSinceBaseDate)))
    {
      if daysSinceBaseDate >= 0 && date.daysSinceBaseDate >= 0 {
        DatesFollowCounts(daysSinceBaseDate, date.daysSinceBaseDate);
      }
      b := daysSinceBaseDate < date.daysSinceBaseDate;
    }

    method Equals(date: Date) returns (b: bool)
      ensures b <==> daysSinceBaseDate == date.daysSinceBaseDate
      ensures daysSinceBaseDate >= 0 && date.daysSinceBaseDate >= 0 ==>
        (b <==> DateAfter(daysSinceBaseDate) == DateAfter(date.daysSinceBaseDate))
    {
      if daysSinceBaseDate >= 0 && date.daysSinceBaseDate >= 0 {
        DatesFollowCounts(daysSinceBaseDate, date.daysSinceBaseDate);
      }
      b := daysSinceBaseDate == date.daysSinceBaseDate;
    }

    // The number of days by which the other date has to be advanced to reach this one.
    method DaysAfter(date: Date) returns (n: int)
      ensures n == daysSinceBaseDate - date.daysSinceBaseDate
      ensures date.daysSinceBaseDate >= 0 && n >= 0 ==>
        Advance(DateAfter(date.daysSinceBaseDate), n) == DateAfter(daysSinceBaseDate)
    {
      n := daysSinceBaseDate - date.daysSinceBaseDate;
      if date.daysSinceBaseDate >= 0 && n >= 0 {
        AdvanceAdds(date.daysSinceBaseDate, n);
      }
    }

    // Adding days advances the calendar; 146097 of them are 400 years.
    method AddDays(days: int)
      modifies this
      ensures daysSinceBaseDate == old(daysSinceBaseDate) + days
      ensures old(daysSinceBaseDate) >= 0 && days >= 0 ==>
        DateAfter(daysSinceBaseDate) == Advance(DateAfter(old(daysSinceBaseDate)), days)
      ensures old(daysSinceBaseDate) >= 0 && days == 146097 ==>
        var t := DateAfter(old(daysSinceBaseDate));
        DateAfter(daysSinceBaseDate) == t.(y := t.y + 400)
    {
      hide Advance, DateAfter;
      if daysSinceBaseDate >= 0 && days >= 0 {
        AdvanceAdds(daysSinceBaseDate, days);
        if days == 146097 {
          AdvanceFourCenturies(daysSinceBaseDate);
        }
      }
      daysSinceBaseDate := daysSinceBaseDate + days;
    }
  }
}
