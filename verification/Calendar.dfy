/** Day numbers, Gregorian dates and ISO weeks (models/charts.c, `civil`, `wena_chart_day_key` and
    `week_of`; models/view_rows.c, `wena_view_iso_week`). Day 0 is 1 January 1970. */
module Calendar {

  // ----- C's integer division, which truncates

  function Div(a: int, b: nat): int
    requires 0 < b
  {
    if a >= 0 then a / b else -(-a / b)
  }

  function Mod(a: int, b: nat): int
    requires 0 < b
  {
    a - Div(a, b) * b
  }

  // ----- the Gregorian calendar (section 3.2.1 of ISO 8601)

  datatype Date = Date(year: int, month: int, day: int)

  predicate Leap(year: int) { year % 4 == 0 && (year % 100 != 0 || year % 400 == 0) }

  function DaysIn(year: int, month: int): int
  {
    if month == 2 then if Leap(year) then 29 else 28 else if month in {4, 6, 9, 11} then 30 else 31
  }

  predicate Valid(d: Date) { 1 <= d.month <= 12 && 1 <= d.day <= DaysIn(d.year, d.month) }

  function Next(d: Date): Date
  {
    if d.day < DaysIn(d.year, d.month) then d.(day := d.day + 1)
    else if d.month < 12 then Date(d.year, d.month + 1, 1)
    else Date(d.year + 1, 1, 1)
  }

  /** The days from 1 January of year 0 to 1 January of a year. */
  function YearDays(year: int): int { 365 * year + (year + 3) / 4 - (year + 99) / 100 + (year + 399) / 400 }

  /** The days of a year before a month. */
  function MonthDays(year: int, month: int): int
  {
    if month <= 1 then 0 else MonthDays(year, month - 1) + DaysIn(year, month - 1)
  }

  /** The number of a date, counted from the calendar's own rules. */
  function DayNumber(d: Date): int { YearDays(d.year) + MonthDays(d.year, d.month) + d.day - 1 - 719528 }

  /** Each year has its days. */
  lemma YearLength(year: int)
    ensures YearDays(year + 1) == YearDays(year) + if Leap(year) then 366 else 365
  {
    hide Leap;
    FourthSteps(year);
    HundredthSteps(year);
    FourHundredthSteps(year);
    LeapCounts(year);
  }

  function One(b: bool): int { if b then 1 else 0 }

  /** Rounding up to a multiple steps exactly at the multiples. */
  lemma FourthSteps(year: int)
    ensures (year + 1 + 3) / 4 == (year + 3) / 4 + One(year % 4 == 0)
  {
  }

  lemma HundredthSteps(year: int)
    ensures (year + 1 + 99) / 100 == (year + 99) / 100 + One(year % 100 == 0)
  {
  }

  lemma FourHundredthSteps(year: int)
    ensures (year + 1 + 399) / 400 == (year + 399) / 400 + One(year % 400 == 0)
  {
  }

  lemma LeapCounts(year: int)
    ensures One(Leap(year)) == One(year % 4 == 0) - One(year % 100 == 0) + One(year % 400 == 0)
  {
    var q := year / 100;
    assert year == 100 * q + year % 100;
    if year % 100 == 0 {
      assert year == 4 * (25 * q);
    }
    if year % 400 == 0 {
      assert year == 100 * (4 * (year / 400));
    }
  }

  lemma MonthsOf(year: int)
    ensures var leap := if Leap(year) then 1 else 0;
      && MonthDays(year, 1) == 0 && MonthDays(year, 2) == 31 && MonthDays(year, 3) == 59 + leap
      && MonthDays(year, 4) == 90 + leap && MonthDays(year, 5) == 120 + leap && MonthDays(year, 6) == 151 + leap
      && MonthDays(year, 7) == 181 + leap && MonthDays(year, 8) == 212 + leap && MonthDays(year, 9) == 243 + leap
      && MonthDays(year, 10) == 273 + leap && MonthDays(year, 11) == 304 + leap && MonthDays(year, 12) == 334 + leap
      && MonthDays(year, 13) == 365 + leap
  {
    hide Leap;
    assert MonthDays(year, 4) == MonthDays(year, 3) + DaysIn(year, 3);
    assert MonthDays(year, 7) == MonthDays(year, 6) + DaysIn(year, 6);
    assert MonthDays(year, 10) == MonthDays(year, 9) + DaysIn(year, 9);
  }

  /** The next date has the next number. */
  lemma NextNumber(d: Date)
    requires Valid(d)
    ensures Valid(Next(d)) && DayNumber(Next(d)) == DayNumber(d) + 1
  {
    hide Leap, YearDays;
    MonthsOf(d.year);
    YearLength(d.year);
  }

  // ----- dates from day numbers

  /** The day of the year that begins on 1 March, as a month from March and a day. */
  function MarchMonth(doy: int): int { Div(5 * doy + 2, 153) }

  function EraOf(z: int): int { Div(if z >= 0 then z else z - 146096, 146097) }

  function YearOfEra(doe: int): int { Div(doe - Div(doe, 1460) + Div(doe, 36524) - Div(doe, 146096), 365) }

  function DayOfYear(doe: int): int
  {
    var yoe := YearOfEra(doe);
    doe - (365 * yoe + Div(yoe, 4) - Div(yoe, 100))
  }

  /** The month, from March, and the day in it. */
  function MarchDate(year: int, doy: int): Date
  {
    var mp := MarchMonth(doy);
    var month := if mp < 10 then mp + 3 else mp - 9;
    Date(year + (if month <= 2 then 1 else 0), month, doy - Div(153 * mp + 2, 5) + 1)
  }

  /** `civil`. */
  function Civil(day: int): Date
  {
    var z := day + 719468;
    var era := EraOf(z);
    var doe := z - era * 146097;
    MarchDate(YearOfEra(doe) + era * 400, DayOfYear(doe))
  }

  /** The era is the day divided by 146097, rounded down. */
  lemma Era(z: int)
    ensures 0 <= z - EraOf(z) * 146097 < 146097
  {
  }

  /** A day of an era as centuries, groups of four years, years and days; the last day of a group
      or of the era is a 366th day. */
  ghost predicate Parts(doe: int, a: int, b: int, c: int, doy: int)
  {
    && 0 <= a < 4 && 0 <= b < 25 && 0 <= c < 4 && 0 <= doy <= 365
    && (doy == 365 ==> c == 3 && (b == 24 ==> a == 3))
    && doe == 36524 * a + 1461 * b + 365 * c + doy
  }

  lemma PartsOf(doe: int) returns (a: int, b: int, c: int, doy: int)
    requires 0 <= doe < 146097
    ensures Parts(doe, a, b, c, doy)
  {
    a := if doe == 146096 then 3 else doe / 36524;
    var r := doe - 36524 * a;
    b := r / 1461;
    var s := r - 1461 * b;
    c := if s == 1460 then 3 else s / 365;
    doy := s - 365 * c;
  }

  lemma YearAndDay(doe: int, a: int, b: int, c: int, doy: int)
    requires Parts(doe, a, b, c, doy)
    ensures YearOfEra(doe) == 100 * a + 4 * b + c && DayOfYear(doe) == doy
  {
    MarchDaysOf(0, a, b, c);
    Centuries(doe, a, b, c, doy);
    Groups(doe, a, b, c, doy);
  }

  lemma Centuries(doe: int, a: int, b: int, c: int, doy: int)
    requires Parts(doe, a, b, c, doy)
    ensures doe / 36524 - doe / 146096 == a
  {
    var r := 1461 * b + 365 * c + doy;
    assert 0 <= r <= 36524;
    if r == 36524 {
      assert doe == 146096;
    } else {
      assert doe == 36524 * a + r;
    }
  }

  lemma Groups(doe: int, a: int, b: int, c: int, doy: int)
    requires Parts(doe, a, b, c, doy)
    ensures (doe - doe / 1460 + a) / 365 == 100 * a + 4 * b + c
  {
    var t := 24 * a + b + 365 * c + doy;
    assert doe == 1460 * (25 * a + b) + t;
    if t < 1460 {
      assert doe / 1460 == 25 * a + b;
      assert doe - doe / 1460 + a == 365 * (100 * a + 4 * b + c) + doy;
    } else {
      assert doe / 1460 == 25 * a + b + 1;
      assert doe - doe / 1460 + a == 365 * (100 * a + 4 * b + c) + (doy - 1);
    }
  }

  /** The days before a year that begins in March, from 1 March of year 0. */
  function MarchDays(year: int): int { 365 * year + year / 4 - year / 100 + year / 400 }

  lemma MarchDaysOf(era: int, a: int, b: int, c: int)
    requires 0 <= a < 4 && 0 <= b < 25 && 0 <= c < 4
    ensures MarchDays(400 * era + (100 * a + 4 * b + c)) == 146097 * era + 36524 * a + 1461 * b + 365 * c
    ensures 365 * (100 * a + 4 * b + c) + Div(100 * a + 4 * b + c, 4) - Div(100 * a + 4 * b + c, 100) == 36524 * a + 1461 * b + 365 * c
  {
    var y := 100 * a + 4 * b + c;
    assert y / 4 == 25 * a + b && (400 * era + y) / 4 == 100 * era + 25 * a + b;
    assert y / 100 == a && (400 * era + y) / 100 == 4 * era + a;
    assert (400 * era + y) / 400 == era;
  }

  /** A year from March and a year from January. */
  lemma MarchAndJanuary(year: int)
    ensures YearDays(year) + 59 + One(Leap(year)) == MarchDays(year) + 60
    ensures YearDays(year + 1) == MarchDays(year) + 366
  {
    hide Leap;
    YearLength(year);
    assert (year + 1 + 3) / 4 == year / 4 + 1;
    assert (year + 1 + 99) / 100 == year / 100 + 1;
    assert (year + 1 + 399) / 400 == year / 400 + 1;
  }

  /** The month and day of a March year. */
  lemma MonthAndDay(doy: int)
    requires 0 <= doy <= 365
    ensures var mp := MarchMonth(doy);
      && 0 <= mp <= 11 && 0 <= doy - Div(153 * mp + 2, 5)
      && (mp < 11 ==> doy < Div(153 * (mp + 1) + 2, 5))
  {
  }

  lemma MarchDateIs(year: int, doy: int)
    requires 0 <= doy <= 365 && (doy == 365 ==> Leap(year + 1))
    ensures Valid(MarchDate(year, doy)) && DayNumber(MarchDate(year, doy)) == MarchDays(year) + doy - 719468
  {
    hide Leap, YearDays, MarchDays;
    MonthAndDay(doy);
    MarchAndJanuary(year);
    var mp := MarchMonth(doy);
    if mp < 10 {
      MonthsOf(year);
      SpringToAutumn(year, mp);
    } else {
      MonthsOf(year + 1);
    }
  }

  lemma SpringToAutumn(year: int, mp: int)
    requires 0 <= mp < 10
    ensures MonthDays(year, mp + 3) == 59 + One(Leap(year)) + Div(153 * mp + 2, 5)
    ensures DaysIn(year, mp + 3) == Div(153 * (mp + 1) + 2, 5) - Div(153 * mp + 2, 5)
  {
    hide Leap, MonthDays;
    MonthsOf(year);
  }

  lemma LastDayIsLeap(era: int, a: int, b: int)
    requires 0 <= a < 4 && 0 <= b < 25 && (b == 24 ==> a == 3)
    ensures Leap(400 * era + (100 * a + 4 * b + 3) + 1)
  {
    RemainderOf4(100 * era + 25 * a + b + 1);
    if b == 24 {
      RemainderOf400(era + 1);
    } else {
      RemainderOf100(4 * era + a, 4 * (b + 1));
    }
  }

  lemma RemainderOf4(k: int)
    ensures 4 * k % 4 == 0
  {
  }

  lemma RemainderOf100(k: int, r: int)
    requires 0 <= r < 100
    ensures (100 * k + r) % 100 == r
  {
  }

  lemma RemainderOf400(k: int)
    ensures 400 * k % 400 == 0
  {
  }

  /** Every day number is the number of the date made of it. */
  lemma CivilIsTheDate(day: int)
    ensures Valid(Civil(day)) && DayNumber(Civil(day)) == day
  {
    hide Valid, DayNumber, MarchMonth, MarchDays;
    hide EraOf, YearOfEra, DayOfYear, MarchDate, Parts, Leap;
    var z := day + 719468;
    var era := EraOf(z);
    Era(z);
    var a, b, c, doy := PartsOf(z - era * 146097);
    YearAndDay(z - era * 146097, a, b, c, doy);
    MarchDaysOf(era, a, b, c);
    EraParts(era, z - era * 146097, a, b, c, doy);
    MarchDateIs(400 * era + (100 * a + 4 * b + c), doy);
  }

  lemma EraParts(era: int, doe: int, a: int, b: int, c: int, doy: int)
    requires Parts(doe, a, b, c, doy)
    ensures 0 <= doy <= 365 && 0 <= a < 4 && 0 <= b < 25 && 0 <= c < 4 && doe == 36524 * a + 1461 * b + 365 * c + doy
    ensures doy == 365 ==> Leap(400 * era + (100 * a + 4 * b + c) + 1)
  {
    hide Leap;
    if doy == 365 {
      LastDayIsLeap(era, a, b);
    }
  }

  lemma {:induction false} YearsGrow(year: int, later: int)
    requires year <= later
    ensures YearDays(year) <= YearDays(later)
    decreases later - year
  {
    hide YearDays;
    if year < later {
      YearLength(later - 1);
      YearsGrow(year, later - 1);
    }
  }

  lemma WithinYear(d: Date)
    requires Valid(d)
    ensures YearDays(d.year) <= DayNumber(d) + 719528 < YearDays(d.year + 1)
  {
    hide Leap, YearDays;
    MonthsOf(d.year);
    YearLength(d.year);
  }

  /** Different dates have different numbers. */
  lemma NumbersDiffer(d: Date, e: Date)
    requires Valid(d) && Valid(e) && DayNumber(d) == DayNumber(e)
    ensures d == e
  {
    hide Leap, YearDays;
    WithinYear(d);
    WithinYear(e);
    if d.year < e.year {
      YearsGrow(d.year + 1, e.year);
    } else if e.year < d.year {
      YearsGrow(e.year + 1, d.year);
    } else {
      MonthsOf(d.year);
    }
  }

  /** Day numbers and dates are a bijection. */
  lemma DateOfNumber(d: Date)
    requires Valid(d)
    ensures Civil(DayNumber(d)) == d
  {
    hide Valid, DayNumber, Civil;
    CivilIsTheDate(DayNumber(d));
    NumbersDiffer(Civil(DayNumber(d)), d);
  }

  /** The next day has the next date, before and after day 0. */
  lemma NextDay(day: int)
    ensures Civil(day + 1) == Next(Civil(day))
  {
    hide Valid, DayNumber, Civil, Next;
    CivilIsTheDate(day);
    NextNumber(Civil(day));
    DateOfNumber(Next(Civil(day)));
  }

  // ----- weeks

  /** The three numbers of the text `YYYY-MM-DD`; the year has four digits. */
  datatype DayKey = DayKey(year: int, month: int, day: int)

  /** `wena_chart_day_key`. */
  function KeyOf(day: int): DayKey
  {
    var d := Civil(day);
    DayKey(Mod(Mod(d.year, 10000) + 10000, 10000), Mod(d.month, 13), Mod(d.day, 32))
  }

  /** The spelled-out ranges change nothing but the year, which loses all but four digits. */
  lemma KeyIsTheDate(day: int)
    ensures var d := Civil(day); KeyOf(day) == DayKey(d.year % 10000, d.month, d.day)
  {
    hide Civil, Leap;
    CivilIsTheDate(day);
    FourDigits(Civil(day).year);
  }

  lemma FourDigits(year: int)
    ensures Mod(Mod(year, 10000) + 10000, 10000) == year % 10000
  {
  }

  /** Monday 0 to Sunday 6; day 0 was a Thursday. */
  function Weekday(day: int): int { (day + 3) % 7 }

  /** `week_of`: the Monday of a day's week. */
  function WeekOf(day: int): (monday: int)
    ensures Weekday(monday) == 0 && monday <= day < monday + 7
  {
    day - Mod(Mod(day, 7) + 7 + 3, 7)
  }

  /** Section 4.1.4 of ISO 8601: a week belongs to the year of its Thursday. */
  function IsoYear(day: int): int { Civil(WeekOf(day) + 3).year }

  /** The week that has 4 January is week 1, and the weeks after it count up. */
  function IsoWeek(day: int): int { (WeekOf(day) - WeekOf(DayNumber(Date(IsoYear(day), 1, 4)))) / 7 + 1 }

  lemma WeekBegins(day: int, other: int)
    requires Weekday(other) == 0 && other <= day < other + 7
    ensures WeekOf(day) == other
  {
    hide WeekOf;
    var monday := WeekOf(day);
    assert (monday + 3) % 7 == 0 && (other + 3) % 7 == 0;
  }

  function NewYear(year: int): int { DayNumber(Date(year, 1, 1)) }

  /** The year of a day, by the days its years begin on. */
  lemma YearOfDay(day: int, year: int)
    ensures Civil(day).year == year <==> NewYear(year) <= day < NewYear(year + 1)
  {
    hide Civil, Leap, YearDays;
    CivilIsTheDate(day);
    WithinYear(Civil(day));
    MonthsOf(year);
    MonthsOf(year + 1);
    if Civil(day).year < year {
      YearsGrow(Civil(day).year + 1, year);
    } else if year < Civil(day).year {
      YearsGrow(year + 1, Civil(day).year);
    }
  }

  lemma YearHasDays(year: int)
    ensures NewYear(year + 1) == NewYear(year) + 365 + One(Leap(year)) && DayNumber(Date(year, 1, 4)) == NewYear(year) + 3
  {
    hide Leap, YearDays;
    YearLength(year);
    MonthsOf(year);
    MonthsOf(year + 1);
  }

  /** The week number as the decoder counts it: whole weeks from 1 January to the Thursday. */
  lemma WeeksFromNewYear(day: int)
    ensures var thursday := WeekOf(day) + 3;
      && NewYear(IsoYear(day)) <= thursday < NewYear(IsoYear(day) + 1)
      && IsoWeek(day) == (thursday - NewYear(IsoYear(day))) / 7 + 1
  {
    hide Civil, DayNumber, WeekOf, Weekday, Leap;
    var thursday, year := WeekOf(day) + 3, IsoYear(day);
    YearOfDay(thursday, year);
    YearHasDays(year);
    MondaysApart(WeekOf(day), WeekOf(NewYear(year) + 3), NewYear(year));
  }

  lemma MondaysApart(monday: int, first: int, start: int)
    requires Weekday(monday) == 0 && Weekday(first) == 0 && first <= start + 3 < first + 7 && start <= monday + 3
    ensures (monday - first) / 7 == (monday + 3 - start) / 7
  {
    var k := (monday - first) / 7;
    assert monday == first + 7 * k;
  }

  /** The weeks of a year are numbered from 1, up to 52 or 53; a week number holds from Monday to
      Sunday; and the week after is the next week or week 1 of the next year. */
  lemma WeeksInTurn(day: int)
    ensures 1 <= IsoWeek(day) <= 53
    ensures forall other :: WeekOf(day) <= other < WeekOf(day) + 7 ==> IsoYear(other) == IsoYear(day) && IsoWeek(other) == IsoWeek(day)
    ensures if IsoYear(day + 7) == IsoYear(day) then IsoWeek(day + 7) == IsoWeek(day) + 1
            else IsoYear(day + 7) == IsoYear(day) + 1 && IsoWeek(day + 7) == 1
  {
    hide Civil, DayNumber, WeekOf, Weekday, Leap, NewYear, IsoWeek, IsoYear;
    WeeksFromNewYear(day);
    WeeksFromNewYear(day + 7);
    YearHasDays(IsoYear(day));
    YearHasDays(IsoYear(day) + 1);
    WeekBegins(day + 7, WeekOf(day) + 7) by { NextMonday(day); }
    IsoYearIs(day);
    IsoYearIs(day + 7);
    YearOfDay(WeekOf(day) + 10, IsoYear(day));
    YearOfDay(WeekOf(day) + 10, IsoYear(day) + 1);
    forall other | WeekOf(day) <= other < WeekOf(day) + 7
      ensures IsoYear(other) == IsoYear(day) && IsoWeek(other) == IsoWeek(day)
    {
      WeekBegins(other, WeekOf(day));
      WeeksFromNewYear(other);
      IsoYearIs(other);
    }
  }

  lemma NextMonday(day: int)
    ensures Weekday(WeekOf(day) + 7) == 0
  {
    hide WeekOf;
  }

  lemma IsoYearIs(day: int)
    ensures IsoYear(day) == Civil(WeekOf(day) + 3).year
  {
    hide Civil, WeekOf;
  }

  /** `wena_view_iso_week`: the year's last four digits and the week. */
  method ViewIsoWeek(day: int) returns (year: int, week: int)
    ensures year == IsoYear(day) % 10000 && week == IsoWeek(day)
  {
    hide Civil, DayNumber, Leap, NewYear, IsoWeek, IsoYear, KeyOf;
    var thursday := day - Mod(Mod(day, 7) + 7 + 3, 7) + 3;
    assert thursday == WeekOf(day) + 3;
    ghost var isoYear := IsoYear(day);
    IsoYearIs(day);
    KeyIsTheDate(thursday);
    year := KeyOf(thursday).year;
    var jan1 := thursday;
    WeeksFromNewYear(day);
    while true
      invariant NewYear(isoYear) <= jan1 <= thursday && year == isoYear % 10000
      decreases jan1 - NewYear(isoYear)
    {
      var k := KeyOf(jan1 - 1);
      KeyIsTheDate(jan1 - 1);
      YearOfDay(jan1 - 1, isoYear);
      YearBefore(isoYear);
      if k.year != year {
        break;
      }
      jan1 := jan1 - 1;
    }
    week := Div(thursday - jan1, 7) + 1;
  }

  /** The day before New Year has another year, and another in its last four digits. */
  lemma YearBefore(year: int)
    ensures Civil(NewYear(year) - 1).year % 10000 != year % 10000
  {
    hide Civil, DayNumber, Leap, NewYear;
    YearHasDays(year - 1);
    YearOfDay(NewYear(year) - 1, year - 1);
  }

  // ----- known dates

  /** The days of the months, and the leap years among some. */
  lemma MonthLengths(year: int, month: int)
    requires 1 <= month <= 12
    ensures DaysIn(year, month) == [31, if Leap(year) then 29 else 28, 31, 30, 31, 30, 31, 31, 30, 31, 30, 31][month - 1]
    ensures Leap(2024) && Leap(2000) && !Leap(1900) && !Leap(2023)
  {
    hide Leap;
    SomeLeapYears();
  }

  lemma SomeLeapYears()
    ensures Leap(2024) && Leap(2000) && !Leap(1900) && !Leap(2023)
  {
  }

  lemma KnownDates()
    ensures Civil(0) == Date(1970, 1, 1)
    ensures Civil(-1) == Date(1969, 12, 31)
    ensures Civil(11016) == Date(2000, 2, 29)
    ensures Civil(11017) == Date(2000, 3, 1)
    ensures Civil(-25509) == Date(1900, 2, 28)
    ensures Civil(-25508) == Date(1900, 3, 1)
  {
    hide Civil, DayNumber, Valid;
    KnownDate(Date(1970, 1, 1), 0, 1, 1);
    KnownDate(Date(1969, 12, 31), -365, 12, 31);
    KnownDate(Date(2000, 2, 29), 10957, 2, 29);
    KnownDate(Date(2000, 3, 1), 10957, 3, 1);
    KnownDate(Date(1900, 2, 28), -25567, 2, 28);
    KnownDate(Date(1900, 3, 1), -25567, 3, 1);
  }

  lemma KnownDate(d: Date, newYear: int, month: int, day: int)
    requires d.month == month && d.day == day && month in {1, 2, 3, 12} && 1 <= day <= 31
    requires month == 2 ==> day <= 28 || (day == 29 && Leap(d.year))
    requires newYear == YearDays(d.year) - 719528
    ensures var before := if month == 1 then 0 else if month == 2 then 31
                          else (if month == 3 then 59 else 334) + if Leap(d.year) then 1 else 0;
      Civil(newYear + before + day - 1) == d
  {
    hide Civil, Leap, YearDays;
    MonthsOf(d.year);
    DateOfNumber(d);
  }

  lemma NewYearIs(year: int)
    ensures NewYear(year) == YearDays(year) - 719528
  {
    hide YearDays;
    MonthsOf(year);
  }

  lemma KnownWeek(day: int, monday: int, year: int)
    requires (monday + 3) % 7 == 0 && monday <= day < monday + 7
    requires YearDays(year) - 719528 <= monday + 3 < YearDays(year + 1) - 719528
    ensures IsoYear(day) == year && IsoWeek(day) == (monday + 3 - (YearDays(year) - 719528)) / 7 + 1
  {
    hide Civil, DayNumber, NewYear, IsoWeek, YearDays, WeekOf;
    WeekBegins(day, monday);
    YearOfDay(monday + 3, year);
    NewYearIs(year);
    NewYearIs(year + 1);
    WeeksFromNewYear(day);
  }

  /** Day 0 was a Thursday, and so in the middle of its week. The weeks about New Year of 1970, 2005,
      2009 and 2010. */
  lemma KnownWeeks()
    ensures Weekday(0) == 3 && WeekOf(0) == -3
    ensures IsoYear(0) == 1970 && IsoWeek(0) == 1
    ensures IsoYear(12785) == 2004 && IsoWeek(12785) == 53
    ensures IsoYear(12786) == 2005 && IsoWeek(12786) == 1
    ensures IsoYear(14242) == 2009 && IsoWeek(14242) == 1
    ensures IsoYear(14612) == 2009 && IsoWeek(14612) == 53
  {
    hide Civil, IsoYear, IsoWeek, YearDays, WeekOf;
    DayZero();
    YearStarts();
    KnownWeek(0, -3, 1970);
    KnownWeek(12785, 12779, 2004);
    KnownWeek(12786, 12786, 2005);
    KnownWeek(14242, 14242, 2009);
    KnownWeek(14612, 14606, 2009);
  }

  lemma DayZero()
    ensures Weekday(0) == 3 && WeekOf(0) == -3
  {
  }

  lemma YearStarts()
    ensures YearDays(1970) == 719528
    ensures YearDays(1971) == 719893
    ensures YearDays(2004) == 731946
    ensures YearDays(2005) == 732312
    ensures YearDays(2006) == 732677
    ensures YearDays(2009) == 733773
    ensures YearDays(2010) == 734138
  {
  }
}
