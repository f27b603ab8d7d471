/**
 Calendar arithmetic: days and proleptic Gregorian dates, ISO 8601 weeks, weeks
 of the year, and steps of whole weekdays.
 */
module TclClock {
  import opened Wrappers

  const JDN_OF_EPOCH: int := 2_440_588
  const GREGORIAN_CHANGE_JDN: int := 2_361_222

  // ----- the operators of the program, which truncate

  function TruncDiv(a: int, b: int): int
    requires b > 0
  {
    if a >= 0 then a / b else -((-a) / b)
  }

  function TruncMod(a: int, b: int): int
    requires b > 0
  {
    a - b * TruncDiv(a, b)
  }

  // ----- dates

  datatype Date = Date(year: int, month: int, day: int)

  predicate IsLeap(year: int) {
    (TruncMod(year, 4) == 0 && TruncMod(year, 100) != 0) || TruncMod(year, 400) == 0
  }

  function MonthLength(year: int, month: int): int {
    if month == 2 then (if IsLeap(year) then 29 else 28)
    else if month == 4 || month == 6 || month == 9 || month == 11 then 30
    else 31
  }

  predicate Valid(d: Date) {
    1 <= d.month <= 12 && 1 <= d.day <= MonthLength(d.year, d.month)
  }

  /** The date after. */
  function Next(d: Date): Date {
    if d.day < MonthLength(d.year, d.month) then Date(d.year, d.month, d.day + 1)
    else if d.month < 12 then Date(d.year, d.month + 1, 1)
    else Date(d.year + 1, 1, 1)
  }

  /** Days since 1970-01-01. */
  function DaysFromCivil(year: int, month: int, day: int): int {
    var y := if month <= 2 then year - 1 else year;
    var era := TruncDiv(if y >= 0 then y else y - 399, 400);
    var yoe := y - era * 400;
    var doy := (153 * (if month > 2 then month - 3 else month + 9) + 2) / 5 + day - 1;
    var doe := yoe * 365 + yoe / 4 - yoe / 100 + doy;
    era * 146097 + doe - 719468
  }

  function Days(d: Date): int {
    DaysFromCivil(d.year, d.month, d.day)
  }

  /** The year of an era, from the day of the era. */
  function YearOfEra(doe: int): int {
    (doe - doe / 1460 + doe / 36524 - doe / 146096) / 365
  }

  function CivilFromDays(days: int): Date {
    var z := days + 719468;
    var era := TruncDiv(if z >= 0 then z else z - 146096, 146097);
    var doe := z - era * 146097;
    var yoe := YearOfEra(doe);
    var y := yoe + era * 400;
    var doy := doe - (365 * yoe + yoe / 4 - yoe / 100);
    var mp := (5 * doy + 2) / 153;
    var d := doy - (153 * mp + 2) / 5 + 1;
    var m := if mp < 10 then mp + 3 else mp - 9;
    Date(if m <= 2 then y + 1 else y, m, d)
  }

  // ----- the calendar, without eras

  /** The program's guard against truncation makes the quotient a floor. */
  lemma YearsFloor(a: int)
    ensures TruncDiv(if a >= 0 then a else a - 399, 400) == a / 400
  {
  }

  lemma DaysFloor(a: int)
    ensures TruncDiv(if a >= 0 then a else a - 146096, 146097) == a / 146097
  {
  }

  lemma TruncModZero(a: int, b: int)
    requires b > 0
    ensures TruncMod(a, b) == 0 <==> a % b == 0
  {
    if a < 0 {
      assert a == -((-a) / b * b) - (-a) % b;
      if (-a) % b == 0 { assert a == (-((-a) / b)) * b; MultipleMod(-((-a) / b), b); }
      if a % b == 0 { assert -a == (-(a / b)) * b; MultipleMod(-(a / b), b); }
    }
  }

  lemma MultipleMod(k: int, b: int)
    requires b > 0
    ensures (k * b) % b == 0 && (k * b) / b == k
  {
    var q, r := (k * b) / b, (k * b) % b;
    assert k * b == q * b + r;
    assert (k - q) * b == r;
    if k - q >= 1 { Grows(k - q, b); }
    if k - q <= -1 { Grows(q - k, b); }
  }

  lemma Grows(k: int, b: int)
    requires k >= 1 && b > 0
    ensures k * b >= b
  {
  }

  lemma LeapYears(year: int)
    ensures IsLeap(year) <==> (year % 4 == 0 && year % 100 != 0) || year % 400 == 0
  {
    TruncModZero(year, 4);
    TruncModZero(year, 100);
    TruncModZero(year, 400);
  }

  /** Days from 0000-03-01 to the first of March of a year. */
  function MarchFirst(y: int): int {
    365 * y + y / 4 - y / 100 + y / 400
  }

  /** Days from the first of March to a date, `mp` months on. */
  function FromMarch(mp: int, day: int): int {
    (153 * mp + 2) / 5 + day - 1
  }

  function MonthsFromMarch(month: int): int {
    if month > 2 then month - 3 else month + 9
  }

  function MarchYear(d: Date): int {
    if d.month <= 2 then d.year - 1 else d.year
  }

  /** The number of a day is the number of the first of March before it, and the days since. */
  lemma DaysAre(d: Date)
    ensures Days(d) == MarchFirst(MarchYear(d)) + FromMarch(MonthsFromMarch(d.month), d.day) - 719468
  {
    var y := MarchYear(d);
    YearsFloor(y);
    var era := y / 400;
    var yoe := y - era * 400;
    assert y / 4 == yoe / 4 + era * 100;
    assert y / 100 == yoe / 100 + era * 4;
  }

  /** A year that is leap has one more day before the next first of March. */
  lemma YearLength(y: int)
    ensures MarchFirst(y + 1) == MarchFirst(y) + if IsLeap(y + 1) then 366 else 365
  {
    LeapYears(y + 1);
    FourStep(y);
    HundredStep(y);
    FourHundredStep(y);
  }

  lemma FourStep(y: int)
    ensures (y + 1) / 4 == y / 4 + if (y + 1) % 4 == 0 then 1 else 0
  {
  }

  lemma HundredStep(y: int)
    ensures (y + 1) / 100 == y / 100 + if (y + 1) % 100 == 0 then 1 else 0
    ensures (y + 1) % 100 == 0 ==> (y + 1) % 4 == 0
  {
    if (y + 1) % 100 == 0 { assert y + 1 == 4 * (25 * ((y + 1) / 100)); }
  }

  lemma FourHundredStep(y: int)
    ensures (y + 1) / 400 == y / 400 + if (y + 1) % 400 == 0 then 1 else 0
    ensures (y + 1) % 400 == 0 ==> (y + 1) % 100 == 0
  {
    if (y + 1) % 400 == 0 { assert y + 1 == 100 * (4 * ((y + 1) / 400)); }
  }

  /** Days follow each other as dates do. */
  lemma DaysOfNext(d: Date)
    requires Valid(d)
    ensures Valid(Next(d)) && Days(Next(d)) == Days(d) + 1
  {
    hide DaysFromCivil, IsLeap, MarchFirst;
    DaysAre(d);
    DaysAre(Next(d));
    if d.month == 2 && d.day == MonthLength(d.year, 2) { YearLength(d.year - 1); }
  }

  /** The epoch. */
  lemma EpochIsZero()
    ensures Days(Date(1970, 1, 1)) == 0
  {
  }

  /**
   Julian days are counted from the twenty-fourth of November of the year 4714
   before Christ, and the changeover is the fourteenth of September 1752.
   */
  lemma JulianDayIsZero()
    ensures Days(Date(-4713, 11, 24)) + JDN_OF_EPOCH == 0
    ensures Days(Date(1752, 9, 14)) + JDN_OF_EPOCH == GREGORIAN_CHANGE_JDN
  {
  }

  // ----- the inverse

  /** A day of the era is in the year that is computed for it. */
  lemma YearOfEraIs(doe: int)
    requires 0 <= doe < 146097
    ensures
      var yoe := YearOfEra(doe);
      var doy := doe - (365 * yoe + yoe / 4 - yoe / 100);
      0 <= yoe < 400 && 0 <= doy <= 365 && (doy == 365 ==> IsLeap(yoe + 1))
  {
    if doe < 146096 {
      var b, rest := doe / 36524, doe % 36524;
      var q, t := rest / 1461, rest % 1461;
      var e := if q + t + 24 * b >= 1460 then 1 else 0;
      InCentury(doe, b, q, t, e);
    } else {
      assert YearOfEra(doe) == 399;
      LeapYears(400);
    }
  }

  /** The day `t` of the four years `q` of the century `b`. */
  lemma InCentury(doe: int, b: int, q: int, t: int, e: int)
    requires doe == 36524 * b + 1461 * q + t && 0 <= b < 4 && 0 <= q <= 24 && 0 <= t < 1461 && 1461 * q + t < 36524
    requires e == if q + t + 24 * b >= 1460 then 1 else 0
    ensures
      var yoe := YearOfEra(doe);
      var doy := doe - (365 * yoe + yoe / 4 - yoe / 100);
      0 <= yoe < 400 && 0 <= doy <= 365 && (doy == 365 ==> IsLeap(yoe + 1))
  {
    var u := (t - e) / 365;
    assert doe / 1460 == 25 * b + q + e;
    assert doe / 36524 == b && doe / 146096 == 0;
    assert 0 <= u <= 3;
    var yoe := 100 * b + 4 * q + u;
    assert YearOfEra(doe) == yoe by {
      assert doe - doe / 1460 + doe / 36524 - doe / 146096 == 365 * (100 * b + 4 * q) + (t - e);
    }
    assert yoe / 4 == 25 * b + q && yoe / 100 == b;
    if t - 365 * u == 365 {
      LeapYears(yoe + 1);
      assert yoe + 1 == 4 * (25 * b + q + 1);
      assert yoe + 1 == 100 * b + 4 * (q + 1) && 0 < 4 * (q + 1) < 100;
    }
  }

  /** Where a month ends, counting months from March. */
  lemma MonthFits(year: int, mp: int, day: int)
    requires 0 <= mp <= 11
    ensures
      var month := if mp < 10 then mp + 3 else mp - 9;
      1 <= month <= 12 && MonthsFromMarch(month) == mp &&
      (mp < 11 ==> FromMarch(mp + 1, 1) == FromMarch(mp, 1) + MonthLength(year, month)) &&
      (mp == 11 ==> FromMarch(mp, 1) == 337)
  {
  }

  /** The month of a day of the year. */
  lemma MonthOf(doy: int)
    requires 0 <= doy <= 365
    ensures
      var mp := (5 * doy + 2) / 153;
      0 <= mp <= 11 && FromMarch(mp, 1) <= doy && (mp < 11 ==> doy < FromMarch(mp + 1, 1))
  {
  }

  lemma EraAndYear(yoe: int, era: int)
    requires 0 <= yoe < 400
    ensures MarchFirst(yoe + era * 400) == era * 146097 + 365 * yoe + yoe / 4 - yoe / 100
  {
    var y := yoe + era * 400;
    assert y / 4 == yoe / 4 + era * 100 && y / 100 == yoe / 100 + era * 4 && y / 400 == era;
  }

  /** The date of every day is valid, and that day is its number. */
  lemma DaysOfCivil(days: int)
    ensures Valid(CivilFromDays(days)) && Days(CivilFromDays(days)) == days
  {
    hide YearOfEra, IsLeap, Days, Valid, FromMarch, MarchFirst;
    var z := days + 719468;
    DaysFloor(z);
    var era := z / 146097;
    var doe := z - era * 146097;
    YearOfEraIs(doe);
    var yoe := YearOfEra(doe);
    var y := yoe + era * 400;
    EraAndYear(yoe, era);
    var doy := doe - (365 * yoe + yoe / 4 - yoe / 100);
    MonthOf(doy);
    SameLeap(yoe, era);
    DaysOfParts(days, y, doy);
  }

  lemma DaysOfParts(days: int, y: int, doy: int)
    requires 0 <= doy <= 365 && (doy == 365 ==> IsLeap(y + 1))
    requires days == MarchFirst(y) + doy - 719468
    requires
      var mp := (5 * doy + 2) / 153;
      var m := if mp < 10 then mp + 3 else mp - 9;
      CivilFromDays(days) == Date(if m <= 2 then y + 1 else y, m, doy - (153 * mp + 2) / 5 + 1)
    ensures Valid(CivilFromDays(days)) && Days(CivilFromDays(days)) == days
  {
    hide CivilFromDays, IsLeap, DaysFromCivil, MarchFirst;
    var mp, d := (5 * doy + 2) / 153, CivilFromDays(days);
    MonthOf(doy);
    MonthFits(d.year, mp, 1);
    DaysAre(d);
  }

  /** Years repeat in eras. */
  lemma SameLeap(yoe: int, era: int)
    ensures IsLeap(yoe + era * 400 + 1) <==> IsLeap(yoe + 1)
  {
    LeapYears(yoe + 1);
    LeapYears(yoe + era * 400 + 1);
    hide IsLeap;
    Repeats(yoe + 1, era);
  }

  lemma Repeats(y: int, era: int)
    ensures (y + 400 * era) % 4 == y % 4 && (y + 400 * era) % 100 == y % 100 && (y + 400 * era) % 400 == y % 400
  {
    FourOn(y, 100 * era);
    HundredOn(y, 4 * era);
    FourHundredOn(y, era);
  }

  lemma FourOn(y: int, k: int)
    ensures (y + 4 * k) % 4 == y % 4
  {
  }

  lemma HundredOn(y: int, k: int)
    ensures (y + 100 * k) % 100 == y % 100
  {
  }

  lemma FourHundredOn(y: int, k: int)
    ensures (y + 400 * k) % 400 == y % 400
  {
  }

  /** A date is less than a year after the first of March before it. */
  lemma WithinYear(d: Date)
    requires Valid(d)
    ensures var y := MarchYear(d);
      0 <= FromMarch(MonthsFromMarch(d.month), d.day) < MarchFirst(y + 1) - MarchFirst(y)
  {
    YearLength(MarchYear(d));
  }

  lemma MarchesAscend(y: int, z: int)
    requires y < z
    ensures MarchFirst(y + 1) <= MarchFirst(z)
  {
    var k := z - (y + 1);
    assert (y + 1) / 100 <= z / 100 <= (y + 1) / 100 + k / 100 + 1;
  }

  /** Different dates are different days. */
  lemma DaysAreDistinct(a: Date, b: Date)
    requires Valid(a) && Valid(b) && Days(a) == Days(b)
    ensures a == b
  {
    hide DaysFromCivil, MarchFirst, IsLeap, MonthLength;
    DaysAre(a);
    DaysAre(b);
    WithinYear(a);
    WithinYear(b);
    var y, z := MarchYear(a), MarchYear(b);
    if y < z { MarchesAscend(y, z); }
    if z < y { MarchesAscend(z, y); }
    assert y == z;
    SameDay(a, b);
  }

  lemma SameDay(a: Date, b: Date)
    requires Valid(a) && Valid(b) && MarchYear(a) == MarchYear(b)
    requires FromMarch(MonthsFromMarch(a.month), a.day) == FromMarch(MonthsFromMarch(b.month), b.day)
    ensures a == b
  {
    if MonthsFromMarch(a.month) < MonthsFromMarch(b.month) { MonthsAscend(a, b); }
    if MonthsFromMarch(b.month) < MonthsFromMarch(a.month) { MonthsAscend(b, a); }
  }

  lemma MonthsAscend(a: Date, b: Date)
    requires Valid(a) && Valid(b) && MonthsFromMarch(a.month) < MonthsFromMarch(b.month)
    ensures FromMarch(MonthsFromMarch(a.month), a.day) < FromMarch(MonthsFromMarch(b.month), b.day)
  {
    var p, q := MonthsFromMarch(a.month), MonthsFromMarch(b.month);
    MonthFits(a.year, p, a.day);
    assert 153 * (p + 1) <= 153 * q;
  }

  /** The date of the number of a date is that date. */
  lemma CivilOfDays(d: Date)
    requires Valid(d)
    ensures CivilFromDays(Days(d)) == d
  {
    DaysOfCivil(Days(d));
    DaysAreDistinct(CivilFromDays(Days(d)), d);
  }

  /** The date of the day after is the date after. */
  lemma NextDay(days: int)
    ensures CivilFromDays(days + 1) == Next(CivilFromDays(days))
  {
    hide CivilFromDays, Days, DaysFromCivil, Valid, Next;
    DaysOfCivil(days);
    DaysOfNext(CivilFromDays(days));
    CivilOfDays(Next(CivilFromDays(days)));
  }

  /** A date is in its year. */
  lemma InYear(d: Date)
    requires Valid(d)
    ensures Days(Date(d.year, 1, 1)) <= Days(d) < Days(Date(d.year + 1, 1, 1)) <= Days(Date(d.year, 1, 1)) + 366
  {
    hide DaysFromCivil, MarchFirst, IsLeap;
    DaysAre(d);
    NewYear(d.year);
    NewYear(d.year + 1);
    YearLength(d.year - 1);
    WithinYear(d);
    if d.month > 2 { BeforeNewYear(d); }
  }

  lemma NewYear(year: int)
    ensures Days(Date(year, 1, 1)) == MarchFirst(year - 1) + 306 - 719468
  {
    hide DaysFromCivil, MarchFirst;
    DaysAre(Date(year, 1, 1));
  }

  lemma BeforeNewYear(d: Date)
    requires Valid(d) && d.month > 2
    ensures FromMarch(MonthsFromMarch(d.month), d.day) < 306
  {
    var mp := MonthsFromMarch(d.month);
    MonthFits(d.year, mp, d.day);
    assert 153 * (mp + 1) <= 1530;
  }

  // ----- weeks

  /** 1 for Monday through 7 for Sunday. */
  function IsoWeekday(day: int): (w: int)
    ensures 1 <= w <= 7
  {
    (day + 3) % 7 + 1
  }

  /** The first of January 1970 was a Thursday, and the days of the week follow each other. */
  lemma WeekdaysFollow(day: int)
    ensures IsoWeekday(Days(Date(1970, 1, 1))) == 4
    ensures IsoWeekday(day + 1) == if IsoWeekday(day) == 7 then 1 else IsoWeekday(day) + 1
  {
    EpochIsZero();
    hide DaysFromCivil;
  }

  function DayOfYear(day: int): int {
    day - DaysFromCivil(CivilFromDays(day).year, 1, 1) + 1
  }

  /** The ISO 8601 year and week: week 1 is the one that holds the year's first Thursday. */
  function IsoWeek(day: int): (int, int) {
    var thursday := day + 4 - IsoWeekday(day);
    var year := CivilFromDays(thursday).year;
    (year, TruncDiv(thursday - DaysFromCivil(year, 1, 1), 7) + 1)
  }

  /** The Julian day of an ISO year, week and weekday. */
  function FromIsoWeek(year: int, week: int, weekday: int): int {
    var fourth := DaysFromCivil(year, 1, 4) + JDN_OF_EPOCH;
    var firstMonday := fourth - TruncMod(fourth, 7);
    firstMonday + 7 * (week - 1) + weekday - 1
  }

  lemma FourthOfJanuary(year: int)
    ensures DaysFromCivil(year, 1, 4) == DaysFromCivil(year, 1, 1) + 3
  {
  }

  /** The ISO week gives its day back exactly when the truncated remainder of the fourth of January of its year is not negative. */
  lemma IsoWeekRebuilds(day: int)
    ensures
      var (year, week) := IsoWeek(day);
      var fourth := DaysFromCivil(year, 1, 4) + JDN_OF_EPOCH;
      && 1 <= week <= 53
      && (FromIsoWeek(year, week, IsoWeekday(day)) == day + JDN_OF_EPOCH <==> fourth >= 0 || fourth % 7 == 0)
  {
    hide CivilFromDays, IsLeap, MarchFirst, DaysFromCivil;
    var thursday := day + 4 - IsoWeekday(day);
    var year := CivilFromDays(thursday).year;
    DaysOfCivil(thursday);
    InYear(CivilFromDays(thursday));
    var first := DaysFromCivil(year, 1, 1);
    FourthOfJanuary(year);
    WeekFits(day, first);
    TruncIsFloor(first + 3 + JDN_OF_EPOCH);
  }

  /** A day from one New Year's Day to before the next is in that year. */
  lemma YearIs(day: int, year: int)
    requires Days(Date(year, 1, 1)) <= day < Days(Date(year + 1, 1, 1))
    ensures CivilFromDays(day).year == year
  {
    hide DaysFromCivil, MarchFirst, IsLeap, CivilFromDays, MonthLength;
    DaysOfCivil(day);
    var y := CivilFromDays(day).year;
    InYear(CivilFromDays(day));
    NewYear(year);
    NewYear(year + 1);
    NewYear(y);
    NewYear(y + 1);
    if y < year { MarchesAscend(y - 1, year - 1); }
    if year < y { MarchesAscend(year - 1, y - 1); }
  }

  /** The fourth of January of any year is in its first week. */
  lemma FourthIsInFirstWeek(year: int)
    ensures IsoWeek(DaysFromCivil(year, 1, 4)) == (year, 1)
  {
    hide CivilFromDays, IsLeap, MarchFirst, DaysFromCivil;
    var first, day := DaysFromCivil(year, 1, 1), DaysFromCivil(year, 1, 4);
    FourthOfJanuary(year);
    InYear(Date(year, 1, 1));
    YearHasDays(year);
    var thursday := day + 4 - IsoWeekday(day);
    YearIs(thursday, year);
    assert 0 <= thursday - first < 7;
  }

  lemma YearHasDays(year: int)
    ensures Days(Date(year, 1, 1)) + 365 <= Days(Date(year + 1, 1, 1)) <= Days(Date(year, 1, 1)) + 366
  {
    hide DaysFromCivil, MarchFirst, IsLeap;
    NewYear(year);
    NewYear(year + 1);
    YearLength(year - 1);
  }

  /** Year and week are the same from a Monday to its Sunday. */
  lemma WeekIsWhole(monday: int, k: int)
    requires IsoWeekday(monday) == 1 && 0 <= k < 7
    ensures IsoWeekday(monday + k) == k + 1 && IsoWeek(monday + k) == IsoWeek(monday)
  {
    hide CivilFromDays, DaysFromCivil;
    assert (monday + 3) % 7 == 0;
    assert (monday + k + 3) % 7 == k;
  }

  /**
   The next Monday begins the first week of the next year if the fourth of January
   comes within a week of it, and the next week of the same year if not.
   */
  lemma WeeksFollow(monday: int)
    requires IsoWeekday(monday) == 1
    ensures
      var (year, week) := IsoWeek(monday);
      var next, fourth := monday + 7, DaysFromCivil(year + 1, 1, 4);
      IsoWeekday(next) == 1 && IsoWeek(next) == if next <= fourth < next + 7 then (year + 1, 1) else (year, week + 1)
  {
    hide CivilFromDays, IsLeap, MarchFirst, DaysFromCivil;
    var thursday, next := monday + 3, monday + 10;
    assert (monday + 7 + 3) % 7 == 0;
    var year := CivilFromDays(thursday).year;
    DaysOfCivil(thursday);
    InYear(CivilFromDays(thursday));
    YearHasDays(year);
    YearHasDays(year + 1);
    FourthOfJanuary(year + 1);
    var first, second := DaysFromCivil(year, 1, 1), DaysFromCivil(year + 1, 1, 1);
    if next < second {
      YearIs(next, year);
      assert (next - first) / 7 == (thursday - first) / 7 + 1;
    } else {
      YearIs(next, year + 1);
      assert 0 <= next - second < 7;
    }
  }

  /** The truncated remainder is the floored one but below zero. */
  lemma TruncIsFloor(a: int)
    ensures TruncMod(a, 7) == a % 7 <==> a >= 0 || a % 7 == 0
  {
    if a < 0 { assert a == -7 * ((-a) / 7) - (-a) % 7; }
  }

  lemma WeekFits(day: int, first: int)
    requires 0 <= day + 4 - IsoWeekday(day) - first < 366
    ensures
      var q := (day + 4 - IsoWeekday(day) - first) / 7;
      var fourth := first + 3 + JDN_OF_EPOCH;
      0 <= q <= 52 && fourth - fourth % 7 + 7 * q + IsoWeekday(day) - 1 == day + JDN_OF_EPOCH
  {
    var monday := day + 1 - IsoWeekday(day) + JDN_OF_EPOCH;
    assert monday % 7 == 0;
    var fourth := first + 3 + JDN_OF_EPOCH;
    var q, r := (monday + 6 - fourth) / 7, (monday + 6 - fourth) % 7;
    assert day + 4 - IsoWeekday(day) - first == monday + 6 - fourth;
    assert fourth == 7 * (monday / 7 - q) + (6 - r);
    assert fourth % 7 == 6 - r;
  }

  /** The days since the last weekday `start`, 0 being Sunday. */
  function Shifted(day: int, start: int): (s: int)
    ensures 0 <= s < 7
  {
    (IsoWeekday(day) % 7 + 7 - start) % 7
  }

  lemma ShiftedBefore(day: int, start: int)
    requires 0 <= start < 7
    ensures Shifted(day, start) == 0 <==> IsoWeekday(day) % 7 == start
    ensures Shifted(day - 1, start) == if Shifted(day, start) == 0 then 6 else Shifted(day, start) - 1
  {
    var w, v := IsoWeekday(day), IsoWeekday(day - 1);
    assert v == if w == 1 then 7 else w - 1;
    hide IsoWeekday;
    ShiftedOf(w, start);
    ShiftedOf(v, start);
  }

  /** The remainder of a weekday, without division. */
  lemma ShiftedOf(w: int, start: int)
    requires 1 <= w <= 7 && 0 <= start < 7
    ensures
      var x := if w == 7 then 0 else w;
      w % 7 == x && (w % 7 + 7 - start) % 7 == if x >= start then x - start else x + 7 - start
  {
  }

  /** The week of a year counted from its first Sunday (0) or Monday (1). */
  function WeekOfYear(day: int, start: int): int
    requires 0 <= start <= 1
  {
    TruncDiv(DayOfYear(day) + 6 - Shifted(day, start), 7)
  }

  /** How many days from `first` to `last` are on a weekday, 0 being Sunday. */
  function CountWeekdays(first: int, last: int, weekday: int): nat
    decreases last - first + 1
  {
    if last < first then 0
    else CountWeekdays(first, last - 1, weekday) + if IsoWeekday(last) % 7 == weekday then 1 else 0
  }

  lemma {:induction false} CountIs(first: int, last: int, weekday: int)
    requires first <= last + 1 && 0 <= weekday < 7
    ensures
      CountWeekdays(first, last, weekday) == (last - first + 1 + 6 - Shifted(last, weekday)) / 7
    decreases last - first + 1
  {
    if first <= last {
      CountIs(first, last - 1, weekday);
      ShiftedBefore(last, weekday);
    }
  }

  /** The week of the year is the number of Sundays, or Mondays, so far in it. */
  lemma WeekOfYearCounts(day: int, start: int)
    requires 0 <= start <= 1
    ensures WeekOfYear(day, start) == CountWeekdays(DaysFromCivil(CivilFromDays(day).year, 1, 1), day, start)
  {
    DaysOfCivil(day);
    InYear(CivilFromDays(day));
    CountIs(DaysFromCivil(CivilFromDays(day).year, 1, 1), day, start);
  }

  // ----- the day a scan names

  /** The month is reduced modulo 12 into the year and the day is added as it stands. */
  function JulianDayOf(year: int, month: int, day: int): int {
    DaysFromCivil(year + (month - 1) / 12, (month - 1) % 12 + 1, 1) + day - 1 + JDN_OF_EPOCH
  }

  /** On a date it is its Julian day, months carry into years, and days are added. */
  lemma JulianDays(d: Date, months: int, days: int)
    requires Valid(d)
    ensures JulianDayOf(d.year, d.month, d.day) == Days(d) + JDN_OF_EPOCH
    ensures JulianDayOf(d.year - months, d.month + 12 * months, d.day + days) == JulianDayOf(d.year, d.month, d.day) + days
  {
    hide DaysFromCivil, MarchFirst, IsLeap, MonthLength;
    DaysAre(d);
    DaysAre(Date(d.year, d.month, 1));
    assert (d.month + 12 * months - 1) / 12 == (d.month - 1) / 12 + months && (d.month + 12 * months - 1) % 12 == (d.month - 1) % 12;
  }

  /** The fields a scan has settled. */
  class Scanned {
    const hasIsoWeek: bool
    const hasDayOfYear: bool
    const hasMonthAndDay: bool
    const bce: bool
    const isoYear: int
    const isoWeek: int
    const weekday: int
    const year: int
    const month: int
    const day: int
    const dayOfYear: int
    var julianDay: int

    constructor (hasIsoWeek: bool, hasDayOfYear: bool, hasMonthAndDay: bool, bce: bool,
                 isoYear: int, isoWeek: int, weekday: int, year: int, month: int, day: int, dayOfYear: int)
    {
      this.hasIsoWeek, this.hasDayOfYear, this.hasMonthAndDay, this.bce := hasIsoWeek, hasDayOfYear, hasMonthAndDay, bce;
      this.isoYear, this.isoWeek, this.weekday, this.year, this.month, this.day := isoYear, isoWeek, weekday, year, month, day;
      this.dayOfYear, julianDay := dayOfYear, 0;
    }

    function Astronomical(y: int): int {
      if bce then 1 - y else y
    }

    /** The fields the day is taken from are those of the day `n`. */
    predicate Describes(n: int) {
      if hasIsoWeek then IsoWeek(n) == (Astronomical(isoYear), isoWeek) && IsoWeekday(n) == weekday
      else if !hasDayOfYear || hasMonthAndDay then CivilFromDays(n) == Date(Astronomical(year), month, day)
      else CivilFromDays(n).year == Astronomical(year) && DayOfYear(n) == dayOfYear
    }

    /**
     The day from the ISO week, the month and day, or the day of the year: every
     day from the changeover on is assembled from each of the descriptions that
     the calendar gives of it, and no earlier one is.
     */
    method AssembleJulianDay() returns (ok: bool)
      modifies this
      ensures ok <==> julianDay >= GREGORIAN_CHANGE_JDN
      ensures forall n: int :: Describes(n) && n + JDN_OF_EPOCH >= GREGORIAN_CHANGE_JDN ==> ok && julianDay == n + JDN_OF_EPOCH
    {
      hide IsoWeek, CivilFromDays, DaysFromCivil;
      if hasIsoWeek {
        var fourth := DaysFromCivil(Astronomical(isoYear), 1, 4) + JDN_OF_EPOCH;
        var firstMonday := fourth - TruncMod(fourth, 7);
        julianDay := firstMonday + 7 * (isoWeek - 1) + weekday - 1;
        forall n: int | n + JDN_OF_EPOCH >= GREGORIAN_CHANGE_JDN && Describes(n)
          ensures julianDay == n + JDN_OF_EPOCH
        {
          IsoWeekRebuilds(n);
          IsoYearIsNear(n);
        }
      } else if !hasDayOfYear || hasMonthAndDay {
        julianDay := JulianDayOf(Astronomical(year), month, day);
        forall n: int | Describes(n) ensures julianDay == n + JDN_OF_EPOCH {
          DaysOfCivil(n);
          JulianDays(CivilFromDays(n), 0, 0);
        }
      } else {
        julianDay := DaysFromCivil(Astronomical(year), 1, 1) + dayOfYear - 1 + JDN_OF_EPOCH;
      }
      ok := julianDay >= GREGORIAN_CHANGE_JDN;
    }
  }

  /** The fourth of January of a day's ISO year is less than two years away. */
  lemma IsoYearIsNear(day: int)
    ensures DaysFromCivil(IsoWeek(day).0, 1, 4) >= day - 400
  {
    var thursday := day + 4 - IsoWeekday(day);
    DaysOfCivil(thursday);
    InYear(CivilFromDays(thursday));
    DaysAre(Date(CivilFromDays(thursday).year, 1, 1));
    DaysAre(Date(CivilFromDays(thursday).year, 1, 4));
  }

  // ----- weekdays

  /** The number of weekdays, Monday to Friday, up to a day, counted from a Monday long ago. */
  function Rank(day: int): int {
    var monday := (day + 3) / 7;
    5 * monday + if IsoWeekday(day) <= 5 then IsoWeekday(day) else 5
  }

  predicate IsWeekday(day: int) {
    IsoWeekday(day) <= 5
  }

  /** It counts: each weekday is one more than the day before, and each day of a weekend none. */
  lemma RankCounts(day: int)
    ensures Rank(day + 1) == Rank(day) + if IsWeekday(day + 1) then 1 else 0
  {
  }

  /** There is one weekday of each number. */
  lemma RankIsUnique(a: int, b: int)
    requires IsWeekday(a) && IsWeekday(b) && Rank(a) == Rank(b)
    ensures a == b
  {
  }

  /**
   The days to move to land `offs` weekdays from a day: exactly that many
   weekdays on, or back, a weekend counting from its Friday.
   */
  method WeekdaysOffset(dayOfWeek: int, count: int) returns (offs: int)
    requires 1 <= dayOfWeek <= 7
    ensures forall day: int :: IsoWeekday(day) == dayOfWeek ==> IsWeekday(day + offs) && Rank(day + offs) == Rank(day) + count
  {
    var weeks := TruncDiv(count, 5);
    offs := TruncMod(count, 5);
    if offs < 0 {
      offs := offs + 5;
      weeks := weeks - 1;
    }
    ghost var rest := offs;
    assert count == 5 * weeks + rest && 0 <= rest < 5;
    offs := offs + 7 * weeks;
    var day := TruncMod(offs, 7);
    WeeksDrop(weeks, rest);
    var resulting := dayOfWeek + if day < 0 then day + 7 else day;
    assert resulting == dayOfWeek + rest;
    // Starting from a weekend counts from the Friday before it.
    if dayOfWeek > 5 {
      var adjust := 5 - dayOfWeek;
      offs := offs + adjust;
      resulting := resulting + adjust;
    }
    // Ending on a weekend carries over it.
    if resulting > 5 { offs := offs + 2; }
    forall d: int | IsoWeekday(d) == dayOfWeek ensures IsWeekday(d + offs) && Rank(d + offs) == Rank(d) + count {
      Lands(d, weeks, rest, offs);
    }
  }

  lemma WeeksDrop(weeks: int, rest: int)
    requires 0 <= rest < 5
    ensures var r := TruncMod(7 * weeks + rest, 7); (if r < 0 then r + 7 else r) == rest
  {
  }

  lemma Lands(day: int, weeks: int, rest: int, offs: int)
    requires 0 <= rest < 5
    requires
      var w := if IsoWeekday(day) > 5 then 5 else IsoWeekday(day);
      offs == 7 * weeks + rest + (w - IsoWeekday(day)) + if w + rest > 5 then 2 else 0
    ensures IsWeekday(day + offs) && Rank(day + offs) == Rank(day) + 5 * weeks + rest
  {
    var monday, k := (day + 3) / 7, (day + 3) % 7;
    var w := if k >= 5 then 5 else k + 1;
    var carry := if w + rest > 5 then 1 else 0;
    assert day + offs + 3 == 7 * (monday + weeks + carry) + (w - 1 + rest - 5 * carry);
    assert 0 <= w - 1 + rest - 5 * carry < 5;
  }

  /** Steps of weekdays add up. */
  lemma StepsAdd(day: int, a: int, b: int, x: int, y: int, z: int)
    requires IsWeekday(day + x) && Rank(day + x) == Rank(day) + a
    requires IsWeekday(day + x + y) && Rank(day + x + y) == Rank(day + x) + b
    requires IsWeekday(day + z) && Rank(day + z) == Rank(day) + a + b
    ensures z == x + y
  {
    RankIsUnique(day + x + y, day + z);
  }

  // ----- the weekday on or before a day

  function WeekdayOnOrBefore(weekday: int, julianDay: int): int {
    julianDay - TruncMod(julianDay - (weekday + 6) % 7, 7)
  }

  /**
   It always is that weekday and less than a week away, and is on or before the
   day unless the day is negative and the remainder with it.
   */
  lemma WeekdayIsOnOrBefore(weekday: int, julianDay: int)
    requires 1 <= weekday <= 7
    ensures
      var found := WeekdayOnOrBefore(weekday, julianDay);
      && IsoWeekday(found - JDN_OF_EPOCH) == weekday
      && -7 < julianDay - found < 7
      && (found <= julianDay <==> julianDay >= weekday - 1 || (julianDay - (weekday - 1)) % 7 == 0)
  {
    var k := weekday - 1;
    assert (weekday + 6) % 7 == k;
    var a := julianDay - k;
    if a < 0 { assert a == -7 * ((-a) / 7) - (-a) % 7; }
  }

  /** Of Tuesdays on or before day 0 it gives day 1. */
  lemma WeekdayCanBeAfter()
    ensures WeekdayOnOrBefore(2, 0) == 1
  {
  }
}
