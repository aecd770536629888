/** Days of the proleptic Gregorian calendar, numbered from the epoch. */
module Calendar {
  import Arithmetic

  datatype Date = Date(year: int, month: int, day: int)

  predicate IsLeapYear(year: int) {
    year % 4 == 0 && (year % 100 != 0 || year % 400 == 0)
  }

  function DaysInYear(year: int): int {
    if IsLeapYear(year) then 366 else 365
  }

  function DaysInMonth(year: int, month: int): int {
    if month == 2 then (if IsLeapYear(year) then 29 else 28)
    else if month == 4 || month == 6 || month == 9 || month == 11 then 30
    else 31
  }

  predicate IsDate(date: Date) {
    1 <= date.month <= 12 && 1 <= date.day <= DaysInMonth(date.year, date.month)
  }

  function Tomorrow(date: Date): Date {
    if date.day < DaysInMonth(date.year, date.month) then date.(day := date.day + 1)
    else if date.month < 12 then Date(date.year, date.month + 1, 1)
    else Date(date.year + 1, 1, 1)
  }

  // ----- Years that start in March, months counted from March

  /** Days of an era of four hundred years before one of its years. */
  function YearStart(yearOfEra: int): int {
    yearOfEra * 365 + yearOfEra / 4 - yearOfEra / 100
  }

  /** Days of a year before one of its months. */
  function MonthStart(month: int): int {
    (153 * month + 2) / 5
  }

  function FromMarch(month: int): int {
    if month > 2 then month - 3 else month + 9
  }

  /** `days_from_civil`. */
  function DaysFromCivil(date: Date): int {
    var y := if date.month <= 2 then date.year - 1 else date.year;
    var era := y / 400;
    var dayOfYear := MonthStart(FromMarch(date.month)) + date.day - 1;
    var dayOfEra := YearStart(y % 400) + dayOfYear;
    era * 146097 + dayOfEra - 719468
  }

  function YearOfEra(dayOfEra: int): int {
    (dayOfEra - dayOfEra / 1460 + dayOfEra / 36524 - dayOfEra / 146096) / 365
  }

  /** `civil_from_days`. */
  function CivilFromDays(days: int): Date {
    var z := days + 719468;
    var era := z / 146097;
    var dayOfEra := z % 146097;
    var yearOfEra := YearOfEra(dayOfEra);
    var dayOfYear := dayOfEra - YearStart(yearOfEra);
    var shifted := (5 * dayOfYear + 2) / 153;
    var day := dayOfYear - MonthStart(shifted) + 1;
    var month := if shifted < 10 then shifted + 3 else shifted - 9;
    Date(yearOfEra + era * 400 + (if month <= 2 then 1 else 0), month, day)
  }

  /** The year that starts in March of a year holds the leap day of the next. */
  function YearLength(yearOfEra: int): int {
    DaysInYear(yearOfEra + 1)
  }

  lemma {:induction false} YearStartSteps(yearOfEra: int)
    requires 0 <= yearOfEra < 400
    ensures YearStart(yearOfEra + 1) ==
      YearStart(yearOfEra) + YearLength(yearOfEra) - (if yearOfEra == 399 then 1 else 0)
  {
  }

  /** A year of an era by its century, its four years and the year of those. */
  lemma {:induction false} YearParts(yearOfEra: int, c: int, q: int, a: int)
    requires 0 <= yearOfEra < 400 && c == yearOfEra / 100 && q == yearOfEra % 100 / 4 && a == yearOfEra % 4
    ensures 0 <= c < 4 && 0 <= q < 25 && 0 <= a < 4 && yearOfEra == 100 * c + 4 * q + a
    ensures YearStart(yearOfEra) == 36524 * c + 1461 * q + 365 * a
    ensures YearLength(yearOfEra) == 366 ==> a == 3 && (q == 24 ==> c == 3)
  {
  }

  lemma {:induction false} YearOfEraIsFound(yearOfEra: int, dayOfYear: int)
    requires 0 <= yearOfEra < 400 && 0 <= dayOfYear < YearLength(yearOfEra)
    ensures YearOfEra(YearStart(yearOfEra) + dayOfYear) == yearOfEra
    ensures 0 <= YearStart(yearOfEra) + dayOfYear < 146097
  {
    var c, q, a := yearOfEra / 100, yearOfEra % 100 / 4, yearOfEra % 4;
    YearParts(yearOfEra, c, q, a);
    hide YearStart, YearLength;
    QuotientsOfDay(c, q, a, dayOfYear);
  }

  lemma {:induction false} QuotientsOfDay(c: int, q: int, a: int, dayOfYear: int)
    requires 0 <= c < 4 && 0 <= q < 25 && 0 <= a < 4
    requires 0 <= dayOfYear < 366 && (dayOfYear == 365 ==> a == 3 && (q == 24 ==> c == 3))
    ensures YearOfEra(36524 * c + 1461 * q + 365 * a + dayOfYear) == 100 * c + 4 * q + a
    ensures 0 <= 36524 * c + 1461 * q + 365 * a + dayOfYear < 146097
  {
    var dayOfEra := 36524 * c + 1461 * q + 365 * a + dayOfYear;
    var over := 24 * c + q + 365 * a + dayOfYear;
    var e := if over >= 1460 then 1 else 0;
    assert dayOfEra / 1460 == 25 * c + q + e;
    assert dayOfEra / 36524 - dayOfEra / 146096 == c;
  }

  lemma {:induction false} MonthIsFound(month: int, dayOfYear: int)
    requires 0 <= month < 12 && MonthStart(month) <= dayOfYear < MonthStart(month + 1)
    ensures (5 * dayOfYear + 2) / 153 == month
  {
  }

  /** The months from March, the last with room for a leap day. */
  lemma {:induction false} MonthLengths(year: int, month: int)
    requires 1 <= month <= 12
    ensures var m := FromMarch(month);
            && 0 <= m < 12
            && (month != 2 ==> MonthStart(m + 1) - MonthStart(m) == DaysInMonth(year, month))
            && (month == 2 ==> m == 11 && MonthStart(11) == 337 && DaysInMonth(year, 2) == DaysInYear(year) - 337)
  {
  }

  function ShiftedYear(date: Date): int {
    if date.month <= 2 then date.year - 1 else date.year
  }

  function ShiftedDay(date: Date): int {
    MonthStart(FromMarch(date.month)) + date.day - 1
  }

  lemma {:induction false} LeapYearsShift(year: int, eras: int)
    ensures IsLeapYear(year + 400 * eras) == IsLeapYear(year)
  {
    Arithmetic.DivMod(year + 400 * eras, year / 4 + 100 * eras, 4, year % 4);
    Arithmetic.DivMod(year + 400 * eras, year / 100 + 4 * eras, 100, year % 100);
    Arithmetic.DivMod(year + 400 * eras, year / 400 + eras, 400, year % 400);
  }

  lemma {:induction false} LeapYearsRepeat(year: int)
    ensures IsLeapYear(year) == IsLeapYear(year % 400)
    ensures IsLeapYear(year + 1) == IsLeapYear(year % 400 + 1)
  {
    hide IsLeapYear;
    LeapYearsShift(year % 400, year / 400);
    LeapYearsShift(year % 400 + 1, year / 400);
  }

  lemma {:induction false} ShiftedDayFits(date: Date)
    requires IsDate(date)
    ensures 0 <= ShiftedDay(date) < YearLength(ShiftedYear(date) % 400)
    ensures MonthStart(FromMarch(date.month)) <= ShiftedDay(date) < MonthStart(FromMarch(date.month) + 1)
  {
    LeapYearsRepeat(ShiftedYear(date));
    MonthLengths(date.year, date.month);
    assert date.month == 1 ==> MonthStart(11) == 337;
  }

  /** The day of a year of an era, with the month it falls in. */
  lemma {:induction false} ReadsDay(era: int, yearOfEra: int, dayOfYear: int, month: int)
    requires 0 <= yearOfEra < 400 && 0 <= dayOfYear < YearLength(yearOfEra)
    requires 0 <= month < 12 && MonthStart(month) <= dayOfYear < MonthStart(month + 1)
    ensures var days := era * 146097 + YearStart(yearOfEra) + dayOfYear - 719468;
            var date := CivilFromDays(days);
            && date.day == dayOfYear - MonthStart(month) + 1
            && date.month == (if month < 10 then month + 3 else month - 9)
            && ShiftedYear(date) == yearOfEra + 400 * era
  {
    hide YearStart, YearLength, YearOfEra, MonthStart;
    var dayOfEra := YearStart(yearOfEra) + dayOfYear;
    YearOfEraIsFound(yearOfEra, dayOfYear);
    MonthIsFound(month, dayOfYear);
    Arithmetic.DivMod(era * 146097 + dayOfEra, era, 146097, dayOfEra);
  }

  /** Every date is read back from its day number. */
  lemma {:induction false} DateIsReadBack(date: Date)
    requires IsDate(date)
    ensures CivilFromDays(DaysFromCivil(date)) == date
  {
    hide YearStart, YearLength, YearOfEra, MonthStart, CivilFromDays;
    var y, dayOfYear := ShiftedYear(date), ShiftedDay(date);
    ShiftedDayFits(date);
    ReadsDay(y / 400, y % 400, dayOfYear, FromMarch(date.month));
  }

  /** The year of an era a day falls in. */
  lemma {:induction false} YearOfDay(dayOfEra: int, bound: int) returns (yearOfEra: int)
    requires 0 <= bound <= 400 && 0 <= dayOfEra < YearStart(bound) + (if bound == 400 then 1 else 0)
    ensures 0 <= yearOfEra < 400 && YearStart(yearOfEra) <= dayOfEra < YearStart(yearOfEra) + YearLength(yearOfEra)
    decreases bound
  {
    YearStartSteps(bound - 1);
    if dayOfEra >= YearStart(bound - 1) {
      yearOfEra := bound - 1;
    } else {
      yearOfEra := YearOfDay(dayOfEra, bound - 1);
    }
  }

  lemma {:induction false} MonthOfDay(dayOfYear: int) returns (month: int)
    requires 0 <= dayOfYear < 366
    ensures 0 <= month < 12 && MonthStart(month) <= dayOfYear < MonthStart(month + 1)
  {
    month := (5 * dayOfYear + 2) / 153;
  }

  /** Every number is the day number of a date, and that date is the one it is read as. */
  lemma {:induction false} NumberIsReadBack(days: int)
    ensures IsDate(CivilFromDays(days)) && DaysFromCivil(CivilFromDays(days)) == days
  {
    hide YearOfEra, CivilFromDays;
    var z := days + 719468;
    var era, dayOfEra := z / 146097, z % 146097;
    var yearOfEra := YearOfDay(dayOfEra, 400);
    var dayOfYear := dayOfEra - YearStart(yearOfEra);
    var month := MonthOfDay(dayOfYear);
    ReadsDay(era, yearOfEra, dayOfYear, month);
    DayIsInMonth(CivilFromDays(days), era, yearOfEra, dayOfYear, month);
  }

  lemma {:induction false} DayIsInMonth(date: Date, era: int, yearOfEra: int, dayOfYear: int, month: int)
    requires 0 <= yearOfEra < 400 && 0 <= dayOfYear < YearLength(yearOfEra)
    requires 0 <= month < 12 && MonthStart(month) <= dayOfYear < MonthStart(month + 1)
    requires date.day == dayOfYear - MonthStart(month) + 1
    requires date.month == (if month < 10 then month + 3 else month - 9)
    requires ShiftedYear(date) == yearOfEra + 400 * era
    ensures IsDate(date)
    ensures DaysFromCivil(date) == era * 146097 + YearStart(yearOfEra) + dayOfYear - 719468
  {
    hide YearStart, MonthStart, IsLeapYear;
    Arithmetic.DivMod(ShiftedYear(date), era, 400, yearOfEra);
    LeapYearsRepeat(ShiftedYear(date));
    assert FromMarch(date.month) == month;
    MonthLengths(date.year, date.month);
  }

  /** Consecutive dates have consecutive numbers, and the epoch is day zero. */
  lemma {:induction false} DaysAreConsecutive(date: Date)
    requires IsDate(date)
    ensures IsDate(Tomorrow(date)) && DaysFromCivil(Tomorrow(date)) == DaysFromCivil(date) + 1
    ensures DaysFromCivil(Date(1970, 1, 1)) == 0
  {
    if date.day == DaysInMonth(date.year, date.month) {
      if date.month == 2 {
        MarchFollowsFebruary(date.year);
      } else {
        NextMonthFollows(date.year, date.month);
      }
    } else {
      hide IsLeapYear, YearStart, MonthStart;
    }
  }

  lemma {:induction false} NextMonthFollows(year: int, month: int)
    requires 1 <= month <= 12 && month != 2
    ensures DaysFromCivil(if month < 12 then Date(year, month + 1, 1) else Date(year + 1, 1, 1)) ==
            DaysFromCivil(Date(year, month, DaysInMonth(year, month))) + 1
  {
    hide YearStart, IsLeapYear;
    MonthLengths(year, month);
  }

  lemma {:induction false} MarchFollowsFebruary(year: int)
    ensures DaysFromCivil(Date(year, 3, 1)) == DaysFromCivil(Date(year, 2, DaysInMonth(year, 2))) + 1
  {
    var y := year - 1;
    LeapYearsRepeat(y);
    YearStartSteps(y % 400);
    if y % 400 == 399 {
      Arithmetic.DivMod(year, y / 400 + 1, 400, 0);
    } else {
      Arithmetic.DivMod(year, y / 400, 400, y % 400 + 1);
    }
  }

  /** The first of January of the next year comes after the days of this one. */
  lemma {:induction false} YearsAreConsecutive(year: int)
    ensures DaysFromCivil(Date(year + 1, 1, 1)) == DaysFromCivil(Date(year, 1, 1)) + DaysInYear(year)
  {
    MarchFollowsFebruary(year);
  }
}
