/** Dates and times as they are written in arguments: calendar, week and ordinal dates, and the time of day. */
module WrittenDates {
  import opened Wrappers
  import opened Calendar
  import Arithmetic
  import Decimals

  const MS_PER_DAY := 86_400_000
  const MAX_TIME := 8_640_000_000_000_000

  datatype Written =
    | CalendarDate(date: Date)
    | WeekDate(year: int, week: int, weekday: Option<int>)
    | OrdinalDate(year: int, ordinal: int)
    | Today

  function NewYear(year: int): int {
    DaysFromCivil(Date(year, 1, 1))
  }

  function WeekdayOfJanuary4(year: int): int {
    (DaysFromCivil(Date(year, 1, 4)) + 3) % 7 + 1
  }

  function FirstWeekOffset(year: int): int {
    3 - WeekdayOfJanuary4(year)
  }

  function WeeksInWeekYear(year: int): int {
    (DaysInYear(year) - FirstWeekOffset(year) + FirstWeekOffset(year + 1)) / 7
  }

  /** Luxon reads week zero of year zero as no date, unless it names a weekday. */
  predicate IsNoWeek(written: Written) {
    written.WeekDate? && written.year == 0 && written.week == 0 &&
      (written.weekday == None || written.weekday == Some(0))
  }

  /** `day`. */
  function Day(written: Written, today: int): Option<int> {
    match written
    case CalendarDate(date) => if IsDate(date) then Some(DaysFromCivil(date)) else None
    case WeekDate(year, week, maybe) =>
      if IsNoWeek(written) then Some(today)
      else
        var weekday := if maybe.Some? then maybe.value else 1;
        var ordinal := week * 7 + weekday - WeekdayOfJanuary4(year) - 3;
        if 1 <= week <= WeeksInWeekYear(year) && 1 <= weekday <= 7 then Some(NewYear(year) + ordinal - 1) else None
    case OrdinalDate(year, ordinal) =>
      if 1 <= ordinal <= DaysInYear(year) then Some(NewYear(year) + ordinal - 1) else None
    case Today => Some(today)
  }

  // ----- What ISO 8601 says a day is called

  /** From 1 for Monday: the epoch was a Thursday. */
  function Weekday(day: int): int {
    (day + 3) % 7 + 1
  }

  function Thursday(day: int): int {
    day - Weekday(day) + 4
  }

  /** The week belongs to the year its Thursday is in, and counts that year's Thursdays. */
  function WeekYear(day: int): int {
    CivilFromDays(Thursday(day)).year
  }

  function WeekNumber(day: int): int {
    (Thursday(day) - NewYear(WeekYear(day))) / 7 + 1
  }

  function OrdinalDay(day: int): int {
    day - NewYear(CivilFromDays(day).year) + 1
  }

  /** Whether the day is called this. A week without a weekday stands for its Monday. */
  predicate Names(written: Written, day: int) {
    match written
    case CalendarDate(date) => CivilFromDays(day) == date
    case WeekDate(year, week, weekday) =>
      year == WeekYear(day) && week == WeekNumber(day) && Weekday(day) == (if weekday.Some? then weekday.value else 1)
    case OrdinalDate(year, ordinal) => year == CivilFromDays(day).year && ordinal == OrdinalDay(day)
    case Today => false
  }

  // ----- Years

  lemma {:induction false} YearsInOrder(year: int, later: int)
    requires year <= later
    ensures NewYear(year) <= NewYear(later)
    decreases later - year
  {
    hide DaysFromCivil;
    if year < later {
      YearsInOrder(year, later - 1);
      YearsAreConsecutive(later - 1);
    }
  }

  lemma {:induction false} DateIsInYear(date: Date)
    requires IsDate(date)
    ensures NewYear(date.year) <= DaysFromCivil(date) < NewYear(date.year + 1)
  {
    YearsAreConsecutive(date.year);
    if date.month == 2 || date.month == 1 {
      MonthLengths(date.year, date.month);
    } else {
      MarchFollowsFebruary(date.year);
      MonthLengths(date.year, date.month);
    }
  }

  lemma {:induction false} YearOf(day: int, year: int)
    ensures CivilFromDays(day).year == year <==> NewYear(year) <= day < NewYear(year + 1)
  {
    hide DaysFromCivil, CivilFromDays, NewYear, IsDate;
    NumberIsReadBack(day);
    var date := CivilFromDays(day);
    DateIsInYear(date);
    if date.year < year {
      YearsInOrder(date.year + 1, year);
    } else if date.year > year {
      YearsInOrder(year + 1, date.year);
    }
  }

  // ----- Weeks

  function FirstMonday(year: int): int {
    NewYear(year) + 4 - WeekdayOfJanuary4(year)
  }

  lemma {:induction false} JanuaryDays(year: int, day: int)
    requires 1 <= day <= 31
    ensures DaysFromCivil(Date(year, 1, day)) == NewYear(year) + day - 1
  {
  }

  lemma {:induction false} FirstMondayIsMonday(year: int)
    ensures Weekday(FirstMonday(year)) == 1
    ensures NewYear(year) - 3 <= FirstMonday(year) <= NewYear(year) + 3
  {
    hide DaysFromCivil;
    JanuaryDays(year, 4);
  }

  lemma {:induction false} MondaysApart(monday: int, later: int)
    requires Weekday(monday) == 1 && Weekday(later) == 1
    ensures (later - monday) % 7 == 0
  {
    var weeks := (later + 3) / 7 - (monday + 3) / 7;
    assert later - monday == 7 * weeks;
  }

  lemma {:induction false} MondayOf(day: int)
    ensures Weekday(Thursday(day) - 3) == 1 && 1 <= Weekday(day) <= 7
  {
    Arithmetic.DivMod(Thursday(day), (day + 3) / 7, 7, 0);
  }

  /** The weeks of a year fill the time from its first Monday to the next year's, and they are 52 or 53. */
  lemma {:induction false} WeeksFillTheYear(year: int)
    ensures FirstMonday(year + 1) == FirstMonday(year) + 7 * WeeksInWeekYear(year)
    ensures 52 <= WeeksInWeekYear(year) <= 53
    ensures (DaysInYear(year) - FirstWeekOffset(year) + FirstWeekOffset(year + 1)) % 7 == 0
  {
    hide DaysFromCivil, NewYear, WeekdayOfJanuary4, IsLeapYear, Weekday;
    YearsAreConsecutive(year);
    FirstMondayIsMonday(year);
    FirstMondayIsMonday(year + 1);
    NewYears(year);
    NewYears(year + 1);
    MondaysApart(FirstMonday(year), FirstMonday(year + 1));
    var span := FirstMonday(year + 1) - FirstMonday(year);
    assert span == DaysInYear(year) - FirstWeekOffset(year) + FirstWeekOffset(year + 1);
  }

  lemma {:induction false} NewYears(year: int)
    ensures NewYear(year) == DaysFromCivil(Date(year, 1, 1))
  {
  }

  /** The days of a week, as ISO 8601 calls them. */
  lemma {:induction false} WeekNames(year: int, week: int, weekday: int)
    requires 1 <= week <= WeeksInWeekYear(year) && 1 <= weekday <= 7
    ensures var day := FirstMonday(year) + 7 * (week - 1) + weekday - 1;
            WeekYear(day) == year && WeekNumber(day) == week && Weekday(day) == weekday
  {
    hide NewYear, CivilFromDays, WeeksInWeekYear, FirstMonday;
    WeeksFillTheYear(year);
    FirstMondayIsMonday(year);
    FirstMondayIsMonday(year + 1);
    var day := FirstMonday(year) + 7 * (week - 1) + weekday - 1;
    assert Thursday(day) == FirstMonday(year) + 7 * (week - 1) + 3;
    YearOf(Thursday(day), year);
    Arithmetic.DivMod(Thursday(day) - NewYear(year), week - 1, 7, FirstMonday(year) + 3 - NewYear(year));
  }

  /** Every day is in a week of its week year. */
  lemma {:induction false} WeekOfDay(day: int)
    ensures 1 <= WeekNumber(day) <= WeeksInWeekYear(WeekYear(day)) && 1 <= Weekday(day) <= 7
    ensures day == FirstMonday(WeekYear(day)) + 7 * (WeekNumber(day) - 1) + Weekday(day) - 1
  {
    hide NewYear, CivilFromDays, WeeksInWeekYear, FirstMonday, Weekday;
    var year, thursday := WeekYear(day), Thursday(day);
    YearOf(thursday, year);
    WeeksFillTheYear(year);
    FirstMondayIsMonday(year);
    FirstMondayIsMonday(year + 1);
    MondayOf(day);
    MondaysApart(FirstMonday(year), thursday - 3);
    var weeks := (thursday - 3 - FirstMonday(year)) / 7;
    Arithmetic.DivMod(thursday - NewYear(year), weeks, 7, FirstMonday(year) + 3 - NewYear(year));
  }

  /**
    * A date stands for the day that bears it as a name. Only week zero of year
    * zero stands for today, which it does not name.
    */
  lemma {:induction false} StandsForTheDayItNames(written: Written, today: int, day: int)
    ensures Day(written, today) == Some(day) <==>
            (if written.Today? || IsNoWeek(written) then day == today else Names(written, day))
    ensures IsNoWeek(written) ==> !Names(written, day)
  {
    hide NewYear, DaysFromCivil, CivilFromDays, WeeksInWeekYear, WeekYear, WeekNumber, Weekday, WeekdayOfJanuary4;
    match written {
      case CalendarDate(date) =>
        NumberIsReadBack(day);
        if IsDate(date) {
          DateIsReadBack(date);
        }
      case Today =>
      case WeekDate(year, week, maybe) =>
        var weekday := if maybe.Some? then maybe.value else 1;
        WeekOfDay(day);
        if 1 <= week <= WeeksInWeekYear(year) && 1 <= weekday <= 7 {
          WeekNames(year, week, weekday);
        }
      case OrdinalDate(year, ordinal) =>
        YearsAreConsecutive(year);
        NewYears(year);
        NewYears(year + 1);
        YearOf(day, year);
    }
  }

  /** A date is refused when it names no day, and only then. */
  lemma {:induction false} RefusedWhenNoDayIsNamed(written: Written, today: int)
    ensures Day(written, today) == None <==> !written.Today? && !IsNoWeek(written) && forall day :: !Names(written, day)
  {
    hide Names, Day, IsNoWeek;
    if Day(written, today).Some? {
      StandsForTheDayItNames(written, today, Day(written, today).value);
    } else {
      StandsForTheDayItNames(written, today, today);
      forall day ensures !Names(written, day) {
        StandsForTheDayItNames(written, today, day);
      }
    }
  }

  // ----- With the time of day

  datatype Time = Time(hour: int, minute: int, second: int, millisecond: int)

  datatype Zone = Unspecified | Fixed(minutes: int) | Named

  datatype Reading = Reading(local: int, offset: int)

  predicate IsTime(time: Time) {
    && (0 <= time.hour <= 23 || time == Time(24, 0, 0, 0))
    && 0 <= time.minute <= 59 && 0 <= time.second <= 59 && 0 <= time.millisecond <= 999
  }

  predicate InRange(time: int) {
    -MAX_TIME <= time <= MAX_TIME
  }

  function OffsetOf(zone: Zone): int {
    if zone.Fixed? then zone.minutes else 0
  }

  function TimeOfDay(time: Time): int {
    time.hour * 3_600_000 + time.minute * 60_000 + time.second * 1000 + time.millisecond
  }

  /** `read`, from the parts of the text on. */
  function Read(written: Written, time: Time, zone: Zone, now: int): Option<Reading> {
    if zone.Named? then None
    else
      var today := (now + OffsetOf(zone) * 60_000) / 86_400_000;
      var day := Day(written, today);
      if day == None || !IsTime(time) then None
      else
        var local := day.value * 86_400_000 + TimeOfDay(time);
        if InRange(local) then Some(Reading(local, OffsetOf(zone))) else None
  }

  /** The instant `read_iso_date` makes of a reading. */
  function Instant(reading: Reading): int {
    reading.local - reading.offset * 60_000
  }

  /** The parts `read_local_timestamp` writes. */
  function LocalDate(local: int): Date {
    CivilFromDays(local / 86_400_000)
  }

  function LocalTime(local: int): Time {
    var inDay := local % 86_400_000;
    Time(inDay / 3_600_000, inDay / 60_000 % 60, inDay / 1000 % 60, inDay % 1000)
  }

  lemma {:induction false} PartsOfTime(time: Time)
    requires IsTime(time) && time.hour < 24
    ensures 0 <= TimeOfDay(time) < 86_400_000
    ensures TimeOfDay(time) / 3_600_000 == time.hour && TimeOfDay(time) / 60_000 % 60 == time.minute
    ensures TimeOfDay(time) / 1000 % 60 == time.second && TimeOfDay(time) % 1000 == time.millisecond
  {
    var minutes := time.hour * 60 + time.minute;
    var seconds := minutes * 60 + time.second;
    Arithmetic.DivMod(TimeOfDay(time), time.hour, 3_600_000,
                      time.minute * 60_000 + time.second * 1000 + time.millisecond);
    Arithmetic.DivMod(TimeOfDay(time), minutes, 60_000, time.second * 1000 + time.millisecond);
    Arithmetic.DivMod(TimeOfDay(time), seconds, 1000, time.millisecond);
    Arithmetic.DivMod(minutes, time.hour, 60, time.minute);
    Arithmetic.DivMod(seconds, minutes, 60, time.second);
  }

  lemma {:induction false} TimeIsReadBack(day: int, time: Time)
    requires IsTime(time) && time.hour < 24
    ensures var local := day * 86_400_000 + TimeOfDay(time);
            local / 86_400_000 == day && LocalTime(local) == time
  {
    Arithmetic.DivMod(day * 86_400_000 + TimeOfDay(time), day, 86_400_000, TimeOfDay(time));
    PartsOfTime(time);
  }

  lemma {:induction false} MidnightIsReadBack(day: int)
    ensures day * 86_400_000 / 86_400_000 == day && LocalTime(day * 86_400_000) == Time(0, 0, 0, 0)
  {
    Arithmetic.DivMod(day * 86_400_000, day, 86_400_000, 0);
    assert 0 / 3_600_000 == 0 && 0 / 60_000 % 60 == 0 && 0 / 1000 % 60 == 0;
  }

  lemma {:induction false} LocalOf(date: Date, time: Time, zone: Zone, now: int)
    requires Read(CalendarDate(date), time, zone, now).Some?
    ensures IsDate(date) && IsTime(time)
    ensures Read(CalendarDate(date), time, zone, now).value.local == DaysFromCivil(date) * 86_400_000 + TimeOfDay(time)
    ensures time.hour == 24 ==> TimeOfDay(time) == 86_400_000
  {
  }

  // ----- The text of a timestamp

  /** What `read_local_timestamp` writes: the year with its sign and at least four digits, the rest with two. */
  function Timestamp(local: int): string {
    var date, time := LocalDate(local), LocalTime(local);
    NumberIsReadBack(local / 86_400_000);
    Head(date.year) + Tail(date.month, date.day, time.hour, time.minute, time.second)
  }

  function Head(year: int): string {
    if year < 0 then "-" + Decimals.Padded(-year, 4) else Decimals.Padded(year, 4)
  }

  function Tail(month: nat, day: nat, hour: nat, minute: nat, second: nat): string {
    "-" + Decimals.Padded(month, 2) + "-" + Decimals.Padded(day, 2) + "T" +
    Decimals.Padded(hour, 2) + ":" + Decimals.Padded(minute, 2) + ":" + Decimals.Padded(second, 2) + "Z"
  }

  /** The marks of a timestamp, by their places from the right. */
  predicate HasMarks(s: string) {
    var n := |s|;
    && n > 16 && s[n - 16] == '-' && s[n - 13] == '-' && s[n - 10] == 'T'
    && s[n - 7] == ':' && s[n - 4] == ':' && s[n - 1] == 'Z'
  }

  /** What a reader makes of a timestamp. */
  function ReadTimestamp(s: string): (Date, Time)
    requires HasMarks(s)
  {
    var n := |s|;
    var years: int := Decimals.Read(s[..n - 16]);
    (Date(if s[0] == '-' then -years else years, Decimals.Read(s[n - 15..n - 13]), Decimals.Read(s[n - 12..n - 10])),
     Time(Decimals.Read(s[n - 9..n - 7]), Decimals.Read(s[n - 6..n - 4]), Decimals.Read(s[n - 3..n - 1]), 0))
  }

  lemma {:induction false} TailParts(head: string, month: nat, day: nat, hour: nat, minute: nat, second: nat)
    requires head != [] && month < 100 && day < 100 && hour < 100 && minute < 100 && second < 100
    ensures var s := head + Tail(month, day, hour, minute, second);
            var n := |s|;
            && HasMarks(s) && s[0] == head[0] && s[..n - 16] == head
            && s[n - 15..n - 13] == Decimals.Padded(month, 2) && s[n - 12..n - 10] == Decimals.Padded(day, 2)
            && s[n - 9..n - 7] == Decimals.Padded(hour, 2) && s[n - 6..n - 4] == Decimals.Padded(minute, 2)
            && s[n - 3..n - 1] == Decimals.Padded(second, 2)
  {
    hide Decimals.Padded;
    assert |Tail(month, day, hour, minute, second)| == 16;
  }

  lemma {:induction false} HeadIsRead(year: int)
    ensures var head := Head(year);
            var years: int := Decimals.Read(head);
            head != [] && year == if head[0] == '-' then -years else years
  {
    hide Decimals.Padded, Decimals.Read, Decimals.Value;
    if year < 0 {
      Decimals.PaddedCounts(-year, 4);
      Decimals.ReadsDigitsAlone(Decimals.Padded(-year, 4));
      Decimals.ReadsBehind('-', Decimals.Padded(-year, 4));
    } else {
      Decimals.PaddedCounts(year, 4);
    }
  }

  /** The text of a local time says its date and its time of day to the second. */
  lemma {:induction false} TimestampIsRead(local: int)
    ensures HasMarks(Timestamp(local))
    ensures ReadTimestamp(Timestamp(local)) == (LocalDate(local), LocalTime(local).(millisecond := 0))
  {
    hide Decimals.Padded, Decimals.Read, Tail, Head, CivilFromDays;
    var date, time := LocalDate(local), LocalTime(local);
    NumberIsReadBack(local / 86_400_000);
    HeadIsRead(date.year);
    TailParts(Head(date.year), date.month, date.day, time.hour, time.minute, time.second);
    Decimals.PaddedCounts(date.month, 2);
    Decimals.PaddedCounts(date.day, 2);
    Decimals.PaddedCounts(time.hour, 2);
    Decimals.PaddedCounts(time.minute, 2);
    Decimals.PaddedCounts(time.second, 2);
  }

  /** What is written, read back, is what was read, to the second. The hour 24 is midnight of the day after. */
  lemma {:induction false} WritesWhatItRead(date: Date, time: Time, zone: Zone, now: int)
    requires Read(CalendarDate(date), time, zone, now).Some?
    ensures HasMarks(Timestamp(Read(CalendarDate(date), time, zone, now).value.local))
    ensures var local := Read(CalendarDate(date), time, zone, now).value.local;
            && LocalDate(local) == (if time.hour < 24 then date else Tomorrow(date))
            && LocalTime(local) == (if time.hour < 24 then time else Time(0, 0, 0, 0))
            && ReadTimestamp(Timestamp(local)) == (LocalDate(local), LocalTime(local).(millisecond := 0))
  {
    hide Timestamp, ReadTimestamp, HasMarks, DaysFromCivil, CivilFromDays, LocalTime, Tomorrow, IsDate, Read, TimeOfDay;
    LocalOf(date, time, zone, now);
    TimestampIsRead(Read(CalendarDate(date), time, zone, now).value.local);
    if time.hour < 24 {
      TimeIsReadBack(DaysFromCivil(date), time);
      DateIsReadBack(date);
    } else {
      MidnightIsReadBack(DaysFromCivil(date) + 1);
      DaysAreConsecutive(date);
      DateIsReadBack(Tomorrow(date));
    }
  }

  lemma {:induction false} TodayOf(time: Time, zone: Zone, now: int)
    requires Read(Today, time, zone, now).Some?
    ensures var reading := Read(Today, time, zone, now).value;
            && IsTime(time) && reading.offset == OffsetOf(zone)
            && reading.local == (now + OffsetOf(zone) * 60_000) / 86_400_000 * 86_400_000 + TimeOfDay(time)
  {
  }

  lemma {:induction false} TimeFitsDay(time: Time)
    requires IsTime(time)
    ensures 0 <= TimeOfDay(time) <= 86_400_000
  {
  }

  lemma {:induction false} DayBegins(instant: int)
    ensures instant / 86_400_000 * 86_400_000 <= instant < instant / 86_400_000 * 86_400_000 + 86_400_000
  {
  }

  /** A time without a date is on the day it is where the time is read: within a day of now. */
  lemma {:induction false} TimeAloneIsToday(time: Time, zone: Zone, now: int)
    requires Read(Today, time, zone, now).Some?
    ensures var reading := Read(Today, time, zone, now).value;
            && -86_400_000 < Instant(reading) - now <= 86_400_000
            && (time.hour < 24 ==> LocalDate(reading.local) == LocalDate(now + reading.offset * 60_000))
            && (time.hour < 24 ==> LocalTime(reading.local) == time)
  {
    hide Read, OffsetOf, TimeOfDay, IsTime, CivilFromDays, LocalTime;
    var today := (now + OffsetOf(zone) * 60_000) / 86_400_000;
    TodayOf(time, zone, now);
    TimeFitsDay(time);
    DayBegins(now + OffsetOf(zone) * 60_000);
    if time.hour < 24 {
      TimeIsReadBack(today, time);
    }
  }
}
