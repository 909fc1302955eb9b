// Calendar arithmetic of services/rtc/rtc_service.cpp: days, months and leap years between
// 2000 and 2099, after which the clock starts over.
module Calendar {
  const FIRST_YEAR: nat := 2000
  const LAST_YEAR: nat := 2099
  const DAY_SECONDS: nat := 86400
  // The days of the hundred years, 25 of which are leap years.
  const CYCLE_DAYS: nat := 36525
  const WORD: nat := 0x1_0000_0000

  datatype Date = Date(year: nat, month: nat, day: nat)

  datatype Time = Time(hour: nat, minute: nat, second: nat)

  datatype DateTime = DateTime(date: Date, time: Time)

  predicate IsLeapYear(year: nat) { year % 4 == 0 && (year % 100 != 0 || year % 400 == 0) }

  function DaysInMonth(year: nat, month: nat): nat {
    if month < 1 || month > 12 then 0
    else if month == 2 then if IsLeapYear(year) then 29 else 28
    else if month == 4 || month == 6 || month == 9 || month == 11 then 30
    else 31
  }

  // datetime_is_valid() of the hardware layer: nothing else enters the cache.
  predicate IsDate(d: Date) {
    FIRST_YEAR <= d.year <= LAST_YEAR && 1 <= d.month <= 12 && 1 <= d.day <= DaysInMonth(d.year, d.month)
  }

  predicate IsTime(t: Time) { t.hour <= 23 && t.minute <= 59 && t.second <= 59 }

  predicate IsDateTime(dt: DateTime) { IsDate(dt.date) && IsTime(dt.time) }

  // advance_one_day()
  function NextDay(d: Date): Date {
    if d.day < DaysInMonth(d.year, d.month) then d.(day := d.day + 1)
    else if d.month < 12 then Date(d.year, d.month + 1, 1)
    else Date(if d.year < LAST_YEAR then d.year + 1 else FIRST_YEAR, 1, 1)
  }

  function DaysLater(d: Date, n: nat): Date {
    if n == 0 then d else NextDay(DaysLater(d, n - 1))
  }

  function SecondOfDay(t: Time): nat { t.hour * 3600 + t.minute * 60 + t.second }

  function TimeOf(seconds: nat): Time { Time(seconds / 3600, seconds % 3600 / 60, seconds % 60) }

  function WholeDays(seconds: nat): nat { seconds / 86400 }

  function WithinDay(seconds: nat): (r: nat)
    ensures r < DAY_SECONDS
  {
    seconds % 86400
  }

  // advance_datetime()
  function Advanced(dt: DateTime, seconds: nat): DateTime {
    var total := SecondOfDay(dt.time) + seconds;
    DateTime(DaysLater(dt.date, WholeDays(total)), TimeOf(WithinDay(total)))
  }

  // The loop as it is, in 32-bit arithmetic.
  method AdvanceDateTime(dt: DateTime, seconds: nat) returns (r: DateTime)
    requires seconds < WORD
    ensures SecondOfDay(dt.time) + seconds < WORD ==> r == Advanced(dt, seconds)
  {
    hide SecondOfDay, TimeOf, NextDay, WholeDays, WithinDay;
    var total := (SecondOfDay(dt.time) + seconds) % WORD;
    var days := WholeDays(total);
    var date := dt.date;
    var left := days;
    while left > 0
      invariant 0 <= left <= days
      invariant date == DaysLater(dt.date, days - left)
    {
      date := NextDay(date);
      left := left - 1;
    }
    r := DateTime(date, TimeOf(WithinDay(total)));
  }

  // ----- Dates stay valid

  lemma NextDayIsDate(d: Date)
    requires IsDate(d)
    ensures IsDate(NextDay(d))
  {
  }

  lemma {:induction false} DaysLaterIsDate(d: Date, n: nat)
    requires IsDate(d)
    ensures IsDate(DaysLater(d, n))
  {
    if n > 0 {
      DaysLaterIsDate(d, n - 1);
      NextDayIsDate(DaysLater(d, n - 1));
    }
  }

  lemma TimeOfIsTime(seconds: nat)
    requires seconds < DAY_SECONDS
    ensures IsTime(TimeOf(seconds)) && SecondOfDay(TimeOf(seconds)) == seconds
  {
  }

  // And each time of day is that of its second.
  lemma TimesAreSeconds(t: Time)
    requires IsTime(t)
    ensures SecondOfDay(t) < DAY_SECONDS && TimeOf(SecondOfDay(t)) == t
  {
  }

  lemma AdvancedIsDateTime(dt: DateTime, seconds: nat)
    requires IsDateTime(dt)
    ensures IsDateTime(Advanced(dt, seconds))
  {
    hide IsDate, DaysLater, TimeOf, IsTime, SecondOfDay, WholeDays, WithinDay;
    var total := SecondOfDay(dt.time) + seconds;
    DaysLaterIsDate(dt.date, WholeDays(total));
    TimeOfIsTime(WithinDay(total));
  }

  // ----- Advancing composes

  lemma {:induction false} DaysLaterTwice(d: Date, m: nat, n: nat)
    ensures DaysLater(DaysLater(d, m), n) == DaysLater(d, m + n)
    decreases n
  {
    if n > 0 {
      DaysLaterTwice(d, m, n - 1);
    }
  }

  lemma CarryOver(a: nat, b: nat)
    ensures WholeDays(WithinDay(a) + b) + WholeDays(a) == WholeDays(a + b)
    ensures WithinDay(WithinDay(a) + b) == WithinDay(a + b)
  {
  }

  // Advancing twice is advancing once by the sum, across days, leap years and the wrap.
  lemma AdvancedTwice(dt: DateTime, a: nat, b: nat)
    ensures Advanced(Advanced(dt, a), b) == Advanced(dt, a + b)
  {
    hide DaysLater, TimeOf, SecondOfDay, WholeDays, WithinDay;
    var total := SecondOfDay(dt.time) + a;
    TimeOfIsTime(WithinDay(total));
    CarryOver(total, b);
    DaysLaterTwice(dt.date, WholeDays(total), WholeDays(WithinDay(total) + b));
  }

  // ----- What advancing means: counting on in the hundred years

  function YearStart(year: nat): nat
    requires year >= FIRST_YEAR
  {
    365 * (year - FIRST_YEAR) + (year - FIRST_YEAR + 3) / 4
  }

  function MonthStart(year: nat, month: nat): nat {
    if month <= 1 then 0 else MonthStart(year, month - 1) + DaysInMonth(year, month - 1)
  }

  // The days since the first of January 2000.
  function DayNumber(d: Date): nat
    requires IsDate(d)
  {
    YearStart(d.year) + MonthStart(d.year, d.month) + d.day - 1
  }

  function SecondNumber(dt: DateTime): nat
    requires IsDateTime(dt)
  {
    DayNumber(dt.date) * DAY_SECONDS + dt.time.hour * 3600 + dt.time.minute * 60 + dt.time.second
  }

  lemma LeapYears(year: nat)
    requires FIRST_YEAR <= year <= LAST_YEAR
    ensures IsLeapYear(year) <==> (year - FIRST_YEAR) % 4 == 0
  {
  }

  lemma YearLength(year: nat)
    requires FIRST_YEAR <= year <= LAST_YEAR
    ensures MonthStart(year, 12) + 31 == if IsLeapYear(year) then 366 else 365
    ensures YearStart(year + 1) == YearStart(year) + if IsLeapYear(year) then 366 else 365
  {
    LeapYears(year);
    hide IsLeapYear;
    assert MonthStart(year, 2) == MonthStart(year, 1) + 31 == 31;
    assert MonthStart(year, 3) == 31 + DaysInMonth(year, 2);
    assert MonthStart(year, 4) == MonthStart(year, 3) + 31;
    assert MonthStart(year, 6) == MonthStart(year, 5) + 31 == MonthStart(year, 4) + 61;
    assert MonthStart(year, 8) == MonthStart(year, 7) + 31 == MonthStart(year, 6) + 61;
    assert MonthStart(year, 10) == MonthStart(year, 9) + 30 == MonthStart(year, 8) + 61;
    assert MonthStart(year, 11) == MonthStart(year, 10) + 31;
    assert MonthStart(year, 12) == MonthStart(year, 11) + 30;
  }

  lemma NextDayCounts(d: Date)
    requires IsDate(d)
    ensures IsDate(NextDay(d)) && DayNumber(d) < CYCLE_DAYS
    ensures DayNumber(NextDay(d)) == (DayNumber(d) + 1) % CYCLE_DAYS
  {
    hide IsLeapYear, DaysInMonth, YearStart;
    NextDayIsDate(d);
    DayNumberBelow(d);
    DayNumberBelow(NextDay(d));
    if d.day >= DaysInMonth(d.year, d.month) && d.month == 12 {
      LastOfDecember(d);
    }
  }

  lemma LastOfDecember(d: Date)
    requires IsDate(d) && d.month == 12 && d.day >= DaysInMonth(d.year, d.month)
    ensures DayNumber(d) + 1 == YearStart(d.year + 1)
    ensures YearStart(FIRST_YEAR) == 0 && YearStart(LAST_YEAR + 1) == CYCLE_DAYS
  {
    hide IsLeapYear;
    YearLength(d.year);
  }

  lemma DayNumberBelow(d: Date)
    requires IsDate(d)
    ensures DayNumber(d) < YearStart(d.year + 1) <= CYCLE_DAYS
  {
    hide IsLeapYear;
    YearLength(d.year);
    MonthStartGrows(d.year, d.month, 12);
  }

  lemma {:induction false} MonthStartGrows(year: nat, month: nat, last: nat)
    requires 1 <= month <= last <= 12
    ensures month < last ==> MonthStart(year, month) + DaysInMonth(year, month) <= MonthStart(year, last)
    ensures MonthStart(year, month) <= MonthStart(year, last)
    decreases last
  {
    hide IsLeapYear;
    if month < last {
      MonthStartGrows(year, month, last - 1);
    }
  }

  lemma {:induction false} DaysLaterCounts(d: Date, n: nat)
    requires IsDate(d)
    ensures IsDate(DaysLater(d, n)) && DayNumber(DaysLater(d, n)) == (DayNumber(d) + n) % CYCLE_DAYS
  {
    hide DayNumber, IsDate, NextDay;
    NextDayCounts(d);
    if n > 0 {
      DaysLaterCounts(d, n - 1);
      NextDayCounts(DaysLater(d, n - 1));
      ModPlusOne(DayNumber(d) + n - 1);
    }
  }

  lemma ModPlusOne(a: nat)
    ensures (a % CYCLE_DAYS + 1) % CYCLE_DAYS == (a + 1) % CYCLE_DAYS
  {
  }

  lemma SecondsCounted(dt: DateTime)
    requires IsDateTime(dt)
    ensures SecondNumber(dt) == DayNumber(dt.date) * DAY_SECONDS + SecondOfDay(dt.time)
  {
    hide DayNumber;
  }

  // Advancing by n seconds is adding n to the seconds of the hundred years.
  lemma AdvancedCounts(dt: DateTime, seconds: nat)
    requires IsDateTime(dt)
    ensures IsDateTime(Advanced(dt, seconds))
    ensures SecondNumber(Advanced(dt, seconds)) == (SecondNumber(dt) + seconds) % (CYCLE_DAYS * DAY_SECONDS)
  {
    hide DayNumber, IsDate, DaysLater, TimeOf, SecondOfDay, WholeDays, WithinDay, IsTime;
    AdvancedIsDateTime(dt, seconds);
    SecondsCounted(dt);
    SecondsCounted(Advanced(dt, seconds));
    var total := SecondOfDay(dt.time) + seconds;
    DaysLaterCounts(dt.date, WholeDays(total));
    TimeOfIsTime(WithinDay(total));
    MixedRadix(DayNumber(dt.date), total);
  }

  lemma MixedRadix(day: nat, total: nat)
    ensures (day + WholeDays(total)) % CYCLE_DAYS * DAY_SECONDS + WithinDay(total) ==
            (day * DAY_SECONDS + total) % (CYCLE_DAYS * DAY_SECONDS)
  {
    var days := day + WholeDays(total);
    var q := days / 36525;
    var r := days % 36525 * 86400 + WithinDay(total);
    assert day * 86400 + total == days * 86400 + WithinDay(total);
    assert days == q * 36525 + days % 36525;
    assert day * 86400 + total == q * 3155760000 + r;
    Remainder(day * 86400 + total, q, r);
  }

  lemma Remainder(n: nat, q: nat, r: nat)
    requires n == q * 3155760000 + r && r < 3155760000
    ensures n % (CYCLE_DAYS * DAY_SECONDS) == r
  {
    assert CYCLE_DAYS * DAY_SECONDS == 3155760000;
  }

  // Different valid dates have different numbers.
  lemma DayNumberInjective(d: Date, e: Date)
    requires IsDate(d) && IsDate(e) && DayNumber(d) == DayNumber(e)
    ensures d == e
  {
    hide IsLeapYear;
    if d.year < e.year {
      DayNumberBelow(d);
    } else if e.year < d.year {
      DayNumberBelow(e);
    } else if d.month < e.month {
      MonthStartGrows(d.year, d.month, e.month);
    } else if e.month < d.month {
      MonthStartGrows(d.year, e.month, d.month);
    }
  }

  // ----- The Gregorian calendar in closed form

  // Days counted in years that begin in March, whose months take turns with 31 and 30 days,
  // five of them in 153 days; every fourth year has a day more, but not every hundredth,
  // though every four hundredth.
  function CivilDays(d: Date): int {
    var year := if d.month <= 2 then d.year - 1 else d.year;
    var month := if d.month <= 2 then d.month + 9 else d.month - 3;
    365 * year + LeapDays(year) + (153 * month + 2) / 5 + d.day - 1
  }

  function LeapDays(year: int): int { year / 4 - year / 100 + year / 400 }

  lemma LeapDaysInCycle(year: nat)
    requires FIRST_YEAR - 1 <= year <= LAST_YEAR
    ensures LeapDays(year) == year / 4 - 15
  {
  }

  lemma LeapDaysMore(year: nat)
    requires FIRST_YEAR <= year <= LAST_YEAR
    ensures LeapDays(year) == LeapDays(year - 1) + if IsLeapYear(year) then 1 else 0
    ensures YearStart(year) == 365 * (year - FIRST_YEAR) + LeapDays(year - 1) - LeapDays(FIRST_YEAR - 1)
  {
    hide IsLeapYear, LeapDays;
    LeapYears(year);
    LeapDaysInCycle(year);
    LeapDaysInCycle(year - 1);
    LeapDaysInCycle(FIRST_YEAR - 1);
  }

  lemma MonthsFromMarch(year: nat, month: nat)
    requires FIRST_YEAR <= year <= LAST_YEAR && 1 <= month <= 12
    ensures MonthStart(year, month) ==
            if month == 1 then 0 else if month == 2 then 31
            else (153 * (month - 3) + 2) / 5 + if IsLeapYear(year) then 60 else 59
  {
    hide IsLeapYear;
    assert MonthStart(year, 2) == MonthStart(year, 1) + 31 == 31;
    assert MonthStart(year, 3) == 31 + DaysInMonth(year, 2);
    assert MonthStart(year, 4) == MonthStart(year, 3) + 31;
    assert MonthStart(year, 5) == MonthStart(year, 4) + 30;
    assert MonthStart(year, 6) == MonthStart(year, 5) + 31;
    assert MonthStart(year, 7) == MonthStart(year, 6) + 30;
    assert MonthStart(year, 8) == MonthStart(year, 7) + 31;
    assert MonthStart(year, 9) == MonthStart(year, 8) + 31;
    assert MonthStart(year, 10) == MonthStart(year, 9) + 30;
    assert MonthStart(year, 11) == MonthStart(year, 10) + 31;
    assert MonthStart(year, 12) == MonthStart(year, 11) + 30;
  }

  // The day number is the distance from the first of January 2000 in the Gregorian calendar.
  lemma DayNumberIsCivil(d: Date)
    requires IsDate(d)
    ensures DayNumber(d) == CivilDays(d) - CivilDays(Date(2000, 1, 1))
  {
    hide MonthStart, DaysInMonth, IsLeapYear, LeapDays, YearStart;
    MonthsFromMarch(d.year, d.month);
    LeapDaysMore(d.year);
  }

  // The dates of a month are its days in that calendar: 1 to the distance to the next month.
  lemma MonthLengths(year: nat, month: nat, day: nat)
    requires FIRST_YEAR <= year <= LAST_YEAR && 1 <= month <= 12
    ensures IsDate(Date(year, month, day)) <==>
            1 <= day <= CivilDays(if month == 12 then Date(year + 1, 1, 1) else Date(year, month + 1, 1)) -
                        CivilDays(Date(year, month, 1))
  {
    hide IsLeapYear, LeapDays;
    LeapDaysMore(year);
    if month > 2 {
      MonthCases(month);
    }
  }

  lemma MonthCases(month: nat)
    requires 3 <= month <= 12
    ensures (153 * (month - 2) + 2) / 5 - (153 * (month - 3) + 2) / 5 ==
            if month == 4 || month == 6 || month == 9 || month == 11 then 30 else 31
  {
  }
}
