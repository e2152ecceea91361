/** Calendar arithmetic on the wall clock of a fixed UTC offset, as Go's time.AddDate does it: a day past
    the end of its month spills over into the next one. Times are nanoseconds since 1 January of year 0. */
module Calendar {
  import opened Arithmetic
  import opened Clock

  // ---------- Days and months ----------

  predicate IsLeap(year: nat) {
    year % 4 == 0 && (year % 100 != 0 || year % 400 == 0)
  }

  /** The length of a month; months are counted from January of year 0. */
  function MonthLength(month: nat): (days: nat)
    ensures 28 <= days <= 31
    ensures days < 31 ==> MonthLengthOf(month + 1) == 31
  {
    MonthLengthOf(month)
  }

  function MonthLengthOf(month: nat): nat {
    var m := month % 12;
    if m == 1 then (if IsLeap(month / 12) then 29 else 28)
    else if m == 3 || m == 5 || m == 8 || m == 10 then 30
    else 31
  }

  /** The first day of a month; days are counted like months. */
  function MonthStart(month: nat): nat {
    if month == 0 then 0 else MonthStart(month - 1) + MonthLength(month - 1)
  }

  function FindMonth(day: nat, from: nat): (month: nat)
    requires MonthStart(from) <= day
    ensures MonthStart(month) <= day < MonthStart(month + 1)
    decreases day - MonthStart(from)
  {
    if day < MonthStart(from + 1) then from else FindMonth(day, from + 1)
  }

  /** The month that a day lies in. */
  function MonthOf(day: nat): (month: nat)
    ensures MonthStart(month) <= day < MonthStart(month + 1)
  {
    FindMonth(day, 0)
  }

  function DayOfMonth(day: nat): (d: nat)
    ensures 1 <= d <= MonthLength(MonthOf(day))
  {
    day - MonthStart(MonthOf(day)) + 1
  }

  lemma {:induction false} MonthsApart(a: nat, b: nat)
    requires a <= b
    ensures MonthStart(a) + 28 * (b - a) <= MonthStart(b)
    decreases b - a
  {
    if a < b {
      MonthsApart(a + 1, b);
    }
  }

  /** Every day lies in one month only. */
  lemma MonthOfIs(day: nat, month: nat)
    requires MonthStart(month) <= day < MonthStart(month + 1)
    ensures MonthOf(day) == month
  {
    if MonthOf(day) < month {
      MonthsApart(MonthOf(day) + 1, month);
    } else if month < MonthOf(day) {
      MonthsApart(month + 1, MonthOf(day));
    }
  }

  // ---------- The calendar repeats ----------

  const YEARS_OF_CALENDAR: nat := 400
  const MONTHS_OF_CALENDAR: nat := 12 * YEARS_OF_CALENDAR

  lemma LeapYearsRepeat(year: nat, q: nat)
    ensures IsLeap(year + YEARS_OF_CALENDAR * q) <==> IsLeap(year)
  {
    ModShift(year, 4, 100 * q);
    ModShift(year, 100, 4 * q);
    ModShift(year, 400, q);
  }

  lemma CalendarRepeats(month: nat, q: nat)
    ensures MonthLength(month + MONTHS_OF_CALENDAR * q) == MonthLength(month)
  {
    ModShift(month, 12, YEARS_OF_CALENDAR * q);
    LeapYearsRepeat(month / 12, q);
  }

  // ---------- AddDate ----------

  /** Adds to the month, keeps the day's number, then adds the days; a day number past the end of the new
      month counts on into the following one. */
  function AddToDay(day: nat, months: nat, days: nat): nat {
    MonthStart(MonthOf(day) + months) + (DayOfMonth(day) - 1) + days
  }

  function AddDate(t: nat, years: nat, months: nat, days: nat): nat {
    AddToDay(t / NANOS_PER_DAY, 12 * years + months, days) * NANOS_PER_DAY + t % NANOS_PER_DAY
  }

  /** The time of day stays, and the day moves. */
  lemma DayOfAddDate(t: nat, years: nat, months: nat, days: nat)
    ensures AddDate(t, years, months, days) / NANOS_PER_DAY == AddToDay(t / NANOS_PER_DAY, 12 * years + months, days)
    ensures AddDate(t, years, months, days) % NANOS_PER_DAY == t % NANOS_PER_DAY
  {
    QuotientBack(AddToDay(t / NANOS_PER_DAY, 12 * years + months, days), t % NANOS_PER_DAY, NANOS_PER_DAY);
  }

  lemma AddToDayGains(day: nat, months: nat, days: nat)
    ensures day + 28 * months + days <= AddToDay(day, months, days)
    ensures months == 0 ==> AddToDay(day, months, days) == day + days
  {
    var month := MonthOf(day);
    MonthsApart(month, month + months);
    assert AddToDay(day, months, days) == MonthStart(month + months) + (day - MonthStart(month)) + days;
  }

  lemma SameTimeOfDay(t: nat, day: nat)
    ensures t / NANOS_PER_DAY < day ==> t < day * NANOS_PER_DAY + t % NANOS_PER_DAY
    ensures t / NANOS_PER_DAY == day ==> t == day * NANOS_PER_DAY + t % NANOS_PER_DAY
  {
  }

  /** Overflow never undoes a step: adding anything moves on, adding nothing stays. */
  lemma AddDateIncreases(t: nat, years: nat, months: nat, days: nat)
    ensures years + months + days > 0 ==> t < AddDate(t, years, months, days)
    ensures years + months + days == 0 ==> AddDate(t, years, months, days) == t
  {
    AddToDayGains(t / NANOS_PER_DAY, 12 * years + months, days);
    SameTimeOfDay(t, AddToDay(t / NANOS_PER_DAY, 12 * years + months, days));
  }

  lemma AddDaysExact(t: nat, days: nat)
    ensures AddDate(t, 0, 0, days) == t + days * NANOS_PER_DAY
  {
    AddToDayGains(t / NANOS_PER_DAY, 0, days);
  }

  /** The day of the month survives a move by months exactly when the month reached is long enough; otherwise the day
      falls in the month after it. */
  lemma DayKeptExactly(day: nat, months: nat)
    ensures DayOfMonth(AddToDay(day, months, 0)) == DayOfMonth(day)
            <==> DayOfMonth(day) <= MonthLength(MonthOf(day) + months)
    ensures var target := MonthOf(day) + months;
            if DayOfMonth(day) <= MonthLength(target) then MonthOf(AddToDay(day, months, 0)) == target
            else MonthOf(AddToDay(day, months, 0)) == target + 1
                 && DayOfMonth(AddToDay(day, months, 0)) == DayOfMonth(day) - MonthLength(target)
  {
    var target := MonthOf(day) + months;
    var landed := AddToDay(day, months, 0);
    if DayOfMonth(day) <= MonthLength(target) {
      MonthOfIs(landed, target);
    } else {
      assert MonthLength(target + 1) == 31;
      MonthOfIs(landed, target + 1);
    }
  }

  // ---------- Dates in the year ----------

  /** The month of the year, counted from 0, and the day of the month. */
  function DateOf(day: nat): (nat, nat) {
    (MonthOf(day) % 12, DayOfMonth(day))
  }

  const LEAP_DAY := (1, 29)

  /** Whole years later, every date but 29 February has come around. */
  lemma YearsKeepDate(day: nat, years: nat)
    requires DateOf(day) != LEAP_DAY
    ensures DateOf(AddToDay(day, 12 * years, 0)) == DateOf(day)
  {
    DayKeptExactly(day, 12 * years);
    SameLength(MonthOf(day), years, DayOfMonth(day));
  }

  lemma SameLength(month: nat, years: nat, d: nat)
    requires d <= MonthLength(month) && (month % 12, d) != LEAP_DAY
    ensures d <= MonthLength(month + 12 * years) && (month + 12 * years) % 12 == month % 12
  {
  }

  lemma LeapDayInLeapYear(day: nat)
    requires DateOf(day) == LEAP_DAY
    ensures IsLeap(MonthOf(day) / 12)
  {
    FebruaryLength(MonthOf(day), 0);
  }

  lemma FebruaryLength(month: nat, years: nat)
    requires month % 12 == 1
    ensures 29 <= MonthLength(month + 12 * years) <==> IsLeap(month / 12 + years)
  {
    ModShift(month, 12, years);
    FebruaryIs(month + 12 * years, month / 12 + years);
  }

  lemma FebruaryIs(month: nat, year: nat)
    requires month % 12 == 1 && month / 12 == year
    ensures 29 <= MonthLength(month) <==> IsLeap(year)
  {
  }

  /** A move by whole years leads to that year; it comes to 29 February exactly from 29 February to a leap year. */
  lemma YearsMove(day: nat, years: nat)
    ensures var moved, year := AddToDay(day, 12 * years, 0), MonthOf(day) / 12 + years;
            && (DateOf(moved) == LEAP_DAY <==> DateOf(day) == LEAP_DAY && IsLeap(year))
            && (DateOf(day) != LEAP_DAY || IsLeap(year) ==> MonthOf(moved) / 12 == year)
  {
    var month, d := MonthOf(day), DayOfMonth(day);
    DayKeptExactly(day, 12 * years);
    ModShift(month, 12, years);
    if DateOf(day) == LEAP_DAY {
      FebruaryLength(month, years);
    } else {
      SameLength(month, years, d);
    }
  }

  /** One year after 29 February it is 1 March. */
  lemma LeapDayMoves(day: nat)
    requires DateOf(day) == LEAP_DAY
    ensures DateOf(AddToDay(day, 12, 0)) == (2, 1)
  {
    DayKeptExactly(day, 12);
    NextYearIsCommon(MonthOf(day));
  }

  lemma NextYearIsCommon(month: nat)
    requires month % 12 == 1 && MonthLength(month) == 29
    ensures MonthLength(month + 12) == 28 && (month + 13) % 12 == 2
  {
  }
}
