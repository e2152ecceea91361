/** The calendar in closed form: on which day each month starts. */
module CalendarForm {
  import opened Arithmetic
  import opened Calendar

  /** How many leap years come before a year. */
  function LeapYearsBefore(year: nat): nat {
    (year + 3) / 4 - (year + 99) / 100 + (year + 399) / 400
  }

  /** How many days of a year without a leap day come before its m-th month, counted from 0. */
  function DaysBefore(m: nat): nat
    requires m < 12
  {
    [0, 31, 59, 90, 120, 151, 181, 212, 243, 273, 304, 334][m]
  }

  lemma LeapYearsUpTo(year: nat)
    ensures LeapYearsBefore(year + 1) == LeapYearsBefore(year) + if IsLeap(year) then 1 else 0
  {
    UpToMultiple(year, 4);
    UpToMultiple(year, 100);
    UpToMultiple(year, 400);
    PartOfMultiple(year, 4, 25);
    PartOfMultiple(year, 100, 4);
  }

  /** The day that a month should start on: 365 days for each year before, the leap days before, and the days of the
      months before it in its year. */
  function ClosedStart(year: nat, m: nat): nat
    requires m < 12
  {
    365 * year + LeapYearsBefore(year) + DaysBefore(m) + if m >= 2 && IsLeap(year) then 1 else 0
  }

  lemma ClosedStartStep(year: nat, m: nat)
    requires m < 12
    ensures ClosedStart(year, m) + MonthLength(12 * year + m)
            == if m < 11 then ClosedStart(year, m + 1) else ClosedStart(year + 1, 0)
  {
    LengthInYear(year, m);
    if m == 11 {
      LeapYearsUpTo(year);
    }
  }

  function ClosedStartOf(month: nat): nat {
    ClosedStart(month / 12, month % 12)
  }

  predicate Grows(start: nat -> nat, month: nat) {
    start(month + 1) == start(month) + MonthLength(month)
  }

  lemma ClosedStartGrows(month: nat)
    ensures Grows(ClosedStartOf, month)
  {
    var year, m := month / 12, month % 12;
    ClosedStartStep(year, m);
    assert month == 12 * year + m;
    NextMonth(month);
  }

  lemma NextMonth(month: nat)
    ensures (month + 1) / 12 == (if month % 12 < 11 then month / 12 else month / 12 + 1)
    ensures (month + 1) % 12 == if month % 12 < 11 then month % 12 + 1 else 0
  {
    QuotientIs(month + 1, 12, if month % 12 < 11 then month / 12 else month / 12 + 1);
  }

  lemma {:induction false} GrowAlike(a: nat -> nat, b: nat -> nat, month: nat)
    requires a(0) == b(0) && forall k: nat :: Grows(a, k) && Grows(b, k)
    ensures a(month) == b(month)
  {
    if month > 0 {
      GrowAlike(a, b, month - 1);
      assert Grows(a, month - 1) && Grows(b, month - 1);
    }
  }

  /** Every month starts where the closed form says. */
  lemma MonthStartIs(month: nat)
    ensures MonthStart(month) == ClosedStart(month / 12, month % 12)
  {
    forall k: nat
      ensures Grows(MonthStart, k) && Grows(ClosedStartOf, k)
    {
      ClosedStartGrows(k);
    }
    GrowAlike(MonthStart, ClosedStartOf, month);
  }

  lemma LengthInYear(year: nat, m: nat)
    requires m < 12
    ensures MonthLength(12 * year + m)
            == if m == 1 then (if IsLeap(year) then 29 else 28) else [31, 0, 31, 30, 31, 30, 31, 31, 30, 31, 30, 31][m]
  {
    ModShift(m, 12, year);
  }
}
