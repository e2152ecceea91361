/** The billing cycle of a transfer rule: its current start and end, found by stepping from the rule's anchor. */
module BillingCycle {
  import opened Arithmetic
  import opened Calendar
  import opened Clock
  import opened Wrappers

  datatype CycleUnit = Year | Month | Week | Day | Hour

  /** A transfer rule; cycleStart is its anchor and may be missing. */
  datatype Rule = Rule(cycleStart: Option<nat>, cycleInterval: nat, cycleUnit: CycleUnit)

  /** One step of the cycle from t. Hour rules do not step. */
  function Step(t: nat, unit: CycleUnit, interval: nat): nat {
    match unit
    case Year => AddDate(t, interval, 0, 0)
    case Month => AddDate(t, 0, interval, 0)
    case Week => AddDate(t, 0, 0, 7 * interval)
    case _ => AddDate(t, 0, 0, interval)
  }

  /** Every step moves on; a zero interval does not move. */
  lemma StepIncreases(t: nat, unit: CycleUnit, interval: nat)
    ensures interval >= 1 ==> t < Step(t, unit, interval)
    ensures interval == 0 ==> Step(t, unit, interval) == t
  {
    match unit
    case Year => AddDateIncreases(t, interval, 0, 0);
    case Month => AddDateIncreases(t, 0, interval, 0);
    case Week => AddDateIncreases(t, 0, 0, 7 * interval);
    case _ => AddDateIncreases(t, 0, 0, interval);
  }

  function StepOf(unit: CycleUnit, interval: nat): nat -> nat {
    (t: nat) => Step(t, unit, interval)
  }

  lemma StepOfIncreases(unit: CycleUnit, interval: nat)
    requires interval >= 1
    ensures Increasing(StepOf(unit, interval))
  {
    forall t: nat
      ensures t < StepOf(unit, interval)(t)
    {
      StepIncreases(t, unit, interval);
    }
  }

  ghost predicate Increasing(step: nat -> nat) {
    forall t: nat :: t < step(t)
  }

  function Iterate(step: nat -> nat, t: nat, n: nat): nat {
    if n == 0 then t else step(Iterate(step, t, n - 1))
  }

  lemma {:induction false} IterateIncreases(step: nat -> nat, t: nat, m: nat, n: nat)
    requires Increasing(step) && m <= n
    ensures Iterate(step, t, m) + (n - m) <= Iterate(step, t, n)
    decreases n - m
  {
    if m < n {
      IterateIncreases(step, t, m, n - 1);
    }
  }

  /** What a step keeps, every number of steps keeps. */
  lemma {:induction false} IterateKeeps<T(!new)>(step: nat -> nat, f: nat -> T, t: nat, n: nat)
    requires forall x: nat :: f(x) == f(t) ==> f(step(x)) == f(t)
    ensures f(Iterate(step, t, n)) == f(t)
  {
    if n > 0 {
      IterateKeeps(step, f, t, n - 1);
    }
  }

  /** n is the number of whole cycles behind now: the window after it is open on the left (but for the first,
      which reaches back without limit) and closed on the right. */
  predicate IsCurrent(step: nat -> nat, anchor: nat, now: nat, n: nat) {
    && now <= Iterate(step, anchor, n + 1)
    && (n > 0 ==> Iterate(step, anchor, n) < now)
  }

  lemma CurrentIsUnique(step: nat -> nat, anchor: nat, now: nat, m: nat, n: nat)
    requires Increasing(step) && IsCurrent(step, anchor, now, m) && IsCurrent(step, anchor, now, n)
    ensures m == n
  {
    if m < n {
      IterateIncreases(step, anchor, m + 1, n);
    } else if n < m {
      IterateIncreases(step, anchor, n + 1, m);
    }
  }

  /** The number of whole cycles behind now, counted up from n. */
  ghost function CountFrom(step: nat -> nat, anchor: nat, now: nat, n: nat): (count: nat)
    requires Increasing(step)
    requires n > 0 ==> Iterate(step, anchor, n) < now
    ensures IsCurrent(step, anchor, now, count)
    decreases if Iterate(step, anchor, n) < now then now - Iterate(step, anchor, n) else 0
  {
    if now <= Iterate(step, anchor, n + 1) then n else CountFrom(step, anchor, now, n + 1)
  }

  /** The calendar start of the cycle that now lies in: the anchor moved on by the whole cycles behind now. */
  ghost function CalendarStart(anchor: nat, unit: CycleUnit, interval: nat, now: nat): nat
    requires interval >= 1
  {
    StepOfIncreases(unit, interval);
    var step := StepOf(unit, interval);
    Iterate(step, anchor, CountFrom(step, anchor, now, 0))
  }

  /** The start of the window of an hour rule, in whole seconds. */
  function HourStart(anchor: nat, interval: nat, now: nat): int
    requires interval >= 1
  {
    var first, current := anchor / NANOS_PER_SECOND, now / NANOS_PER_SECOND;
    (first + TruncatedQuotient(current - first, 3600 * interval) * (3600 * interval)) * NANOS_PER_SECOND
  }

  /** The code comes to a result: with a zero interval, an hour rule divides by zero, and the other loops do not end
      once the anchor has passed. */
  predicate Returns(rule: Rule, now: nat) {
    rule.cycleStart.None? || rule.cycleInterval >= 1 || (!rule.cycleUnit.Hour? && now <= rule.cycleStart.value)
  }

  ghost function CurrentStart(rule: Rule, now: nat): int
    requires Returns(rule, now)
  {
    if rule.cycleStart.None? then now - NANOS_PER_HOUR
    else
      var anchor := rule.cycleStart.value;
      if rule.cycleInterval == 0 then anchor
      else if rule.cycleUnit.Hour? then HourStart(anchor, rule.cycleInterval, now)
      else CalendarStart(anchor, rule.cycleUnit, rule.cycleInterval, now)
  }

  ghost function CurrentEnd(rule: Rule, now: nat): int
    requires Returns(rule, now)
  {
    if rule.cycleStart.None? then now
    else
      var anchor := rule.cycleStart.value;
      if rule.cycleInterval == 0 then anchor
      else if rule.cycleUnit.Hour? then HourStart(anchor, rule.cycleInterval, now) + rule.cycleInterval * NANOS_PER_HOUR
      else Step(CalendarStart(anchor, rule.cycleUnit, rule.cycleInterval, now), rule.cycleUnit, rule.cycleInterval)
  }

  method GetTransferDurationStart(rule: Rule, now: nat) returns (start: int)
    requires Returns(rule, now)
    ensures start == CurrentStart(rule, now)
  {
    if rule.cycleStart.None? {
      return now - NANOS_PER_HOUR;
    }
    var anchor := rule.cycleStart.value;
    if rule.cycleUnit.Hour? {
      var interval := 3600 * rule.cycleInterval;
      var first, current := anchor / NANOS_PER_SECOND, now / NANOS_PER_SECOND;
      return (first + TruncatedQuotient(current - first, interval) * interval) * NANOS_PER_SECOND;
    }
    var startTime: nat, nextTime: nat;
    startTime, nextTime := StepToCurrent(rule, now);
    start := startTime;
  }

  method GetTransferDurationEnd(rule: Rule, now: nat) returns (end: int)
    requires Returns(rule, now)
    ensures end == CurrentEnd(rule, now)
  {
    if rule.cycleStart.None? {
      return now;
    }
    var anchor := rule.cycleStart.value;
    if rule.cycleUnit.Hour? {
      var interval := 3600 * rule.cycleInterval;
      var first, current := anchor / NANOS_PER_SECOND, now / NANOS_PER_SECOND;
      var startSeconds := first + TruncatedQuotient(current - first, interval) * interval;
      return (startSeconds + interval) * NANOS_PER_SECOND;
    }
    var startTime: nat, nextTime: nat;
    startTime, nextTime := StepToCurrent(rule, now);
    end := nextTime;
  }

  /** The loop that the year, month, week and day branches share. */
  method StepToCurrent(rule: Rule, now: nat) returns (startTime: nat, nextTime: nat)
    requires Returns(rule, now) && rule.cycleStart.Some? && !rule.cycleUnit.Hour?
    ensures startTime == CurrentStart(rule, now) && nextTime == CurrentEnd(rule, now)
  {
    var anchor, unit, interval := rule.cycleStart.value, rule.cycleUnit, rule.cycleInterval;
    ghost var step := StepOf(unit, interval);
    startTime := anchor;
    nextTime := Step(startTime, unit, interval);
    StepIncreases(anchor, unit, interval);
    ghost var n := 0;
    while now > nextTime
      invariant startTime == Iterate(step, anchor, n)
      invariant nextTime == Step(startTime, unit, interval)
      invariant n > 0 ==> startTime < now
      invariant interval == 0 ==> startTime == nextTime == anchor
      decreases now - nextTime
    {
      startTime := nextTime;
      nextTime := Step(nextTime, unit, interval);
      StepIncreases(startTime, unit, interval);
      n := n + 1;
    }
    if interval >= 1 {
      StepOfIncreases(unit, interval);
      CurrentIsUnique(step, anchor, now, n, CountFrom(step, anchor, now, 0));
    }
  }

  /** The window of an hour rule, once its anchor has passed: start <= now < end, a whole number of intervals
      from the anchor's second. */
  lemma HourWindow(anchor: nat, interval: nat, now: nat)
    requires interval >= 1 && anchor <= now
    ensures var start := HourStart(anchor, interval, now);
            && start <= now < start + interval * NANOS_PER_HOUR
            && anchor - NANOS_PER_SECOND < start
            && exists q: nat :: start == (anchor / NANOS_PER_SECOND + q * (3600 * interval)) * NANOS_PER_SECOND
  {
    var first, current := anchor / NANOS_PER_SECOND, now / NANOS_PER_SECOND;
    var w := 3600 * interval;
    var q := WholeWindows(first, current, w);
    assert HourStart(anchor, interval, now) == (first + q * w) * NANOS_PER_SECOND;
  }

  lemma WholeWindows(first: nat, current: nat, w: nat) returns (q: nat)
    requires first <= current && w > 0
    ensures TruncatedQuotient(current - first, w) == q
    ensures first <= first + q * w <= current < first + q * w + w
  {
    q := (current - first) / w;
    assert current - first == q * w + (current - first) % w;
  }

  /** The window of a calendar rule: an iterate of the step from the anchor, and the next one. Once the anchor
      has passed, start <= now <= end, and now is the start only at the anchor itself. */
  lemma CalendarWindow(anchor: nat, unit: CycleUnit, interval: nat, now: nat) returns (n: nat)
    requires interval >= 1
    ensures var start := CalendarStart(anchor, unit, interval, now);
            && start == Iterate(StepOf(unit, interval), anchor, n)
            && now <= Step(start, unit, interval)
            && anchor <= start < Step(start, unit, interval)
            && (anchor <= now ==> start <= now)
            && (start == now ==> now == anchor)
  {
    var step := StepOf(unit, interval);
    StepOfIncreases(unit, interval);
    n := CountFrom(step, anchor, now, 0);
    IterateIncreases(step, anchor, 0, n);
    StepIncreases(Iterate(step, anchor, n), unit, interval);
  }

  /** Day and week rules step by a fixed length of time. */
  lemma {:induction false} IterateAdds(step: nat -> nat, t: nat, w: nat, n: nat)
    requires forall x: nat :: step(x) == x + w
    ensures Iterate(step, t, n) == t + n * w
  {
    if n > 0 {
      IterateAdds(step, t, w, n - 1);
      assert n * w == (n - 1) * w + w;
    }
  }

  lemma DaySteps(unit: CycleUnit, interval: nat)
    requires unit.Week? || unit.Day?
    ensures forall t: nat ::
              StepOf(unit, interval)(t) == t + (if unit.Week? then 7 * interval else interval) * NANOS_PER_DAY
  {
    forall t: nat
      ensures StepOf(unit, interval)(t) == t + (if unit.Week? then 7 * interval else interval) * NANOS_PER_DAY
    {
      AddDaysExact(t, if unit.Week? then 7 * interval else interval);
    }
  }

  /** The last time before now that is a number of whole lengths after the anchor. */
  function LastMultiple(anchor: nat, w: nat, now: nat): nat
    requires w > 0 && anchor < now
  {
    anchor + (now - anchor - 1) / w * w
  }

  lemma FixedWindow(step: nat -> nat, anchor: nat, w: nat, now: nat)
    requires Increasing(step) && w > 0 && anchor < now
    requires forall x: nat :: step(x) == x + w
    ensures Iterate(step, anchor, CountFrom(step, anchor, now, 0)) == LastMultiple(anchor, w, now)
  {
    var n := (now - anchor - 1) / w;
    IterateAdds(step, anchor, w, n);
    IterateAdds(step, anchor, w, n + 1);
    WholeSteps(now - anchor - 1, w);
    CurrentIsUnique(step, anchor, now, n, CountFrom(step, anchor, now, 0));
  }

  lemma WholeSteps(age: nat, w: nat)
    requires w > 0
    ensures age / w * w <= age < (age / w + 1) * w
  {
    assert age == age / w * w + age % w;
  }

  /** The window of a week or day rule once its anchor has passed: weeks or days of 24 hours, counted from the anchor,
      and closed on the right. */
  lemma DayWindow(rule: Rule, now: nat)
    requires rule.cycleStart.Some? && (rule.cycleUnit.Week? || rule.cycleUnit.Day?) && rule.cycleInterval >= 1
    requires rule.cycleStart.value < now
    ensures var anchor, w := rule.cycleStart.value, WindowLength(rule);
            CurrentStart(rule, now) == LastMultiple(anchor, w, now)
            && CurrentEnd(rule, now) == CurrentStart(rule, now) + w
  {
    var anchor, unit, interval := rule.cycleStart.value, rule.cycleUnit, rule.cycleInterval;
    var step, w := StepOf(unit, interval), WindowLength(rule);
    StepOfIncreases(unit, interval);
    DaySteps(unit, interval);
    FixedWindow(step, anchor, w, now);
    assert CurrentStart(rule, now) == Iterate(step, anchor, CountFrom(step, anchor, now, 0));
    assert CurrentEnd(rule, now) == step(CurrentStart(rule, now));
  }

  /** The length of week and day windows in nanoseconds. */
  function WindowLength(rule: Rule): nat {
    (if rule.cycleUnit.Week? then 7 * rule.cycleInterval else rule.cycleInterval) * 86_400_000_000_000
  }

  /** Any two times inside one window agree on it. */
  lemma SameWindow(anchor: nat, unit: CycleUnit, interval: nat, now: nat, earlier: nat)
    requires interval >= 1
    requires CalendarStart(anchor, unit, interval, now) < earlier <= now
    ensures CalendarStart(anchor, unit, interval, earlier) == CalendarStart(anchor, unit, interval, now)
  {
    var step := StepOf(unit, interval);
    StepOfIncreases(unit, interval);
    CurrentIsUnique(step, anchor, earlier, CountFrom(step, anchor, now, 0), CountFrom(step, anchor, earlier, 0));
  }

  lemma SameHourWindow(anchor: nat, interval: nat, now: nat, earlier: nat)
    requires interval >= 1 && anchor <= now
    requires HourStart(anchor, interval, now) < earlier <= now
    ensures HourStart(anchor, interval, earlier) == HourStart(anchor, interval, now)
  {
    var first, current, before := anchor / NANOS_PER_SECOND, now / NANOS_PER_SECOND, earlier / NANOS_PER_SECOND;
    var w := 3600 * interval;
    var q: nat := (current - first) / w;
    assert current - first == q * w + (current - first) % w;
    assert first + q * w <= before <= current;
    QuotientIs(before - first, w, q);
  }

  /** Once the anchor has passed, the window holds now; without an anchor it is the last hour, and an hour rule's window
      is as long as its interval. */
  lemma WindowHoldsNow(rule: Rule, now: nat)
    requires rule.cycleInterval >= 1 && (rule.cycleStart.Some? ==> rule.cycleStart.value <= now)
    ensures CurrentStart(rule, now) <= now <= CurrentEnd(rule, now)
    ensures rule.cycleStart.None? ==>
              CurrentEnd(rule, now) == now && CurrentStart(rule, now) == now - 3_600_000_000_000
    ensures rule.cycleStart.Some? && rule.cycleUnit.Hour? ==>
              && now < CurrentEnd(rule, now)
              && CurrentEnd(rule, now) - CurrentStart(rule, now) == rule.cycleInterval * 3_600_000_000_000
  {
    if rule.cycleStart.Some? && rule.cycleUnit.Hour? {
      HourWindow(rule.cycleStart.value, rule.cycleInterval, now);
    } else if rule.cycleStart.Some? {
      var n := CalendarWindow(rule.cycleStart.value, rule.cycleUnit, rule.cycleInterval, now);
    }
  }

  /** Windows follow each other without a gap: the end of one is the start of the next, from its first moment on for
      hour rules, and right after it for the others. */
  lemma WindowsTile(rule: Rule, now: nat)
    requires rule.cycleStart.Some? && rule.cycleInterval >= 1 && rule.cycleStart.value <= now
    ensures var end := CurrentEnd(rule, now);
            && end >= 0
            && CurrentStart(rule, if rule.cycleUnit.Hour? then end else end + 1) == end
  {
    if rule.cycleUnit.Hour? {
      NextHourWindow(rule.cycleStart.value, rule.cycleInterval, now);
    } else {
      NextCalendarWindow(rule.cycleStart.value, rule.cycleUnit, rule.cycleInterval, now);
    }
  }

  lemma NextCalendarWindow(anchor: nat, unit: CycleUnit, interval: nat, now: nat)
    requires interval >= 1
    ensures var end := Step(CalendarStart(anchor, unit, interval, now), unit, interval);
            CalendarStart(anchor, unit, interval, end + 1) == end
  {
    StepOfIncreases(unit, interval);
    NextWindow(StepOf(unit, interval), anchor, now);
  }

  lemma NextWindow(step: nat -> nat, anchor: nat, now: nat)
    requires Increasing(step)
    ensures var end := step(Iterate(step, anchor, CountFrom(step, anchor, now, 0)));
            Iterate(step, anchor, CountFrom(step, anchor, end + 1, 0)) == end
  {
    var n := CountFrom(step, anchor, now, 0);
    var end := Iterate(step, anchor, n + 1);
    IterateIncreases(step, anchor, n + 1, n + 2);
    CurrentIsUnique(step, anchor, end + 1, n + 1, CountFrom(step, anchor, end + 1, 0));
  }

  lemma NextHourWindow(anchor: nat, interval: nat, now: nat)
    requires interval >= 1 && anchor <= now
    ensures var end := HourStart(anchor, interval, now) + interval * NANOS_PER_HOUR;
            end >= 0 && HourStart(anchor, interval, end) == end
  {
    var first, current := anchor / NANOS_PER_SECOND, now / NANOS_PER_SECOND;
    var w := 3600 * interval;
    var q := WholeWindows(first, current, w);
    var next := first + (q + 1) * w;
    assert (q + 1) * w == q * w + w;
    var end: nat := next * NANOS_PER_SECOND;
    assert end == HourStart(anchor, interval, now) + interval * NANOS_PER_HOUR;
    assert end / NANOS_PER_SECOND == next;
    QuotientIs(next - first, w, q + 1);
  }

  lemma {:induction false} IterateFixed(step: nat -> nat, t: nat, n: nat)
    requires step(t) == t
    ensures Iterate(step, t, n) == t
  {
    if n > 0 {
      IterateFixed(step, t, n - 1);
    }
  }

  lemma IncreasingLoopEnds(step: nat -> nat, anchor: nat, now: nat)
    requires Increasing(step)
    ensures exists n :: n >= 1 && now <= Iterate(step, anchor, n)
  {
    IterateIncreases(step, anchor, 0, now + 1);
    assert now <= Iterate(step, anchor, now + 1);
  }

  lemma FixedLoopEnds(step: nat -> nat, anchor: nat, now: nat)
    requires step(anchor) == anchor
    ensures (exists n :: n >= 1 && now <= Iterate(step, anchor, n)) <==> now <= anchor
  {
    forall n | n >= 1
      ensures Iterate(step, anchor, n) == anchor
    {
      IterateFixed(step, anchor, n);
    }
    IterateFixed(step, anchor, 1);
  }

  /** The stepping loops end exactly when the interval is not zero or the anchor has not passed. */
  lemma LoopEndsExactly(anchor: nat, unit: CycleUnit, interval: nat, now: nat)
    ensures (exists n :: n >= 1 && now <= Iterate(StepOf(unit, interval), anchor, n))
            <==> interval >= 1 || now <= anchor
  {
    if interval >= 1 {
      StepOfIncreases(unit, interval);
      IncreasingLoopEnds(StepOf(unit, interval), anchor, now);
    } else {
      StepIncreases(anchor, unit, 0);
      FixedLoopEnds(StepOf(unit, 0), anchor, now);
    }
  }

  /** The day of the month that a time falls on. */
  function DayNumber(t: nat): nat {
    DayOfMonth(t / NANOS_PER_DAY)
  }

  /** The month that a time falls in, counted from January of year 0. */
  function MonthNumber(t: nat): nat {
    MonthOf(t / NANOS_PER_DAY)
  }

  /** A step from t moves on by the given number of months if the month reached has the day, and loses the day
      otherwise. */
  predicate Moves(step: nat -> nat, month: nat -> nat, day: nat -> nat, length: nat -> nat, months: nat, t: nat) {
    && (day(step(t)) == day(t) <==> day(t) <= length(month(t) + months))
    && (day(t) <= length(month(t) + months) ==> month(step(t)) == month(t) + months)
  }

  ghost predicate MovesBy(step: nat -> nat, month: nat -> nat, day: nat -> nat, length: nat -> nat, months: nat) {
    forall t: nat :: Moves(step, month, day, length, months, t)
  }

  /** The months that the steps lead to while the day is kept, evenly spaced. (They may be years as well.) */
  function Spaced(first: nat, apart: nat, k: nat): nat {
    first + k * apart
  }

  lemma OneFurther(first: nat, apart: nat, k: nat)
    ensures Spaced(first, apart, k + 1) == Spaced(first, apart, k) + apart && Spaced(first, apart, 0) == first
  {
    assert (k + 1) * apart == k * apart + apart;
  }

  predicate Repeats(length: nat -> nat, first: nat, apart: nat, period: nat, k: nat)
    requires period > 0
  {
    length(Spaced(first, apart, k)) == length(Spaced(first, apart, k % period))
  }

  /** The first so many of the spaced months are long enough for day d. */
  predicate LongEnough(d: nat, length: nat -> nat, first: nat, apart: nat, period: nat) {
    forall k :: 0 <= k < period ==> d <= length(Spaced(first, apart, k))
  }

  /** As long as the months have the day, n steps lead to the n-th month and to the same day in it, and conversely. */
  lemma {:induction false} IterateMoves(step: nat -> nat, month: nat -> nat, day: nat -> nat, length: nat -> nat,
                                        months: nat, t: nat, n: nat)
    requires MovesBy(step, month, day, length, months) && day(t) <= length(month(t))
    requires (forall k :: 0 <= k <= n ==> day(t) <= length(Spaced(month(t), months, k)))
             || (forall k :: 0 <= k <= n ==> day(Iterate(step, t, k)) == day(t))
    ensures month(Iterate(step, t, n)) == Spaced(month(t), months, n)
    ensures day(Iterate(step, t, n)) == day(t) <= length(Spaced(month(t), months, n))
  {
    if n > 0 {
      IterateMoves(step, month, day, length, months, t, n - 1);
      assert Moves(step, month, day, length, months, Iterate(step, t, n - 1));
      OneFurther(month(t), months, n - 1);
    } else {
      OneFurther(month(t), months, 0);
    }
  }

  /** Every number of steps keeps what f says of a time. */
  ghost predicate Keeps<T(!new)>(step: nat -> nat, f: nat -> T, t: nat) {
    forall n: nat :: f(Iterate(step, t, n)) == f(t)
  }

  /** The months' lengths repeat after a period, so that as many steps decide. */
  lemma KeptByEveryStep(step: nat -> nat, month: nat -> nat, day: nat -> nat, length: nat -> nat,
                        months: nat, t: nat, period: nat)
    requires MovesBy(step, month, day, length, months) && day(t) <= length(month(t)) && period > 0
    requires forall k: nat :: Repeats(length, month(t), months, period, k)
    ensures Keeps(step, day, t) <==> LongEnough(day(t), length, month(t), months, period)
  {
    if Keeps(step, day, t) {
      forall k | 0 <= k < period
        ensures day(t) <= length(Spaced(month(t), months, k))
      {
        IterateMoves(step, month, day, length, months, t, k);
      }
    } else {
      var n: nat :| day(Iterate(step, t, n)) != day(t);
      if LongEnough(day(t), length, month(t), months, period) {
        forall k | 0 <= k <= n
          ensures day(t) <= length(Spaced(month(t), months, k))
        {
          assert Repeats(length, month(t), months, period, k);
        }
        IterateMoves(step, month, day, length, months, t, n);
        assert false;
      }
    }
  }

  lemma MonthRuleMoves(interval: nat)
    ensures MovesBy(StepOf(Month, interval), MonthNumber, DayNumber, MonthLength, interval)
  {
    forall t: nat
      ensures Moves(StepOf(Month, interval), MonthNumber, DayNumber, MonthLength, interval, t)
    {
      MonthMove(t, interval);
    }
  }

  lemma MonthMove(t: nat, interval: nat)
    ensures var next, target := Step(t, Month, interval), MonthNumber(t) + interval;
            && (DayNumber(next) == DayNumber(t) <==> DayNumber(t) <= MonthLength(target))
            && (DayNumber(t) <= MonthLength(target) ==> MonthNumber(next) == target)
  {
    MonthStep(t, interval);
    DayKeptExactly(t / NANOS_PER_DAY, interval);
  }

  lemma LengthsRepeat(first: nat, apart: nat, k: nat)
    ensures Repeats(MonthLength, first, apart, MONTHS_OF_CALENDAR, k)
  {
    SplitProduct(k, apart, MONTHS_OF_CALENDAR);
    CalendarRepeats(first + k % MONTHS_OF_CALENDAR * apart, k / MONTHS_OF_CALENDAR * apart);
  }

  /** A month rule holds on to its anchor's day of the month, for ever, if and only if each of the first 4800 months
      that it comes to has that day. */
  lemma MonthRuleKeepsDayExactly(anchor: nat, interval: nat)
    ensures Keeps(StepOf(Month, interval), DayNumber, anchor)
            <==> LongEnough(DayNumber(anchor), MonthLength, MonthNumber(anchor), interval, MONTHS_OF_CALENDAR)
  {
    MonthRuleMoves(interval);
    forall k: nat
      ensures Repeats(MonthLength, MonthNumber(anchor), interval, MONTHS_OF_CALENDAR, k)
    {
      LengthsRepeat(MonthNumber(anchor), interval, k);
    }
    KeptByEveryStep(StepOf(Month, interval), MonthNumber, DayNumber, MonthLength, interval, anchor,
                    MONTHS_OF_CALENDAR);
  }

  /** Month rules hold on to their anchor's day of the month, for every interval and anchor, exactly for the days that
      every month has. */
  lemma MonthDayKeptExactly(d: nat)
    requires 1 <= d <= 31
    ensures d <= 28 <==>
            forall anchor: nat, interval: nat :: DayNumber(anchor) == d ==>
              Keeps(StepOf(Month, interval), DayNumber, anchor)
  {
    if d <= 28 {
      forall anchor: nat, interval: nat | DayNumber(anchor) == d
        ensures Keeps(StepOf(Month, interval), DayNumber, anchor)
      {
        MonthRuleKeepsDayExactly(anchor, interval);
      }
    } else {
      var anchor := LongDayDrifts(d);
      assert DayNumber(Iterate(StepOf(Month, 1), anchor, 1)) != d;
      assert !Keeps(StepOf(Month, 1), DayNumber, anchor);
    }
  }

  /** The 29th, 30th or 31st of a January before a common year's February. */
  lemma LongDayDrifts(d: nat) returns (anchor: nat)
    requires 28 < d <= 31
    ensures DayNumber(anchor) == d
    ensures DayNumber(Iterate(StepOf(Month, 1), anchor, 1)) != d
  {
    var day := MonthStart(12) + (d - 1);
    anchor := day * NANOS_PER_DAY;
    assert anchor / NANOS_PER_DAY == day;
    MonthOfIs(day, 12);
    DayKeptExactly(day, 1);
    MonthStep(anchor, 1);
    OneStep(StepOf(Month, 1), anchor);
  }

  lemma OneStep(step: nat -> nat, t: nat)
    ensures Iterate(step, t, 1) == step(t)
  {
    assert Iterate(step, t, 0) == t;
  }

  lemma MonthStep(t: nat, interval: nat)
    ensures Step(t, Month, interval) / NANOS_PER_DAY == AddToDay(t / NANOS_PER_DAY, interval, 0)
  {
    DayOfAddDate(t, 0, interval, 0);
  }

  // ---------- Year cycles ----------

  /** The month of the year and the day of the month that a time falls on. */
  function YearDate(t: nat): (nat, nat) {
    DateOf(t / NANOS_PER_DAY)
  }

  lemma YearStep(t: nat, interval: nat)
    ensures Step(t, Year, interval) / NANOS_PER_DAY == AddToDay(t / NANOS_PER_DAY, 12 * interval, 0)
  {
    DayOfAddDate(t, interval, 0, 0);
  }

  function YearNumber(t: nat): nat {
    MonthNumber(t) / 12
  }

  /** 1 on 29 February, and 0 on every other date */
  function LeapDays(t: nat): nat {
    if YearDate(t) == LEAP_DAY then 1 else 0
  }

  function LeapDaysOfYear(year: nat): nat {
    if IsLeap(year) then 1 else 0
  }

  lemma YearRuleMoves(interval: nat)
    ensures MovesBy(StepOf(Year, interval), YearNumber, LeapDays, LeapDaysOfYear, interval)
  {
    forall t: nat
      ensures Moves(StepOf(Year, interval), YearNumber, LeapDays, LeapDaysOfYear, interval, t)
    {
      YearMove(t, interval);
    }
  }

  lemma YearMove(t: nat, interval: nat)
    ensures var next, year := Step(t, Year, interval), YearNumber(t) + interval;
            && (YearDate(next) == LEAP_DAY <==> YearDate(t) == LEAP_DAY && IsLeap(year))
            && (YearDate(t) != LEAP_DAY || IsLeap(year) ==> YearNumber(next) == year)
  {
    YearStep(t, interval);
    YearsMove(t / NANOS_PER_DAY, interval);
  }

  lemma LeapDaysRepeat(first: nat, apart: nat, k: nat)
    ensures Repeats(LeapDaysOfYear, first, apart, YEARS_OF_CALENDAR, k)
  {
    SplitProduct(k, apart, YEARS_OF_CALENDAR);
    LeapYearsRepeat(first + k % YEARS_OF_CALENDAR * apart, k / YEARS_OF_CALENDAR * apart);
  }

  /** A year rule holds on to its anchor's date, for ever, if and only if the date is not 29 February or each of the
      first 400 years that the rule comes to is a leap year. */
  lemma YearRuleKeepsDateExactly(anchor: nat, interval: nat)
    ensures Keeps(StepOf(Year, interval), YearDate, anchor)
            <==> YearDate(anchor) != LEAP_DAY
                 || forall k :: 0 <= k < YEARS_OF_CALENDAR ==> IsLeap(Spaced(YearNumber(anchor), interval, k))
  {
    if YearDate(anchor) != LEAP_DAY {
      forall n: nat
        ensures YearDate(Iterate(StepOf(Year, interval), anchor, n)) == YearDate(anchor)
      {
        YearDateKept(anchor, interval, n);
      }
    } else {
      LeapDayRule(anchor, interval);
    }
  }

  lemma LeapDayRule(anchor: nat, interval: nat)
    requires YearDate(anchor) == LEAP_DAY
    ensures Keeps(StepOf(Year, interval), YearDate, anchor)
            <==> forall k :: 0 <= k < YEARS_OF_CALENDAR ==> IsLeap(Spaced(YearNumber(anchor), interval, k))
  {
    YearRuleMoves(interval);
    LeapDayInLeapYear(anchor / NANOS_PER_DAY);
    forall k: nat
      ensures Repeats(LeapDaysOfYear, YearNumber(anchor), interval, YEARS_OF_CALENDAR, k)
    {
      LeapDaysRepeat(YearNumber(anchor), interval, k);
    }
    KeptByEveryStep(StepOf(Year, interval), YearNumber, LeapDays, LeapDaysOfYear, interval, anchor,
                    YEARS_OF_CALENDAR);
  }

  lemma YearDateKept(anchor: nat, interval: nat, n: nat)
    requires YearDate(anchor) != LEAP_DAY
    ensures YearDate(Iterate(StepOf(Year, interval), anchor, n)) == YearDate(anchor)
  {
    forall x: nat | YearDate(x) == YearDate(anchor)
      ensures YearDate(StepOf(Year, interval)(x)) == YearDate(anchor)
    {
      YearStep(x, interval);
      YearsKeepDate(x / NANOS_PER_DAY, interval);
    }
    IterateKeeps(StepOf(Year, interval), YearDate, anchor, n);
  }

  /** A yearly cycle anchored on 29 February is on 1 March from its second start on, for ever. */
  lemma {:induction false} LeapDayDrifts(anchor: nat, n: nat)
    requires YearDate(anchor) == LEAP_DAY && n >= 1
    ensures YearDate(Iterate(StepOf(Year, 1), anchor, n)) == (2, 1)
  {
    if n == 1 {
      OneStep(StepOf(Year, 1), anchor);
      YearStep(anchor, 1);
      LeapDayMoves(anchor / NANOS_PER_DAY);
    } else {
      LeapDayDrifts(anchor, n - 1);
      var t := Iterate(StepOf(Year, 1), anchor, n - 1);
      YearStep(t, 1);
      YearsKeepDate(t / NANOS_PER_DAY, 1);
    }
  }

  /** Year rules hold on to their anchor's date, for every interval, exactly when it is not 29 February. */
  lemma YearDateKeptExactly(anchor: nat)
    ensures YearDate(anchor) != LEAP_DAY <==>
            forall interval: nat :: Keeps(StepOf(Year, interval), YearDate, anchor)
  {
    if YearDate(anchor) != LEAP_DAY {
      forall interval: nat
        ensures Keeps(StepOf(Year, interval), YearDate, anchor)
      {
        YearRuleKeepsDateExactly(anchor, interval);
      }
    } else {
      LeapDayDrifts(anchor, 1);
      assert YearDate(Iterate(StepOf(Year, 1), anchor, 1)) != YearDate(anchor);
      assert !Keeps(StepOf(Year, 1), YearDate, anchor);
    }
  }
}
