/** One monitor's thirty-day statistics: counts per day, totals kept up to date by differences, today's
    running counts, and the shift at midnight. */
module MonthlyStatus {
  import opened Arithmetic
  import opened Clock
  import opened Means
  import opened Sequences

  const DAYS := 30

  // ---------- What really happened ----------

  /** What was reported on one day. */
  datatype Tally = Tally(up: nat, down: nat, delays: real) {
    function Mean(): real {
      MeanOf(up, delays)
    }

    function Shown(): Slot {
      Slot(up, down, Mean())
    }
  }

  /** What one slot of the three arrays shows. */
  datatype Slot = Slot(up: nat, down: nat, delay: real)

  const NO_REPORTS := Tally(0, 0, 0.0)
  const EMPTY_SLOT := Slot(0, 0, 0.0)

  /** One day of the ledger: what was reported, and what the last refresh of that day showed. */
  datatype Day = Day(tally: Tally, shown: Slot)

  datatype Event = Report(successful: bool, delay: real) | LoadStats | Shift

  function Count(t: Tally, e: Event): Tally
    requires e.Report?
  {
    if e.successful then Tally(t.up + 1, t.down, t.delays + e.delay) else t.(down := t.down + 1)
  }

  /** The ledger's last day is today. */
  function Record(ledger: seq<Day>, e: Event): seq<Day>
    requires ledger != []
  {
    var past, today := ledger[..|ledger| - 1], ledger[|ledger| - 1];
    match e
    case Report(_, _) => past + [today.(tally := Count(today.tally, e))]
    case LoadStats => past + [today.(shown := today.tally.Shown())]
    case Shift => ledger + [Day(NO_REPORTS, EMPTY_SLOT)]
  }

  function SumUp(days: seq<Day>): nat {
    if days == [] then 0 else days[0].shown.up + SumUp(days[1..])
  }

  function SumDown(days: seq<Day>): nat {
    if days == [] then 0 else days[0].shown.down + SumDown(days[1..])
  }

  lemma {:induction false} SumAppend(a: seq<Day>, b: seq<Day>)
    ensures SumUp(a + b) == SumUp(a) + SumUp(b)
    ensures SumDown(a + b) == SumDown(a) + SumDown(b)
  {
    if a == [] {
      assert a + b == b;
    } else {
      SumAppend(a[1..], b);
      assert (a + b)[1..] == a[1..] + b;
    }
  }

  lemma {:induction false} SumsAre(days: seq<Day>, ups: seq<nat>, downs: seq<nat>)
    requires |days| == |ups| == |downs|
    requires forall i :: 0 <= i < |days| ==> days[i].shown.up == ups[i] && days[i].shown.down == downs[i]
    ensures SumUp(days) == SumOver(ups, Itself) && SumDown(days) == SumOver(downs, Itself)
  {
    if days != [] {
      SumsAre(days[1..], ups[1..], downs[1..]);
    }
  }

  /** The last thirty days of a ledger. */
  function Window(ledger: seq<Day>): seq<Day>
    requires |ledger| >= DAYS
  {
    ledger[|ledger| - DAYS..]
  }

  lemma WindowAfterShift(ledger: seq<Day>)
    requires |ledger| >= DAYS
    ensures Window(Record(ledger, Shift)) == Window(ledger)[1..] + [Day(NO_REPORTS, EMPTY_SLOT)]
    ensures SumUp(Window(Record(ledger, Shift))) == SumUp(Window(ledger)) - Window(ledger)[0].shown.up
    ensures SumDown(Window(Record(ledger, Shift))) == SumDown(Window(ledger)) - Window(ledger)[0].shown.down
  {
    SumAppend(Window(ledger)[1..], [Day(NO_REPORTS, EMPTY_SLOT)]);
  }

  lemma WindowAfterLoad(ledger: seq<Day>)
    requires |ledger| >= DAYS
    ensures var was, shown := Window(ledger), ledger[|ledger| - 1].tally.Shown();
            var now := Window(Record(ledger, LoadStats));
            && now == was[DAYS - 1 := was[DAYS - 1].(shown := shown)]
            && was[DAYS - 1].shown.up <= SumUp(was) && was[DAYS - 1].shown.down <= SumDown(was)
            && SumUp(now) == SumUp(was) - was[DAYS - 1].shown.up + shown.up
            && SumDown(now) == SumDown(was) - was[DAYS - 1].shown.down + shown.down
  {
    var was, now := Window(ledger), Window(Record(ledger, LoadStats));
    assert was == was[..DAYS - 1] + [was[DAYS - 1]];
    assert now == was[..DAYS - 1] + [now[DAYS - 1]];
    SumAppend(was[..DAYS - 1], [was[DAYS - 1]]);
    SumAppend(was[..DAYS - 1], [now[DAYS - 1]]);
  }

  lemma WindowAfterReport(ledger: seq<Day>, e: Event)
    requires |ledger| >= DAYS && e.Report?
    ensures forall i :: 0 <= i < DAYS ==> Window(Record(ledger, e))[i].shown == Window(ledger)[i].shown
    ensures SumUp(Window(Record(ledger, e))) == SumUp(Window(ledger))
    ensures SumDown(Window(Record(ledger, e))) == SumDown(Window(ledger))
  {
    SumsOfSameSlots(Window(ledger), Window(Record(ledger, e)));
  }

  lemma {:induction false} SumsOfSameSlots(a: seq<Day>, b: seq<Day>)
    requires |a| == |b| && forall i :: 0 <= i < |a| ==> a[i].shown == b[i].shown
    ensures SumUp(a) == SumUp(b) && SumDown(a) == SumDown(b)
  {
    if a != [] {
      SumsOfSameSlots(a[1..], b[1..]);
    }
  }

  class ServiceItem {
    const up: array<nat>
    const down: array<nat>
    const delay: array<real>
    var totalUp: nat
    var totalDown: nat
    var todayUp: nat
    var todayDown: nat
    var todayDelay: real
    ghost var ledger: seq<Day>

    /** The slots show the last thirty days of the ledger, the totals are the sums of the slots, and today's
        counts are the ledger's. */
    ghost predicate Valid()
      reads this, up, down, delay
    {
      && up != down && up.Length == down.Length == delay.Length == DAYS
      && |ledger| >= DAYS
      && (forall i :: 0 <= i < DAYS ==> Slot(up[i], down[i], delay[i]) == Window(ledger)[i].shown)
      && totalUp == SumUp(Window(ledger)) && totalDown == SumDown(Window(ledger))
      && (var today := ledger[|ledger| - 1].tally;
          && todayUp == today.up && todayDown == today.down && todayDelay == today.Mean()
          && (today.up == 0 ==> today.delays == 0.0))
    }

    /** Starts from the stored records of the last days: each slot shows the records that fall into it. The code
        would index past the slots for records from the day after tomorrow on. */
    constructor LoadMonitorHistory(records: seq<History>, today: nat)
      requires forall h :: h in records ==> h.createdAt < today + 2 * NANOS_PER_DAY
      ensures Valid() && ledger == LoadedLedger(records, today)
    {
      up := new nat[DAYS](_ => 0);
      down := new nat[DAYS](_ => 0);
      delay := new real[DAYS](_ => 0.0);
      totalUp, totalDown := 0, 0;
      todayUp, todayDown, todayDelay := 0, 0, 0.0;
      ledger := [];
      new;
      SumsOfEmpty(Showing(SlotSums([], today)));
      AddRecords(records, today);
      LoadedShows(records, today);
      ledger := LoadedLedger(records, today);
    }

    /** The loop over the records. */
    method AddRecords(records: seq<History>, today: nat)
      requires forall h :: h in records ==> h.createdAt < today + 2 * NANOS_PER_DAY
      requires Loaded(SlotSums([], today), map[])
      modifies this, up, down, delay
      ensures exists delayCount :: Loaded(SlotSums(records, today), delayCount)
    {
      var delayCount: map<int, nat> := map[];
      for n := 0 to |records|
        invariant Loaded(SlotSums(records[..n], today), delayCount)
      {
        assert records[..n + 1] == records[..n] + [records[n]];
        SlotSumsStep(records[..n], records[n], today);
        delayCount := AddRecord(records[n], DayIndex(today, records[n].createdAt), delayCount,
                                SlotSums(records[..n], today));
      }
      assert records[..|records|] == records;
    }

    /** Adds one stored record to its slot; delayCount says how many delays each slot's mean is taken over. */
    method AddRecord(h: History, dayIndex: int, delayCount: map<int, nat>, ghost sums: seq<SlotSum>)
      returns (counts: map<int, nat>)
      requires Loaded(sums, delayCount) && dayIndex < DAYS
      modifies this, up, down, delay
      ensures Loaded(if dayIndex < 0 then sums else sums[dayIndex := sums[dayIndex].Plus(h)], counts)
    {
      counts := delayCount;
      if dayIndex < 0 {
        return;
      }
      if h.up > 0 && h.avgDelay > 0.0 {
        var seen := if dayIndex in delayCount then delayCount[dayIndex] else 0;
        delay[dayIndex] := AddToMean(delay[dayIndex], seen, h.avgDelay, sums[dayIndex].delays);
        counts := delayCount[dayIndex := seen + 1];
      }
      up[dayIndex] := up[dayIndex] + h.up;
      totalUp := totalUp + h.up;
      down[dayIndex] := down[dayIndex] + h.down;
      totalDown := totalDown + h.down;
      TotalsAfterPlus(sums, dayIndex, h);
    }

    ghost predicate Loaded(sums: seq<SlotSum>, delayCount: map<int, nat>)
      reads this, up, down, delay
    {
      && up != down && up.Length == down.Length == delay.Length == |sums| == DAYS
      && totalUp == SumUp(Showing(sums)) && totalDown == SumDown(Showing(sums))
      && todayUp == todayDown == 0 && todayDelay == 0.0
      && forall i :: 0 <= i < DAYS ==>
           && Slot(up[i], down[i], delay[i]) == sums[i].Shown()
           && (if i in delayCount then delayCount[i] else 0) == sums[i].count
           && (sums[i].count == 0 ==> sums[i].delays == 0.0)
    }

    /** One report of the monitor counts for today. */
    method HandleReport(successful: bool, mhDelay: real)
      requires Valid()
      modifies this
      ensures Valid() && ledger == Record(old(ledger), Report(successful, mhDelay))
    {
      ghost var was := ledger[|ledger| - 1].tally;
      if successful {
        todayDelay := AddToMean(todayDelay, todayUp, mhDelay, was.delays);
        todayUp := todayUp + 1;
      } else {
        todayDown := todayDown + 1;
      }
      WindowAfterReport(ledger, Report(successful, mhDelay));
      ledger := Record(ledger, Report(successful, mhDelay));
    }

    /** Brings today's slot and the totals up to date; what today's slot showed before is taken off first. */
    method LoadStats()
      requires Valid()
      modifies this, up, down, delay
      ensures Valid() && ledger == Record(old(ledger), Event.LoadStats)
    {
      WindowAfterLoad(ledger);
      totalUp := totalUp - up[DAYS - 1];
      totalDown := totalDown - down[DAYS - 1];
      totalUp := totalUp + todayUp;
      totalDown := totalDown + todayDown;
      up[DAYS - 1], down[DAYS - 1], delay[DAYS - 1] := todayUp, todayDown, todayDelay;
      ledger := Record(ledger, Event.LoadStats);
    }

    /** The locked part of the midnight job: every slot moves one day back. */
    method ShiftDay()
      requires Valid()
      modifies this, up, down, delay
      ensures Valid() && ledger == Record(old(ledger), Shift)
    {
      WindowAfterShift(ledger);
      ShiftSlots(Window(ledger));
      todayUp, todayDown, todayDelay := 0, 0, 0.0;
      ledger := Record(ledger, Shift);
    }

    /** The loop over the slots; the totals lose the first one. */
    method ShiftSlots(ghost was: seq<Day>)
      requires up != down && up.Length == down.Length == delay.Length == |was| == DAYS
      requires forall i :: 0 <= i < DAYS ==> Slot(up[i], down[i], delay[i]) == was[i].shown
      requires totalUp == SumUp(was) && totalDown == SumDown(was)
      modifies this`totalUp, this`totalDown, up, down, delay
      ensures forall i :: 0 <= i < DAYS - 1 ==> Slot(up[i], down[i], delay[i]) == was[i + 1].shown
      ensures Slot(up[DAYS - 1], down[DAYS - 1], delay[DAYS - 1]) == EMPTY_SLOT
      ensures totalUp == SumUp(was) - was[0].shown.up && totalDown == SumDown(was) - was[0].shown.down
    {
      for i := 0 to DAYS - 1
        invariant forall j :: 0 <= j < i ==> Slot(up[j], down[j], delay[j]) == was[j + 1].shown
        invariant forall j :: i <= j < DAYS ==> Slot(up[j], down[j], delay[j]) == was[j].shown
        invariant totalUp == SumUp(was) - if i == 0 then 0 else was[0].shown.up
        invariant totalDown == SumDown(was) - if i == 0 then 0 else was[0].shown.down
      {
        if i == 0 {
          totalDown := totalDown - down[i];
          totalUp := totalUp - up[i];
        }
        up[i], down[i], delay[i] := up[i + 1], down[i + 1], delay[i + 1];
      }
      up[DAYS - 1], down[DAYS - 1], delay[DAYS - 1] := 0, 0, 0.0;
    }

    /** The totals are the sums of the slots. */
    lemma TotalsAreSums()
      requires Valid()
      ensures totalUp == SumOver(up[..], Itself) && totalDown == SumOver(down[..], Itself)
    {
      SumsAre(Window(ledger), up[..], down[..]);
    }

    method HandleReports(reports: seq<Event>)
      requires Valid() && forall e :: e in reports ==> e.Report?
      modifies this
      ensures Valid() && ledger == Play(old(ledger), reports)
    {
      for i := 0 to |reports|
        invariant Valid() && ledger == Play(old(ledger), reports[..i])
      {
        HandleReport(reports[i].successful, reports[i].delay);
        PlayStep(old(ledger), reports, i);
      }
      assert reports[..|reports|] == reports;
    }

    /** The midnight job. Between its two parts the lock is free, and reports may come in. */
    method RefreshMonthlyServiceStatus(between: seq<Event>)
      requires Valid() && forall e :: e in between ==> e.Report?
      modifies this, up, down, delay
      ensures Valid() && ledger == Play(old(ledger), [Event.LoadStats] + between + [Shift])
    {
      LoadStats();
      HandleReports(between);
      ShiftDay();
      MidnightIs(old(ledger), between);
    }
  }

  // ---------- Whole runs ----------

  function Play(ledger: seq<Day>, events: seq<Event>): (r: seq<Day>)
    requires ledger != []
    ensures |r| >= |ledger|
    decreases |events|
  {
    if events == [] then ledger else Play(Record(ledger, events[0]), events[1..])
  }

  lemma {:induction false} PlayConcat(ledger: seq<Day>, a: seq<Event>, b: seq<Event>)
    requires ledger != []
    ensures Play(ledger, a + b) == Play(Play(ledger, a), b)
    decreases |a|
  {
    if a == [] {
      assert a + b == b;
    } else {
      PlayConcat(Record(ledger, a[0]), a[1..], b);
      assert (a + b)[1..] == a[1..] + b;
    }
  }

  lemma PlayOne(ledger: seq<Day>, e: Event)
    requires ledger != []
    ensures Play(ledger, [e]) == Record(ledger, e)
  {
    assert Play(Record(ledger, e), []) == Record(ledger, e);
  }

  lemma PlayStep(ledger: seq<Day>, events: seq<Event>, i: nat)
    requires ledger != [] && i < |events|
    ensures Play(ledger, events[..i + 1]) == Record(Play(ledger, events[..i]), events[i])
  {
    assert events[..i + 1] == events[..i] + [events[i]];
    PlayConcat(ledger, events[..i], [events[i]]);
    PlayOne(Play(ledger, events[..i]), events[i]);
  }

  lemma MidnightIs(ledger: seq<Day>, between: seq<Event>)
    requires ledger != []
    ensures Play(ledger, [Event.LoadStats] + between + [Shift])
            == Record(Play(Record(ledger, Event.LoadStats), between), Shift)
  {
    PlayConcat(ledger, [Event.LoadStats] + between, [Shift]);
    PlayConcat(ledger, [Event.LoadStats], between);
    PlayOne(ledger, Event.LoadStats);
    PlayOne(Play(ledger, [Event.LoadStats] + between), Shift);
  }

  /** The slot of a day shows exactly what was reported on it. */
  predicate Exact(d: Day) {
    d.shown == d.tally.Shown()
  }

  /** Whether a report of today is not shown yet. */
  function StillUnshown(unshown: bool, e: Event): bool {
    e.Report?
  }

  /** Every shift follows a refresh with no report in between. */
  predicate ShiftsFollowRefresh(unshown: bool, events: seq<Event>)
    decreases |events|
  {
    events == [] ||
    ((events[0].Shift? ==> !unshown) && ShiftsFollowRefresh(StillUnshown(unshown, events[0]), events[1..]))
  }

  /** Today's slot lags behind exactly while a report is unshown. */
  predicate TodayIs(today: Day, unshown: bool) {
    if unshown then today.shown.up + today.shown.down < today.tally.up + today.tally.down else Exact(today)
  }

  /** All days finished from position n on show exactly their reports. */
  predicate FinishedExact(ledger: seq<Day>, n: nat) {
    forall i :: n <= i < |ledger| - 1 ==> Exact(ledger[i])
  }

  /** All days that finish during a run show exactly their reports exactly when no report arrives between the
      midnight refresh and the shift that follows it. */
  lemma {:induction false} FinishedDaysExactly(ledger: seq<Day>, unshown: bool, events: seq<Event>)
    requires ledger != [] && TodayIs(ledger[|ledger| - 1], unshown)
    ensures FinishedExact(Play(ledger, events), |ledger| - 1) <==> ShiftsFollowRefresh(unshown, events)
    decreases |events|
  {
    if events != [] {
      var n, next := |ledger| - 1, Record(ledger, events[0]);
      if events[0].Shift? {
        PastIsKept(next, events[1..], n);
      }
      if !(events[0].Shift? && unshown) {
        FinishedDaysExactly(next, StillUnshown(unshown, events[0]), events[1..]);
      }
    }
  }

  // ---------- Each report once in its day ----------

  /** The results reported on each day of a run; the last day is the one it ends on. */
  function DaysOf(events: seq<Event>): (days: seq<seq<Result>>)
    ensures days != []
  {
    if events == [] then [[]] else MoreDays(DaysOf(events[..|events| - 1]), events[|events| - 1])
  }

  function MoreDays(days: seq<seq<Result>>, e: Event): (more: seq<seq<Result>>)
    requires days != []
    ensures more != []
  {
    match e
    case Report(successful, delay) =>
      days[..|days| - 1] + [days[|days| - 1] + [Result(successful, delay)]]
    case LoadStats => days
    case Shift => days + [[]]
  }

  function CountsOf(results: seq<Result>): Tally {
    Tally(Ups(results), Downs(results), Delays(results))
  }

  /** From the first-th day on, the tallies are the counts of the days' results. */
  ghost predicate CountsDays(ledger: seq<Day>, first: nat, days: seq<seq<Result>>, counts: seq<Result> -> Tally) {
    && |ledger| == first + |days|
    && forall i :: first <= i < |ledger| ==> ledger[i].tally == counts(days[i - first])
  }

  /** A report adds to the counts of the results before it what it adds to a tally. */
  predicate CountsOne(counts: seq<Result> -> Tally, results: seq<Result>, e: Event) {
    e.Report? ==> counts(results + [Result(e.successful, e.delay)]) == Count(counts(results), e)
  }

  lemma CountsMoreDays(ledger: seq<Day>, first: nat, days: seq<seq<Result>>, e: Event, counts: seq<Result> -> Tally)
    requires days != [] && CountsDays(ledger, first, days, counts) && counts([]) == NO_REPORTS
    requires CountsOne(counts, days[|days| - 1], e)
    ensures CountsDays(Record(ledger, e), first, MoreDays(days, e), counts)
  {
  }

  lemma {:induction false} LedgerCounts(ledger: seq<Day>, events: seq<Event>, counts: seq<Result> -> Tally)
    requires ledger != [] && ledger[|ledger| - 1].tally == NO_REPORTS == counts([])
    requires forall results, e :: CountsOne(counts, results, e)
    ensures CountsDays(Play(ledger, events), |ledger| - 1, DaysOf(events), counts)
  {
    if events != [] {
      var n := |events| - 1;
      LedgerCounts(ledger, events[..n], counts);
      PlayStep(ledger, events, n);
      assert events[..n + 1] == events;
      CountsMoreDays(Play(ledger, events[..n]), |ledger| - 1, DaysOf(events[..n]), events[n], counts);
    }
  }

  /** Over any run from the start of a day, every day's tally is the counts of the results reported on it. */
  lemma EveryReportInItsDay(ledger: seq<Day>, events: seq<Event>)
    requires ledger != [] && ledger[|ledger| - 1].tally == NO_REPORTS
    ensures CountsDays(Play(ledger, events), |ledger| - 1, DaysOf(events), CountsOf)
  {
    forall results: seq<Result>, e: Event
      ensures CountsOne(CountsOf, results, e)
    {
      if e.Report? {
        CountOne(results, Result(e.successful, e.delay));
      }
    }
    LedgerCounts(ledger, events, CountsOf);
  }

  /** Where every shift follows a refresh, the slot of every finished day shows how many of the day's results were
      successes and failures, and the mean delay of the successes. */
  lemma FinishedDaysShowTheirReports(ledger: seq<Day>, events: seq<Event>, k: nat)
    requires ledger != [] && ledger[|ledger| - 1] == Day(NO_REPORTS, EMPTY_SLOT)
    requires ShiftsFollowRefresh(false, events) && k < |DaysOf(events)| - 1
    ensures |Play(ledger, events)| == |ledger| - 1 + |DaysOf(events)|
    ensures Play(ledger, events)[|ledger| - 1 + k].shown
            == Slot(Ups(DaysOf(events)[k]), Downs(DaysOf(events)[k]), MeanDelay(DaysOf(events)[k]))
  {
    EveryReportInItsDay(ledger, events);
    FinishedDaysExactly(ledger, false, events);
    assert Exact(Play(ledger, events)[|ledger| - 1 + k]);
  }

  /** After a refresh, today's slot shows today's results. */
  lemma RefreshShowsToday(ledger: seq<Day>, events: seq<Event>)
    requires ledger != [] && ledger[|ledger| - 1].tally == NO_REPORTS
    ensures var days, now := DaysOf(events), Play(ledger, events + [Event.LoadStats]);
            var today := days[|days| - 1];
            now[|now| - 1].shown == Slot(Ups(today), Downs(today), MeanDelay(today))
  {
    EveryReportInItsDay(ledger, events);
    PlayConcat(ledger, events, [Event.LoadStats]);
    PlayOne(Play(ledger, events), Event.LoadStats);
  }

  /** A finished day never changes. */
  lemma {:induction false} PastIsKept(ledger: seq<Day>, events: seq<Event>, i: nat)
    requires i < |ledger| - 1
    ensures Play(ledger, events)[i] == ledger[i]
    decreases |events|
  {
    if events != [] {
      PastIsKept(Record(ledger, events[0]), events[1..], i);
    }
  }

  // ---------- Loading at start-up ----------

  /** A stored record of the monitor: counts and mean delay over some stretch of time. */
  datatype History = History(createdAt: nat, up: nat, down: nat, avgDelay: real)

  /** The slot that a stored record is added to; today is the midnight that began the current day. */
  function DayIndex(today: nat, createdAt: nat): int {
    28 - TruncatedQuotient(TruncatedQuotient(today - createdAt, NANOS_PER_HOUR), 24)
  }

  /** A record of the day that began d days before today's midnight lands in the slot of that day exactly if
      the day is over and the record was not made on the stroke of its midnight: today's records are added to
      yesterday's slot, and midnight's to the slot of the day before. */
  lemma DayIndexExact(today: nat, createdAt: nat, d: nat)
    requires today - d * NANOS_PER_DAY <= createdAt < today - d * NANOS_PER_DAY + NANOS_PER_DAY
    ensures DayIndex(today, createdAt) == DAYS - 1 - d <==> d >= 1 && createdAt != today - d * NANOS_PER_DAY
    ensures d == 0 ==> DayIndex(today, createdAt) == DAYS - 2
    ensures d >= 1 && createdAt == today - d * NANOS_PER_DAY ==> DayIndex(today, createdAt) == DAYS - 2 - d
  {
    if d == 0 {
      assert 0 <= createdAt - today < 24 * NANOS_PER_HOUR;
    } else {
      var age: nat := today - createdAt;
      var hours := age / NANOS_PER_HOUR;
      assert 24 * (d - 1) * NANOS_PER_HOUR < age <= 24 * d * NANOS_PER_HOUR;
      assert 24 * (d - 1) <= hours <= 24 * d;
      QuotientIs(hours, 24, if hours == 24 * d then d else d - 1);
    }
  }

  /** What the records of one slot add up to; count and delays are for the mean of their mean delays. */
  datatype SlotSum = SlotSum(up: nat, down: nat, count: nat, delays: real) {
    function Plus(h: History): SlotSum {
      if h.up > 0 && h.avgDelay > 0.0 then SlotSum(up + h.up, down + h.down, count + 1, delays + h.avgDelay)
      else SlotSum(up + h.up, down + h.down, count, delays)
    }

    function Shown(): Slot {
      Slot(up, down, MeanOf(count, delays))
    }
  }

  const NO_SUM := SlotSum(0, 0, 0, 0.0)

  function Total(records: seq<History>): (sum: SlotSum)
    ensures sum.count == 0 ==> sum.delays == 0.0
  {
    if records == [] then NO_SUM else Total(records[..|records| - 1]).Plus(records[|records| - 1])
  }

  function InSlot(today: nat, slot: nat): History -> bool {
    (h: History) => DayIndex(today, h.createdAt) == slot
  }

  /** The records that are added to a slot. */
  function RecordsOfSlot(records: seq<History>, today: nat, slot: nat): seq<History> {
    Select(records, InSlot(today, slot))
  }

  function SumOfSlot(records: seq<History>, today: nat, slot: nat): SlotSum {
    Total(RecordsOfSlot(records, today, slot))
  }

  function SlotSums(records: seq<History>, today: nat): seq<SlotSum> {
    seq(DAYS, i requires 0 <= i < DAYS => SumOfSlot(records, today, i))
  }

  lemma SlotSumsStep(records: seq<History>, h: History, today: nat)
    requires h.createdAt < today + 2 * NANOS_PER_DAY
    ensures var sums, i := SlotSums(records, today), DayIndex(today, h.createdAt);
            && i < DAYS
            && SlotSums(records + [h], today) == if i < 0 then sums else sums[i := sums[i].Plus(h)]
  {
    DayIndexInRange(today, h.createdAt);
    forall i | 0 <= i < DAYS
      ensures SumOfSlot(records + [h], today, i)
              == if DayIndex(today, h.createdAt) == i then SumOfSlot(records, today, i).Plus(h)
                 else SumOfSlot(records, today, i)
    {
      SelectOneMore(records, h, InSlot(today, i));
      var of := RecordsOfSlot(records, today, i);
      assert (of + [h])[..|of|] == of;
    }
  }

  lemma DayIndexInRange(today: nat, createdAt: nat)
    requires createdAt < today + 2 * NANOS_PER_DAY
    ensures DayIndex(today, createdAt) < DAYS
  {
  }

  /** A record tells a delay. */
  predicate Measured(h: History) {
    h.up > 0 && h.avgDelay > 0.0
  }

  function UpOf(h: History): nat {
    h.up
  }

  function DownOf(h: History): nat {
    h.down
  }

  /** All records of a slot count towards the Up and Down that it shows, and only those that tell a delay towards its
      delay. */
  lemma SlotShows(records: seq<History>)
    ensures var shown, measured := Total(records).Shown(), Select(records, Measured);
            && shown.up == SumOver(records, UpOf) && shown.down == SumOver(records, DownOf)
            && shown.delay == Total(measured).Shown().delay && (measured == [] ==> shown.delay == 0.0)
  {
    TotalIs(records);
  }

  lemma TotalOfMore(records: seq<History>, h: History)
    ensures Total(records + [h]) == Total(records).Plus(h)
    ensures TallyOf(records + [h]).up == TallyOf(records).up + h.up
    ensures TallyOf(records + [h]).delays == TallyOf(records).delays + h.up as real * h.avgDelay
  {
    assert (records + [h])[..|records|] == records;
  }

  predicate SumsMeasured(records: seq<History>) {
    var sum, measured := Total(records), Select(records, Measured);
    && sum.up == SumOver(records, UpOf) && sum.down == SumOver(records, DownOf)
    && sum.count == |measured| == Total(measured).count && sum.delays == Total(measured).delays
  }

  lemma SumsOneMore(records: seq<History>, h: History)
    requires SumsMeasured(records)
    ensures SumsMeasured(records + [h])
  {
    var more := records + [h];
    assert more[..|records|] == records;
    SumOverLast(more, UpOf);
    SumOverLast(more, DownOf);
    TotalOfMore(records, h);
    SelectOneMore(records, h, Measured);
    TotalOfMore(Select(records, Measured), h);
  }

  lemma {:induction false} TotalIs(records: seq<History>)
    ensures SumsMeasured(records)
  {
    if records != [] {
      var n := |records| - 1;
      TotalIs(records[..n]);
      SumsOneMore(records[..n], records[n]);
      assert records[..n] + [records[n]] == records;
    }
  }

  // ---------- Whose records a slot takes ----------

  /** The day that a time lies in: d days before the day that began at today. */
  function DayOf(today: nat, createdAt: nat): (d: int)
    ensures today - d * NANOS_PER_DAY <= createdAt < today - d * NANOS_PER_DAY + NANOS_PER_DAY
  {
    if createdAt >= today then -((createdAt - today) / NANOS_PER_DAY) else (today - createdAt - 1) / NANOS_PER_DAY + 1
  }

  function OnDay(today: nat, d: int): History -> bool {
    (h: History) => DayOf(today, h.createdAt) == d
  }

  function RecordsOfDay(records: seq<History>, today: nat, d: int): seq<History> {
    Select(records, OnDay(today, d))
  }

  /** What was reported on one day, as far as its records tell. */
  function TallyOf(records: seq<History>): (t: Tally)
    ensures t.up == Total(records).up && t.down == Total(records).down
  {
    if records == [] then NO_REPORTS
    else
      var t, h := TallyOf(records[..|records| - 1]), records[|records| - 1];
      Tally(t.up + h.up, t.down + h.down, t.delays + h.up as real * h.avgDelay)
  }

  /** The ledger after loading: each past day's records, and the slot as it is shown. */
  function LoadedLedger(records: seq<History>, today: nat): (ledger: seq<Day>)
    ensures |ledger| == DAYS
  {
    seq(DAYS, i requires 0 <= i < DAYS =>
      Day(if i < DAYS - 1 then TallyOf(RecordsOfDay(records, today, DAYS - 1 - i)) else NO_REPORTS,
          SumOfSlot(records, today, i).Shown()))
  }

  /** The loaded ledger shows what the slots hold. */
  lemma LoadedShows(records: seq<History>, today: nat)
    ensures var sums, ledger := SlotSums(records, today), LoadedLedger(records, today);
            && Window(ledger) == ledger
            && (forall i :: 0 <= i < DAYS ==> ledger[i].shown == sums[i].Shown())
            && SumUp(ledger) == SumUp(Showing(sums)) && SumDown(ledger) == SumDown(Showing(sums))
  {
    SumsOfSameSlots(Showing(SlotSums(records, today)), LoadedLedger(records, today));
  }

  /** A record that is not of today and was not made on the stroke of a midnight of the last days. */
  predicate WellTimed(today: nat, createdAt: nat) {
    && !(today <= createdAt < today + NANOS_PER_DAY)
    && !(0 < today - createdAt <= (DAYS - 1) * NANOS_PER_DAY && (today - createdAt) % NANOS_PER_DAY == 0)
  }

  /** Every slot of a past day takes exactly the records of its day. */
  ghost predicate SlotsTakeTheirDays(records: seq<History>, today: nat) {
    forall i :: 0 <= i < DAYS - 1 ==> RecordsOfSlot(records, today, i) == RecordsOfDay(records, today, DAYS - 1 - i)
  }

  /** Loading puts every past day's records, and no others, into its slot if and only if no record is of today or
      from the stroke of a midnight. */
  lemma LoadedSlotsExactly(records: seq<History>, today: nat)
    requires forall h :: h in records ==> h.createdAt < today + 2 * NANOS_PER_DAY
    ensures SlotsTakeTheirDays(records, today) <==> forall h :: h in records ==> WellTimed(today, h.createdAt)
  {
    if forall h :: h in records ==> WellTimed(today, h.createdAt) {
      forall i | 0 <= i < DAYS - 1
        ensures RecordsOfSlot(records, today, i) == RecordsOfDay(records, today, DAYS - 1 - i)
      {
        WellTimedSlot(records, today, i);
      }
    } else {
      var h :| h in records && !WellTimed(today, h.createdAt);
      var i := IllTimedMisfits(today, h.createdAt);
      MisfitShows(records, today, h, i);
    }
  }

  /** Where every slot takes its own day's records, the loaded counts are those of the day. */
  lemma LoadedCountsAreTheDays(records: seq<History>, today: nat, i: nat)
    requires SlotsTakeTheirDays(records, today) && i < DAYS - 1
    ensures var day := LoadedLedger(records, today)[i];
            day.shown.up == day.tally.up && day.shown.down == day.tally.down
  {
    assert RecordsOfSlot(records, today, i) == RecordsOfDay(records, today, DAYS - 1 - i);
  }

  // ---------- The mean of means ----------

  /** Records of the given numbers of successes; each has some, and a positive mean delay. */
  predicate Successes(records: seq<History>, ups: seq<nat>) {
    && |records| == |ups|
    && forall i :: 0 <= i < |ups| ==> records[i].up == ups[i] > 0 && records[i].avgDelay > 0.0
  }

  /** What a loaded slot shows as its delay is the mean delay of the reports behind its records, whatever their delays
      are, if and only if all records have equally many successes. */
  lemma PlainMeanExactly(ups: seq<nat>)
    requires ups != [] && forall i :: 0 <= i < |ups| ==> ups[i] > 0
    ensures (forall records :: Successes(records, ups) ==> Total(records).Shown().delay == TallyOf(records).Mean())
            <==> forall i :: 0 <= i < |ups| ==> ups[i] == ups[0]
  {
    if forall i :: 0 <= i < |ups| ==> ups[i] == ups[0] {
      forall records | Successes(records, ups)
        ensures Total(records).Shown().delay == TallyOf(records).Mean()
      {
        EvenSums(records, ups[0]);
        EvenMean(|ups|, ups[0], Total(records).delays);
      }
    } else {
      var i :| 0 <= i < |ups| && ups[i] != ups[0];
      var records := OneIsUneven(ups, i);
    }
  }

  lemma OneIsUneven(ups: seq<nat>, i: nat) returns (records: seq<History>)
    requires i < |ups| && ups[i] != ups[0] && forall j :: 0 <= j < |ups| ==> ups[j] > 0
    ensures Successes(records, ups) && Total(records).Shown().delay != TallyOf(records).Mean()
  {
    SingledOutMeans(ups, 0);
    SingledOutMeans(ups, i);
    SumIsPositive(ups, |ups|);
    UnevenMeans(|ups|, Sum(ups, |ups|), ups[0], ups[i]);
    records := SingledOut(ups, 0, |ups|);
    if Total(records).Shown().delay == TallyOf(records).Mean() {
      records := SingledOut(ups, i, |ups|);
    }
  }

  function Times(n: nat, u: nat): nat {
    n * u
  }

  function Scaled(u: nat, d: real): real {
    u as real * d
  }

  /** Totals of records with u successes each. */
  predicate Even(records: seq<History>, u: nat) {
    && Total(records).count == |records| && TallyOf(records).up == Times(|records|, u)
    && TallyOf(records).delays == Scaled(u, Total(records).delays)
  }

  lemma EvenOneMore(records: seq<History>, h: History, u: nat)
    requires Even(records, u) && h.up == u > 0 && h.avgDelay > 0.0
    ensures Even(records + [h], u)
  {
    TotalOfMore(records, h);
    Distributes(|records|, u, Total(records).delays, h.avgDelay);
  }

  lemma {:induction false} EvenSums(records: seq<History>, u: nat)
    requires forall h :: h in records ==> h.up == u > 0 && h.avgDelay > 0.0
    ensures Even(records, u)
  {
    if records != [] {
      var n := |records| - 1;
      EvenSums(records[..n], u);
      EvenOneMore(records[..n], records[n], u);
      assert records[..n] + [records[n]] == records;
    }
  }

  lemma Distributes(n: nat, u: nat, d: real, a: real)
    ensures Times(n + 1, u) == Times(n, u) + u && Scaled(u, d + a) == Scaled(u, d) + u as real * a
  {
  }

  lemma EvenMean(n: nat, u: nat, d: real)
    requires n > 0 && u > 0
    ensures MeanOf(n, d) == MeanOf(Times(n, u), Scaled(u, d))
  {
    assert Times(n, u) as real == n as real * u as real;
  }

  /** The first n records when the i-th one has mean delay 2 and the others have 1. */
  function SingledOut(ups: seq<nat>, i: nat, n: nat): (records: seq<History>)
    requires n <= |ups|
    ensures |records| == n
  {
    seq(n, j requires 0 <= j < n => History(0, ups[j], 0, if j == i then 2.0 else 1.0))
  }

  function Sum(ups: seq<nat>, n: nat): nat
    requires n <= |ups|
  {
    if n == 0 then 0 else Sum(ups, n - 1) + ups[n - 1]
  }

  predicate SingledSums(ups: seq<nat>, i: nat, n: nat)
    requires i < |ups| && n <= |ups|
  {
    var records := SingledOut(ups, i, n);
    && Total(records).count == n && TallyOf(records).up == Sum(ups, n)
    && Total(records).delays == n as real + (if i < n then 1.0 else 0.0)
    && TallyOf(records).delays == Sum(ups, n) as real + (if i < n then ups[i] as real else 0.0)
  }

  lemma SingledOneMore(ups: seq<nat>, i: nat, n: nat)
    requires i < |ups| && n < |ups| && ups[n] > 0 && SingledSums(ups, i, n)
    ensures SingledSums(ups, i, n + 1)
  {
    var h := History(0, ups[n], 0, if n == i then 2.0 else 1.0);
    assert SingledOut(ups, i, n + 1) == SingledOut(ups, i, n) + [h];
    TotalOfMore(SingledOut(ups, i, n), h);
  }

  lemma {:induction false} SingledOutSums(ups: seq<nat>, i: nat, n: nat)
    requires i < |ups| && n <= |ups| && forall j :: 0 <= j < |ups| ==> ups[j] > 0
    ensures SingledSums(ups, i, n)
  {
    if n > 0 {
      SingledOutSums(ups, i, n - 1);
      SingledOneMore(ups, i, n - 1);
    }
  }

  lemma SumIsPositive(ups: seq<nat>, n: nat)
    requires n <= |ups| && forall j :: 0 <= j < |ups| ==> ups[j] > 0
    ensures Sum(ups, n) >= n
  {
  }

  lemma SingledOutMeans(ups: seq<nat>, i: nat)
    requires i < |ups| && forall j :: 0 <= j < |ups| ==> ups[j] > 0
    ensures var records, n, sum := SingledOut(ups, i, |ups|), |ups|, Sum(ups, |ups|);
            && Total(records).Shown().delay == MeanOf(n, n as real + 1.0)
            && TallyOf(records).Mean() == MeanOf(sum, sum as real + ups[i] as real)
  {
    SingledOutSums(ups, i, |ups|);
  }

  lemma UnevenMeans(n: nat, sum: nat, a: nat, b: nat)
    requires n > 0 && sum > 0 && a != b
    ensures !(MeanOf(n, n as real + 1.0) == MeanOf(sum, sum as real + a as real)
              && MeanOf(n, n as real + 1.0) == MeanOf(sum, sum as real + b as real))
  {
  }

  lemma WellTimedSlot(records: seq<History>, today: nat, i: nat)
    requires forall h :: h in records ==> h.createdAt < today + 2 * NANOS_PER_DAY && WellTimed(today, h.createdAt)
    requires i < DAYS - 1
    ensures RecordsOfSlot(records, today, i) == RecordsOfDay(records, today, DAYS - 1 - i)
  {
    forall h | h in records
      ensures InSlot(today, i)(h) == OnDay(today, DAYS - 1 - i)(h)
    {
      WellTimedFits(today, h.createdAt, i);
    }
    SameSelection(records, InSlot(today, i), OnDay(today, DAYS - 1 - i));
  }

  lemma MisfitShows(records: seq<History>, today: nat, h: History, i: nat)
    requires h in records && (DayIndex(today, h.createdAt) == i <==> DayOf(today, h.createdAt) != DAYS - 1 - i)
    ensures RecordsOfSlot(records, today, i) != RecordsOfDay(records, today, DAYS - 1 - i)
  {
    Selected(records, InSlot(today, i), h);
    Selected(records, OnDay(today, DAYS - 1 - i), h);
  }

  /** Today starts with nothing unshown, unless the store holds records of tomorrow. */
  lemma LoadedToday(records: seq<History>, today: nat)
    requires forall h :: h in records ==> h.createdAt < today + NANOS_PER_DAY
    ensures TodayIs(LoadedLedger(records, today)[DAYS - 1], false)
  {
    var taken := RecordsOfSlot(records, today, DAYS - 1);
    if taken != [] {
      Selected(records, InSlot(today, DAYS - 1), taken[0]);
    }
  }

  lemma WellTimedFits(today: nat, createdAt: nat, i: nat)
    requires createdAt < today + 2 * NANOS_PER_DAY && i < DAYS - 1 && WellTimed(today, createdAt)
    ensures DayIndex(today, createdAt) == i <==> DayOf(today, createdAt) == DAYS - 1 - i
  {
    var d := DayOf(today, createdAt);
    if d >= 0 {
      DayIndexExact(today, createdAt, d);
      if createdAt == today - d * NANOS_PER_DAY {
        MidnightIsMultiple(today, createdAt, d);
      }
    } else {
      TomorrowIsLast(today, createdAt);
    }
  }

  lemma MidnightIsMultiple(today: nat, createdAt: nat, d: nat)
    requires createdAt == today - d * NANOS_PER_DAY
    ensures (today - createdAt) % NANOS_PER_DAY == 0
  {
  }

  lemma TomorrowIsLast(today: nat, createdAt: nat)
    requires today + NANOS_PER_DAY <= createdAt < today + 2 * NANOS_PER_DAY
    ensures DayIndex(today, createdAt) == DAYS - 1
  {
  }

  lemma IllTimedMisfits(today: nat, createdAt: nat) returns (i: nat)
    requires createdAt < today + 2 * NANOS_PER_DAY && !WellTimed(today, createdAt)
    ensures i < DAYS - 1
    ensures DayIndex(today, createdAt) == i <==> DayOf(today, createdAt) != DAYS - 1 - i
  {
    var d := DayOf(today, createdAt);
    DayIndexExact(today, createdAt, d);
    i := if d == 0 then DAYS - 2 else DAYS - 1 - d;
  }

  function Showing(sums: seq<SlotSum>): seq<Day> {
    seq(|sums|, i requires 0 <= i < |sums| => Day(NO_REPORTS, sums[i].Shown()))
  }

  lemma TotalsAfterPlus(sums: seq<SlotSum>, i: nat, h: History)
    requires i < |sums|
    ensures SumUp(Showing(sums[i := sums[i].Plus(h)])) == SumUp(Showing(sums)) + h.up
    ensures SumDown(Showing(sums[i := sums[i].Plus(h)])) == SumDown(Showing(sums)) + h.down
  {
    var d := Day(NO_REPORTS, sums[i].Plus(h).Shown());
    assert Showing(sums[i := sums[i].Plus(h)]) == Showing(sums)[i := d];
    SumsAfterUpdate(Showing(sums), i, d);
  }

  lemma {:induction false} SumsOfEmpty(days: seq<Day>)
    requires forall i :: 0 <= i < |days| ==> days[i].shown == EMPTY_SLOT
    ensures SumUp(days) == SumDown(days) == 0
  {
    if days != [] {
      SumsOfEmpty(days[1..]);
    }
  }

  lemma SumsAfterUpdate(days: seq<Day>, i: nat, d: Day)
    requires i < |days|
    ensures SumUp(days[i := d]) == SumUp(days) - days[i].shown.up + d.shown.up
    ensures SumDown(days[i := d]) == SumDown(days) - days[i].shown.down + d.shown.down
  {
    assert days == days[..i] + ([days[i]] + days[i + 1..]);
    assert days[i := d] == days[..i] + ([d] + days[i + 1..]);
    SumAppend(days[..i], [days[i]] + days[i + 1..]);
    SumAppend(days[..i], [d] + days[i + 1..]);
  }
}
