/** Traffic quota accounting: one server's cumulative byte counts, fed by readings of counters that restart and wrap
    or by false readings, reloaded after a reboot, synchronised with the store, and zeroed at each billing cycle. */
module Traffic {
  import opened Arithmetic
  import opened Clock
  import opened Wrappers

  const MAX_UINT64 := 0xffff_ffff_ffff_ffff
  const WRAP := 0x1_0000_0000_0000_0000

  type uint64 = x: int | 0 <= x <= MAX_UINT64

  const DEFAULT_MAX_DELTA: uint64 := 10 * 1024 * 1024 * 1024 * 1024
  const MIN_MAX_DELTA: uint64 := 10 * 1024 * 1024 * 1024
  const MAX_BYTES_PER_SEC: uint64 := 50 * 1024 * 1024 * 1024
  const SECONDS_PER_YEAR := 31536000

  /** a + b, or the greatest uint64 where the sum does not fit */
  function Capped(n: nat): (r: uint64) {
    if n <= MAX_UINT64 then n else MAX_UINT64
  }

  function Uint64SaturatingAdd(a: uint64, b: uint64): (r: uint64)
    ensures r == Capped(a + b)
  {
    if MAX_UINT64 - a < b then MAX_UINT64 else a + b
  }

  /** The largest increase that the time since the last report makes plausible. */
  function PlausibleTrafficDelta(elapsed: int): (r: uint64)
    ensures MIN_MAX_DELTA <= r <= DEFAULT_MAX_DELTA
  {
    if elapsed <= 0 then MIN_MAX_DELTA
    else
      var whole := elapsed / NANOS_PER_SECOND;
      var seconds := if whole == 0 then 1 else whole;
      if seconds >= SECONDS_PER_YEAR then DEFAULT_MAX_DELTA
      else
        // the product stays below 2^64, so Go's multiplication does not wrap
        var dynamicMax: uint64 := MAX_BYTES_PER_SEC * seconds;
        if dynamicMax < MIN_MAX_DELTA then MIN_MAX_DELTA
        else if dynamicMax > DEFAULT_MAX_DELTA then DEFAULT_MAX_DELTA
        else dynamicMax
  }

  /** A longer silence never makes less traffic plausible. */
  lemma PlausibleDeltaMonotone(a: int, b: int)
    requires a <= b
    ensures PlausibleTrafficDelta(a) <= PlausibleTrafficDelta(b)
  {
    if 0 < a {
      assert a / NANOS_PER_SECOND <= b / NANOS_PER_SECOND;
    }
  }

  /** 10 GiB are always plausible. More is plausible up to 50 GiB for each whole second since the last report, of which
      there is at least one, and up to 10 TiB. */
  lemma PlausibleExactly(elapsed: int, increase: nat)
    ensures increase <= PlausibleTrafficDelta(elapsed) <==>
            increase <= 10 * 0x4000_0000
            || (elapsed > 0 && increase <= 10 * 0x100_0000_0000
                && increase <= 50 * 0x4000_0000 * (if elapsed < 1_000_000_000 then 1 else elapsed / 1_000_000_000))
  {
    assert elapsed > 0 ==> (elapsed / NANOS_PER_SECOND == 0 <==> elapsed < 1_000_000_000);
  }

  // ---------- One direction ----------

  /** The accounting state of one direction of one server. */
  datatype Meter = Meter(snapshot: uint64, snapshotSet: bool, cumulative: uint64) {
    /** A non-zero snapshot counts as a baseline even where the flag is not set. */
    predicate HasBaseline() {
      snapshotSet || snapshot != 0
    }

    /** There is a baseline that a reading can exceed. */
    predicate CanCount() {
      HasBaseline() && snapshot < MAX_UINT64
    }

    /** The part of a raw reading that is counted: nothing without a baseline, nothing after the counter
        went back, and nothing when the increase is not plausible. */
    function Accepted(raw: uint64, maxDelta: uint64): nat {
      if HasBaseline() && snapshot <= raw && raw - snapshot <= maxDelta then raw - snapshot else 0
    }

    /** Every report moves the baseline to its raw reading, counted or not. */
    function After(raw: uint64, maxDelta: uint64): Meter {
      Meter(raw, true, Capped(cumulative + Accepted(raw, maxDelta)))
    }

    /** The reading raises the count. */
    predicate TakesIn(raw: uint64, maxDelta: uint64) {
      Accepted(raw, maxDelta) > 0 && cumulative < MAX_UINT64
    }

    function Rebased(raw: uint64): Meter {
      Meter(raw, true, cumulative)
    }

    /** The count is replaced and the baseline stays. */
    function Recounted(count: uint64): Meter {
      Meter(snapshot, snapshotSet, count)
    }

    function Rebooted(stored: Option<uint64>): Meter {
      Meter(0, false, if stored.Some? then stored.value else cumulative)
    }
  }

  const ZEROED_METER := Meter(0, false, 0)

  datatype DirectionResult = DirectionResult(
    delta: uint64, increase: uint64, counterReset: bool, rejectedSpike: bool, overflow: bool, baselineOnly: bool)

  const NO_RESULT := DirectionResult(0, 0, false, false, false, false)

  class TrafficCounter {
    var snapshot: uint64
    var snapshotSet: bool
    var cumulative: uint64

    function View(): Meter
      reads this
    {
      Meter(snapshot, snapshotSet, cumulative)
    }

    constructor (m: Meter)
      ensures View() == m
    {
      snapshot, snapshotSet, cumulative := m.snapshot, m.snapshotSet, m.cumulative;
    }

    method ApplyTrafficDirection(raw: uint64, maxDelta: uint64) returns (result: DirectionResult)
      modifies this
      ensures View() == old(View()).After(raw, maxDelta)
      ensures result.increase == old(View()).Accepted(raw, maxDelta)
      ensures result.baselineOnly <==> !old(View()).HasBaseline()
      ensures result.counterReset <==> old(View()).HasBaseline() && raw < old(snapshot)
      ensures result.rejectedSpike <==> old(View()).HasBaseline() && old(snapshot) + maxDelta < raw
      ensures result.delta == if old(View()).HasBaseline() && old(snapshot) <= raw then raw - old(snapshot) else 0
      ensures result.overflow <==>
                old(cumulative) < MAX_UINT64 <= old(cumulative) + old(View()).Accepted(raw, maxDelta)
    {
      result := NO_RESULT;
      var initialized := snapshotSet;
      if !initialized && snapshot != 0 {
        initialized := true;
        snapshotSet := true;
      }
      if !initialized {
        snapshot := raw;
        snapshotSet := true;
        result := result.(baselineOnly := true);
        return;
      }
      var prev := snapshot;
      snapshot := raw;
      snapshotSet := true;
      if raw < prev {
        result := result.(counterReset := true);
        return;
      }
      var increase: uint64 := raw - prev;
      result := result.(delta := increase);
      if increase > maxDelta {
        result := result.(rejectedSpike := true);
        return;
      }
      var next := Uint64SaturatingAdd(cumulative, increase);
      if next == MAX_UINT64 && increase > 0 && cumulative != MAX_UINT64 {
        result := result.(overflow := true);
      }
      cumulative := next;
      result := result.(increase := increase);
    }
  }

  class HostState {
    var netInTransfer: uint64
    var netOutTransfer: uint64
  }

  class Server {
    const inbound: TrafficCounter
    const outbound: TrafficCounter

    ghost predicate Valid() {
      inbound != outbound
    }

    constructor (in0: Meter, out0: Meter)
      ensures Valid() && fresh(inbound) && fresh(outbound)
      ensures inbound.View() == in0 && outbound.View() == out0
    {
      inbound := new TrafficCounter(in0);
      outbound := new TrafficCounter(out0);
    }

    /** A state report. The first one of a server only sets the baselines. The reported totals shown to
        users are replaced by the cumulative counts. */
    method ApplyTrafficReport(state: HostState?, rawIn: uint64, rawOut: uint64, baselineOnly: bool, elapsed: int)
      returns (resultIn: DirectionResult, resultOut: DirectionResult)
      requires Valid()
      modifies inbound, outbound, state
      ensures state == null ==>
                inbound.View() == old(inbound.View()) && outbound.View() == old(outbound.View())
      ensures state != null && baselineOnly ==>
                && inbound.View() == old(inbound.View()).Rebased(rawIn)
                && outbound.View() == old(outbound.View()).Rebased(rawOut)
      ensures state != null && !baselineOnly ==>
                && inbound.View() == old(inbound.View()).After(rawIn, PlausibleTrafficDelta(elapsed))
                && outbound.View() == old(outbound.View()).After(rawOut, PlausibleTrafficDelta(elapsed))
      ensures state != null ==>
                state.netInTransfer == inbound.cumulative && state.netOutTransfer == outbound.cumulative
      ensures resultIn.increase == (if state == null || baselineOnly then 0
                                    else old(inbound.View()).Accepted(rawIn, PlausibleTrafficDelta(elapsed)))
      ensures resultOut.increase == (if state == null || baselineOnly then 0
                                     else old(outbound.View()).Accepted(rawOut, PlausibleTrafficDelta(elapsed)))
    {
      resultIn, resultOut := NO_RESULT, NO_RESULT;
      var maxDelta := PlausibleTrafficDelta(elapsed);
      if state == null {
        return;
      }
      if baselineOnly {
        inbound.snapshot, inbound.snapshotSet := rawIn, true;
        outbound.snapshot, outbound.snapshotSet := rawOut, true;
        resultIn := NO_RESULT.(baselineOnly := true);
        resultOut := NO_RESULT.(baselineOnly := true);
      } else {
        resultIn := inbound.ApplyTrafficDirection(rawIn, maxDelta);
        resultOut := outbound.ApplyTrafficDirection(rawOut, maxDelta);
      }
      state.netInTransfer := inbound.cumulative;
      state.netOutTransfer := outbound.cumulative;
    }

    /** A host report. A boot time that goes back, or forward by over an hour, is a reboot: the baselines are
        dropped and the cumulative counts are replaced by the stored ones where the store can be read. */
    method HandleHostReport(oldBoot: uint64, newBoot: uint64, stored: Option<(uint64, uint64)>) returns (rebooted: bool)
      requires Valid()
      modifies inbound, outbound
      ensures rebooted <==> oldBoot > 0 && newBoot > 0 && (newBoot < oldBoot || oldBoot + 3600 < newBoot)
      ensures rebooted ==>
                && inbound.View() == old(inbound.View()).Rebooted(if stored.Some? then Some(stored.value.0) else None)
                && outbound.View() == old(outbound.View()).Rebooted(if stored.Some? then Some(stored.value.1) else None)
      ensures !rebooted ==>
                inbound.View() == old(inbound.View()) && outbound.View() == old(outbound.View())
    {
      rebooted := oldBoot > 0 && newBoot > 0 && (newBoot < oldBoot || newBoot - oldBoot > 3600);
      if rebooted {
        inbound.snapshot, outbound.snapshot := 0, 0;
        inbound.snapshotSet, outbound.snapshotSet := false, false;
        if stored.Some? {
          inbound.cumulative, outbound.cumulative := stored.value.0, stored.value.1;
        }
      }
    }

    /** The reset on the first of the month, when no alert has a transfer rule: the counts are zeroed and the
        baselines stay. */
    method ZeroCounts()
      requires Valid()
      modifies inbound, outbound
      ensures inbound.View() == old(inbound.View()).Recounted(0) && outbound.View() == old(outbound.View()).Recounted(0)
    {
      inbound.cumulative, outbound.cumulative := 0, 0;
    }

    /** The synchronisation with a relational store: stored counts, where they can be read, replace the counts in
        memory, and the baselines stay. */
    method SyncFromDB(stored: Option<(uint64, uint64)>)
      requires Valid()
      modifies inbound, outbound
      ensures inbound.View() == if stored.Some? then old(inbound.View()).Recounted(stored.value.0)
                                else old(inbound.View())
      ensures outbound.View() == if stored.Some? then old(outbound.View()).Recounted(stored.value.1)
                                 else old(outbound.View())
    {
      if stored.None? {
        return;
      }
      inbound.cumulative, outbound.cumulative := stored.value.0, stored.value.1;
    }

    /** A billing cycle begins: both directions start from nothing. */
    method ResetCycle()
      requires Valid()
      modifies inbound, outbound
      ensures inbound.View() == ZEROED_METER && outbound.View() == ZEROED_METER
    {
      inbound.cumulative, outbound.cumulative := 0, 0;
      inbound.snapshot, outbound.snapshot := 0, 0;
      inbound.snapshotSet, outbound.snapshotSet := false, false;
    }
  }

  // ---------- Sequences of reports ----------

  datatype Report = Report(raw: uint64, maxDelta: uint64)

  function Run(m: Meter, reports: seq<Report>): Meter
    decreases |reports|
  {
    if reports == [] then m
    else Run(m.After(reports[0].raw, reports[0].maxDelta), reports[1..])
  }

  /** The bytes that a sequence of reports contributes, without a cap. */
  function TotalAccepted(m: Meter, reports: seq<Report>): nat
    decreases |reports|
  {
    if reports == [] then 0
    else m.Accepted(reports[0].raw, reports[0].maxDelta)
         + TotalAccepted(m.After(reports[0].raw, reports[0].maxDelta), reports[1..])
  }

  /** Saturating step by step is saturating once: nothing is lost or counted twice on the way to the cap. */
  lemma {:induction false} RunAddsUp(m: Meter, reports: seq<Report>)
    ensures Run(m, reports).cumulative == Capped(m.cumulative + TotalAccepted(m, reports))
    decreases |reports|
  {
    if reports != [] {
      RunAddsUp(m.After(reports[0].raw, reports[0].maxDelta), reports[1..]);
    }
  }

  /** Readings that never go back and never rise by more than is plausible. */
  predicate Smooth(previous: uint64, reports: seq<Report>)
    decreases |reports|
  {
    reports == [] ||
    (previous <= reports[0].raw <= previous + reports[0].maxDelta && Smooth(reports[0].raw, reports[1..]))
  }

  lemma {:induction false} SmoothRunTelescopes(m: Meter, reports: seq<Report>)
    requires m.HasBaseline() && Smooth(m.snapshot, reports) && reports != []
    ensures m.snapshot + TotalAccepted(m, reports) == reports[|reports| - 1].raw
    ensures Run(m, reports).snapshot == reports[|reports| - 1].raw && Run(m, reports).snapshotSet
    decreases |reports|
  {
    var next := m.After(reports[0].raw, reports[0].maxDelta);
    if |reports| > 1 {
      SmoothRunTelescopes(next, reports[1..]);
    }
  }

  /** The readings that a run's rises are taken between: the baseline, if there is one, and what was reported. */
  function Readings(m: Meter, reports: seq<Report>): seq<uint64> {
    (if m.snapshotSet || m.snapshot != 0 then [m.snapshot] else [])
    + seq(|reports|, i requires 0 <= i < |reports| => reports[i].raw)
  }

  /** How much the reading before the last one and the last one are apart, where that is up and plausible. */
  function LastRise(readings: seq<uint64>, maxDelta: uint64): nat {
    if |readings| < 2 then 0
    else
      var from, to := readings[|readings| - 2], readings[|readings| - 1];
      if from <= to <= from + maxDelta then to - from else 0
  }

  /** All plausible rises from each reading to the next. */
  function Rises(m: Meter, reports: seq<Report>): nat {
    if reports == [] then 0
    else
      var n := |reports| - 1;
      Rises(m, reports[..n]) + LastRise(Readings(m, reports), reports[n].maxDelta)
  }

  /** Over any run of reports, with restarts, spikes and first readings, exactly the plausible rises between one reading
      and the next are counted, up to the cap, and the last reading is the baseline. */
  lemma {:induction false} RunCountsRises(m: Meter, reports: seq<Report>)
    requires reports != []
    ensures Run(m, reports)
            == Meter(reports[|reports| - 1].raw, true, Capped(m.cumulative + Rises(m, reports)))
  {
    var n := |reports| - 1;
    var before := reports[..n];
    RunOneMore(m, before, reports[n]);
    assert before + [reports[n]] == reports;
    assert Readings(m, reports) == Readings(m, before) + [reports[n].raw];
    if before == [] {
      assert Rises(m, before) == 0;
    } else {
      RunCountsRises(m, before);
      assert Readings(m, before)[|Readings(m, before)| - 1] == before[n - 1].raw;
    }
  }

  lemma {:induction false} RunOneMore(m: Meter, reports: seq<Report>, r: Report)
    ensures Run(m, reports + [r]) == Run(m, reports).After(r.raw, r.maxDelta)
    decreases |reports|
  {
    if reports != [] {
      RunOneMore(m.After(reports[0].raw, reports[0].maxDelta), reports[1..], r);
      assert (reports + [r])[1..] == reports[1..] + [r];
    } else {
      assert ([] + [r])[1..] == [];
    }
  }

  /** Without a restart or a rejection the count rises by last reading minus baseline, up to the cap, and
      however the reports are split. */
  lemma SmoothRunCounts(m: Meter, reports: seq<Report>)
    requires m.HasBaseline() && Smooth(m.snapshot, reports) && reports != []
    ensures var last := reports[|reports| - 1].raw;
            && m.snapshot <= last
            && Run(m, reports) == Meter(last, true, Capped(m.cumulative + (last - m.snapshot)))
  {
    RunAddsUp(m, reports);
    SmoothRunTelescopes(m, reports);
  }

  /** A reading that is below the baseline, or rejected as a spike, or the first without a baseline, adds nothing, and
      counting goes on from it: the count rises by the last reading minus that one. */
  lemma CountsOnFrom(m: Meter, r: Report, after: seq<Report>)
    requires (m.snapshotSet || m.snapshot != 0) ==> r.raw < m.snapshot || m.snapshot + r.maxDelta < r.raw
    requires after != [] && Smooth(r.raw, after)
    ensures var last := after[|after| - 1].raw;
            r.raw <= last && Run(m, [r] + after) == Meter(last, true, Capped(m.cumulative + (last - r.raw)))
  {
    assert ([r] + after)[1..] == after;
    SmoothRunCounts(m.After(r.raw, r.maxDelta), after);
  }

  /** Where counting goes on from after the other steps: a first report is the baseline; after a reboot, which may bring
      back a stored count, and after a cycle reset, which starts from nothing, the next reading is; a snapshot
      that is not zero is one without its flag. */
  lemma CountsOnAfter(m: Meter, stored: Option<uint64>, r: Report, after: seq<Report>)
    requires after != [] && Smooth(r.raw, after)
    ensures var last := after[|after| - 1].raw;
            && r.raw <= last
            && Run(m.Rebased(r.raw), after) == Meter(last, true, Capped(m.cumulative + (last - r.raw)))
            && Run(m.Rebooted(stored), [r] + after)
               == Meter(last, true, Capped((if stored.Some? then stored.value else m.cumulative) + (last - r.raw)))
            && Run(ZEROED_METER, [r] + after) == Meter(last, true, last - r.raw)
            && (r.raw != 0 ==>
                  Run(Meter(r.raw, false, m.cumulative), after)
                  == Meter(last, true, Capped(m.cumulative + (last - r.raw))))
  {
    SmoothRunCounts(m.Rebased(r.raw), after);
    CountsOnFrom(m.Rebooted(stored), r, after);
    CountsOnFrom(ZEROED_METER, r, after);
    if r.raw != 0 {
      SmoothRunCounts(Meter(r.raw, false, m.cumulative), after);
    }
  }

  /** A synchronisation between reports: the count ends as without it if and only if the store holds what memory holds,
      or both counts reach the cap all the same. What was counted since the last save is lost otherwise. */
  lemma SyncKeepsCountExactly(m: Meter, before: seq<Report>, stored: uint64, after: seq<Report>)
    requires m.HasBaseline() && before != [] && after != []
    requires Smooth(m.snapshot, before) && Smooth(before[|before| - 1].raw, after)
    ensures var last, memory := after[|after| - 1].raw, Run(m, before);
            var count := Run(memory.Recounted(stored), after).cumulative;
            && m.snapshot <= memory.snapshot <= last
            && count == Capped(stored + (last - memory.snapshot))
            && (count == Capped(m.cumulative + (last - m.snapshot)) <==>
                  stored == memory.cumulative
                  || (MAX_UINT64 <= stored + (last - memory.snapshot)
                      && MAX_UINT64 <= m.cumulative + (last - m.snapshot)))
  {
    SmoothRunCounts(m, before);
    SmoothRunCounts(Run(m, before).Recounted(stored), after);
  }

  // ---------- The true byte count ----------

  /** A cumulative count and the billing cycle it was counted in. */
  datatype Stamped = Stamped(value: uint64, cycle: nat)

  /** One direction of one server with what the program cannot see: how many bytes were really sent, when the
      raw counter last started from zero, and when the current billing cycle began. shown is the count that the last
      report left on display; saves are writes of a count that have been issued but have not reached the store yet;
      loaded is what a reboot has read from the store, before it takes the lock under which the count is replaced. */
  datatype World = World(
    meter: Meter, stored: Stamped, shown: Stamped, saves: seq<Stamped>, loaded: Option<Stamped>,
    sent: nat, counterStart: nat, cycleStart: nat, lastReport: nat, cycle: nat)
  {
    /** The raw counter is a uint64 that starts from zero and wraps. */
    function Raw(): uint64 {
      if counterStart <= sent then (sent - counterStart) % WRAP else 0
    }

    /** The counts outside memory that may still come back. */
    function Kept(): seq<Stamped> {
      saves + [stored, shown] + if loaded.Some? then [loaded.value] else []
    }

    function Shown(m: Meter): World {
      this.(meter := m, shown := Stamped(m.cumulative, cycle), lastReport := sent)
    }
  }

  datatype Event =
    | Send(bytes: nat)                              // bytes pass through the interface
    | RestartCounter                                // the raw counter starts again, noticed or not
    | StateReport(raw: uint64, maxDelta: uint64)    // a reading is reported, the counter's or a false one
    | FirstReport(raw: uint64)                      // the first report of a server: baseline only
    | Save                                          // the count is handed to the asynchronous writer
    | SaveShown                                     // the server is found offline: the shown count is handed to it
    | Land(index: nat)                              // one of the issued writes reaches the store
    | Load                                          // a noticed reboot reads the store
    | Reload                                        // ...and puts what it read, if anything, in place of the count
    | ResetCycle                                    // a billing cycle begins: memory is zeroed
    | StoreReset                                    // ...and the zero reaches the store
    | ZeroCounts                                    // the monthly reset, which keeps the baseline
    | Sync                                          // the store's count replaces the one in memory

  function Next(w: World, e: Event): World {
    match e
    case Send(bytes) => w.(sent := w.sent + bytes)
    case RestartCounter => w.(counterStart := w.sent)
    case StateReport(raw, maxDelta) => w.Shown(w.meter.After(raw, maxDelta))
    case FirstReport(raw) => w.Shown(w.meter.Rebased(raw))
    case Save => w.(saves := w.saves + [Stamped(w.meter.cumulative, w.cycle)])
    case SaveShown => w.(saves := w.saves + [w.shown])
    case Land(i) => if i < |w.saves| then w.(stored := w.saves[i], saves := w.saves[..i] + w.saves[i + 1..]) else w
    case Load => w.(loaded := Some(w.stored))
    case Reload =>
      w.(meter := w.meter.Rebooted(if w.loaded.Some? then Some(w.loaded.value.value) else None), loaded := None)
    case ResetCycle => w.(meter := ZEROED_METER, cycleStart := w.sent, cycle := w.cycle + 1)
    case StoreReset => w.(stored := Stamped(0, w.cycle))
    case ZeroCounts => w.(meter := w.meter.Recounted(0), cycleStart := w.sent, cycle := w.cycle + 1)
    case Sync => w.(meter := w.meter.Recounted(w.stored.value))
  }

  function Play(w: World, events: seq<Event>): World
    decreases |events|
  {
    if events == [] then w else Play(Next(w, events[0]), events[1..])
  }

  /** A server as it is added: nothing counted, nothing stored. */
  function NewServer(sent: nat): World {
    World(ZEROED_METER, Stamped(0, 0), Stamped(0, 0), [], None, sent, sent, sent, sent, 0)
  }

  /** The count is no more than the bytes sent since the billing cycle began. */
  predicate Within(w: World) {
    w.meter.cumulative <= w.sent - w.cycleStart
  }

  // ---------- Safe steps ----------

  function Greater(a: uint64, b: uint64): uint64 {
    if a < b then b else a
  }

  /** The greatest count of the given cycle in memory and among the kept ones. */
  function Counted(m: Meter, kept: seq<Stamped>, cycle: nat): (n: uint64)
    ensures m.cumulative <= n
    ensures forall s :: s in kept && s.cycle == cycle ==> s.value <= n
    ensures n == m.cumulative || exists s :: s in kept && s.cycle == cycle && s.value == n
  {
    if kept == [] then m.cumulative
    else
      var rest, last := Counted(m, kept[..|kept| - 1], cycle), kept[|kept| - 1];
      if last.cycle == cycle then Greater(rest, last.value) else rest
  }

  /** A count that replaces the one in memory is of the current cycle, or no more than has been counted in it. */
  predicate Recountable(m: Meter, kept: seq<Stamped>, count: Stamped, cycle: nat) {
    count.cycle == cycle || count.value <= Counted(m, kept, cycle)
  }

  /** A reading is the counter's, or a false one that is not below it and that the meter does not take in; a count that
      comes back is recountable; the monthly reset finds no baseline to count from. Every other step is safe. */
  predicate Safe(w: World, e: Event) {
    match e
    case StateReport(raw, maxDelta) => raw == w.Raw() || (w.Raw() <= raw && !w.meter.TakesIn(raw, maxDelta))
    case FirstReport(raw) => w.Raw() <= raw
    case Reload => w.loaded.Some? ==> Recountable(w.meter, w.Kept(), w.loaded.value, w.cycle)
    case Sync => Recountable(w.meter, w.Kept(), w.stored, w.cycle)
    case ZeroCounts => !w.meter.CanCount()
    case _ => true
  }

  predicate SafeRun(w: World, events: seq<Event>)
    decreases |events|
  {
    events == [] || (Safe(w, events[0]) && SafeRun(Next(w, events[0]), events[1..]))
  }

  /** No safe run from here ever overcounts. */
  ghost predicate StaysWithin(w: World) {
    forall events :: SafeRun(w, events) ==> Within(Play(w, events))
  }

  // ---------- The invariant ----------

  ghost predicate FitsCycle(s: Stamped, w: World) {
    && s.cycle <= w.cycle
    && (s.cycle == w.cycle ==> s.value <= w.sent - w.cycleStart)
    && (s.cycle == w.cycle && w.meter.CanCount() ==> s.value <= w.lastReport - w.cycleStart)
  }

  /** No count exceeds the bytes sent since the cycle began; while there is a baseline to count from, no count exceeds
      the bytes sent from then to the baseline's report, and the baseline is not below what the counter showed then. */
  ghost predicate Accounted(w: World) {
    && w.counterStart <= w.sent && w.cycleStart <= w.sent
    && Within(w)
    && (forall s :: s in w.Kept() ==> FitsCycle(s, w))
    && (w.meter.CanCount() ==>
          && w.cycleStart <= w.lastReport <= w.sent
          && w.meter.cumulative <= w.lastReport - w.cycleStart
          && (w.counterStart < w.lastReport ==> (w.lastReport - w.counterStart) % WRAP <= w.meter.snapshot))
  }

  /** What a reading of the counter adds never exceeds what was sent since the last report, whether or not the counter
      restarted or wrapped in between, and whether or not the last reading was false. */
  lemma AcceptedIsSent(w: World, maxDelta: uint64)
    requires Accounted(w) && w.meter.CanCount()
    ensures w.meter.Accepted(w.Raw(), maxDelta) <= w.sent - w.lastReport
  {
    var now := w.sent - w.counterStart;
    ModLess(now, WRAP);
    if w.counterStart < w.lastReport {
      var before := w.lastReport - w.counterStart;
      ModGrowth(before, now, WRAP);
    }
  }

  lemma ReportKeepsAccounted(w: World, raw: uint64, maxDelta: uint64)
    requires Accounted(w) && Safe(w, StateReport(raw, maxDelta))
    ensures Accounted(Next(w, StateReport(raw, maxDelta)))
  {
    if raw == w.Raw() && w.meter.CanCount() {
      AcceptedIsSent(w, maxDelta);
    }
    var w' := Next(w, StateReport(raw, maxDelta));
    assert forall s :: FitsCycle(s, w) ==> FitsCycle(s, w');
    assert forall s :: s in w'.Kept() ==> s in w.Kept() || s == w'.shown;
  }

  lemma RecountKeepsAccounted(w: World, e: Event)
    requires Accounted(w) && (e.Reload? || e.Sync? || e.ZeroCounts?) && Safe(w, e)
    ensures Accounted(Next(w, e))
  {
    var n := Counted(w.meter, w.Kept(), w.cycle);
    assert n <= w.sent - w.cycleStart && (w.meter.CanCount() ==> n <= w.lastReport - w.cycleStart);
    assert forall s :: FitsCycle(s, w) ==> FitsCycle(s, Next(w, e));
    assert w.stored in w.Kept();
  }

  lemma WriteKeepsAccounted(w: World, e: Event)
    requires Accounted(w) && (e.Save? || e.SaveShown? || e.Land? || e.Load? || e.StoreReset?)
    ensures Accounted(Next(w, e))
  {
    var w' := Next(w, e);
    assert forall s :: FitsCycle(s, w) ==> FitsCycle(s, w');
    assert w.shown in w.Kept() && w.stored in w.Kept();
    if e.Land? && e.index < |w.saves| {
      assert w.saves[e.index] in w.Kept();
      assert forall s :: s in w'.saves ==> s in w.saves;
    }
    assert forall s :: s in w'.Kept() ==>
        s in w.Kept() || s == Stamped(w.meter.cumulative, w.cycle) || s == Stamped(0, w.cycle);
  }

  lemma StepKeepsAccounted(w: World, e: Event)
    requires Accounted(w) && Safe(w, e)
    ensures Accounted(Next(w, e))
  {
    match e
    case StateReport(raw, maxDelta) => ReportKeepsAccounted(w, raw, maxDelta);
    case Save => WriteKeepsAccounted(w, e);
    case SaveShown => WriteKeepsAccounted(w, e);
    case Land(_) => WriteKeepsAccounted(w, e);
    case Load => WriteKeepsAccounted(w, e);
    case StoreReset => WriteKeepsAccounted(w, e);
    case Reload => RecountKeepsAccounted(w, e);
    case Sync => RecountKeepsAccounted(w, e);
    case ZeroCounts => RecountKeepsAccounted(w, e);
    case FirstReport(_) =>
      var w' := Next(w, e);
      assert forall s :: FitsCycle(s, w) ==> FitsCycle(s, w');
      assert forall s :: s in w'.Kept() ==> s in w.Kept() || s == w'.shown;
    case _ => assert forall s :: FitsCycle(s, w) ==> FitsCycle(s, Next(w, e));
  }

  /** Whatever restarts, wraps, false readings, reboots, synchronisations, lost or late writes and resets a safe run
      contains, the count never exceeds the bytes really sent since the billing cycle began. */
  lemma {:induction false} NeverOvercounts(w: World, events: seq<Event>)
    requires Accounted(w) && SafeRun(w, events)
    ensures Accounted(Play(w, events)) && Within(Play(w, events))
    decreases |events|
  {
    if events != [] {
      StepKeepsAccounted(w, events[0]);
      NeverOvercounts(Next(w, events[0]), events[1..]);
    }
  }

  lemma NewServerAccounted(sent: nat)
    ensures Accounted(NewServer(sent))
  {
  }

  // ---------- When each step is safe ----------

  lemma AccountedStaysWithin(w: World)
    requires Accounted(w)
    ensures StaysWithin(w)
  {
    forall events | SafeRun(w, events)
      ensures Within(Play(w, events))
    {
      NeverOvercounts(w, events);
    }
  }

  lemma SafeStaysWithin(w: World, e: Event)
    requires Accounted(w) && Safe(w, e)
    ensures StaysWithin(Next(w, e))
  {
    StepKeepsAccounted(w, e);
    AccountedStaysWithin(Next(w, e));
  }

  lemma RunLeavesBounds(w: World, events: seq<Event>)
    requires SafeRun(w, events) && !Within(Play(w, events))
    ensures !StaysWithin(w)
  {
  }

  /** w and v differ at most in what the program cannot see. */
  ghost predicate Alike(w: World, v: World) {
    w == v.(sent := w.sent, counterStart := w.counterStart, cycleStart := w.cycleStart, lastReport := w.lastReport)
  }

  /** The fewest bytes that explain the counts that the program sees. */
  function Fewest(v: World): World {
    var n := Counted(v.meter, v.Kept(), v.cycle);
    v.(sent := n, counterStart := n, cycleStart := 0, lastReport := n)
  }

  /** The last report left the meter behind, all bytes before it were counted, and one has been sent since. */
  function OneUnreported(v: World): World {
    var n := Counted(v.meter, v.Kept(), v.cycle);
    v.(sent := n + v.meter.snapshot + 1, counterStart := n, cycleStart := 0, lastReport := n + v.meter.snapshot)
  }

  /** A reload or a synchronisation is sure never to lead to an overcount, whatever was really sent, if and only if the
      count that comes back is of the current cycle or no more than has been counted in it; and the monthly reset, if
      and only if there is no baseline that a reading can exceed, because the bytes between the last report and the
      reset are counted in the new month otherwise. */
  lemma RecountSafeExactly(v: World, e: Event)
    requires e.Reload? || e.Sync? || e.ZeroCounts?
    requires forall s :: s in v.Kept() ==> s.cycle <= v.cycle
    ensures Safe(v, e) <==> forall w :: Accounted(w) && Alike(w, v) ==> StaysWithin(Next(w, e))
  {
    if Safe(v, e) {
      forall w | Accounted(w) && Alike(w, v)
        ensures StaysWithin(Next(w, e))
      {
        SafeStaysWithin(w, e);
      }
    } else if e.ZeroCounts? {
      var w, report := OneUnreported(v), StateReport(v.meter.snapshot + 1, MIN_MAX_DELTA);
      assert Accounted(w) && Alike(w, v);
      var zeroed := Next(w, e);
      PlayCons(zeroed, report, []);
      RunLeavesBounds(zeroed, [report] + []);
    } else {
      var w := Fewest(v);
      assert Accounted(w) && Alike(w, v);
      RunLeavesBounds(Next(w, e), []);
    }
  }

  /** A false reading, not below the counter's, is sure never to lead to an overcount if and only if it does not raise
      the count: there is no baseline, or it does not exceed it, or it is rejected as a spike, or the count is at the
      cap. */
  lemma MisreadSafeExactly(m: Meter, raw: uint64, maxDelta: uint64)
    ensures (m.HasBaseline() ==> raw <= m.snapshot || m.snapshot + maxDelta < raw || m.cumulative == MAX_UINT64) <==>
            forall w :: Accounted(w) && w.meter == m && w.Raw() <= raw
                        ==> StaysWithin(Next(w, StateReport(raw, maxDelta)))
  {
    var e := StateReport(raw, maxDelta);
    if !m.TakesIn(raw, maxDelta) {
      forall w | Accounted(w) && w.meter == m && w.Raw() <= raw
        ensures StaysWithin(Next(w, e))
      {
        SafeStaysWithin(w, e);
      }
    } else {
      var w := World(m, Stamped(0, 0), Stamped(0, 0), [], None, m.cumulative, m.cumulative, 0, m.cumulative, 0);
      assert Accounted(w) && w.Raw() == 0;
      RunLeavesBounds(Next(w, e), []);
    }
  }

  lemma PlayCons(w: World, e: Event, rest: seq<Event>)
    ensures Play(w, [e] + rest) == Play(Next(w, e), rest)
    ensures SafeRun(w, [e] + rest) <==> Safe(w, e) && SafeRun(Next(w, e), rest)
  {
    assert ([e] + rest)[1..] == rest;
  }

  // ---------- Schedules that overcount ----------

  lemma {:induction false} PlayThrough(worlds: seq<World>, events: seq<Event>)
    requires |worlds| == |events| + 1
    requires forall i :: 0 <= i < |events| ==> worlds[i + 1] == Next(worlds[i], events[i])
    ensures Play(worlds[0], events) == worlds[|events|]
    decreases |events|
  {
    if events != [] {
      PlayThrough(worlds[1..], events[1..]);
    }
  }

  /** n bytes are counted and saved, the cycle is reset, and only then does the save reach the store. */
  function LateWrite(n: uint64): seq<Event> {
    [StateReport(0, MIN_MAX_DELTA), Send(n), StateReport(n, MIN_MAX_DELTA), Save, ResetCycle, StoreReset, Land(0), Load,
     Reload]
  }

  /** n bytes are sent between the last report of a month and the monthly reset. */
  function ZeroedBetweenReports(n: uint64): seq<Event> {
    [StateReport(0, MIN_MAX_DELTA), Send(n), ZeroCounts, StateReport(n, MIN_MAX_DELTA)]
  }

  /** A false reading of 0 comes in between two true readings of n. */
  function FalseZero(n: uint64): seq<Event> {
    [StateReport(0, MIN_MAX_DELTA), Send(n), StateReport(n, MIN_MAX_DELTA), StateReport(0, MIN_MAX_DELTA),
     StateReport(n, MIN_MAX_DELTA)]
  }

  /** A late write that is reloaded brings back all of the last cycle's bytes. */
  lemma LateWriteOvercounts(n: uint64)
    requires 0 < n <= MIN_MAX_DELTA
    ensures var w := Play(NewServer(0), LateWrite(n)); w.sent == w.cycleStart && w.meter.cumulative == n
  {
    var w0 := NewServer(0);
    var w1 := Next(w0, StateReport(0, MIN_MAX_DELTA));
    var w2 := Next(w1, Send(n));
    var w3 := Next(w2, StateReport(n, MIN_MAX_DELTA));
    LateWritePlays(n, w0, w1, w2, w3);
  }

  lemma LateWritePlays(n: uint64, w0: World, w1: World, w2: World, w3: World)
    requires 0 < n && w0 == NewServer(0) && w1 == Next(w0, StateReport(0, MIN_MAX_DELTA)) && w2 == Next(w1, Send(n))
    requires w3 == Next(w2, StateReport(n, MIN_MAX_DELTA)) && w3.meter.cumulative == n
    ensures var w := Play(NewServer(0), LateWrite(n)); w.sent == w.cycleStart && w.meter.cumulative == n
  {
    var w4 := Next(w3, Save);
    var w5 := Next(w4, ResetCycle);
    var w6 := Next(w5, StoreReset);
    var w7 := Next(w6, Land(0));
    var w8 := Next(w7, Load);
    PlayThrough([w0, w1, w2, w3, w4, w5, w6, w7, w8, Next(w8, Reload)], LateWrite(n));
  }

  /** The monthly reset has the bytes between the last report and itself counted in the new month. */
  lemma ZeroingOvercounts(n: uint64)
    requires 0 < n <= MIN_MAX_DELTA
    ensures var w := Play(NewServer(0), ZeroedBetweenReports(n)); w.sent == w.cycleStart && w.meter.cumulative == n
  {
    var w0 := NewServer(0);
    var w1 := Next(w0, StateReport(0, MIN_MAX_DELTA));
    var w2 := Next(w1, Send(n));
    var w3 := Next(w2, ZeroCounts);
    PlayThrough([w0, w1, w2, w3, Next(w3, StateReport(n, MIN_MAX_DELTA))], ZeroedBetweenReports(n));
  }

  /** A false reading below the counter's has the bytes above it counted once more. */
  lemma FalseZeroOvercounts(n: uint64)
    requires 0 < n <= MIN_MAX_DELTA
    ensures var w := Play(NewServer(0), FalseZero(n)); w.sent - w.cycleStart == n && w.meter.cumulative == 2 * n
  {
    var w0 := NewServer(0);
    var w1 := Next(w0, StateReport(0, MIN_MAX_DELTA));
    var w2 := Next(w1, Send(n));
    var w3 := Next(w2, StateReport(n, MIN_MAX_DELTA));
    var w4 := Next(w3, StateReport(0, MIN_MAX_DELTA));
    PlayThrough([w0, w1, w2, w3, w4, Next(w4, StateReport(n, MIN_MAX_DELTA))], FalseZero(n));
  }
}
