/** The once-per-cycle reset of a server's traffic counts, checked on every state report and throttled. */
module CycleReset {
  import opened BillingCycle
  import opened Clock
  import opened Traffic
  import opened Wrappers

  const CHECK_INTERVAL: nat := 30 * NANOS_PER_SECOND

  /** What the check keeps about one server. */
  datatype Client = Client(lastCheck: Option<nat>, lastReset: Option<int>)

  predicate Usable(rule: Option<Rule>) {
    rule.Some? ==> rule.value.cycleInterval >= 1
  }

  predicate Throttled(c: Client, now: nat) {
    c.lastCheck.Some? && now - c.lastCheck.value < CHECK_INTERVAL
  }

  /** The counts are zeroed: the last reset lies before the current cycle, and the cycle has begun. */
  ghost predicate Resets(c: Client, rule: Option<Rule>, now: nat)
    requires Usable(rule)
  {
    && !Throttled(c, now) && rule.Some? && c.lastReset.Some?
    && c.lastReset.value < CurrentStart(rule.value, now) < now
  }

  ghost function Check(c: Client, rule: Option<Rule>, now: nat): Client
    requires Usable(rule)
  {
    if Throttled(c, now) then c
    else Client(Some(now),
                if rule.Some? && c.lastReset.None? then Some(CurrentStart(rule.value, now))
                else if Resets(c, rule, now) then Some(now)
                else c.lastReset)
  }

  class TrafficService {
    var lastCycleCheck: map<nat, nat>
    var servers: map<nat, Server>
    var lastTrafficReset: map<nat, int>     // the servers' reset times; the zero time is absent

    ghost predicate Valid()
      reads this
    {
      lastTrafficReset.Keys <= servers.Keys && forall id :: id in servers ==> servers[id].Valid()
    }

    constructor (listed: map<nat, Server>)
      requires forall id :: id in listed ==> listed[id].Valid()
      ensures Valid() && servers == listed && lastCycleCheck == map[] && lastTrafficReset == map[]
    {
      servers := listed;
      lastCycleCheck, lastTrafficReset := map[], map[];
    }

    function View(id: nat): Client
      reads this
    {
      Client(if id in lastCycleCheck then Some(lastCycleCheck[id]) else None,
             if id in lastTrafficReset then Some(lastTrafficReset[id]) else None)
    }

    function Counters(id: nat): set<TrafficCounter>
      reads this
    {
      if id in servers then {servers[id].inbound, servers[id].outbound} else {}
    }

    /** The check that every state report of a server runs first. rule is the transfer rule that covers the
        server, if there is one. */
    method CheckAndResetCycleTraffic(id: nat, rule: Option<Rule>, now: nat)
      requires Valid() && Usable(rule)
      modifies this`lastCycleCheck, this`lastTrafficReset, Counters(id)
      ensures Valid()
      ensures id in servers ==> View(id) == Check(old(View(id)), rule, now)
      ensures id in servers ==>
                && servers[id].inbound.View()
                   == (if old(Resets(View(id), rule, now)) then ZEROED_METER else old(servers[id].inbound.View()))
                && servers[id].outbound.View()
                   == (if old(Resets(View(id), rule, now)) then ZEROED_METER else old(servers[id].outbound.View()))
      ensures forall other :: other != id ==> View(other) == old(View(other))
    {
      if id in lastCycleCheck {
        if now - lastCycleCheck[id] < CHECK_INTERVAL {
          return;
        }
      }
      lastCycleCheck := lastCycleCheck[id := now];
      if rule.None? {
        return;
      }
      var currentCycleStart := GetTransferDurationStart(rule.value, now);
      if id !in servers {
        return;
      }
      ResetIfDue(id, currentCycleStart, now);
    }

    /** The part under the lock: a missing reset time becomes the start of the cycle, and a reset time before it has
        the counts cleared. */
    method ResetIfDue(id: nat, currentCycleStart: int, now: nat)
      requires Valid() && id in servers
      modifies this`lastTrafficReset, Counters(id)
      ensures Valid()
      ensures var was := if id in old(lastTrafficReset) then old(lastTrafficReset)[id] else currentCycleStart;
              var due := was < currentCycleStart < now;
              && lastTrafficReset == old(lastTrafficReset)[id := if due then now else was]
              && servers[id].inbound.View() == (if due then ZEROED_METER else old(servers[id].inbound.View()))
              && servers[id].outbound.View() == (if due then ZEROED_METER else old(servers[id].outbound.View()))
    {
      if id !in lastTrafficReset {
        lastTrafficReset := lastTrafficReset[id := currentCycleStart];
        return;
      }
      if lastTrafficReset[id] < currentCycleStart && now > currentCycleStart {
        servers[id].ResetCycle();
        lastTrafficReset := lastTrafficReset[id := now];
      }
    }

    /** Regrouping replaces the server by a copy that has neither the reset time nor the baselines. */
    method RegroupServer(id: nat)
      requires Valid() && id in servers
      modifies this`servers, this`lastTrafficReset
      ensures Valid() && servers.Keys == old(servers).Keys && fresh(Counters(id))
      ensures View(id) == AfterEvent(old(View(id)), None, Regroup)
      ensures servers[id].inbound.View() == Meter(0, false, old(servers[id].inbound.cumulative))
      ensures servers[id].outbound.View() == Meter(0, false, old(servers[id].outbound.cumulative))
      ensures forall other :: other != id ==>
                View(other) == old(View(other)) && (other in servers ==> servers[other] == old(servers[other]))
    {
      var copy := new Server(Meter(0, false, servers[id].inbound.cumulative),
                             Meter(0, false, servers[id].outbound.cumulative));
      servers := servers[id := copy];
      lastTrafficReset := lastTrafficReset - {id};
    }
  }

  // ---------- Runs of reports ----------

  ghost function After(c: Client, rule: Option<Rule>, times: seq<nat>): Client
    requires Usable(rule)
  {
    if times == [] then c else Check(After(c, rule, times[..|times| - 1]), rule, times[|times| - 1])
  }

  /** The i-th report of the run resets the counts. */
  ghost predicate ResetsAt(c: Client, rule: Option<Rule>, times: seq<nat>, i: nat)
    requires Usable(rule) && i < |times|
  {
    Resets(After(c, rule, times[..i]), rule, times[i])
  }

  predicate Monotone(times: seq<nat>) {
    forall i, j :: 0 <= i <= j < |times| ==> times[i] <= times[j]
  }

  lemma AfterStep(c: Client, rule: Option<Rule>, times: seq<nat>, i: nat)
    requires Usable(rule) && i < |times|
    ensures After(c, rule, times[..i + 1]) == Check(After(c, rule, times[..i]), rule, times[i])
  {
    assert times[..i + 1][..i] == times[..i];
  }

  /** The reset time stays at or after the last reset. */
  lemma {:induction false} ResetTimeHolds(c: Client, rule: Option<Rule>, times: seq<nat>, i: nat, j: nat)
    requires Usable(rule) && Monotone(times) && i < j <= |times| && ResetsAt(c, rule, times, i)
    ensures After(c, rule, times[..j]).lastReset.Some? && times[i] <= After(c, rule, times[..j]).lastReset.value
    decreases j
  {
    AfterStep(c, rule, times, j - 1);
    if i < j - 1 {
      ResetTimeHolds(c, rule, times, i, j - 1);
    }
  }

  /** Two resets never fall in the same cycle, whatever the rule's unit and however the reports arrive. */
  lemma ResetsInDistinctCycles(c: Client, rule: Rule, times: seq<nat>, i: nat, j: nat)
    requires rule.cycleInterval >= 1 && Monotone(times) && i < j < |times|
    requires ResetsAt(c, Some(rule), times, i) && ResetsAt(c, Some(rule), times, j)
    ensures CurrentStart(rule, times[i]) < times[i] < CurrentStart(rule, times[j])
  {
    ResetTimeHolds(c, Some(rule), times, i, j);
  }

  /** From its first observation on, a server's reset time is not before the start of that observation's cycle. */
  lemma {:induction false} ResetTimeSinceFirst(c: Client, rule: Rule, times: seq<nat>, j: nat)
    requires rule.cycleInterval >= 1 && c == Client(None, None) && 0 < j <= |times|
    ensures After(c, Some(rule), times[..j]).lastReset.Some?
    ensures CurrentStart(rule, times[0]) <= After(c, Some(rule), times[..j]).lastReset.value
    decreases j
  {
    AfterStep(c, Some(rule), times, j - 1);
    if j > 1 {
      ResetTimeSinceFirst(c, rule, times, j - 1);
    } else {
      assert times[..0] == [];
    }
  }

  /** A reset leaves its own time as the reset time, and falls after the start of its cycle, never on it. */
  lemma ResetFallsInside(c: Client, rule: Rule, times: seq<nat>, i: nat)
    requires rule.cycleInterval >= 1 && i < |times| && ResetsAt(c, Some(rule), times, i)
    ensures CurrentStart(rule, times[i]) < times[i]
    ensures After(c, Some(rule), times[..i + 1]).lastReset == Some(times[i])
  {
    assert times[..i + 1][..i] == times[..i];
  }

  /** The first observation of a server only marks its cycle as begun: it does not reset, and every reset after it
      falls in a later cycle. */
  lemma FirstObservationInitialises(c: Client, rule: Rule, times: seq<nat>, i: nat)
    requires rule.cycleInterval >= 1 && c == Client(None, None)
    requires i < |times| && ResetsAt(c, Some(rule), times, i)
    ensures i > 0 && CurrentStart(rule, times[0]) < CurrentStart(rule, times[i])
    ensures Check(c, Some(rule), times[0]).lastReset == Some(CurrentStart(rule, times[0]))
  {
    assert times[..0] == [];
    if i > 0 {
      ResetTimeSinceFirst(c, rule, times, i);
    }
  }

  /** Once a check has run past the start of its cycle, the reset time is not before that start. */
  ghost predicate CheckedCycle(c: Client, rule: Rule)
    requires rule.cycleInterval >= 1
  {
    c.lastCheck.Some? ==>
      && c.lastReset.Some?
      && (CurrentStart(rule, c.lastCheck.value) < c.lastCheck.value ==>
            CurrentStart(rule, c.lastCheck.value) <= c.lastReset.value)
  }

  lemma CheckKeepsCheckedCycle(c: Client, rule: Rule, now: nat)
    requires rule.cycleInterval >= 1 && CheckedCycle(c, rule)
    ensures CheckedCycle(Check(c, Some(rule), now), rule)
  {
  }

  lemma {:induction false} RunKeepsCheckedCycle(c: Client, rule: Rule, times: seq<nat>)
    requires rule.cycleInterval >= 1 && CheckedCycle(c, rule)
    requires forall i :: 0 <= i < |times| ==> (c.lastCheck.Some? ==> c.lastCheck.value <= times[i])
    requires Monotone(times)
    ensures CheckedCycle(After(c, Some(rule), times), rule)
    ensures times != [] ==> After(c, Some(rule), times).lastCheck.Some? &&
                            times[|times| - 1] - After(c, Some(rule), times).lastCheck.value < CHECK_INTERVAL &&
                            After(c, Some(rule), times).lastCheck.value <= times[|times| - 1]
  {
    if times != [] {
      RunKeepsCheckedCycle(c, rule, times[..|times| - 1]);
      CheckKeepsCheckedCycle(After(c, Some(rule), times[..|times| - 1]), rule, times[|times| - 1]);
    }
  }

  /** Inside one window of a rule with an anchor, every later time sees the same start. */
  lemma SameStart(rule: Rule, earlier: nat, now: nat)
    requires rule.cycleInterval >= 1 && rule.cycleStart.Some? && rule.cycleStart.value <= now
    requires CurrentStart(rule, now) < earlier <= now
    ensures CurrentStart(rule, earlier) == CurrentStart(rule, now)
  {
    if rule.cycleUnit.Hour? {
      SameHourWindow(rule.cycleStart.value, rule.cycleInterval, now, earlier);
    } else {
      SameWindow(rule.cycleStart.value, rule.cycleUnit, rule.cycleInterval, now, earlier);
    }
  }

  /** After any report at least 30 seconds past the start of its cycle, the reset for that cycle has been done
      (or the server was first seen in it), although reports within 30 seconds of a check are not checked. */
  lemma ResetDone(c: Client, rule: Rule, times: seq<nat>, now: nat)
    requires rule.cycleInterval >= 1 && rule.cycleStart.Some? && rule.cycleStart.value <= now
    requires c.lastCheck.None? && Monotone(times + [now])
    requires CurrentStart(rule, now) + 30_000_000_000 <= now
    ensures After(c, Some(rule), times + [now]).lastReset.Some?
    ensures CurrentStart(rule, now) <= After(c, Some(rule), times + [now]).lastReset.value
  {
    var run := times + [now];
    RunKeepsCheckedCycle(c, rule, run);
    var last := After(c, Some(rule), run).lastCheck.value;
    SameStart(rule, last, now);
  }

  // ---------- Regrouping ----------

  datatype Event = Report(time: nat) | Regroup

  ghost function AfterEvent(c: Client, rule: Option<Rule>, e: Event): Client
    requires Usable(rule)
  {
    match e
    case Report(time) => Check(c, rule, time)
    case Regroup => c.(lastReset := None)
  }

  ghost function AfterEvents(c: Client, rule: Rule, events: seq<Event>): Client
    requires rule.cycleInterval >= 1
  {
    if events == [] then c
    else AfterEvent(AfterEvents(c, rule, events[..|events| - 1]), Some(rule), events[|events| - 1])
  }

  /** The i-th event is a report that is checked. */
  ghost predicate ChecksAt(c: Client, rule: Rule, events: seq<Event>, i: nat)
    requires rule.cycleInterval >= 1 && i < |events|
  {
    events[i].Report? && !Throttled(AfterEvents(c, rule, events[..i]), events[i].time)
  }

  ghost predicate EventResetsAt(c: Client, rule: Rule, events: seq<Event>, i: nat)
    requires rule.cycleInterval >= 1 && i < |events|
  {
    events[i].Report? && Resets(AfterEvents(c, rule, events[..i]), Some(rule), events[i].time)
  }

  /** All reports fall in the cycle that begins at start, after its first instant. */
  ghost predicate InCycle(rule: Rule, events: seq<Event>, start: int)
    requires rule.cycleInterval >= 1
  {
    forall e :: e in events && e.Report? ==> CurrentStart(rule, e.time) == start < e.time
  }

  lemma EventStep(c: Client, rule: Rule, events: seq<Event>, i: nat)
    requires rule.cycleInterval >= 1 && i < |events|
    ensures AfterEvents(c, rule, events[..i + 1])
            == AfterEvent(AfterEvents(c, rule, events[..i]), Some(rule), events[i])
  {
    assert events[..i + 1][..i] == events[..i];
  }

  /** Before the first check, only regrouping changes the reset time. */
  lemma {:induction false} BeforeFirstCheck(c: Client, rule: Rule, events: seq<Event>, i: nat)
    requires rule.cycleInterval >= 1 && i <= |events|
    requires forall j :: 0 <= j < i ==> !ChecksAt(c, rule, events, j)
    ensures AfterEvents(c, rule, events[..i]) == if Regroup in events[..i] then c.(lastReset := None) else c
    decreases i
  {
    if i > 0 {
      BeforeFirstCheck(c, rule, events, i - 1);
      EventStep(c, rule, events, i - 1);
      assert !ChecksAt(c, rule, events, i - 1);
      assert events[..i] == events[..i - 1] + [events[i - 1]];
      assert Regroup in events[..i] <==> Regroup in events[..i - 1] || events[i - 1] == Regroup;
    } else {
      assert events[..0] == [];
    }
  }

  /** A check that runs past the start of its cycle leaves a reset time that is not before that start. */
  lemma CheckReachesStart(c: Client, rule: Rule, now: nat)
    requires rule.cycleInterval >= 1 && !Throttled(c, now) && CurrentStart(rule, now) < now
    ensures var reset := Check(c, Some(rule), now).lastReset; reset.Some? && CurrentStart(rule, now) <= reset.value
  {
  }

  /** After the first check, a reset time is not before the start of the cycle. */
  lemma {:induction false} AfterFirstCheck(c: Client, rule: Rule, events: seq<Event>, k: nat, i: nat, start: int)
    requires rule.cycleInterval >= 1 && k < i <= |events| && InCycle(rule, events, start)
    requires ChecksAt(c, rule, events, k)
    ensures var reset := AfterEvents(c, rule, events[..i]).lastReset; reset.Some? ==> start <= reset.value
    decreases i
  {
    var before, e := AfterEvents(c, rule, events[..i - 1]), events[i - 1];
    EventStep(c, rule, events, i - 1);
    assert e in events;
    if e.Report? && !Throttled(before, e.time) {
      CheckReachesStart(before, rule, e.time);
    } else {
      AfterFirstCheck(c, rule, events, k, i - 1, start);
    }
  }

  /** A server whose last reset lies before the cycle is reset in it if and only if it is not regrouped before the
      first checked report of the cycle: regrouping in between loses that cycle's reset. */
  lemma RegroupLosesResetExactly(c: Client, rule: Rule, events: seq<Event>, k: nat, start: int)
    requires rule.cycleInterval >= 1 && InCycle(rule, events, start)
    requires c.lastReset.Some? && c.lastReset.value < start
    requires k < |events| && ChecksAt(c, rule, events, k)
    requires forall j :: 0 <= j < k ==> !ChecksAt(c, rule, events, j)
    ensures (exists i :: 0 <= i < |events| && EventResetsAt(c, rule, events, i)) <==> Regroup !in events[..k]
  {
    BeforeFirstCheck(c, rule, events, k);
    assert events[k] in events;
    if Regroup !in events[..k] {
      assert EventResetsAt(c, rule, events, k);
    } else {
      forall i | 0 <= i < |events|
        ensures !EventResetsAt(c, rule, events, i)
      {
        assert events[i] in events;
        if k < i {
          AfterFirstCheck(c, rule, events, k, i, start);
        } else if i < k {
          assert !ChecksAt(c, rule, events, i);
        }
      }
    }
  }
}
