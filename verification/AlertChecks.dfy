/** The event monitor's check as it runs: the alert's state is copied under the lock, judged without it, and written
    back under it again, so that edits of the alert can fall in between. */
module AlertChecks {
  import opened AlertSentinel
  import opened Sequences

  /** How far the running check is with one server: what it copied, or what it will write back. */
  datatype Flight =
    | Idle
    | Copied(rule: AlertRule, points: seq<bool>, prev: CheckState)
    | Judged(rule: AlertRule, points: seq<bool>, prev: CheckState)

  /** What there is about one server: the alert's rule, the kept samples, the previous state, and the check. */
  datatype Server = Server(rule: AlertRule, points: seq<bool>, prev: CheckState, flight: Flight)

  datatype Step = Copy | Judge(fault: bool) | WriteBack | Edit(rule: AlertRule)

  function Next(s: Server, e: Step): Server {
    match e
    case Copy => if s.flight.Idle? then s.(flight := Copied(s.rule, s.points, s.prev)) else s
    case Judge(fault) =>
      if !s.flight.Copied? then s
      else
        var f := s.flight;
        s.(flight := Judged(f.rule, KeptPoints(f.rule, f.points, fault), Verdict(f, fault).0))
    case WriteBack => (
      match s.flight
      case Idle => s
      // a server that is no longer listed is not judged; its copied state is still written back
      case Copied(_, _, prev) => s.(prev := prev, flight := Idle)
      case Judged(_, points, prev) => Server(s.rule, points, prev, Idle))
    case Edit(rule) => Server(rule, [], NoData, s.flight)
  }

  /** The next state and the announcements of a sample judged on a copy. */
  function Verdict(f: Flight, fault: bool): (CheckState, seq<Event>)
    requires f.Copied?
  {
    Announce(f.rule.triggerMode, f.prev, SampleFails(f.rule, f.points, fault))
  }

  function Told(s: Server, e: Step): seq<Event> {
    if e.Judge? && s.flight.Copied? then Verdict(s.flight, e.fault).1 else []
  }

  ghost function Play(s: Server, steps: seq<Step>): Server {
    Folded(Next, s, steps)
  }

  /** The announcements of a run of steps. */
  ghost function Heard(s: Server, steps: seq<Step>): seq<Event> {
    Gathered(Next, Told, s, steps)
  }

  // ---------- The monitor ----------

  function Get<T>(m: map<nat, T>, id: nat, missing: T): T {
    if id in m then m[id] else missing
  }

  class Sentinel {
    var rule: AlertRule
    var alertsStore: map<nat, seq<bool>>
    var alertsPrevState: map<nat, CheckState>
    // the copies that a running check works on, and the updates it has collected
    var checking: bool
    var alertCopy: AlertRule
    var alertsStoreCopy: map<nat, seq<bool>>
    var alertsPrevStateCopy: map<nat, CheckState>
    var updates: map<nat, (seq<bool>, nat)>

    ghost predicate Valid()
      reads this
    {
      checking ==> alertsPrevState.Keys + updates.Keys <= alertsPrevStateCopy.Keys
    }

    ghost function View(id: nat): Server
      reads this
    {
      Server(rule, Get(alertsStore, id, []), Get(alertsPrevState, id, NoData),
             if !checking then Idle
             else if id in updates
             then Judged(alertCopy, Trimmed(updates[id].0, updates[id].1), Get(alertsPrevStateCopy, id, NoData))
             else Copied(alertCopy, Get(alertsStoreCopy, id, []), Get(alertsPrevStateCopy, id, NoData)))
    }

    constructor (alert: AlertRule)
      ensures Valid() && !checking
      ensures forall id :: View(id) == Server(alert, [], NoData, Idle)
    {
      rule, alertCopy, checking := alert, alert, false;
      alertsStore, alertsPrevState := map[], map[];
      alertsStoreCopy, alertsPrevStateCopy, updates := map[], map[], map[];
    }

    /** The first part of checkStatus, under the lock. */
    method CopyState()
      requires Valid() && !checking
      modifies this
      ensures Valid() && checking && updates == map[]
      ensures forall id :: View(id) == Next(old(View(id)), Copy)
    {
      checking, alertCopy := true, rule;
      alertsStoreCopy, alertsPrevStateCopy, updates := alertsStore, alertsPrevState, map[];
    }

    /** One server's part of the check, without the lock. */
    method CheckServer(serverID: nat, fault: bool) returns (events: seq<Event>)
      requires Valid() && checking && serverID !in updates
      modifies this
      ensures Valid() && checking && updates.Keys == old(updates).Keys + {serverID}
      ensures View(serverID) == Next(old(View(serverID)), Judge(fault))
      ensures events == Told(old(View(serverID)), Judge(fault))
      ensures forall id :: id != serverID ==> View(id) == old(View(id))
    {
      var points, prev := Get(alertsStoreCopy, serverID, []), Get(alertsPrevStateCopy, serverID, NoData);
      var snapshot, max, newState;
      snapshot, max, newState, events := CheckSample(alertCopy, points, prev, fault);
      updates := updates[serverID := (snapshot, max)];
      alertsPrevStateCopy := alertsPrevStateCopy[serverID := newState];
    }

    /** The last part of checkStatus, under the lock again. */
    method WriteBackState()
      requires Valid() && checking
      modifies this
      ensures Valid() && !checking
      ensures forall id :: View(id) == Next(old(View(id)), WriteBack)
    {
      alertsStore := alertsStore + map id | id in updates :: Trimmed(updates[id].0, updates[id].1);
      alertsPrevState := alertsPrevState + alertsPrevStateCopy;
      checking := false;
    }

    /** An edit forgets the alert's samples and states; a running check keeps its copies. */
    method OnRefreshOrAddAlert(alert: AlertRule)
      requires Valid()
      modifies this`rule, this`alertsStore, this`alertsPrevState
      ensures Valid() && forall id :: View(id) == Next(old(View(id)), Edit(alert))
    {
      rule := alert;
      alertsStore, alertsPrevState := map[], map[];
    }
  }

  // ---------- Checks without an edit in between ----------

  lemma PlayAppend(s: Server, a: seq<Step>, b: seq<Step>)
    ensures Play(s, a + b) == Play(Play(s, a), b)
    ensures Heard(s, a + b) == Heard(s, a) + Heard(Play(s, a), b)
  {
    FoldedAppend(Next, s, a, b);
    GatheredAppend(Next, Told, s, a, b);
  }

  lemma PlayStep(s: Server, steps: seq<Step>, e: Step)
    ensures Play(s, steps + [e]) == Next(Play(s, steps), e)
    ensures Heard(s, steps + [e]) == Heard(s, steps) + Told(Play(s, steps), e)
  {
    assert (steps + [e])[..|steps|] == steps;
  }

  lemma PlayOne(s: Server, e: Step)
    ensures Play(s, [e]) == Next(s, e) && Heard(s, [e]) == Told(s, e)
  {
    PlayStep(s, [], e);
    assert [] + [e] == [e];
  }

  /** One whole check of a server. */
  function Round(fault: bool): seq<Step> {
    [Copy, Judge(fault), WriteBack]
  }

  lemma RoundIs(s: Server, fault: bool)
    requires s.flight.Idle?
    ensures var (prev, events) := Announce(s.rule.triggerMode, s.prev, SampleFails(s.rule, s.points, fault));
            && Play(s, Round(fault)) == Server(s.rule, KeptPoints(s.rule, s.points, fault), prev, Idle)
            && Heard(s, Round(fault)) == events
  {
    PlayOne(s, Copy);
    PlayStep(s, [Copy], Judge(fault));
    PlayStep(s, [Copy, Judge(fault)], WriteBack);
    assert [Copy] + [Judge(fault)] == [Copy, Judge(fault)];
    assert [Copy, Judge(fault)] + [WriteBack] == Round(fault);
  }

  ghost function Rounds(samples: seq<bool>): seq<Step> {
    if samples == [] then [] else Rounds(samples[..|samples| - 1]) + Round(samples[|samples| - 1])
  }

  /** From an edit with no check under way, whole checks give the run of verdicts on the kept history. */
  lemma {:induction false} RoundsAreRun(rule: AlertRule, samples: seq<bool>)
    ensures var s := Server(rule, [], NoData, Idle);
            var (prev, events) := Announced(rule.triggerMode, Verdicts(rule, samples));
            && Play(s, Rounds(samples)) == Server(rule, KeptAfter(rule, samples), prev, Idle)
            && Heard(s, Rounds(samples)) == events
  {
    if samples != [] {
      var s, n := Server(rule, [], NoData, Idle), |samples| - 1;
      var before, fault := samples[..n], samples[n];
      RoundsAreRun(rule, before);
      RoundIs(Play(s, Rounds(before)), fault);
      PlayAppend(s, Rounds(before), Round(fault));
      SampleAdded(rule, before, fault);
      AnnouncedStep(rule.triggerMode, Verdicts(rule, before), SampleFails(rule, KeptAfter(rule, before), fault));
      assert before + [fault] == samples;
    }
  }

  // ---------- Edits ----------

  /** After an edit with no check under way, nothing from before is left: the checks that follow announce what the new
      rule's own run does. */
  lemma EditStartsOver(s: Server, rule: AlertRule, samples: seq<bool>)
    requires s.flight.Idle?
    ensures Heard(Next(s, Edit(rule)), Rounds(samples)) == Announced(rule.triggerMode, Verdicts(rule, samples)).1
  {
    RoundsAreRun(rule, samples);
  }

  /** What a check has in flight at an edit comes back when it writes back: the state it copied or judged, and the
      samples if it has judged them, under the new rule. */
  lemma InFlightSurvivesEdit(s: Server, rule: AlertRule)
    requires !s.flight.Idle?
    ensures Play(s, [Edit(rule), WriteBack])
            == Server(rule, if s.flight.Judged? then s.flight.points else [], s.flight.prev, Idle)
  {
    PlayOne(s, Edit(rule));
    PlayStep(s, [Edit(rule)], WriteBack);
    assert [Edit(rule)] + [WriteBack] == [Edit(rule), WriteBack];
  }

  ghost predicate NoEdits(steps: seq<Step>) {
    forall e :: e in steps ==> !e.Edit?
  }

  /** The state that the next verdict will be compared with. */
  function Compared(s: Server): CheckState {
    if s.flight.Idle? then s.prev else s.flight.prev
  }

  predicate Onetime(s: Server) {
    s.rule.triggerMode == OnetimeTrigger && (!s.flight.Idle? ==> s.flight.rule.triggerMode == OnetimeTrigger)
  }

  /** In one-time mode a step announces exactly the change of the state that verdicts are compared with. */
  lemma StepTellsChange(s: Server, e: Step)
    requires Onetime(s) && !e.Edit?
    ensures Onetime(Next(s, e))
    ensures var was, now := Compared(s) == Fail, Compared(Next(s, e)) == Fail;
            Told(s, e) == if !was && now then [Incident] else if was && !now then [Resolved] else []
  {
  }

  lemma AlternateOneMore(events: seq<Event>, more: seq<Event>)
    requires Alternate(events)
    requires more == [] || more == [if |events| % 2 == 0 then Incident else Resolved]
    ensures Alternate(events + more)
  {
  }

  /** What was announced so far alternates, and an incident is open exactly when the compared state is failing. */
  ghost predicate InTurn(s: Server, heard: seq<Event>) {
    Onetime(s) && Alternate(heard) && (Compared(s) == Fail <==> |heard| % 2 == 1)
  }

  lemma StepKeepsTurn(s: Server, e: Step, heard: seq<Event>)
    requires InTurn(s, heard) && !e.Edit?
    ensures InTurn(Next(s, e), heard + Told(s, e))
  {
    StepTellsChange(s, e);
    AlternateOneMore(heard, Told(s, e));
  }

  lemma {:induction false} KeepsTurn(s: Server, steps: seq<Step>)
    requires InTurn(s, []) && NoEdits(steps)
    ensures InTurn(Play(s, steps), Heard(s, steps))
  {
    if steps != [] {
      var before := steps[..|steps| - 1];
      KeepsTurn(s, before);
      StepKeepsTurn(Play(s, before), steps[|steps| - 1], Heard(s, before));
    }
  }

  /** The last g samples, as far as there are so many, are good. */
  ghost predicate GoodTail(points: seq<bool>, g: nat) {
    forall i :: 0 <= i < |points| && |points| - g <= i ==> !points[i]
  }

  lemma {:induction false} NoFaults(points: seq<bool>)
    requires GoodTail(points, |points|)
    ensures Faults(points) == 0
  {
    if points != [] {
      NoFaults(points[1..]);
    }
  }

  lemma GoodSampleAdded(rule: AlertRule, points: seq<bool>, g: nat)
    requires GoodTail(points, g)
    ensures GoodTail(KeptPoints(rule, points, false), g + 1)
    ensures |KeptPoints(rule, points, false)| <= MAX_HISTORY_PER_SERVER
  {
  }

  lemma GoodSamplesPass(rule: AlertRule, points: seq<bool>)
    requires GoodTail(points, MAX_HISTORY_PER_SERVER) && |points| <= MAX_HISTORY_PER_SERVER
    ensures !SampleFails(rule, points, false)
  {
    var capped := Latest(points + [false], MAX_HISTORY_PER_SERVER);
    var seen := Latest(capped, rule.duration);
    NoFaults(seen);
  }

  /** After an announced incident, enough good samples bring the recovery, and nothing before it. */
  lemma {:induction false} GoodSamplesRecover(s: Server, g: nat) returns (steps: seq<Step>)
    requires s.flight.Idle? && s.prev == Fail && s.rule.triggerMode == OnetimeTrigger
    requires GoodTail(s.points, g) && g <= MAX_HISTORY_PER_SERVER && (g > 0 ==> |s.points| <= MAX_HISTORY_PER_SERVER)
    ensures NoEdits(steps) && Heard(s, steps) == [Resolved]
    decreases MAX_HISTORY_PER_SERVER - g
  {
    RoundIs(s, false);
    steps := Round(false);
    if SampleFails(s.rule, s.points, false) {
      if g == MAX_HISTORY_PER_SERVER {
        GoodSamplesPass(s.rule, s.points);
      } else {
        GoodSampleAdded(s.rule, s.points, g);
        var more := GoodSamplesRecover(Play(s, Round(false)), g + 1);
        PlayAppend(s, Round(false), more);
        steps := Round(false) + more;
      }
    }
  }

  /** A check in flight with a failing state ends in a recovery that no incident since the edit precedes. */
  lemma StaleFailureRecovers(s: Server) returns (steps: seq<Step>)
    requires Onetime(s) && !s.flight.Idle? && s.flight.prev == Fail
    ensures NoEdits(steps) && Heard(s, steps) == [Resolved]
  {
    var judge := if s.flight.Copied? then [Judge(false)] else [];
    if s.flight.Copied? {
      PlayOne(s, Judge(false));
      if Told(s, Judge(false)) != [] {
        return judge;
      }
    }
    var judged := Play(s, judge);
    PlayOne(judged, WriteBack);
    PlayAppend(s, judge, [WriteBack]);
    var more := GoodSamplesRecover(Play(judged, [WriteBack]), 0);
    PlayAppend(s, judge + [WriteBack], more);
    steps := judge + [WriteBack] + more;
  }

  /** In one-time mode, incidents and recoveries alternate after an edit, whatever follows until the next edit, if and
      only if no check is under way at the edit with a failing state. */
  lemma EditAlternatesExactly(s: Server, rule: AlertRule)
    requires rule.triggerMode == OnetimeTrigger && (!s.flight.Idle? ==> s.flight.rule.triggerMode == OnetimeTrigger)
    ensures (forall steps :: NoEdits(steps) ==> Alternate(Heard(Next(s, Edit(rule)), steps)))
            <==> !(!s.flight.Idle? && s.flight.prev == Fail)
  {
    var edited := Next(s, Edit(rule));
    if !s.flight.Idle? && s.flight.prev == Fail {
      var steps := StaleFailureRecovers(edited);
      assert Heard(edited, steps)[0] == Resolved;
    } else {
      forall steps | NoEdits(steps)
        ensures Alternate(Heard(edited, steps))
      {
        KeepsTurn(edited, steps);
      }
    }
  }
}
