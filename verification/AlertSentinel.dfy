/** The verdicts of the event monitor for an alert with a single regular rule: it keeps at most ten samples per
    server, decides over the rule's last Duration samples, and announces changes. */
module AlertSentinel {
  import opened Sequences

  const MAX_HISTORY_PER_SERVER: nat := 10

  datatype TriggerMode = AlwaysTrigger | OnetimeTrigger

  /** int(Rules[0].Duration) samples are looked at; those above the int range are not modelled. */
  datatype AlertRule = AlertRule(duration: nat, triggerMode: TriggerMode)

  datatype CheckState = NoData | Fail | Pass

  datatype Event = Incident | Resolved

  // ---------- The verdict (a sample is true when the rule found a fault) ----------

  function Latest<T>(s: seq<T>, n: nat): seq<T> {
    if |s| <= n then s else s[|s| - n..]
  }

  function Faults(points: seq<bool>): nat {
    if points == [] then 0
    else Faults(points[1..]) + if points[0] then 1 else 0
  }

  /** More than seventy per cent of the last duration samples are faults. */
  predicate WindowFails(points: seq<bool>, duration: nat) {
    0 < duration <= |points| && 10 * Faults(Latest(points, duration)) > 7 * duration
  }

  /** The positions of the faults from the one at from on. */
  ghost function FaultPositions(points: seq<bool>, from: nat): set<nat> {
    set i | from <= i < |points| && points[i]
  }

  lemma {:induction false} FaultsArePositions(points: seq<bool>, from: nat)
    requires from <= |points|
    ensures Faults(points[from..]) == |FaultPositions(points, from)|
    decreases |points| - from
  {
    if from < |points| {
      FaultsArePositions(points, from + 1);
      assert points[from..][1..] == points[from + 1..];
      assert FaultPositions(points, from)
          == FaultPositions(points, from + 1) + if points[from] then {from} else {};
    }
  }

  /** A rule over some samples fails when there are as many, and more than seven tenths of the last ones are faults. */
  lemma FailsExactly(points: seq<bool>, duration: nat)
    ensures WindowFails(points, duration) <==>
            0 < duration <= |points|
            && 10 * |set i | |points| - duration <= i < |points| && points[i]| > 7 * duration
  {
    if duration <= |points| {
      FaultsArePositions(points, |points| - duration);
      assert Latest(points, duration) == points[|points| - duration..];
      assert FaultPositions(points, |points| - duration)
          == set i | |points| - duration <= i < |points| && points[i];
    }
  }

  lemma ShareAsPercentage(fail: real, total: real)
    requires total > 0.0
    ensures fail / total > 0.7 <==> 10.0 * fail > 7.0 * total
  {
    assert fail == fail / total * total;
    if fail / total > 0.7 {
      assert fail / total * total > 0.7 * total;
    } else {
      assert fail / total * total <= 0.7 * total;
    }
  }

  method Check(points: seq<bool>, rule: AlertRule) returns (maxNum: nat, passed: bool)
    ensures maxNum == rule.duration && (passed <==> !WindowFails(points, rule.duration))
  {
    var total, fail := 0.0, 0.0;
    var num := rule.duration;
    maxNum := num;
    if |points| < num {
      return num, true;
    }
    var j := |points| - 1;
    ghost var seen := 0;
    while j >= 0 && |points| - num <= j
      invariant -1 <= j < |points| && |points| - num <= j + 1
      invariant seen == |points| - 1 - j && total == seen as real
      invariant fail == Faults(points[j + 1..]) as real
    {
      assert points[j..][1..] == points[j + 1..];
      total := total + 1.0;
      if points[j] {
        fail := fail + 1.0;
      }
      j, seen := j - 1, seen + 1;
    }
    // without samples the share is not a number, which no comparison exceeds
    if num == 0 {
      return num, true;
    }
    assert points[j + 1..] == Latest(points, num);
    ShareAsPercentage(fail, total);
    passed := !(fail / total > 0.7);
  }

  // ---------- One sample ----------

  /** What one verdict does to the previous state and what it announces. */
  function Announce(mode: TriggerMode, prev: CheckState, failing: bool): (CheckState, seq<Event>) {
    if failing then (Fail, if mode == AlwaysTrigger || prev != Fail then [Incident] else [])
    else (Pass, if prev == Fail then [Resolved] else [])
  }

  /** The state and all announcements after a run of verdicts (true: failing). */
  ghost function Announced(mode: TriggerMode, verdicts: seq<bool>): (CheckState, seq<Event>) {
    if verdicts == [] then (NoData, [])
    else
      var n := |verdicts| - 1;
      var (prev, events) := Announced(mode, verdicts[..n]);
      var (next, more) := Announce(mode, prev, verdicts[n]);
      (next, events + more)
  }

  lemma AnnouncedStep(mode: TriggerMode, verdicts: seq<bool>, failing: bool)
    ensures var (prev, events) := Announced(mode, verdicts);
            var (next, more) := Announce(mode, prev, failing);
            Announced(mode, verdicts + [failing]) == (next, events + more)
  {
    assert (verdicts + [failing])[..|verdicts|] == verdicts;
  }

  /** The verdict once a sample is appended to the kept history and the history is capped. */
  predicate SampleFails(rule: AlertRule, points: seq<bool>, fault: bool) {
    WindowFails(Latest(points + [fault], MAX_HISTORY_PER_SERVER), rule.duration)
  }

  /** A history trimmed to what a rule asked for. */
  function Trimmed(points: seq<bool>, max: nat): seq<bool> {
    if 0 < max < |points| then points[|points| - max..] else points
  }

  /** What is kept then: capped, and trimmed. */
  function KeptPoints(rule: AlertRule, points: seq<bool>, fault: bool): seq<bool> {
    Trimmed(Latest(points + [fault], MAX_HISTORY_PER_SERVER), rule.duration)
  }

  ghost function KeptAfter(rule: AlertRule, samples: seq<bool>): seq<bool> {
    if samples == [] then []
    else KeptPoints(rule, KeptAfter(rule, samples[..|samples| - 1]), samples[|samples| - 1])
  }

  /** The verdicts on the kept history, one for each sample. */
  ghost function Verdicts(rule: AlertRule, samples: seq<bool>): (v: seq<bool>)
    ensures |v| == |samples|
  {
    seq(|samples|, i requires 0 <= i < |samples| => SampleFails(rule, KeptAfter(rule, samples[..i]), samples[i]))
  }

  /** The reference verdicts: every sample is kept, and the last Duration of them decide. */
  ghost function ReferenceVerdicts(rule: AlertRule, samples: seq<bool>): (v: seq<bool>)
    ensures |v| == |samples|
  {
    seq(|samples|, i requires 0 <= i < |samples| => WindowFails(samples[..i + 1], rule.duration))
  }

  lemma SampleAdded(rule: AlertRule, samples: seq<bool>, fault: bool)
    ensures KeptAfter(rule, samples + [fault]) == KeptPoints(rule, KeptAfter(rule, samples), fault)
    ensures Verdicts(rule, samples + [fault])
            == Verdicts(rule, samples) + [SampleFails(rule, KeptAfter(rule, samples), fault)]
  {
    assert (samples + [fault])[..|samples|] == samples;
    forall i | 0 <= i < |samples|
      ensures Verdicts(rule, samples + [fault])[i] == Verdicts(rule, samples)[i]
    {
      assert (samples + [fault])[..i] == samples[..i];
    }
  }

  method Decide(mode: TriggerMode, prevState: CheckState, passed: bool)
    returns (newState: CheckState, events: seq<Event>)
    ensures (newState, events) == Announce(mode, prevState, !passed)
  {
    newState, events := prevState, [];
    if !passed {
      if mode == AlwaysTrigger || newState != Fail {
        newState := Fail;
        events := [Incident];
      }
    } else {
      if newState == Fail {
        events := [Resolved];
      }
      newState := Pass;
    }
  }

  /** What checkStatus makes of one sample, given a server's history and previous state. */
  method CheckSample(rule: AlertRule, points: seq<bool>, prevState: CheckState, fault: bool)
    returns (snapshot: seq<bool>, max: nat, newState: CheckState, events: seq<Event>)
    ensures snapshot == Latest(points + [fault], MAX_HISTORY_PER_SERVER) && max == rule.duration
    ensures (newState, events) == Announce(rule.triggerMode, prevState, SampleFails(rule, points, fault))
  {
    snapshot := points + [fault];
    if |snapshot| > MAX_HISTORY_PER_SERVER {
      snapshot := snapshot[|snapshot| - MAX_HISTORY_PER_SERVER..];
    }
    assert snapshot == Latest(points + [fault], MAX_HISTORY_PER_SERVER);
    var passed;
    max, passed := Check(snapshot, rule);
    newState, events := Decide(rule.triggerMode, prevState, passed);
  }

  // ---------- The capped history decides as the full one ----------

  lemma LatestOfLatest<T>(s: seq<T>, m: nat, n: nat)
    ensures Latest(Latest(s, m), n) == Latest(s, if m <= n then m else n)
  {
  }

  lemma LatestAppended<T>(s: seq<T>, n: nat, x: T)
    ensures Latest(s, n) + [x] == Latest(s + [x], n + 1)
  {
  }

  /** How many samples a server keeps. */
  function Kept(duration: nat): nat {
    if 0 < duration <= MAX_HISTORY_PER_SERVER then duration else MAX_HISTORY_PER_SERVER
  }

  lemma KeepsAfterSample(rule: AlertRule, samples: seq<bool>, fault: bool)
    ensures KeptPoints(rule, Latest(samples, Kept(rule.duration)), fault)
            == Latest(samples + [fault], Kept(rule.duration))
  {
    var k := Kept(rule.duration);
    LatestAppended(samples, k, fault);
    LatestOfLatest(samples + [fault], k + 1, MAX_HISTORY_PER_SERVER);
    LatestOfLatest(samples + [fault], if k + 1 <= MAX_HISTORY_PER_SERVER then k + 1 else MAX_HISTORY_PER_SERVER,
                   rule.duration);
  }

  /** Only the last samples are kept: as many as the rule looks at, and never more than ten. */
  lemma {:induction false} KeepsTheLatest(rule: AlertRule, samples: seq<bool>)
    ensures KeptAfter(rule, samples) == Latest(samples, Kept(rule.duration))
  {
    if samples != [] {
      var n := |samples| - 1;
      KeepsTheLatest(rule, samples[..n]);
      KeepsAfterSample(rule, samples[..n], samples[n]);
      assert samples[..n] + [samples[n]] == samples;
    }
  }

  /** The capped history at the check: the last samples, at least as many as the rule looks at. */
  lemma CappedIsLatest(rule: AlertRule, samples: seq<bool>, fault: bool)
    ensures Latest(KeptAfter(rule, samples) + [fault], MAX_HISTORY_PER_SERVER)
            == Latest(samples + [fault],
                      if Kept(rule.duration) < MAX_HISTORY_PER_SERVER then Kept(rule.duration) + 1
                      else MAX_HISTORY_PER_SERVER)
  {
    KeepsTheLatest(rule, samples);
    LatestAppended(samples, Kept(rule.duration), fault);
    LatestOfLatest(samples + [fault], Kept(rule.duration) + 1, MAX_HISTORY_PER_SERVER);
  }

  lemma WindowOfLatest(points: seq<bool>, n: nat, duration: nat)
    requires duration <= n
    ensures WindowFails(Latest(points, n), duration) == WindowFails(points, duration)
  {
    LatestOfLatest(points, n, duration);
  }

  /** What the rule sees of the capped history is what it would see of all samples, up to ten. */
  lemma SeesTheSame(rule: AlertRule, samples: seq<bool>, fault: bool)
    requires rule.duration <= MAX_HISTORY_PER_SERVER
    ensures SampleFails(rule, KeptAfter(rule, samples), fault) == WindowFails(samples + [fault], rule.duration)
  {
    var k := Kept(rule.duration);
    CappedIsLatest(rule, samples, fault);
    WindowOfLatest(samples + [fault], if k < MAX_HISTORY_PER_SERVER then k + 1 else MAX_HISTORY_PER_SERVER,
                   rule.duration);
  }

  lemma SameVerdict(rule: AlertRule, samples: seq<bool>, i: nat)
    requires rule.duration <= MAX_HISTORY_PER_SERVER && i < |samples|
    ensures Verdicts(rule, samples)[i] == ReferenceVerdicts(rule, samples)[i]
  {
    SeesTheSame(rule, samples[..i], samples[i]);
    assert samples[..i + 1] == samples[..i] + [samples[i]];
  }

  lemma SameVerdicts(rule: AlertRule, samples: seq<bool>)
    requires rule.duration <= MAX_HISTORY_PER_SERVER
    ensures Verdicts(rule, samples) == ReferenceVerdicts(rule, samples)
  {
    forall i | 0 <= i < |samples|
      ensures Verdicts(rule, samples)[i] == ReferenceVerdicts(rule, samples)[i]
    {
      SameVerdict(rule, samples, i);
    }
  }

  function AllFaults(n: nat): (s: seq<bool>)
    ensures |s| == n && forall i :: 0 <= i < n ==> s[i]
  {
    seq(n, _ => true)
  }

  lemma {:induction false} FaultsOfAll(s: seq<bool>)
    requires forall i :: 0 <= i < |s| ==> s[i]
    ensures Faults(s) == |s|
  {
    if s != [] {
      FaultsOfAll(s[1..]);
    }
  }

  lemma {:induction false} QuietWithoutFailures(mode: TriggerMode, verdicts: seq<bool>)
    requires true !in verdicts
    ensures Announced(mode, verdicts).0 != Fail && Announced(mode, verdicts).1 == []
  {
    if verdicts != [] {
      QuietWithoutFailures(mode, verdicts[..|verdicts| - 1]);
    }
  }

  lemma FailureIsAnnounced(mode: TriggerMode, verdicts: seq<bool>)
    requires verdicts != [] && verdicts[|verdicts| - 1]
    ensures Announced(mode, verdicts).1 != []
  {
    RecoveryFollowsIncident(mode, verdicts);
  }

  /** A rule over more samples than are kept never fails. */
  lemma LongRulesNeverFail(rule: AlertRule, samples: seq<bool>)
    requires rule.duration > MAX_HISTORY_PER_SERVER
    ensures Announced(rule.triggerMode, Verdicts(rule, samples)).1 == []
  {
    QuietWithoutFailures(rule.triggerMode, Verdicts(rule, samples));
  }

  ghost predicate AnnouncesAsReference(rule: AlertRule, samples: seq<bool>) {
    Announced(rule.triggerMode, Verdicts(rule, samples))
    == Announced(rule.triggerMode, ReferenceVerdicts(rule, samples))
  }

  /** The capped and trimmed run announces what the reference announces, whatever the samples, if and only if the
      rule looks at ten samples or fewer. */
  lemma CappedRunExactly(rule: AlertRule)
    ensures (forall samples :: AnnouncesAsReference(rule, samples)) <==> rule.duration <= 10
  {
    if rule.duration <= MAX_HISTORY_PER_SERVER {
      forall samples
        ensures AnnouncesAsReference(rule, samples)
      {
        SameVerdicts(rule, samples);
      }
    } else {
      var samples := AllFaults(rule.duration);
      LongRulesNeverFail(rule, samples);
      FaultsOfAll(samples);
      assert samples[..rule.duration] == samples;
      assert WindowFails(samples, rule.duration);
      FailureIsAnnounced(rule.triggerMode, ReferenceVerdicts(rule, samples));
      assert !AnnouncesAsReference(rule, samples);
    }
  }

  // ---------- What a run of verdicts announces ----------

  /** What the i-th verdict announces, told from it and the one before. */
  function EventsAt(mode: TriggerMode, verdicts: seq<bool>, i: nat): seq<Event>
    requires i < |verdicts|
  {
    if verdicts[i] then if mode.AlwaysTrigger? || i == 0 || !verdicts[i - 1] then [Incident] else []
    else if i > 0 && verdicts[i - 1] then [Resolved] else []
  }

  function EventsOf(mode: TriggerMode, verdicts: seq<bool>): seq<seq<Event>> {
    seq(|verdicts|, i requires 0 <= i < |verdicts| => EventsAt(mode, verdicts, i))
  }

  lemma EventsOneMore(mode: TriggerMode, verdicts: seq<bool>, failing: bool)
    ensures Flatten(EventsOf(mode, verdicts + [failing]))
            == Flatten(EventsOf(mode, verdicts)) + EventsAt(mode, verdicts + [failing], |verdicts|)
  {
    var n, more := |verdicts|, verdicts + [failing];
    assert EventsOf(mode, more) == EventsOf(mode, verdicts) + [EventsAt(mode, more, n)];
    FlattenOneMore(EventsOf(mode, verdicts), EventsAt(mode, more, n));
  }

  lemma {:induction false} StateIsLastVerdict(mode: TriggerMode, verdicts: seq<bool>)
    ensures Announced(mode, verdicts).0
            == if verdicts == [] then NoData else if verdicts[|verdicts| - 1] then Fail else Pass
  {
    if verdicts != [] {
      StateIsLastVerdict(mode, verdicts[..|verdicts| - 1]);
    }
  }

  /** In either mode, the state is that of the last verdict; a recovery is announced exactly at the passing verdicts
      that follow a failing one, and an incident at the failing verdicts, of which one-time mode takes only those that
      do not follow another. */
  lemma {:induction false} AnnouncedExactly(mode: TriggerMode, verdicts: seq<bool>)
    ensures Announced(mode, verdicts).0
            == if verdicts == [] then NoData else if verdicts[|verdicts| - 1] then Fail else Pass
    ensures Announced(mode, verdicts).1 == Flatten(EventsOf(mode, verdicts))
  {
    StateIsLastVerdict(mode, verdicts);
    if verdicts != [] {
      var n := |verdicts| - 1;
      var before := verdicts[..n];
      AnnouncedExactly(mode, before);
      EventsOneMore(mode, before, verdicts[n]);
      assert before + [verdicts[n]] == verdicts;
      assert n > 0 ==> before[|before| - 1] == verdicts[n - 1];
      assert Announce(mode, Announced(mode, before).0, verdicts[n]).1 == EventsAt(mode, verdicts, n);
    }
  }

  predicate EndsAt(verdicts: seq<bool>, i: nat) {
    0 < i < |verdicts| && verdicts[i - 1] && !verdicts[i]
  }

  /** The positions where a failure ends. */
  ghost function Endings(verdicts: seq<bool>): set<nat> {
    set i | 0 <= i < |verdicts| && EndsAt(verdicts, i)
  }

  lemma EndingsOneMore(verdicts: seq<bool>, failing: bool)
    ensures |Endings(verdicts + [failing])|
            == |Endings(verdicts)| + if verdicts != [] && verdicts[|verdicts| - 1] && !failing then 1 else 0
  {
    var n, more := |verdicts|, verdicts + [failing];
    assert forall i :: 0 <= i < n ==> (EndsAt(more, i) <==> EndsAt(verdicts, i));
    assert Endings(more) == Endings(verdicts) + if EndsAt(more, n) then {n} else {};
  }

  /** In either mode there are as many recoveries as failures that end. */
  lemma {:induction false} EveryEndingResolved(mode: TriggerMode, verdicts: seq<bool>)
    ensures |Occurrences(Announced(mode, verdicts).1, Resolved)| == |Endings(verdicts)|
  {
    if verdicts != [] {
      var n := |verdicts| - 1;
      EveryEndingResolved(mode, verdicts[..n]);
      AnnouncedExactly(mode, verdicts[..n]);
      EndingsOneMore(verdicts[..n], verdicts[n]);
      assert verdicts[..n] + [verdicts[n]] == verdicts;
      var (prev, events) := Announced(mode, verdicts[..n]);
      OccurrencesMore(events, Announce(mode, prev, verdicts[n]).1, Resolved);
    }
  }

  // ---------- Alternation ----------

  /** Starting with an incident, incidents and recoveries take turns. */
  ghost predicate Alternate(events: seq<Event>) {
    forall i :: 0 <= i < |events| ==> events[i] == if i % 2 == 0 then Incident else Resolved
  }

  /** In one-time mode incidents and recoveries strictly alternate from an edit on; the server is failing exactly
      when an incident is open. */
  lemma {:induction false} OnetimeAlternates(verdicts: seq<bool>)
    ensures Alternate(Announced(OnetimeTrigger, verdicts).1)
    ensures Announced(OnetimeTrigger, verdicts).0 == Fail <==> |Announced(OnetimeTrigger, verdicts).1| % 2 == 1
  {
    if verdicts != [] {
      OnetimeAlternates(verdicts[..|verdicts| - 1]);
    }
  }

  /** In either mode a recovery directly follows an incident, and the last announcement tells the state. */
  lemma {:induction false} RecoveryFollowsIncident(mode: TriggerMode, verdicts: seq<bool>)
    ensures var (prev, events) := Announced(mode, verdicts);
            && (forall i :: 0 <= i < |events| && events[i] == Resolved ==> i > 0 && events[i - 1] == Incident)
            && (prev == Fail <==> events != [] && events[|events| - 1] == Incident)
  {
    if verdicts != [] {
      RecoveryFollowsIncident(mode, verdicts[..|verdicts| - 1]);
    }
  }

  /** In always mode every failing check is announced. */
  lemma {:induction false} AlwaysAnnouncesFailures(verdicts: seq<bool>)
    ensures |Occurrences(Announced(AlwaysTrigger, verdicts).1, Incident)| == |Occurrences(verdicts, true)|
  {
    if verdicts != [] {
      var n := |verdicts| - 1;
      AlwaysAnnouncesFailures(verdicts[..n]);
      var (prev, events) := Announced(AlwaysTrigger, verdicts[..n]);
      OccurrencesMore(events, Announce(AlwaysTrigger, prev, verdicts[n]).1, Incident);
    }
  }

  lemma OccurrencesMore<T>(s: seq<T>, more: seq<T>, x: T)
    requires |more| <= 1
    ensures |Occurrences(s + more, x)| == |Occurrences(s, x)| + if more == [x] then 1 else 0
  {
    if more == [] {
      assert s + more == s;
    } else {
      assert (s + more)[..|s|] == s;
    }
  }

  ghost function Occurrences<T>(s: seq<T>, x: T): seq<T> {
    if s == [] then []
    else Occurrences(s[..|s| - 1], x) + if s[|s| - 1] == x then [x] else []
  }
}
