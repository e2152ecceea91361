/** The notification throttle: under one mute label a first notification silences the next fifteen minutes, a
    repeated one the next three hours, and the cache forgets the label ten minutes later. */
module Throttle {
  import opened Arithmetic
  import opened Clock
  import opened Wrappers

  const FIRST_NOTIFICATION_DELAY: int := 15 * NANOS_PER_MINUTE
  const REPEAT_NOTIFICATION_DELAY: int := 180 * NANOS_PER_MINUTE
  const GRACE: int := 10 * NANOS_PER_MINUTE

  /** A cached NotificationHistory: silent up to and including until, forgotten after expires. */
  datatype Entry = Entry(until: int, expires: int)

  // ---------- One label ----------

  function Muted(now: int, delay: int): Entry {
    Entry(now + delay, now + delay + GRACE)
  }

  /** What one attempt at time now finds and leaves: whether it is delivered, and the label's entry. */
  function Attempt(cached: Option<Entry>, now: int): (bool, Entry) {
    if cached.Some? && now <= cached.value.expires then
      if now > cached.value.until then (true, Muted(now, REPEAT_NOTIFICATION_DELAY)) else (false, cached.value)
    else (true, Muted(now, FIRST_NOTIFICATION_DELAY))
  }

  /** A run of attempts under one label: the label's entry, and the times of the deliveries. */
  datatype Outcome = Outcome(entry: Option<Entry>, deliveries: seq<int>)

  ghost function Run(attempts: seq<int>): Outcome {
    if attempts == [] then Outcome(None, [])
    else
      var n := |attempts| - 1;
      var before := Run(attempts[..n]);
      var (delivered, entry) := Attempt(before.entry, attempts[n]);
      Outcome(Some(entry), before.deliveries + if delivered then [attempts[n]] else [])
  }

  // ---------- The cache ----------

  class NotificationCache {
    var cache: map<string, Entry>

    ghost function Cached(fullLabel: string): Option<Entry>
      reads this
    {
      if fullLabel in cache then Some(cache[fullLabel]) else None
    }

    constructor ()
      ensures cache == map[]
    {
      cache := map[];
    }

    /** The throttling part of SendNotification; without a label every notification is delivered. */
    method SendNotification(notificationTag: string, muteLabel: Option<string>, now: int) returns (delivered: bool)
      modifies this
      ensures muteLabel.None? ==> delivered && cache == old(cache)
      ensures muteLabel.Some? ==>
                var fullLabel := muteLabel.value + ":" + notificationTag;
                && delivered == Attempt(old(Cached(fullLabel)), now).0
                && cache == old(cache)[fullLabel := Attempt(old(Cached(fullLabel)), now).1]
    {
      if muteLabel.Some? {
        var fullLabel := muteLabel.value + ":" + notificationTag;
        var flag := false;
        if fullLabel in cache && now <= cache[fullLabel].expires {
          if now > cache[fullLabel].until {
            flag := true;
            cache := cache[fullLabel := Muted(now, REPEAT_NOTIFICATION_DELAY)];
          }
        } else {
          flag := true;
          cache := cache[fullLabel := Muted(now, FIRST_NOTIFICATION_DELAY)];
        }
        if !flag {
          return false;
        }
      }
      delivered := true;
    }

    /** A label that is unmuted starts over. */
    method UnMuteNotification(notificationTag: string, muteLabel: string)
      modifies this
      ensures Cached(muteLabel + ":" + notificationTag).None?
      ensures forall fullLabel :: fullLabel != muteLabel + ":" + notificationTag ==>
                Cached(fullLabel) == old(Cached(fullLabel))
    {
      cache := cache - {muteLabel + ":" + notificationTag};
    }
  }

  // ---------- Deliveries are apart ----------

  ghost predicate Ordered(attempts: seq<int>) {
    forall i, j :: 0 <= i < j < |attempts| ==> attempts[i] <= attempts[j]
  }

  ghost predicate Apart(deliveries: seq<int>, delay: int) {
    forall i: nat :: i + 1 < |deliveries| ==> deliveries[i + 1] - deliveries[i] > delay
  }

  /** Without an unmute, consecutive deliveries are more than fifteen minutes apart; the first attempt is always
      delivered. */
  lemma {:induction false} DeliveriesApart(attempts: seq<int>)
    requires Ordered(attempts)
    ensures var run := Run(attempts);
            && Apart(run.deliveries, FIRST_NOTIFICATION_DELAY) && run.entry.Some? == (attempts != [])
            && (attempts != [] ==>
                  && run.deliveries != [] && run.deliveries[0] == attempts[0]
                  && run.entry.value.until >= run.deliveries[|run.deliveries| - 1] + FIRST_NOTIFICATION_DELAY
                  && run.entry.value.expires == run.entry.value.until + GRACE)
  {
    if attempts != [] {
      DeliveriesApart(attempts[..|attempts| - 1]);
    }
  }

  // ---------- Exactly which attempts are delivered ----------

  /** How long the last of some deliveries silences the label: three hours if it came within the delay of the one before
      and ten minutes, and fifteen minutes otherwise. */
  function SilentAfter(deliveries: seq<int>): int {
    if |deliveries| < 2 then 15 * 60_000_000_000
    else
      var before := deliveries[..|deliveries| - 1];
      if deliveries[|deliveries| - 1] - before[|before| - 1] <= SilentAfter(before) + 10 * 60_000_000_000
      then 180 * 60_000_000_000
      else 15 * 60_000_000_000
  }

  /** An attempt is delivered if and only if it is the first or comes after the silence of the last delivery. */
  lemma DeliveredExactly(attempts: seq<int>, now: int)
    requires Ordered(attempts + [now])
    ensures var before := Run(attempts).deliveries;
            Run(attempts + [now]).deliveries
            == before + if before == [] || now - before[|before| - 1] > SilentAfter(before) then [now] else []
  {
    RunStep(attempts, Run(attempts), now);
    assert forall i :: 0 <= i < |attempts| ==> attempts[i] == (attempts + [now])[i];
    EntryIsSilence(attempts);
  }

  lemma {:induction false} EntryIsSilence(attempts: seq<int>)
    requires Ordered(attempts)
    ensures var run := Run(attempts);
            && (run.entry.None? <==> attempts == []) && (run.deliveries == [] <==> attempts == [])
            && (attempts != [] ==>
                  run.entry.value == Muted(run.deliveries[|run.deliveries| - 1], SilentAfter(run.deliveries)))
  {
    if attempts != [] {
      var n := |attempts| - 1;
      EntryIsSilence(attempts[..n]);
      var before := Run(attempts[..n]).deliveries;
      assert (before + [attempts[n]])[..|before|] == before && before + [] == before;
    }
  }

  // ---------- A span of three hours ----------

  ghost predicate GapsWithin(attempts: seq<int>, gap: int) {
    forall i :: 0 <= i < |attempts| - 1 ==> attempts[i] <= attempts[i + 1] <= attempts[i] + gap
  }

  /** Any span of time T has at most 2 + floor(T / 3h) deliveries. */
  ghost predicate Bounded(deliveries: seq<int>) {
    forall i, j :: 0 <= i <= j < |deliveries| ==>
      j - i + 1 <= 2 + FloorOf(deliveries[j] - deliveries[i], REPEAT_NOTIFICATION_DELAY)
  }

  function FloorOf(a: int, b: int): int
    requires b > 0
  {
    a / b
  }

  function DelayAfter(i: nat): int {
    if i == 0 then FIRST_NOTIFICATION_DELAY else REPEAT_NOTIFICATION_DELAY
  }

  ghost predicate Spaced(deliveries: seq<int>) {
    forall i: nat :: i + 1 < |deliveries| ==> deliveries[i + 1] - deliveries[i] > DelayAfter(i)
  }

  /** Attempts never more than ten minutes apart always find the label cached: after the second delivery only
      three-hour delays follow. */
  lemma {:induction false} SteadyAttempts(attempts: seq<int>)
    requires GapsWithin(attempts, GRACE) && attempts != []
    ensures var run := Run(attempts);
            && run.deliveries != [] && run.entry.Some? && Spaced(run.deliveries)
            && run.entry.value == Muted(run.deliveries[|run.deliveries| - 1], DelayAfter(|run.deliveries| - 1))
            && attempts[|attempts| - 1] <= run.entry.value.until
  {
    var n := |attempts| - 1;
    if n > 0 {
      SteadyAttempts(attempts[..n]);
      assert attempts[n - 1] <= attempts[n] <= attempts[n - 1] + GRACE;
    } else {
      assert Run(attempts[..0]) == Outcome(None, []);
    }
  }

  /** k deliveries after the second of a span take k times three hours. */
  lemma {:induction false} SpanOf(deliveries: seq<int>, i: nat, j: nat)
    requires i < j < |deliveries| && Spaced(deliveries)
    ensures deliveries[j] - deliveries[i] > (j - i - 1) * REPEAT_NOTIFICATION_DELAY
  {
    assert deliveries[j - 1 + 1] - deliveries[j - 1] > DelayAfter(j - 1);
    if i + 1 < j {
      SpanOf(deliveries, i, j - 1);
    }
  }

  lemma FloorAtLeast(a: int, k: nat, m: nat)
    requires m > 0 && a >= k * m
    ensures k <= FloorOf(a, m)
  {
    assert a == a / m * m + a % m;
    MultiplesOrdered(a / m + 1, k, m);
  }

  lemma SpanBounded(deliveries: seq<int>, i: nat, j: nat)
    requires i <= j < |deliveries| && Spaced(deliveries)
    ensures j - i + 1 <= 2 + FloorOf(deliveries[j] - deliveries[i], REPEAT_NOTIFICATION_DELAY)
  {
    if i < j {
      SpanOf(deliveries, i, j);
      FloorAtLeast(deliveries[j] - deliveries[i], j - i - 1, REPEAT_NOTIFICATION_DELAY);
    }
  }

  lemma SpacedBounded(deliveries: seq<int>)
    requires Spaced(deliveries)
    ensures Bounded(deliveries)
  {
    forall i, j | 0 <= i <= j < |deliveries|
      ensures j - i + 1 <= 2 + FloorOf(deliveries[j] - deliveries[i], REPEAT_NOTIFICATION_DELAY)
    {
      SpanBounded(deliveries, i, j);
    }
  }

  lemma SteadyAttemptsBounded(attempts: seq<int>)
    requires GapsWithin(attempts, GRACE)
    ensures Bounded(Run(attempts).deliveries)
  {
    if attempts != [] {
      SteadyAttempts(attempts);
      SpacedBounded(Run(attempts).deliveries);
    }
  }

  /** Attempts with a gap just over ten minutes, placed so that each finds the label forgotten. */
  function SlowAttempts(): seq<int> {
    [0, 10 * NANOS_PER_MINUTE, 15 * NANOS_PER_MINUTE, 25 * NANOS_PER_MINUTE + 1,
     35 * NANOS_PER_MINUTE + 1, 40 * NANOS_PER_MINUTE + 1, 50 * NANOS_PER_MINUTE + 2]
  }

  lemma RunStep(attempts: seq<int>, before: Outcome, now: int)
    requires Run(attempts) == before
    ensures var (delivered, entry) := Attempt(before.entry, now);
            Run(attempts + [now]) == Outcome(Some(entry), before.deliveries + if delivered then [now] else [])
  {
    assert (attempts + [now])[..|attempts|] == attempts;
  }

  /** Silent attempts leave things as they are. */
  lemma RunSilently(attempts: seq<int>, before: Outcome, now: int, later: int)
    requires Run(attempts) == before && before.entry.Some?
    requires now <= before.entry.value.until && later <= before.entry.value.until <= before.entry.value.expires
    ensures Run(attempts + [now, later]) == before
  {
    RunStep(attempts, before, now);
    RunStep(attempts + [now], before, later);
    assert attempts + [now] + [later] == attempts + [now, later];
  }

  lemma SlowAttemptsDeliver()
    ensures Run(SlowAttempts()).deliveries == [0, 25 * NANOS_PER_MINUTE + 1, 50 * NANOS_PER_MINUTE + 2]
  {
    var m := NANOS_PER_MINUTE;
    RunStep([], Outcome(None, []), 0);
    var first := Outcome(Some(Muted(0, FIRST_NOTIFICATION_DELAY)), [0]);
    var s := [] + [0];
    RunSilently(s, first, 10 * m, 15 * m);
    s := s + [10 * m, 15 * m];
    RunStep(s, first, 25 * m + 1);
    var second := Outcome(Some(Muted(25 * m + 1, FIRST_NOTIFICATION_DELAY)), [0, 25 * m + 1]);
    s := s + [25 * m + 1];
    RunSilently(s, second, 35 * m + 1, 40 * m + 1);
    s := s + [35 * m + 1, 40 * m + 1];
    RunStep(s, second, 50 * m + 2);
    assert s + [50 * m + 2] == SlowAttempts();
  }

  /** The three-hour bound holds for all runs whose attempts are at most gap apart if and only if gap is at most the
      ten minutes of grace. */
  lemma RepeatDelayHoldsExactly(gap: int)
    ensures (forall attempts :: GapsWithin(attempts, gap) ==> Bounded(Run(attempts).deliveries)) <==> gap <= GRACE
  {
    if gap <= GRACE {
      forall attempts | GapsWithin(attempts, gap)
        ensures Bounded(Run(attempts).deliveries)
      {
        SteadyAttemptsBounded(attempts);
      }
    } else {
      SlowAttemptsDeliver();
      assert GapsWithin(SlowAttempts(), gap);
      var d := Run(SlowAttempts()).deliveries;
      assert FloorOf(d[2] - d[0], REPEAT_NOTIFICATION_DELAY) == 0;
      assert !Bounded(d);
    }
  }
}
