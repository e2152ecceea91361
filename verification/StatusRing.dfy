/** One monitor's recent results: a ring of samples at least 30 seconds apart, the counts taken over it,
    and its truncation when memory is limited. */
module StatusRing {
  import opened Clock
  import opened Means
  import opened Sequences
  import opened Wrappers

  const RING_SIZE := 30
  const MAX_STATUS_RECORDS := 6
  const SAMPLE_INTERVAL: nat := 30 * NANOS_PER_SECOND

  type Ring = seq<Option<Result>>

  // ---------- Where the latest samples are ----------

  /** The position of the k-th latest sample of a ring whose next write goes to index. */
  function SlotOf(size: nat, index: nat, k: nat): nat
    requires index < size && k < size
  {
    if k < index then index - 1 - k else index + size - 1 - k
  }

  /** The ring's latest samples are the latest of those accepted. */
  ghost predicate HoldsLatest(ring: Ring, index: nat, accepted: seq<Result>) {
    && index < |ring|
    && forall k :: 0 <= k < |ring| && k < |accepted| ==>
         ring[SlotOf(|ring|, index, k)] == Some(accepted[|accepted| - 1 - k])
  }

  /** A ring that was never truncated: its writes started at 0, and what was never written is empty. */
  ghost predicate Unbroken(ring: Ring, index: nat, accepted: seq<Result>) {
    && |ring| == RING_SIZE && index == |accepted| % RING_SIZE
    && forall i :: |accepted| <= i < |ring| ==> ring[i] == None
  }

  lemma WriteKeepsLatest(ring: Ring, index: nat, accepted: seq<Result>, x: Result)
    requires HoldsLatest(ring, index, accepted)
    ensures HoldsLatest(ring[index := Some(x)], if index + 1 == |ring| then 0 else index + 1, accepted + [x])
    ensures Unbroken(ring, index, accepted) ==>
              Unbroken(ring[index := Some(x)], if index + 1 == |ring| then 0 else index + 1, accepted + [x])
  {
    var next := if index + 1 == |ring| then 0 else index + 1;
    forall k | 0 <= k < |ring| && k < |accepted| + 1
      ensures ring[index := Some(x)][SlotOf(|ring|, next, k)] == Some((accepted + [x])[|accepted| - k])
    {
      if k == 0 {
        assert SlotOf(|ring|, next, 0) == index;
      } else {
        assert SlotOf(|ring|, next, k) == SlotOf(|ring|, index, k - 1) != index;
      }
    }
  }

  /** The ring from its oldest sample to its newest. */
  function Unrolled(ring: Ring, index: nat): Ring
    requires index <= |ring|
  {
    ring[index..] + ring[..index]
  }

  function Latest(accepted: seq<Result>, n: nat): Ring
    requires n <= |accepted|
  {
    seq(n, i requires 0 <= i < n => Some(accepted[|accepted| - n + i]))
  }

  lemma UnrolledCounts(ring: Ring, index: nat)
    requires index <= |ring|
    ensures SameCounts(Values(Unrolled(ring, index)), Values(ring))
  {
    assert ring == ring[..index] + ring[index..];
    SwappedCounts(ring[index..], ring[..index]);
  }

  lemma SwappedCounts(a: Ring, b: Ring)
    ensures SameCounts(Values(a + b), Values(b + a))
  {
    ValuesAppend(a, b);
    ValuesAppend(b, a);
    CountsSwap(Values(a), Values(b));
  }

  lemma UnrolledIsLatest(ring: Ring, index: nat, accepted: seq<Result>)
    requires HoldsLatest(ring, index, accepted) && |ring| <= |accepted|
    ensures Unrolled(ring, index) == Latest(accepted, |ring|)
  {
    var n := |ring|;
    forall i | 0 <= i < n
      ensures Unrolled(ring, index)[i] == Latest(accepted, n)[i]
    {
      assert Unrolled(ring, index)[i] == ring[SlotOf(n, index, n - 1 - i)];
    }
  }

  /** As many samples as the ring has slots after its last truncation, the ring holds exactly the latest ones,
      and its counts are theirs. */
  lemma FullRingIsLatest(ring: Ring, index: nat, accepted: seq<Result>)
    requires HoldsLatest(ring, index, accepted) && |ring| <= |accepted|
    ensures Unrolled(ring, index) == Latest(accepted, |ring|)
    ensures SameCounts(Values(ring), accepted[|accepted| - |ring|..])
  {
    UnrolledIsLatest(ring, index, accepted);
    UnrolledCounts(ring, index);
    AllThere(Latest(accepted, |ring|), accepted[|accepted| - |ring|..]);
  }

  // ---------- When results are sampled ----------

  /** The time after which the next report is sampled; the first report only starts the clock. */
  function NextSample(t: Option<nat>, now: nat): Option<nat> {
    if t.None? then Some(now) else if t.value < now then Some(now + SAMPLE_INTERVAL) else t
  }

  predicate Takes(t: Option<nat>, now: nat) {
    t.Some? && t.value < now
  }

  /** The clock after reports at some times, and those times at which they were sampled. */
  ghost function Sampled(times: seq<nat>): (Option<nat>, seq<nat>) {
    if times == [] then (None, [])
    else
      var (t, taken) := Sampled(times[..|times| - 1]);
      var now := times[|times| - 1];
      (NextSample(t, now), taken + if Takes(t, now) then [now] else [])
  }

  /** A report is sampled if and only if it comes after the first report and more than 30 seconds after the last
      sample. */
  lemma SampledExactly(times: seq<nat>, now: nat)
    ensures var taken := Sampled(times).1;
            Sampled(times + [now]).1
            == taken + if times != [] && (if taken == [] then times[0] < now
                                          else taken[|taken| - 1] + 30_000_000_000 < now) then [now] else []
  {
    assert (times + [now])[..|times|] == times;
    ClockIs(times);
  }

  lemma {:induction false} ClockIs(times: seq<nat>)
    ensures var (t, taken) := Sampled(times);
            t == if times == [] then None
                 else Some(if taken == [] then times[0] else taken[|taken| - 1] + 30_000_000_000)
    ensures times == [] ==> Sampled(times).1 == []
  {
    if times != [] {
      ClockIs(times[..|times| - 1]);
    }
  }

  class CurrentStatus {
    var data: Ring
    var index: nat
    var t: Option<nat>              // the time of the next sample; None until the first report
    var currentUp: nat
    var currentDown: nat
    var currentAvgDelay: real
    ghost var accepted: seq<Result> // the samples written since the ring was made or truncated

    ghost predicate Valid()
      reads this
    {
      && (|data| == RING_SIZE || |data| == MAX_STATUS_RECORDS)
      && HoldsLatest(data, index, accepted)
      && (|data| == RING_SIZE ==> Unbroken(data, index, accepted))
    }

    constructor ()
      ensures Valid() && accepted == [] && |data| == 30 && t.None?
    {
      data := seq(RING_SIZE, _ => None);
      index, t := 0, None;
      currentUp, currentDown, currentAvgDelay := 0, 0, 0.0;
      accepted := [];
    }

    /** A result of the monitor: sampled when the last sample is over 30 seconds old (the very first report
        only starts the clock); the current counts are taken over the ring each time. */
    method HandleServiceReport(x: Result, currentTime: nat)
      requires Valid()
      modifies this
      ensures Valid() && |data| == old(|data|)
      ensures t == NextSample(old(t), currentTime)
      ensures Takes(old(t), currentTime) ==> accepted == old(accepted) + [x]
      ensures !Takes(old(t), currentTime) ==>
                accepted == old(accepted) && data == old(data) && index == old(index)
      ensures currentUp == Ups(Values(data)) && currentDown == Downs(Values(data))
      ensures currentAvgDelay == MeanDelay(Values(data))
    {
      if t.None? {
        t := Some(currentTime);
      }
      if t.value < currentTime {
        t := Some(currentTime + SAMPLE_INTERVAL);
        var currentArrayLength := |data|;
        // an index past the end would be set back to 0 here; the invariant rules it out
        WriteKeepsLatest(data, index, accepted, x);
        accepted := accepted + [x];
        data := data[index := Some(x)];
        index := index + 1;
        if index >= currentArrayLength {
          index := 0;
        }
      }
      CountRing();
    }

    method CountRing()
      requires Valid()
      modifies this`currentUp, this`currentDown, this`currentAvgDelay
      ensures currentUp == Ups(Values(data)) && currentDown == Downs(Values(data))
      ensures currentAvgDelay == MeanDelay(Values(data))
    {
      currentUp, currentDown, currentAvgDelay := 0, 0, 0.0;
      ghost var counted: seq<Result> := [];
      for i := 0 to |data|
        invariant counted == Values(data[..i])
        invariant currentUp == Ups(counted) && currentDown == Downs(counted) && currentAvgDelay == MeanDelay(counted)
      {
        assert data[..i + 1][..i] == data[..i];
        if data[i].Some? {
          CountOne(counted, data[i].value);
          if data[i].value.successful {
            currentUp := currentUp + 1;
            if currentUp > 1 {
              currentAvgDelay := AddDelay(currentAvgDelay, currentUp - 1, data[i].value, counted);
            } else {
              currentAvgDelay := data[i].value.delay;
            }
          } else {
            currentDown := currentDown + 1;
          }
          counted := counted + [data[i].value];
        }
      }
      assert data[..|data|] == data;
    }

    /** Memory limiting keeps the last slots of the ring. */
    method LimitDataSize()
      requires Valid()
      modifies this`data, this`index, this`accepted
      ensures Valid()
      ensures old(|data|) == 30 ==>
                data == old(data)[24..] && accepted == [] && index == if old(index) >= 6 then 0 else old(index)
      ensures old(|data|) == 6 ==>
                data == old(data) && index == old(index) && accepted == old(accepted)
    {
      if |data| > MAX_STATUS_RECORDS {
        data := data[|data| - MAX_STATUS_RECORDS..];
        if index >= MAX_STATUS_RECORDS {
          index := 0;
        }
        accepted := [];
      }
    }
  }

  /** The slots that truncation keeps hold the newest samples. */
  predicate NewestKept(ring: Ring, accepted: seq<Result>)
    requires |ring| == RING_SIZE && MAX_STATUS_RECORDS <= |accepted|
  {
    ring[RING_SIZE - MAX_STATUS_RECORDS..] == Latest(accepted, MAX_STATUS_RECORDS)
  }

  lemma NewestKeptAtStart(ring: Ring, accepted: seq<Result>)
    requires Unbroken(ring, 0, accepted) && HoldsLatest(ring, 0, accepted) && RING_SIZE <= |accepted|
    ensures NewestKept(ring, accepted)
  {
    var kept, newest := ring[RING_SIZE - MAX_STATUS_RECORDS..], Latest(accepted, MAX_STATUS_RECORDS);
    forall i | 0 <= i < MAX_STATUS_RECORDS
      ensures kept[i] == newest[i]
    {
      assert SlotOf(RING_SIZE, 0, MAX_STATUS_RECORDS - 1 - i) == RING_SIZE - MAX_STATUS_RECORDS + i;
    }
  }

  lemma NewestLost(ring: Ring, index: nat, accepted: seq<Result>)
    requires Unbroken(ring, index, accepted) && HoldsLatest(ring, index, accepted)
    requires index != 0 && MAX_STATUS_RECORDS <= |accepted|
    requires forall i, j :: 0 <= i < j < |accepted| ==> accepted[i] != accepted[j]
    ensures !NewestKept(ring, accepted)
  {
    var kept, newest := ring[RING_SIZE - MAX_STATUS_RECORDS..], Latest(accepted, MAX_STATUS_RECORDS);
    assert newest[MAX_STATUS_RECORDS - 1] == Some(accepted[|accepted| - 1]);
    if |accepted| < RING_SIZE {
      assert kept[MAX_STATUS_RECORDS - 1] == None;
    } else {
      assert SlotOf(RING_SIZE, index, index) == RING_SIZE - 1;
      assert kept[MAX_STATUS_RECORDS - 1] == Some(accepted[|accepted| - 1 - index]);
    }
  }

  /** The ring after the given samples. */
  function RingOf(accepted: seq<Result>): (ring: Ring)
    ensures |ring| == RING_SIZE
  {
    if accepted == [] then seq(RING_SIZE, _ => None)
    else RingOf(accepted[..|accepted| - 1])[(|accepted| - 1) % RING_SIZE := Some(accepted[|accepted| - 1])]
  }

  lemma {:induction false} RingOfIsUnbroken(accepted: seq<Result>)
    ensures Unbroken(RingOf(accepted), |accepted| % RING_SIZE, accepted)
    ensures HoldsLatest(RingOf(accepted), |accepted| % RING_SIZE, accepted)
  {
    if accepted != [] {
      var n := |accepted| - 1;
      RingOfIsUnbroken(accepted[..n]);
      WriteKeepsLatest(RingOf(accepted[..n]), n % RING_SIZE, accepted[..n], accepted[n]);
      assert accepted == accepted[..n] + [accepted[n]];
    }
  }

  /** After n samples, truncation is sure to keep the newest ones, whatever they are, if and only if the ring has just
      wrapped around. */
  lemma TruncationKeepsNewestExactly(n: nat)
    requires MAX_STATUS_RECORDS <= n
    ensures n % RING_SIZE == 0 <==> forall accepted :: |accepted| == n ==> NewestKept(RingOf(accepted), accepted)
  {
    if n % RING_SIZE == 0 {
      forall accepted: seq<Result> | |accepted| == n
        ensures NewestKept(RingOf(accepted), accepted)
      {
        RingOfIsUnbroken(accepted);
        NewestKeptAtStart(RingOf(accepted), accepted);
      }
    } else {
      var accepted := seq(n, i => Result(true, i as real));
      assert forall i, j :: 0 <= i < j < n ==> accepted[i].delay != accepted[j].delay;
      RingOfIsUnbroken(accepted);
      NewestLost(RingOf(accepted), n % RING_SIZE, accepted);
    }
  }

  /** The ring of a monitor that was never truncated is the ring of its samples. */
  lemma UnbrokenIsRingOf(ring: Ring, index: nat, accepted: seq<Result>)
    requires Unbroken(ring, index, accepted) && HoldsLatest(ring, index, accepted)
    ensures ring == RingOf(accepted)
  {
    RingOfIsUnbroken(accepted);
    forall i | 0 <= i < RING_SIZE
      ensures ring[i] == RingOf(accepted)[i]
    {
      if i < |accepted| {
        var k := if i < index then index - 1 - i else index + RING_SIZE - 1 - i;
        assert SlotOf(RING_SIZE, index, k) == i;
      }
    }
  }

  /** A ring that has not reached its last six slots yet loses everything. */
  lemma TruncationCanLoseAll(ring: Ring, index: nat, accepted: seq<Result>)
    requires Unbroken(ring, index, accepted) && |accepted| <= RING_SIZE - MAX_STATUS_RECORDS
    ensures Values(ring[RING_SIZE - MAX_STATUS_RECORDS..]) == []
  {
    NoneThere(ring[RING_SIZE - MAX_STATUS_RECORDS..]);
  }
}
