/** Down-sampling of monitor histories for charts: every monitor gets its share of the points, taken evenly
    over its records. */
module Sampling {
  import opened HistoryStore
  import opened Sequences
  import opened Sorting
  import opened Wrappers

  /** The chart's records, any of which may be missing. */
  type HistoryRef = Option<History>

  // ---------- One monitor ----------

  /** The i-th of limit evenly spread positions in n records: rounded to the nearest. */
  function PickIndex(n: nat, limit: nat, i: nat): int
    requires limit >= 2
  {
    var step := (n - 1) as real / (limit - 1) as real;
    (i as real * step + 0.5).Floor
  }

  lemma StepExceedsOne(n: nat, limit: nat)
    requires 2 <= limit < n
    ensures (n - 1) as real / (limit - 1) as real > 1.0
    ensures (limit - 1) as real * ((n - 1) as real / (limit - 1) as real) == (n - 1) as real
  {
  }

  lemma FloorGains(x: real, step: real)
    requires step > 1.0
    ensures x.Floor < (x + step).Floor
  {
  }

  /** Rounded positions strictly increase, from the first record to the last. */
  lemma {:induction false} PicksIncrease(n: nat, limit: nat, i: nat, j: nat)
    requires 2 <= limit < n && i < j
    ensures PickIndex(n, limit, i) < PickIndex(n, limit, j)
    decreases j
  {
    StepExceedsOne(n, limit);
    var step := (n - 1) as real / (limit - 1) as real;
    assert j as real * step == (j - 1) as real * step + step;
    FloorGains((j - 1) as real * step + 0.5, step);
    if i < j - 1 {
      PicksIncrease(n, limit, i, j - 1);
    }
  }

  lemma PicksInRange(n: nat, limit: nat, i: nat)
    requires 2 <= limit < n && i < limit
    ensures 0 <= PickIndex(n, limit, i) < n
    ensures PickIndex(n, limit, 0) == 0 && PickIndex(n, limit, limit - 1) == n - 1
  {
    StepExceedsOne(n, limit);
    if 0 < i {
      PicksIncrease(n, limit, 0, i);
    }
    if i < limit - 1 {
      PicksIncrease(n, limit, i, limit - 1);
    }
  }

  /** The i-th position is the whole number nearest to i * (n - 1) / (limit - 1), the higher one of two. */
  lemma PickIsNearest(n: nat, limit: nat, i: nat)
    requires limit >= 2 && n >= 1
    ensures -(limit - 1) < 2 * (PickIndex(n, limit, i) * (limit - 1) - i * (n - 1)) <= limit - 1
  {
    var gap, p := (limit - 1) as real, PickIndex(n, limit, i);
    var x := i as real * ((n - 1) as real / gap);
    var a, b := p * (limit - 1), i * (n - 1);
    assert x * gap == i as real * (n - 1) as real == b as real;
    assert p as real * gap == a as real;
    NearestScaled(x, p as real, gap, a as real, b as real);
    WholeNumbers(a, b, limit - 1);
  }

  lemma WholeNumbers(a: int, b: int, gap: int)
    requires 0.0 < a as real - b as real + 0.5 * gap as real && a as real - b as real <= 0.5 * gap as real
    ensures -gap < 2 * (a - b) <= gap
  {
  }

  lemma NearestScaled(x: real, p: real, gap: real, scaled: real, exact: real)
    requires x - 0.5 < p <= x + 0.5 && gap > 0.0
    requires scaled == p * gap && exact == x * gap
    ensures 0.0 < scaled - exact + 0.5 * gap && scaled - exact <= 0.5 * gap
  {
    var above, below := ProductOf(p - x + 0.5, gap), ProductOf(x - p + 0.5, gap);
    Distributed(p, x, gap);
    Distributed(x, p, gap);
    ProductSign(p - x + 0.5, gap);
    ProductSign(x - p + 0.5, gap);
    assert above == scaled - exact + 0.5 * gap && below == exact - scaled + 0.5 * gap;
  }

  function ProductOf(a: real, b: real): real {
    a * b
  }

  lemma Distributed(a: real, b: real, gap: real)
    ensures ProductOf(a - b + 0.5, gap) == a * gap - b * gap + 0.5 * gap
  {
  }

  lemma ProductSign(a: real, b: real)
    requires a >= 0.0 && b > 0.0
    ensures ProductOf(a, b) >= 0.0 && (a > 0.0 ==> ProductOf(a, b) > 0.0)
  {
  }

  ghost predicate Increasing(picks: seq<int>, n: nat) {
    && (forall i :: 0 <= i < |picks| ==> 0 <= picks[i] < n)
    && (forall i, j :: 0 <= i < j < |picks| ==> picks[i] < picks[j])
  }

  lemma AllPicks(n: nat, limit: nat, picks: seq<int>)
    requires 2 <= limit < n && |picks| == limit
    requires forall j :: 0 <= j < limit ==> picks[j] == PickIndex(n, limit, j)
    ensures Increasing(picks, n) && picks[0] == 0 && picks[limit - 1] == n - 1
  {
    forall i | 0 <= i < limit
      ensures 0 <= picks[i] < n
    {
      PicksInRange(n, limit, i);
    }
    forall i, j | 0 <= i < j < limit
      ensures picks[i] < picks[j]
    {
      PicksIncrease(n, limit, i, j);
    }
    PicksInRange(n, limit, 0);
  }

  /** What one monitor contributes when it may give limit records. */
  function Share(group: seq<History>, limit: int): seq<History> {
    if limit <= 0 then []
    else if |group| <= limit then group
    else if limit == 1 then group[..1]
    else
      seq(limit, i requires 0 <= i < limit => PicksInRange(|group|, limit, i); group[PickIndex(|group|, limit, i)])
  }

  /** A monitor gives as many records as it may and has, its first always among them; with two or more to give,
      its last as well; and each of its records at most once. */
  lemma ShareMeaning(group: seq<History>, limit: int)
    ensures |Share(group, limit)| == if limit <= 0 then 0 else if |group| <= limit then |group| else limit
    ensures limit >= 1 && group != [] ==> group[0] in Share(group, limit)
    ensures limit >= 2 && group != [] ==> group[|group| - 1] in Share(group, limit)
    ensures multiset(Share(group, limit)) <= multiset(group)
  {
    if limit == 1 < |group| {
      assert group == group[..1] + group[1..];
    } else if 2 <= limit < |group| {
      var picks := seq(limit, i requires 0 <= i < limit => PickIndex(|group|, limit, i));
      AllPicks(|group|, limit, picks);
      PickedOnce(group, picks, Share(group, limit));
      assert Share(group, limit)[0] == group[0] && Share(group, limit)[limit - 1] == group[|group| - 1];
    }
  }

  /** Picking at increasing positions takes nothing twice. */
  lemma {:induction false} PickedOnce<T>(s: seq<T>, picks: seq<int>, picked: seq<T>)
    requires Increasing(picks, |s|) && |picked| == |picks|
    requires forall i :: 0 <= i < |picks| ==> picked[i] == s[picks[i]]
    ensures multiset(picked) <= multiset(s)
  {
    if picks != [] {
      var n := |picks| - 1;
      var p := picks[n];
      PickedOnce(s[..p], picks[..n], picked[..n]);
      assert picked == picked[..n] + [s[p]];
      PickedOneMore(s, picked[..n], p);
    }
  }

  lemma PickedOneMore<T>(s: seq<T>, picked: seq<T>, p: nat)
    requires p < |s| && multiset(picked) <= multiset(s[..p])
    ensures multiset(picked + [s[p]]) <= multiset(s)
  {
    assert s == s[..p] + [s[p]] + s[p + 1..];
  }

  lemma PickIsShare(group: seq<History>, limit: nat, i: nat)
    requires 2 <= limit < |group| && i < limit
    ensures |Share(group, limit)| == limit
    ensures 0 <= PickIndex(|group|, limit, i) < |group|
    ensures Share(group, limit)[i] == group[PickIndex(|group|, limit, i)]
  {
    PicksInRange(|group|, limit, i);
  }

  /** The i-th record of a share is the one at the whole number nearest to i * (n - 1) / (limit - 1), of n. */
  lemma ShareTakesNearest(group: seq<History>, limit: nat, i: nat) returns (p: nat)
    requires 2 <= limit < |group| && i < limit
    ensures |Share(group, limit)| == limit && p < |group| && Share(group, limit)[i] == group[p]
    ensures -(limit - 1) < 2 * (p * (limit - 1) - i * (|group| - 1)) <= limit - 1
  {
    PickIsShare(group, limit, i);
    PickIsNearest(|group|, limit, i);
    p := PickIndex(|group|, limit, i);
  }

  method SampleMonitorHistoryGroup(histories: seq<History>, limit: int) returns (sampled: seq<History>)
    ensures sampled == Share(histories, limit)
  {
    if limit <= 0 || |histories| == 0 {
      return [];
    }
    if |histories| <= limit {
      return histories;
    }
    if limit == 1 {
      return histories[..1];
    }
    sampled := [];
    ghost var share := Share(histories, limit);
    for i := 0 to limit
      invariant sampled == share[..i]
    {
      var idx := PickIndex(|histories|, limit, i);
      PickIsShare(histories, limit, i);
      if idx >= |histories| {
        idx := |histories| - 1;
      }
      sampled := sampled + [histories[idx]];
    }
  }

  // ---------- All monitors ----------

  function IsOf(monitorID: nat): History -> bool {
    (h: History) => h.monitorID == monitorID
  }

  /** One monitor's records, in their order. */
  function OfMonitor(histories: seq<History>, monitorID: nat): seq<History> {
    Select(histories, IsOf(monitorID))
  }

  /** The monitors in the order of their first records. */
  ghost function Monitors(histories: seq<History>): seq<nat> {
    if histories == [] then []
    else
      var n := |histories| - 1;
      var before := Monitors(histories[..n]);
      if histories[n].monitorID in before then before else before + [histories[n].monitorID]
  }

  lemma {:induction false} MonitorsDistinct(histories: seq<History>)
    ensures forall i, j :: 0 <= i < j < |Monitors(histories)| ==> Monitors(histories)[i] != Monitors(histories)[j]
  {
    if histories != [] {
      MonitorsDistinct(histories[..|histories| - 1]);
    }
  }

  /** p is before the first record of m. */
  predicate Before(histories: seq<History>, p: nat, m: nat)
    requires p < |histories|
  {
    forall q :: 0 <= q <= p ==> histories[q].monitorID != m
  }

  /** Of two monitors, the one listed first has a record before all of the other's. */
  lemma {:induction false} MonitorsInOrder(histories: seq<History>, i: nat, j: nat) returns (p: nat)
    requires i < j < |Monitors(histories)|
    ensures p < |histories| && histories[p].monitorID == Monitors(histories)[i]
    ensures Before(histories, p, Monitors(histories)[j])
  {
    var n := |histories| - 1;
    if j < |Monitors(histories[..n])| {
      p := MonitorsInOrder(histories[..n], i, j);
    } else {
      p := MonitorListed(histories[..n], Monitors(histories)[i]);
      forall q | 0 <= q <= p
        ensures histories[q].monitorID != histories[n].monitorID
      {
        RecordIsListed(histories[..n], q);
      }
    }
  }

  lemma {:induction false} MonitorListed(histories: seq<History>, m: nat) returns (p: nat)
    requires m in Monitors(histories)
    ensures p < |histories| && histories[p].monitorID == m
  {
    var n := |histories| - 1;
    if m in Monitors(histories[..n]) {
      p := MonitorListed(histories[..n], m);
    } else {
      p := n;
    }
  }

  lemma {:induction false} RecordIsListed(histories: seq<History>, q: nat)
    requires q < |histories|
    ensures histories[q].monitorID in Monitors(histories)
  {
    if q < |histories| - 1 {
      RecordIsListed(histories[..|histories| - 1], q);
    }
  }

  lemma {:induction false} MonitorHasRecords(histories: seq<History>, m: nat)
    ensures m in Monitors(histories) <==> OfMonitor(histories, m) != []
  {
    if histories != [] {
      MonitorHasRecords(histories[..|histories| - 1], m);
    }
  }

  /** A group holds exactly its monitor's records. */
  lemma {:induction false} GroupIsExact(histories: seq<History>, monitorID: nat, h: History)
    ensures multiset(OfMonitor(histories, monitorID))[h]
            == if h.monitorID == monitorID then multiset(histories)[h] else 0
  {
    if histories != [] {
      var n := |histories| - 1;
      GroupIsExact(histories[..n], monitorID, h);
      assert histories == histories[..n] + [histories[n]];
    }
  }

  function LimitOf(per: nat, remainder: nat, index: nat): nat {
    if index < remainder then per + 1 else per
  }

  function Limits(per: nat, remainder: nat, n: nat): seq<nat> {
    seq(n, i requires 0 <= i < n => LimitOf(per, remainder, i))
  }

  /** With fewer monitors than points, the limits use up all points, and differ by one at most, the earlier monitors
      having the higher ones. */
  lemma LimitsShareOut(n: nat, maxPoints: nat)
    requires 0 < n <= maxPoints
    ensures var limits := Limits(maxPoints / n, maxPoints % n, n);
            && SumOver(limits, Itself) == maxPoints
            && forall i, j :: 0 <= i < j < n ==> limits[j] <= limits[i] <= limits[j] + 1
  {
    LimitsSum(maxPoints / n, maxPoints % n, n);
    assert maxPoints == maxPoints / n * n + maxPoints % n;
  }

  lemma {:induction false} LimitsSum(per: nat, remainder: nat, n: nat)
    ensures SumOver(Limits(per, remainder, n), Itself) == per * n + if n < remainder then n else remainder
  {
    if n > 0 {
      LimitsSum(per, remainder, n - 1);
      SumOverLast(Limits(per, remainder, n), Itself);
      assert Limits(per, remainder, n)[..n - 1] == Limits(per, remainder, n - 1);
      assert per * n == per * (n - 1) + per;
    }
  }

  type Sharing = (seq<History>, int) -> seq<History>

  /** What sharing out needs of a group's share: no more than the limit, no record twice, the ends kept. */
  ghost predicate Fair(share: Sharing) {
    forall group, limit :: limit >= 1 ==>
      && |share(group, limit)| <= limit
      && multiset(share(group, limit)) <= multiset(group)
      && (limit == 1 && group != [] ==> share(group, limit) == [group[0]])
      && (group != [] ==> group[0] in share(group, limit))
      && (limit >= 2 && group != [] ==> group[|group| - 1] in share(group, limit))
  }

  lemma ShareIsFair()
    ensures Fair(Share)
  {
    forall group, limit | limit >= 1
      ensures
        && |Share(group, limit)| <= limit
        && multiset(Share(group, limit)) <= multiset(group)
        && (limit == 1 && group != [] ==> Share(group, limit) == [group[0]])
        && (group != [] ==> group[0] in Share(group, limit))
        && (limit >= 2 && group != [] ==> group[|group| - 1] in Share(group, limit))
    {
      ShareMeaning(group, limit);
    }
  }

  /** Each monitor's share. */
  ghost function Shares(histories: seq<History>, share: Sharing, per: nat, remainder: nat): (parts: seq<seq<History>>)
    ensures |parts| == |Monitors(histories)|
  {
    var order := Monitors(histories);
    seq(|order|, i requires 0 <= i < |order| => share(OfMonitor(histories, order[i]), LimitOf(per, remainder, i)))
  }

  /** When each part takes from one monitor's records, and no two from the same, nothing is taken twice. */
  lemma {:induction false} FlattenOnce(source: seq<History>, order: seq<nat>, parts: seq<seq<History>>, h: History)
    requires |parts| == |order| && forall i, j :: 0 <= i < j < |order| ==> order[i] != order[j]
    requires forall i :: 0 <= i < |parts| ==>
               multiset(parts[i])[h] <= if h.monitorID == order[i] then multiset(source)[h] else 0
    ensures multiset(Flatten(parts))[h] <= if h.monitorID in order then multiset(source)[h] else 0
  {
    if parts != [] {
      var n := |parts| - 1;
      FlattenOnce(source, order[..n], parts[..n], h);
      assert order == order[..n] + [order[n]];
    }
  }

  /** The limits are not exceeded. */
  lemma {:induction false} FlattenFits(parts: seq<seq<History>>, per: nat, remainder: nat)
    requires forall i :: 0 <= i < |parts| ==> |parts[i]| <= LimitOf(per, remainder, i)
    ensures |Flatten(parts)| <= |parts| * per + if |parts| <= remainder then |parts| else remainder
  {
    if parts != [] {
      var n := |parts| - 1;
      FlattenFits(parts[..n], per, remainder);
      assert |parts| * per == n * per + per;
    }
  }

  /** A monitor's share comes from its own records, within its limit, with its ends. */
  lemma PartIsFair(histories: seq<History>, share: Sharing, per: nat, remainder: nat, i: nat)
    requires Fair(share) && per >= 1 && i < |Monitors(histories)|
    ensures var group := OfMonitor(histories, Monitors(histories)[i]);
            var part := Shares(histories, share, per, remainder)[i];
            && |part| <= LimitOf(per, remainder, i) && multiset(part) <= multiset(group)
            && group != [] && group[0] in part
            && (LimitOf(per, remainder, i) >= 2 ==> group[|group| - 1] in part)
  {
    assert Monitors(histories)[i] in Monitors(histories);
    MonitorHasRecords(histories, Monitors(histories)[i]);
  }

  lemma PartTakesOnce(histories: seq<History>, share: Sharing, per: nat, remainder: nat, i: nat, h: History)
    requires Fair(share) && per >= 1 && i < |Monitors(histories)|
    ensures multiset(Shares(histories, share, per, remainder)[i])[h]
            <= if h.monitorID == Monitors(histories)[i] then multiset(histories)[h] else 0
  {
    PartIsFair(histories, share, per, remainder, i);
    GroupIsExact(histories, Monitors(histories)[i], h);
  }

  lemma SharesOnce(histories: seq<History>, share: Sharing, per: nat, remainder: nat, h: History)
    requires Fair(share) && per >= 1
    ensures multiset(Flatten(Shares(histories, share, per, remainder)))[h] <= multiset(histories)[h]
  {
    forall i | 0 <= i < |Monitors(histories)|
      ensures multiset(Shares(histories, share, per, remainder)[i])[h]
              <= if h.monitorID == Monitors(histories)[i] then multiset(histories)[h] else 0
    {
      PartTakesOnce(histories, share, per, remainder, i, h);
    }
    MonitorsDistinct(histories);
    FlattenOnce(histories, Monitors(histories), Shares(histories, share, per, remainder), h);
  }

  lemma SharesFit(histories: seq<History>, share: Sharing, per: nat, remainder: nat)
    requires Fair(share) && per >= 1
    ensures |Flatten(Shares(histories, share, per, remainder))| <= |Monitors(histories)| * per + remainder
  {
    forall i | 0 <= i < |Monitors(histories)|
      ensures |Shares(histories, share, per, remainder)[i]| <= LimitOf(per, remainder, i)
    {
      PartIsFair(histories, share, per, remainder, i);
    }
    FlattenFits(Shares(histories, share, per, remainder), per, remainder);
  }

  ghost predicate SortedByTime(s: seq<History>) {
    Sorted(s, Newer)
  }

  /** The shares of all monitors when they get maxPoints in all: one each when there are too many monitors. */
  ghost function AllShares(histories: seq<History>, share: Sharing, maxPoints: nat): seq<seq<History>> {
    var n := |Monitors(histories)|;
    if n == 0 || n >= maxPoints then Shares(histories, share, 1, 0)
    else Shares(histories, share, maxPoints / n, maxPoints % n)
  }

  ghost predicate Grouped(histories: seq<History>, groups: map<nat, seq<History>>, order: seq<nat>) {
    && order == Monitors(histories) && groups.Keys == ToSet(order)
    && forall m :: m in groups ==> groups[m] == OfMonitor(histories, m)
  }

  method GroupByMonitor(histories: seq<HistoryRef>) returns (groups: map<nat, seq<History>>, order: seq<nat>)
    ensures Grouped(Values(histories), groups, order)
  {
    groups, order := map[], [];
    for i := 0 to |histories|
      invariant Grouped(Values(histories[..i]), groups, order)
    {
      assert histories[..i + 1][..i] == histories[..i];
      if histories[i].None? {
        assert Values(histories[..i + 1]) == Values(histories[..i]);
        continue;
      }
      var history := histories[i].value;
      assert Values(histories[..i + 1]) == Values(histories[..i]) + [history];
      groups, order := AddToGroup(Values(histories[..i]), groups, order, history);
    }
    assert histories[..|histories|] == histories;
  }

  method AddToGroup(ghost before: seq<History>, groups: map<nat, seq<History>>, order: seq<nat>, history: History)
    returns (newGroups: map<nat, seq<History>>, newOrder: seq<nat>)
    requires Grouped(before, groups, order)
    ensures Grouped(before + [history], newGroups, newOrder)
  {
    newGroups, newOrder := groups, order;
    GroupOne(before, history);
    if history.monitorID !in groups {
      newOrder := order + [history.monitorID];
      newGroups := groups[history.monitorID := []];
    }
    newGroups := newGroups[history.monitorID := newGroups[history.monitorID] + [history]];
  }

  lemma GroupOne(before: seq<History>, h: History)
    ensures Monitors(before + [h])
            == if h.monitorID in Monitors(before) then Monitors(before) else Monitors(before) + [h.monitorID]
    ensures forall m :: OfMonitor(before + [h], m)
                        == OfMonitor(before, m) + if h.monitorID == m then [h] else []
    ensures h.monitorID !in Monitors(before) ==> OfMonitor(before, h.monitorID) == []
  {
    assert (before + [h])[..|before|] == before;
    MonitorHasRecords(before, h.monitorID);
  }

  function Refs(histories: seq<History>): seq<HistoryRef> {
    seq(|histories|, i requires 0 <= i < |histories| => Some(histories[i]))
  }

  /** The chart gets all shares newest first; when there is one share each and too many of them, the oldest are
      dropped. all is the sorted list before anything is dropped. */
  method SampleMonitorHistories(histories: seq<HistoryRef>, maxPoints: int)
    returns (r: seq<HistoryRef>, ghost all: seq<History>)
    ensures maxPoints <= 0 || |histories| <= maxPoints ==> r == histories
    ensures 0 < maxPoints < |histories| ==>
              && SortedByTime(all) && multiset(all) == multiset(Flatten(AllShares(Values(histories), Share, maxPoints)))
              && r == Refs(if |all| > maxPoints then all[..maxPoints] else all)
  {
    all := [];
    if maxPoints <= 0 || |histories| <= maxPoints {
      return histories, all;
    }
    var groups, order := GroupByMonitor(histories);
    if |order| == 0 {
      return [], [];
    }
    ShareIsFair();
    if |order| >= maxPoints {
      var sampled := FirstOfEach(Values(histories), groups, order, Share, maxPoints);
      sampled := SortSlice(sampled, Newer);
      all := sampled;
      if |sampled| > maxPoints {
        return Refs(sampled[..maxPoints]), all;
      }
      return Refs(sampled), all;
    }
    var perGroupLimit := maxPoints / |order|;
    var remainder := maxPoints % |order|;
    var sampled := ShareOfEach(Values(histories), groups, order, perGroupLimit, remainder);
    sampled := SortSlice(sampled, Newer);
    all := sampled;
    DownSamplingOnce(Values(histories), Share, maxPoints, all);
    r := Refs(sampled);
  }

  method FirstOfEach(ghost histories: seq<History>, groups: map<nat, seq<History>>, order: seq<nat>,
                     ghost share: Sharing, ghost maxPoints: nat)
    returns (sampled: seq<History>)
    requires Grouped(histories, groups, order) && Fair(share) && |order| >= maxPoints
    ensures sampled == Flatten(AllShares(histories, share, maxPoints))
  {
    sampled := [];
    ghost var parts := Shares(histories, share, 1, 0);
    for i := 0 to |order|
      invariant sampled == Flatten(parts[..i])
    {
      var group := groups[order[i]];
      PartIsFair(histories, share, 1, 0, i);
      assert parts[..i + 1][..i] == parts[..i];
      if |group| > 0 {
        sampled := sampled + [group[0]];
      }
    }
    assert parts[..|parts|] == parts;
  }

  method ShareOfEach(ghost histories: seq<History>, groups: map<nat, seq<History>>, order: seq<nat>,
                     perGroupLimit: nat, remainder: nat)
    returns (sampled: seq<History>)
    requires Grouped(histories, groups, order)
    ensures sampled == Flatten(Shares(histories, Share, perGroupLimit, remainder))
  {
    sampled := [];
    ghost var parts := Shares(histories, Share, perGroupLimit, remainder);
    for index := 0 to |order|
      invariant sampled == Flatten(parts[..index])
    {
      var limit := perGroupLimit;
      if index < remainder {
        limit := limit + 1;
      }
      var share := SampleMonitorHistoryGroup(groups[order[index]], limit);
      assert parts[..index + 1][..index] == parts[..index];
      sampled := sampled + share;
    }
    assert parts[..|parts|] == parts;
  }

  lemma LimitsAddUp(histories: seq<History>, share: Sharing, maxPoints: nat) returns (per: nat, remainder: nat)
    requires Monitors(histories) != []
    ensures AllShares(histories, share, maxPoints) == Shares(histories, share, per, remainder)
    ensures per == if |Monitors(histories)| < maxPoints then maxPoints / |Monitors(histories)| else 1
    ensures remainder == if |Monitors(histories)| < maxPoints then maxPoints % |Monitors(histories)| else 0
    ensures per >= 1
    ensures |Monitors(histories)| < maxPoints ==>
              remainder < |Monitors(histories)| && |Monitors(histories)| * per + remainder == maxPoints
  {
    var n := |Monitors(histories)|;
    if n < maxPoints {
      per, remainder := maxPoints / n, maxPoints % n;
      SharePositive(n, maxPoints);
    } else {
      per, remainder := 1, 0;
    }
  }

  lemma SharePositive(n: nat, maxPoints: nat)
    requires 0 < n < maxPoints
    ensures maxPoints / n >= 1 && n * (maxPoints / n) + maxPoints % n == maxPoints
  {
  }

  /** Down-sampling gives each record at most once, and stays within maxPoints when there are fewer monitors. */
  lemma DownSamplingOnce(histories: seq<History>, share: Sharing, maxPoints: nat, all: seq<History>)
    requires Fair(share) && maxPoints > 0 && multiset(all) == multiset(Flatten(AllShares(histories, share, maxPoints)))
    ensures multiset(all) <= multiset(histories)
    ensures |Monitors(histories)| < maxPoints ==> |all| <= maxPoints
  {
    var n := |Monitors(histories)|;
    assert |multiset(all)| == |all|;
    if n > 0 {
      var per, remainder := LimitsAddUp(histories, share, maxPoints);
      forall h: History
        ensures multiset(all)[h] <= multiset(histories)[h]
      {
        SharesOnce(histories, share, per, remainder, h);
      }
      SharesFit(histories, share, per, remainder);
    }
  }

  /** Every monitor's first record is among the shares; its last as well when it may give two. */
  lemma DownSamplingKeepsEnds(histories: seq<History>, share: Sharing, maxPoints: nat, all: seq<History>, i: nat)
    requires Fair(share) && maxPoints > 0 && multiset(all) == multiset(Flatten(AllShares(histories, share, maxPoints)))
    requires i < |Monitors(histories)|
    ensures OfMonitor(histories, Monitors(histories)[i]) != []
    ensures OfMonitor(histories, Monitors(histories)[i])[0] in all
    ensures var n, group := |Monitors(histories)|, OfMonitor(histories, Monitors(histories)[i]);
            n < maxPoints && LimitOf(maxPoints / n, maxPoints % n, i) >= 2 ==> group[|group| - 1] in all
  {
    var per, remainder := LimitsAddUp(histories, share, maxPoints);
    PartIsFair(histories, share, per, remainder, i);
    FlattenHasParts(Shares(histories, share, per, remainder), i);
    SameElements(all, Flatten(AllShares(histories, share, maxPoints)));
  }

  lemma SameElements<T>(a: seq<T>, b: seq<T>)
    requires multiset(a) == multiset(b)
    ensures forall x :: x in b ==> x in a
  {
    assert forall x :: x in b ==> x in multiset(b) && x in multiset(a);
  }

  /** When there are too many monitors, each monitor's first record is either given or not newer than any that is. */
  lemma DownSamplingKeepsNewest(histories: seq<History>, share: Sharing, maxPoints: nat, all: seq<History>, i: nat,
                                kept: History)
    requires Fair(share) && 0 < maxPoints <= |all|
    requires SortedByTime(all) && multiset(all) == multiset(Flatten(AllShares(histories, share, maxPoints)))
    requires i < |Monitors(histories)| && kept in all[..maxPoints]
    ensures OfMonitor(histories, Monitors(histories)[i]) != []
    ensures var first := OfMonitor(histories, Monitors(histories)[i])[0];
            first in all[..maxPoints] || first.createdAt <= kept.createdAt
  {
    DownSamplingKeepsEnds(histories, share, maxPoints, all, i);
    var first := OfMonitor(histories, Monitors(histories)[i])[0];
    var k :| 0 <= k < maxPoints && all[..maxPoints][k] == kept;
    var j :| 0 <= j < |all| && all[j] == first;
    if j < maxPoints {
      assert all[..maxPoints][j] == first;
    } else {
      assert !Newer(all[j], all[k]);
    }
  }
}
