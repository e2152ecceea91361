/** Monitor history kept in an ordered key-value store under monitor_history:{monitor}:{nanos}:
    saving, the two range queries with their early exits, and the paged clean-up. */
module HistoryStore {
  import opened ByteText
  import opened Sequences
  import opened Sorting
  import opened Wrappers

  /** "monitor_history:" */
  const HISTORY: Bytes := [109, 111, 110, 105, 116, 111, 114, 95, 104, 105, 115, 116, 111, 114, 121, 58]

  const DEFAULT_LIMIT := 1000
  const SCAN_BATCH := 5000
  const DELETE_BATCH := 1000

  datatype History = History(monitorID: nat, serverID: nat, createdAt: int64,
                             avgDelay: real, up: nat, down: nat)

  /** A stored value: a saved history record, or anything else the store holds. */
  datatype Value = Saved(history: History) | Foreign

  type Contents = map<Bytes, Value>

  // ---------- Keys ----------

  function MonitorPrefix(monitorID: nat): Bytes {
    HISTORY + Digits(monitorID) + [COLON]
  }

  function HistoryKey(monitorID: nat, nanos: int): Bytes {
    MonitorPrefix(monitorID) + FormatInt(nanos)
  }

  function KeyOf(h: History): Bytes {
    HistoryKey(h.monitorID, h.createdAt)
  }

  function ValueOf(h: History): Value {
    Saved(h)
  }

  /** bytes.LastIndexByte(key, ':') */
  function LastColon(key: Bytes): (i: int)
    ensures -1 <= i < |key|
    ensures i >= 0 ==> key[i] == COLON
    ensures forall j :: i < j < |key| ==> key[j] != COLON
  {
    if |key| == 0 then -1
    else if key[|key| - 1] == COLON then |key| - 1
    else LastColon(key[..|key| - 1])
  }

  lemma LastColonIs(key: Bytes, n: nat)
    requires n < |key| && key[n] == COLON && forall j :: n < j < |key| ==> key[j] != COLON
    ensures LastColon(key) == n
  {
  }

  lemma ColonsOfJoin(p: Bytes, text: Bytes)
    requires COLON !in text
    ensures var key := p + [COLON] + text;
            key[|p|] == COLON && forall j :: |p| < j < |key| ==> key[j] != COLON
  {
    var key := p + [COLON] + text;
    assert forall j :: |p| < j < |key| ==> key[j] == text[j - |p| - 1];
  }

  lemma LastColonOfJoin(p: Bytes, text: Bytes)
    requires COLON !in text
    ensures LastColon(p + [COLON] + text) == |p|
  {
    ColonsOfJoin(p, text);
    LastColonIs(p + [COLON] + text, |p|);
  }

  lemma SplitOfJoin(p: Bytes, text: Bytes)
    ensures (p + [COLON] + text)[|p| + 1..] == text
    ensures (p + [COLON] + text)[|p|..] == [COLON] + text
  {
  }

  lemma HistoryKeyShape(monitorID: nat, nanos: int)
    ensures var key := HistoryKey(monitorID, nanos);
            && HISTORY <= key
            && LastColon(key) == |HISTORY| + |Digits(monitorID)|
            && LastColon(key) + 1 < |key|
            && key[LastColon(key) + 1..] == FormatInt(nanos)
            && key[LastColon(key)..] == [COLON] + FormatInt(nanos)
  {
    FormatIntColonFree(nanos);
    DigitsAreDigits(if nanos < 0 then -nanos else nanos);
    LastColonOfJoin(HISTORY + Digits(monitorID), FormatInt(nanos));
    SplitOfJoin(HISTORY + Digits(monitorID), FormatInt(nanos));
  }

  /** A colon ends a number: behind one prefix, a number and its colon match no other number. */
  lemma ColonEndsNumber(p: Bytes, a: Bytes, b: Bytes, text: Bytes)
    requires COLON !in a && COLON !in b
    requires p + a + [COLON] <= p + b + [COLON] + text
    ensures a == b
  {
    var x, y := p + a + [COLON], p + b + [COLON] + text;
    var m, n := |p| + |a|, |p| + |b|;
    assert y[m] == x[m] == COLON && y[n] == COLON;
    assert forall j :: |p| <= j < m ==> y[j] == x[j] == a[j - |p|];
    assert forall j :: |p| <= j < n ==> y[j] == b[j - |p|];
    if |a| == |b| {
      assert forall i :: 0 <= i < |a| ==> a[i] == y[|p| + i] == b[i];
    }
  }

  /** The prefix of one monitor matches no other monitor's keys: 1 is kept apart from 12. */
  lemma MonitorPrefixSeparates(monitorID: nat, other: nat, nanos: int)
    ensures MonitorPrefix(monitorID) <= HistoryKey(other, nanos) <==> monitorID == other
  {
    if MonitorPrefix(monitorID) <= HistoryKey(other, nanos) {
      DigitsAreDigits(monitorID);
      DigitsAreDigits(other);
      ColonEndsNumber(HISTORY, Digits(monitorID), Digits(other), FormatInt(nanos));
      DigitsInjective(monitorID, other);
    }
  }

  /** Keys of one monitor are ordered as the texts of their times. */
  lemma KeyOrderIsTextOrder(monitorID: nat, s: int, t: int)
    ensures Less(HistoryKey(monitorID, s), HistoryKey(monitorID, t)) <==> Less(FormatInt(s), FormatInt(t))
  {
    LessAfterCommonPrefix(MonitorPrefix(monitorID), FormatInt(s), FormatInt(t));
  }

  /** Two records have the same monitor and time. */
  predicate SameMoment(a: History, b: History) {
    a.monitorID == b.monitorID && a.createdAt == b.createdAt
  }

  /** Records share a key exactly if they have the same monitor and time: the server is not part of it. */
  lemma KeysClashExactly(a: History, b: History)
    ensures KeyOf(a) == KeyOf(b) <==> SameMoment(a, b)
  {
    if KeyOf(a) == KeyOf(b) {
      MonitorPrefixSeparates(a.monitorID, b.monitorID, b.createdAt);
      assert KeyOf(a)[|MonitorPrefix(a.monitorID)|..] == FormatInt(a.createdAt);
      assert KeyOf(b)[|MonitorPrefix(b.monitorID)|..] == FormatInt(b.createdAt);
      ParseIntRoundTrip(a.createdAt);
      ParseIntRoundTrip(b.createdAt);
    }
  }

  // ---------- Times ----------

  /** The first 19-digit time: 9 September 2001. */
  const FIRST_WIDE: int64 := 1_000_000_000_000_000_000

  lemma WidePowers()
    ensures Pow10(18) == FIRST_WIDE && Pow10(19) == 10 * FIRST_WIDE
  {
    assert Pow10(3) == 1_000;
    assert Pow10(6) == 1_000_000;
    assert Pow10(9) == 1_000_000_000;
    assert Pow10(12) == 1_000_000_000_000;
    assert Pow10(15) == 1_000_000_000_000_000;
  }

  lemma WideHasNineteenDigits(t: int64)
    requires 0 <= t
    ensures |Digits(t)| == 19 <==> FIRST_WIDE <= t
  {
    WidePowers();
    DigitsWidth(t, 19);
  }

  /** Texts of 19-digit times are ordered as the times. */
  lemma WideTextOrder(s: int64, t: int64)
    requires FIRST_WIDE <= s && FIRST_WIDE <= t
    ensures Less(FormatInt(s), FormatInt(t)) <==> s < t
    ensures FormatInt(s) == FormatInt(t) <==> s == t
  {
    WideHasNineteenDigits(s);
    WideHasNineteenDigits(t);
    TextOrderIsNumeric(s, t);
  }

  // ---------- Stores of saved records ----------

  /** Every history key holds the record it was made from. */
  ghost predicate UnderOwnKeys(data: Contents) {
    forall k :: k in data && HISTORY <= k ==> data[k].Saved? && k == KeyOf(data[k].history)
  }

  /** ...with a 19-digit time. */
  ghost predicate SavedRecords(data: Contents) {
    && UnderOwnKeys(data)
    && forall k :: k in data && HISTORY <= k ==> FIRST_WIDE <= data[k].history.createdAt
  }

  ghost function Records(data: Contents): set<History> {
    set k | k in data && HISTORY <= k && data[k].Saved? :: data[k].history
  }

  lemma RecordHasKey(data: Contents, h: History)
    requires UnderOwnKeys(data)
    ensures h in Records(data) <==> KeyOf(h) in data && data[KeyOf(h)] == Saved(h)
  {
    HistoryKeyShape(h.monitorID, h.createdAt);
  }

  lemma KeyNamesRecord(data: Contents, h: History)
    requires SavedRecords(data) && h in Records(data)
    ensures forall c :: c in Records(data) && KeyOf(c) == KeyOf(h) ==> c == h
  {
    forall c | c in Records(data) && KeyOf(c) == KeyOf(h)
      ensures c == h
    {
      RecordHasKey(data, c);
      RecordHasKey(data, h);
    }
  }

  datatype Query = Query(serverID: nat, monitorID: nat, start: int64, end: int64)

  /** What a caller asks for: one server's records of one monitor with start <= t < end. */
  predicate Wanted(h: History, q: Query) {
    h.monitorID == q.monitorID && h.serverID == q.serverID && q.start <= h.createdAt < q.end
  }

  /** What a scan of the keys can see: the time's text lies between the texts of the bounds. */
  predicate InTextRange(t: int, start: int, end: int) {
    !Less(FormatInt(t), FormatInt(start)) && !Less(FormatInt(end), FormatInt(t))
  }

  ghost function Matches(data: Contents, q: Query): set<History> {
    set h | h in Records(data) && Wanted(h, q)
  }

  ghost function ScannedMatches(data: Contents, q: Query): set<History> {
    set h | h in Records(data) && Wanted(h, q) && InTextRange(h.createdAt, q.start, q.end)
  }

  predicate NewestFirst(r: seq<History>) {
    forall i, j :: 0 <= i < j < |r| ==> r[j].createdAt < r[i].createdAt
  }

  /** sort.Slice by CreatedAt.After */
  predicate Newer(x: History, y: History) {
    x.createdAt > y.createdAt
  }

  /** r holds the newest of the candidates, newest first, and no more than limit of them. */
  ghost predicate IsNewest(r: seq<History>, candidates: set<History>, limit: nat) {
    && |r| <= limit
    && NewestFirst(r)
    && (forall h :: h in r ==> h in candidates)
    && (forall c :: c in candidates && c !in r ==>
          |r| == limit && forall h :: h in r ==> c.createdAt < h.createdAt)
  }

  // ---------- The store ----------

  ghost predicate Ascending(keys: seq<Bytes>) {
    forall i, j :: 0 <= i < j < |keys| ==> Less(keys[i], keys[j])
  }

  /** The keys a read transaction iterates over, in byte order. */
  method Snapshot(data: Contents) returns (keys: seq<Bytes>)
    ensures Ascending(keys)
    ensures forall k :: k in keys <==> k in data
  {
    keys := [];
    var rest := data.Keys;
    while rest != {}
      invariant Ascending(keys)
      invariant forall k :: k in data <==> k in keys || k in rest
      invariant forall k :: k in keys ==> k !in rest
    {
      var k :| k in rest;
      var i := SeekIndex(keys, k);
      forall j | 0 <= j < |keys|
        ensures j < i ==> Less(keys[j], k)
        ensures i <= j ==> Less(k, keys[j])
      {
        LessTotal(keys[j], k);
      }
      var before := keys;
      keys := keys[..i] + [k] + keys[i..];
      assert forall x :: x in keys <==> x in before || x == k by {
        assert before == before[..i] + before[i..];
      }
      rest := rest - {k};
    }
  }

  /** Iterator.Seek: the position of the first key that is not below k. */
  method SeekIndex(keys: seq<Bytes>, k: Bytes) returns (i: nat)
    requires Ascending(keys)
    ensures i <= |keys|
    ensures forall j :: 0 <= j < i ==> Less(keys[j], k)
    ensures forall j :: i <= j < |keys| ==> !Less(keys[j], k)
  {
    i := 0;
    while i < |keys| && Less(keys[i], k)
      invariant i <= |keys|
      invariant forall j :: 0 <= j < i ==> Less(keys[j], k)
    {
      i := i + 1;
    }
    forall j | i <= j < |keys|
      ensures !Less(keys[j], k)
    {
      if i < j && Less(keys[j], k) {
        LessTransitive(keys[i], keys[j], k);
      }
    }
  }

  /** A reversed iterator's Seek: how many keys are not above k. */
  method ReverseSeekCount(keys: seq<Bytes>, k: Bytes) returns (n: nat)
    requires Ascending(keys)
    ensures n <= |keys|
    ensures forall j :: 0 <= j < n ==> !Less(k, keys[j])
    ensures forall j :: n <= j < |keys| ==> Less(k, keys[j])
  {
    n := |keys|;
    while n > 0 && Less(k, keys[n - 1])
      invariant n <= |keys|
      invariant forall j :: n <= j < |keys| ==> Less(k, keys[j])
    {
      n := n - 1;
    }
    forall j | 0 <= j < n
      ensures !Less(k, keys[j])
    {
      if j < n - 1 && Less(k, keys[j]) {
        LessTransitive(k, keys[j], keys[n - 1]);
      }
    }
  }

  /** The seek of the reverse query skips no match. */
  lemma SeekSkipsNoMatch(data: Contents, q: Query, keys: seq<Bytes>, hi: nat, h: History)
    requires SavedRecords(data) && (forall k :: k in keys <==> k in data)
    requires hi <= |keys|
    requires forall j :: hi <= j < |keys| ==> Less(HistoryKey(q.monitorID, q.end), keys[j])
    requires h in ScannedMatches(data, q)
    ensures KeyOf(h) in keys[..hi]
  {
    RecordHasKey(data, h);
    KeyOrderIsTextOrder(q.monitorID, q.end, h.createdAt);
    var p :| 0 <= p < |keys| && keys[p] == KeyOf(h);
    assert keys[..hi][p] == KeyOf(h);
  }

  /** A reverse scan may stop at a key before the start, or without the prefix: no key of the range precedes it. */
  lemma NothingBeforeExit(keys: seq<Bytes>, prefix: Bytes, startKey: Bytes, endKey: Bytes, i: nat, p: nat)
    requires Ascending(keys) && p <= i < |keys| && prefix <= endKey
    requires !Less(endKey, keys[i])
    requires Less(keys[i], startKey) || !(prefix <= keys[i])
    ensures Less(keys[p], startKey) || !(prefix <= keys[p])
  {
    if p < i {
      LessTotal(keys[p], keys[i]);
      if Less(keys[i], startKey) {
        LessTransitive(keys[p], keys[i], startKey);
      } else if prefix <= keys[p] {
        PrefixContiguous(prefix, keys[p], keys[i], endKey);
      }
    }
  }

  /** Both early exits are sound: no match lies at or below the key that the scan stops at. */
  lemma EarlyExitMissesNothing(data: Contents, q: Query, keys: seq<Bytes>, i: nat, h: History)
    requires SavedRecords(data) && Ascending(keys)
    requires 0 < i <= |keys| && !Less(HistoryKey(q.monitorID, q.end), keys[i - 1])
    requires Less(keys[i - 1], HistoryKey(q.monitorID, q.start)) || !(MonitorPrefix(q.monitorID) <= keys[i - 1])
    requires h in ScannedMatches(data, q)
    ensures KeyOf(h) !in keys[..i]
  {
    if KeyOf(h) in keys[..i] {
      var p :| 0 <= p < i && keys[p] == KeyOf(h);
      NothingBeforeExit(keys, MonitorPrefix(q.monitorID), HistoryKey(q.monitorID, q.start),
                        HistoryKey(q.monitorID, q.end), i - 1, p);
      KeyOrderIsTextOrder(q.monitorID, h.createdAt, q.start);
    }
  }

  /** What the scan reads off a key of the queried monitor. */
  lemma ScannedKey(data: Contents, q: Query, key: Bytes)
    requires SavedRecords(data) && key in data && MonitorPrefix(q.monitorID) <= key
    ensures HISTORY <= key && data[key].Saved? && data[key].history in Records(data)
    ensures key == HistoryKey(q.monitorID, data[key].history.createdAt)
    ensures data[key].history.monitorID == q.monitorID && FIRST_WIDE <= data[key].history.createdAt
    ensures LastColon(key) >= 0
    ensures Less(key[LastColon(key)..], [COLON] + FormatInt(q.start))
            <==> Less(FormatInt(data[key].history.createdAt), FormatInt(q.start))
    ensures Less(FormatInt(data[key].history.createdAt), FormatInt(q.start))
            <==> Less(key, HistoryKey(q.monitorID, q.start))
  {
    assert HISTORY <= MonitorPrefix(q.monitorID);
    var h := data[key].history;
    MonitorPrefixSeparates(q.monitorID, h.monitorID, h.createdAt);
    HistoryKeyShape(h.monitorID, h.createdAt);
    LessAfterCommonPrefix([COLON], FormatInt(h.createdAt), FormatInt(q.start));
    KeyOrderIsTextOrder(q.monitorID, h.createdAt, q.start);
  }

  /** Within one monitor, a record whose key comes earlier is older. */
  lemma EarlierKeyIsOlder(a: History, b: History)
    requires a.monitorID == b.monitorID && FIRST_WIDE <= a.createdAt && FIRST_WIDE <= b.createdAt
    ensures Less(KeyOf(a), KeyOf(b)) <==> a.createdAt < b.createdAt
  {
    KeyOrderIsTextOrder(a.monitorID, a.createdAt, b.createdAt);
    WideTextOrder(a.createdAt, b.createdAt);
  }

  /** The state of the reverse scan above position i: every match there is in r, newest first. */
  ghost predicate ScannedDownTo(r: seq<History>, candidates: set<History>, keys: seq<Bytes>, i: nat)
  {
    && i <= |keys|
    && SplitAt(r, candidates, keys, i, KeyOf)
    && NewestFirst(r)
  }

  lemma EarlyExitFindsAll(data: Contents, q: Query, r: seq<History>, keys: seq<Bytes>, i: nat)
    requires SavedRecords(data) && Ascending(keys) && (forall k :: k in keys <==> k in data)
    requires 0 < i <= |keys| && !Less(HistoryKey(q.monitorID, q.end), keys[i - 1])
    requires Less(keys[i - 1], HistoryKey(q.monitorID, q.start)) || !(MonitorPrefix(q.monitorID) <= keys[i - 1])
    requires ScannedDownTo(r, ScannedMatches(data, q), keys, i)
    ensures forall c :: c in ScannedMatches(data, q) ==> c in r
  {
    forall c | c in ScannedMatches(data, q)
      ensures c in r
    {
      EarlyExitMissesNothing(data, q, keys, i, c);
    }
  }

  lemma ScannedAreNewer(data: Contents, q: Query, r: seq<History>, keys: seq<Bytes>, i: nat, h: History)
    requires SavedRecords(data) && Ascending(keys)
    requires 0 < i <= |keys| && keys[i - 1] == KeyOf(h)
    requires h.monitorID == q.monitorID && FIRST_WIDE <= h.createdAt
    requires ScannedDownTo(r, ScannedMatches(data, q), keys, i)
    ensures forall a :: a in r ==> h.createdAt < a.createdAt
  {
    forall a | a in r
      ensures h.createdAt < a.createdAt
    {
      var j :| 0 <= j < |keys[i..]| && keys[i..][j] == KeyOf(a);
      assert keys[i + j] == KeyOf(a);
      RecordHasKey(data, a);
      HistoryKeyShape(a.monitorID, a.createdAt);
      EarlierKeyIsOlder(h, a);
    }
  }

  lemma ScanReads(data: Contents, q: Query, key: Bytes)
    requires SavedRecords(data) && key in data && MonitorPrefix(q.monitorID) <= key
    requires !Less(HistoryKey(q.monitorID, q.end), key)
    requires data[key].Saved? && !Less(FormatInt(data[key].history.createdAt), FormatInt(q.start))
    ensures var h := data[key].history;
            && key == KeyOf(h) && h.monitorID == q.monitorID && FIRST_WIDE <= h.createdAt
            && (h in ScannedMatches(data, q) <==> Wanted(h, q))
            && forall c :: c in ScannedMatches(data, q) && KeyOf(c) == KeyOf(h) ==> c == h
  {
    ScannedKey(data, q, key);
    KeyOrderIsTextOrder(q.monitorID, q.end, data[key].history.createdAt);
    KeyNamesRecord(data, data[key].history);
  }

  lemma ScanStep(data: Contents, q: Query, r: seq<History>, keys: seq<Bytes>, i: nat)
    requires SavedRecords(data) && Ascending(keys) && (forall k :: k in keys <==> k in data)
    requires 0 < i <= |keys| && MonitorPrefix(q.monitorID) <= keys[i - 1]
    requires !Less(HistoryKey(q.monitorID, q.end), keys[i - 1])
    requires ScannedDownTo(r, ScannedMatches(data, q), keys, i)
    requires data[keys[i - 1]].Saved? && !Less(FormatInt(data[keys[i - 1]].history.createdAt), FormatInt(q.start))
    ensures ScannedDownTo(if Wanted(data[keys[i - 1]].history, q) then r + [data[keys[i - 1]].history] else r,
                          ScannedMatches(data, q), keys, i - 1)
  {
    var h := data[keys[i - 1]].history;
    ScanReads(data, q, keys[i - 1]);
    ScannedAreNewer(data, q, r, keys, i, h);
    TakeOrSkip(r, ScannedMatches(data, q), keys, i, h, KeyOf);
  }

  /** When the scan stops at its limit, what it has not reached is older than all it has. */
  lemma RestIsOlder(data: Contents, q: Query, r: seq<History>, keys: seq<Bytes>, i: nat)
    requires SavedRecords(data) && Ascending(keys) && (forall k :: k in keys <==> k in data)
    requires ScannedDownTo(r, ScannedMatches(data, q), keys, i)
    ensures forall c, h :: c in ScannedMatches(data, q) && c !in r && h in r ==> c.createdAt < h.createdAt
  {
    forall c, h | c in ScannedMatches(data, q) && c !in r && h in r
      ensures c.createdAt < h.createdAt
    {
      var m :| 0 <= m < i && keys[m] == KeyOf(c);
      var n :| i <= n < |keys| && keys[n] == KeyOf(h);
      RecordHasKey(data, c);
      RecordHasKey(data, h);
      HistoryKeyShape(c.monitorID, c.createdAt);
      HistoryKeyShape(h.monitorID, h.createdAt);
      EarlierKeyIsOlder(c, h);
    }
  }

  lemma ScanEnds(data: Contents, q: Query, r: seq<History>, keys: seq<Bytes>, i: nat, limit: nat, complete: bool)
    requires SavedRecords(data) && Ascending(keys) && (forall k :: k in keys <==> k in data)
    requires ScannedDownTo(r, ScannedMatches(data, q), keys, i) && |r| <= limit
    requires complete ==> forall c :: c in ScannedMatches(data, q) ==> c in r
    requires complete || i == 0 || |r| == limit
    ensures IsNewest(r, ScannedMatches(data, q), limit)
  {
    if !complete {
      RestIsOlder(data, q, r, keys, i);
    }
  }

  class MonitorHistoryOps {
    var data: Contents

    constructor (initial: Contents)
      ensures data == initial
    {
      data := initial;
    }

    method SaveMonitorHistory(h: History)
      modifies this
      ensures data == old(data)[KeyOf(h) := ValueOf(h)]
    {
      data := data[KeyOf(h) := Saved(h)];
    }

    /** The reverse range query: the newest matching records, newest first. */
    method GetRangeReverseLimit(q: Query, limit: int) returns (r: seq<History>)
      requires SavedRecords(data)
      ensures IsNewest(r, ScannedMatches(data, q), if limit <= 0 then 1000 else limit)
    {
      var max: nat := if limit <= 0 then DEFAULT_LIMIT else limit;
      var prefix := MonitorPrefix(q.monitorID);
      var endKey := prefix + FormatInt(q.end);
      var startSuffix := [COLON] + FormatInt(q.start);
      var keys := Snapshot(data);
      var i := ReverseSeekCount(keys, endKey);
      forall h | h in ScannedMatches(data, q)
        ensures KeyOf(h) in keys[..i]
      {
        SeekSkipsNoMatch(data, q, keys, i, h);
      }
      ghost var complete := false;
      r := [];
      while i > 0
        invariant 0 <= i <= |keys| && !complete && |r| < max
        invariant forall j :: 0 <= j < i ==> !Less(endKey, keys[j])
        invariant ScannedDownTo(r, ScannedMatches(data, q), keys, i)
      {
        var key := keys[i - 1];
        if !(prefix <= key) {
          EarlyExitFindsAll(data, q, r, keys, i);
          complete := true;
          break;
        }
        ScannedKey(data, q, key);
        var idx := LastColon(key);
        if idx != -1 {
          if Less(key[idx..], startSuffix) {
            EarlyExitFindsAll(data, q, r, keys, i);
            complete := true;
            break;
          }
        }
        var h := data[key].history;
        ScanStep(data, q, r, keys, i);
        if h.serverID == q.serverID && q.start <= h.createdAt < q.end {
          r := r + [h];
        }
        i := i - 1;
        if |r| >= max {
          break;
        }
      }
      ScanEnds(data, q, r, keys, i, max, complete);
    }

    /** The forward range query of one monitor: both ends included, oldest first. */
    method GetMonitorHistoriesByMonitorID(monitorID: nat, start: int64, end: int64) returns (r: seq<History>)
      requires SavedRecords(data)
      ensures forall i, j :: 0 <= i < j < |r| ==> r[i].createdAt < r[j].createdAt
      ensures forall h :: h in r <==> h in ScannedRange(data, monitorID, start, end)
    {
      var prefix := MonitorPrefix(monitorID);
      var startKey := prefix + FormatInt(start);
      var endKey := prefix + FormatInt(end);
      var keys := Snapshot(data);
      var i := SeekIndex(keys, startKey);
      ghost var lo := i;
      r := [];
      while i < |keys|
        invariant lo <= i <= |keys| && |r| == i - lo
        invariant ReadsOff(r, keys, lo, ScannedRange(data, monitorID, start, end))
      {
        var key := keys[i];
        if Less(endKey, key) {
          break;
        }
        if !(prefix <= key) {
          break;
        }
        RangeKeyIsRecord(data, monitorID, start, end, key);
        var h := data[key].history;
        ReadOneMore(r, keys, lo, ScannedRange(data, monitorID, start, end), h);
        r := r + [h];
        i := i + 1;
      }
      ForwardScanResult(data, monitorID, start, end, keys, lo, i, r);
    }

    /** The query that seeks the monitor's first key and stops at its limit: the oldest matching records with
        start < t < end, sorted newest first. */
    method GetByServerAndMonitor(q: Query, limit: int) returns (r: seq<History>)
      requires SavedRecords(data)
      ensures IsOldest(r, StrictMatches(data, q), if limit < 0 then 0 else limit)
    {
      var prefix := MonitorPrefix(q.monitorID);
      var keys := Snapshot(data);
      var i := SeekIndex(keys, prefix);
      PrefixSeekSkipsNoMatch(data, q, keys, i);
      var count := 0;
      ghost var complete := false;
      r := [];
      while i < |keys| && count < limit
        invariant i <= |keys| && count == |r| && (count == 0 || count <= limit)
        invariant forall j :: i <= j < |keys| ==> !Less(keys[j], prefix)
        invariant ScannedUpTo(r, StrictMatches(data, q), keys, i) && !complete
      {
        var key := keys[i];
        if !(prefix <= key) {
          NoMatchBehindPrefix(data, q, r, keys, i);
          complete := true;
          break;
        }
        ScannedKey(data, q, key);
        var h := data[key].history;
        ForwardStep(data, q, r, keys, i);
        if h.serverID == q.serverID && h.createdAt > q.start && h.createdAt < q.end {
          r := r + [h];
          count := count + 1;
        }
        i := i + 1;
      }
      ForwardScanEnds(data, q, r, keys, i, if limit < 0 then 0 else limit, complete);
      ghost var scanned := r;
      r := SortSlice(r, Newer);
      SortedStaysOldest(scanned, r, StrictMatches(data, q), if limit < 0 then 0 else limit);
    }

    /** Saves that other goroutines complete while the lock is free. */
    method Interleave(saves: seq<History>)
      modifies this
      ensures data == old(data) + Overlay(saves)
    {
      for i := 0 to |saves|
        invariant data == old(data) + Overlay(saves[..i])
      {
        LayeredStep(old(data), saves, i, KeyOf, ValueOf);
        SaveMonitorHistory(saves[i]);
      }
      assert saves[..|saves|] == saves;
    }

    /** One moment with the lock free: the next batch of saves, if any is left, arrives. */
    method LockGap(arrivals: seq<seq<History>>, gap: nat, ghost base: Contents) returns (next: nat)
      requires gap <= |arrivals|
      requires data == base + Overlay(Flatten(arrivals[..gap]))
      modifies this
      ensures next == if gap < |arrivals| then gap + 1 else gap
      ensures data == base + Overlay(Flatten(arrivals[..next]))
      ensures next == gap ==> data == old(data)
    {
      next := gap;
      if gap < |arrivals| {
        FlattenOneMore(arrivals[..gap], arrivals[gap]);
        assert arrivals[..gap + 1] == arrivals[..gap] + [arrivals[gap]];
        LayeredAppend(Flatten(arrivals[..gap]), arrivals[gap], KeyOf, ValueOf);
        LayersAssociate(base, Overlay(Flatten(arrivals[..gap])), Overlay(arrivals[gap]));
        Interleave(arrivals[gap]);
        next := gap + 1;
      }
    }

    /** One read transaction of the clean-up: at most SCAN_BATCH keys from startKey on. */
    method ScanPage(startKey: Bytes, cutoff: int) returns (keysToDelete: seq<Bytes>, last: Option<Bytes>)
      requires HISTORY <= startKey
      ensures forall i, j :: 0 <= i < j < |keysToDelete| ==> keysToDelete[i] != keysToDelete[j]
      ensures forall k :: k in keysToDelete ==> k in ExpiredKeys(data, cutoff)
      ensures forall k :: k in ExpiredKeys(data, cutoff) && !Less(k, startKey) ==>
                k in keysToDelete || (last.Some? && !Less(k, last.value + [0]))
      ensures last.Some? ==> last.value in KeysFrom(data, startKey) && HISTORY <= last.value
    {
      keysToDelete := [];
      last := None;
      var keys := Snapshot(data);
      var i := SeekIndex(keys, startKey);
      ghost var lo := i;
      var scanned := 0;
      while i < |keys| && HISTORY <= keys[i]
        invariant lo <= i <= |keys|
        invariant PageScanned(keysToDelete, keys, lo, i, cutoff)
      {
        scanned := scanned + 1;
        var key := keys[i];
        PageStep(keysToDelete, keys, lo, i, cutoff);
        if Expired(key, cutoff) {
          keysToDelete := keysToDelete + [key];
        }
        i := i + 1;
        if scanned >= SCAN_BATCH {
          last := Some(key);
          break;
        }
      }
      PageComplete(data, keysToDelete, keys, lo, i, startKey, cutoff, last);
    }

    method DeleteKeys(batch: seq<Bytes>)
      modifies this
      ensures data == old(data) - ToSet(batch)
    {
      for i := 0 to |batch|
        invariant data == old(data) - ToSet(batch[..i])
      {
        data := data - {batch[i]};
        assert ToSet(batch[..i + 1]) == ToSet(batch[..i]) + {batch[i]};
      }
      assert batch[..|batch|] == batch;
    }

    /** The delete transactions of one page, with the lock free before each of them. */
    method DeleteBatches(keysToDelete: seq<Bytes>, cutoff: int, arrivals: seq<seq<History>>, gap: nat,
                         ghost base: Contents) returns (count: nat, next: nat)
      requires gap <= |arrivals| && NewerThan(arrivals, cutoff)
      requires data == base + Overlay(Flatten(arrivals[..gap]))
      requires AllExpired(keysToDelete, cutoff)
      modifies this
      ensures gap <= next <= |arrivals|
      ensures data == (base - ToSet(keysToDelete)) + Overlay(Flatten(arrivals[..next]))
      ensures count == |keysToDelete|
      ensures next == gap ==> data.Keys <= old(data).Keys
    {
      var start := 0;
      count, next := 0, gap;
      DeleteNothing(base, keysToDelete);
      while start < |keysToDelete|
        invariant count == if start < |keysToDelete| then start else |keysToDelete|
        invariant gap <= next <= |arrivals|
        invariant data == (base - ToSet(keysToDelete[..count])) + Overlay(Flatten(arrivals[..next]))
        invariant next == gap ==> data.Keys <= old(data).Keys
      {
        var end := start + DELETE_BATCH;
        if end > |keysToDelete| {
          end := |keysToDelete|;
        }
        var batch := keysToDelete[start..end];
        next := LockGap(arrivals, next, base - ToSet(keysToDelete[..count]));
        SavesUnexpired(arrivals, next, cutoff);
        DeleteBelowSaves(base, keysToDelete, start, end, Overlay(Flatten(arrivals[..next])), cutoff);
        DeleteKeys(batch);
        count := count + |batch|;
        start := start + DELETE_BATCH;
      }
      assert keysToDelete[..count] == keysToDelete;
    }

    /** The paged clean-up. The lock is free between a scan and each delete transaction, and before the next
        scan; arrivals[g] are the saves that complete in the g-th such gap, and gaps says how many did. */
    method CleanupOldMonitorHistories(cutoff: int, arrivals: seq<seq<History>>) returns (deleted: nat, gaps: nat)
      requires NewerThan(arrivals, cutoff)
      modifies this
      ensures gaps <= |arrivals|
      ensures data == RemoveExpired(old(data), cutoff) + Overlay(Flatten(arrivals[..gaps]))
      ensures deleted == |ExpiredKeys(old(data), cutoff)|
    {
      deleted, gaps := 0, 0;
      var startKey := HISTORY;
      ghost var first := data;
      ghost var gone: set<Bytes> := {};
      NothingBeforeHistory(first, cutoff);
      while true
        invariant gaps <= |arrivals| && HISTORY <= startKey
        invariant data == (first - gone) + Overlay(Flatten(arrivals[..gaps]))
        invariant CleanedUpTo(first, gone, cutoff, startKey)
        invariant deleted == |gone|
        decreases |arrivals| - gaps, |KeysFrom(data, startKey)|
      {
        SavesUnexpired(arrivals, gaps, cutoff);
        var keysToDelete, last := ScanPage(startKey, cutoff);
        PageIsFresh(first, gone, Overlay(Flatten(arrivals[..gaps])), cutoff, startKey, keysToDelete, last);
        ghost var scanned, gapsAtScan := data, gaps;
        var count;
        count, gaps := DeleteBatches(keysToDelete, cutoff, arrivals, gaps, first - gone);
        gone := gone + ToSet(keysToDelete);
        deleted := deleted + count;
        if last.None? {
          break;
        }
        gaps := LockGap(arrivals, gaps, first - gone);
        if gaps == gapsAtScan {
          PageShrinksRest(scanned, data, startKey, last.value);
        }
        startKey := last.value + [0];
      }
    }
  }

  // ---------- What the queries mean ----------

  ghost function ScannedRange(data: Contents, monitorID: nat, start: int64, end: int64): set<History> {
    set h | h in Records(data) && h.monitorID == monitorID && InTextRange(h.createdAt, start, end)
  }

  ghost function MonitorRange(data: Contents, monitorID: nat, start: int64, end: int64): set<History> {
    set h | h in Records(data) && h.monitorID == monitorID && start <= h.createdAt <= end
  }

  lemma RangeKeyIsRecord(data: Contents, monitorID: nat, start: int64, end: int64, key: Bytes)
    requires SavedRecords(data) && key in data && MonitorPrefix(monitorID) <= key
    requires !Less(key, HistoryKey(monitorID, start)) && !Less(HistoryKey(monitorID, end), key)
    ensures data[key].Saved? && data[key].history in ScannedRange(data, monitorID, start, end)
    ensures KeyOf(data[key].history) == key
  {
    ScannedKey(data, Query(0, monitorID, start, end), key);
    KeyOrderIsTextOrder(monitorID, data[key].history.createdAt, start);
    KeyOrderIsTextOrder(monitorID, end, data[key].history.createdAt);
  }

  /** A forward scan may stop at a key past the end, or without the prefix: no key of the range follows. */
  lemma NothingAfterExit(keys: seq<Bytes>, prefix: Bytes, startKey: Bytes, endKey: Bytes, i: nat, p: nat)
    requires Ascending(keys) && i <= p < |keys| && prefix <= startKey
    requires !Less(keys[i], startKey)
    requires Less(endKey, keys[i]) || !(prefix <= keys[i])
    ensures Less(endKey, keys[p]) || !(prefix <= keys[p])
  {
    if i < p {
      LessTotal(keys[i], keys[p]);
      if Less(endKey, keys[i]) {
        LessTransitive(endKey, keys[i], keys[p]);
      } else if prefix <= keys[p] {
        PrefixContiguous(prefix, startKey, keys[i], keys[p]);
      }
    }
  }

  /** The forward scan stops only where no record of the range can follow. */
  lemma ForwardExitMissesNothing(data: Contents, monitorID: nat, start: int64, end: int64,
                                 keys: seq<Bytes>, lo: nat, i: nat, h: History)
    requires SavedRecords(data) && Ascending(keys) && (forall k :: k in keys <==> k in data)
    requires lo <= i <= |keys|
    requires forall j :: 0 <= j < lo ==> Less(keys[j], HistoryKey(monitorID, start))
    requires forall j :: lo <= j < |keys| ==> !Less(keys[j], HistoryKey(monitorID, start))
    requires i < |keys| ==> Less(HistoryKey(monitorID, end), keys[i]) || !(MonitorPrefix(monitorID) <= keys[i])
    requires h in ScannedRange(data, monitorID, start, end)
    ensures exists p :: lo <= p < i && keys[p] == KeyOf(h)
  {
    RecordHasKey(data, h);
    var p :| 0 <= p < |keys| && keys[p] == KeyOf(h);
    KeyOrderIsTextOrder(monitorID, h.createdAt, start);
    assert lo <= p;
    if i <= p {
      KeyOrderIsTextOrder(monitorID, end, h.createdAt);
      NothingAfterExit(keys, MonitorPrefix(monitorID), HistoryKey(monitorID, start), HistoryKey(monitorID, end), i, p);
    }
  }

  /** r holds, in order, the records of the keys from position lo on, all of them in the range. */
  ghost predicate ReadsOff(r: seq<History>, keys: seq<Bytes>, lo: nat, range: set<History>) {
    && lo + |r| <= |keys|
    && forall j :: 0 <= j < |r| ==> r[j] in range && KeyOf(r[j]) == keys[lo + j]
  }

  lemma ReadOneMore(r: seq<History>, keys: seq<Bytes>, lo: nat, range: set<History>, h: History)
    requires ReadsOff(r, keys, lo, range) && lo + |r| < |keys|
    requires h in range && KeyOf(h) == keys[lo + |r|]
    ensures ReadsOff(r + [h], keys, lo, range)
  {
  }

  lemma ForwardScanResult(data: Contents, monitorID: nat, start: int64, end: int64,
                          keys: seq<Bytes>, lo: nat, i: nat, r: seq<History>)
    requires SavedRecords(data) && Ascending(keys) && (forall k :: k in keys <==> k in data)
    requires lo <= i <= |keys| && i == lo + |r|
    requires forall j :: 0 <= j < lo ==> Less(keys[j], HistoryKey(monitorID, start))
    requires forall j :: lo <= j < |keys| ==> !Less(keys[j], HistoryKey(monitorID, start))
    requires i < |keys| ==> Less(HistoryKey(monitorID, end), keys[i]) || !(MonitorPrefix(monitorID) <= keys[i])
    requires ReadsOff(r, keys, lo, ScannedRange(data, monitorID, start, end))
    ensures forall a, b :: 0 <= a < b < |r| ==> r[a].createdAt < r[b].createdAt
    ensures forall h :: h in r <==> h in ScannedRange(data, monitorID, start, end)
  {
    forall a, b | 0 <= a < b < |r|
      ensures r[a].createdAt < r[b].createdAt
    {
      RecordHasKey(data, r[a]);
      RecordHasKey(data, r[b]);
      HistoryKeyShape(monitorID, r[a].createdAt);
      HistoryKeyShape(monitorID, r[b].createdAt);
      EarlierKeyIsOlder(r[a], r[b]);
    }
    forall h | h in ScannedRange(data, monitorID, start, end)
      ensures h in r
    {
      ForwardExitMissesNothing(data, monitorID, start, end, keys, lo, i, h);
      var p :| lo <= p < i && keys[p] == KeyOf(h);
      RecordHasKey(data, h);
      RecordHasKey(data, r[p - lo]);
    }
  }

  /** The reverse query returns min(limit, N) records. */
  lemma NewestCount(r: seq<History>, candidates: set<History>, limit: nat)
    requires IsNewest(r, candidates, limit)
    ensures |r| == if |candidates| < limit then |candidates| else limit
  {
    DistinctCount(r);
    SubsetCount(ToSet(r), candidates);
    if |r| < limit {
      SubsetCount(candidates, ToSet(r));
    }
  }

  /** What the reverse query gives: only records of the server and the monitor in the half-open range, newest first, and
      all of these but those that are older than as many as the limit allows. */
  lemma NewestAnswer(data: Contents, q: Query, limit: nat, r: seq<History>)
    requires SavedRecords(data) && (q.end <= FIRST_WIDE || StartTextOrdered(q.start))
    requires IsNewest(r, ScannedMatches(data, q), limit)
    ensures |r| <= limit && forall i, j :: 0 <= i < j < |r| ==> r[i].createdAt > r[j].createdAt
    ensures forall h :: h in r ==> h in Records(data) && h.serverID == q.serverID && h.monitorID == q.monitorID
                                   && q.start <= h.createdAt && h.createdAt < q.end
    ensures forall h :: h in Records(data) && h.serverID == q.serverID && h.monitorID == q.monitorID
                        && q.start <= h.createdAt && h.createdAt < q.end && h !in r ==>
                          |r| == limit && forall x :: x in r ==> h.createdAt < x.createdAt
  {
    ReverseScanExact(q.serverID, q.monitorID, q.start, q.end);
    assert ScannedMatches(data, q) == Matches(data, q);
  }

  /** What the query that keeps the oldest gives: only records of the server and the monitor between the bounds, newest
      first, and all of these but those that are newer than as many as the limit allows. */
  lemma OldestAnswer(data: Contents, q: Query, limit: nat, r: seq<History>)
    requires IsOldest(r, StrictMatches(data, q), limit)
    ensures |r| <= limit && forall i, j :: 0 <= i < j < |r| ==> r[i].createdAt > r[j].createdAt
    ensures forall h :: h in r ==> h in Records(data) && h.serverID == q.serverID && h.monitorID == q.monitorID
                                   && q.start < h.createdAt && h.createdAt < q.end
    ensures forall h :: h in Records(data) && h.serverID == q.serverID && h.monitorID == q.monitorID
                        && q.start < h.createdAt && h.createdAt < q.end && h !in r ==>
                          |r| == limit && forall x :: x in r ==> x.createdAt < h.createdAt
  {
  }

  lemma NewestContained(r: seq<History>, s: seq<History>, candidates: set<History>, limit: nat)
    requires IsNewest(r, candidates, limit) && IsNewest(s, candidates, limit)
    ensures forall h :: h in r ==> h in s
  {
    DistinctCount(r);
    DistinctCount(s);
    forall h | h in r
      ensures h in s
    {
      if h !in s {
        SubsetCount(ToSet(s), ToSet(r) - {h});
      }
    }
  }

  /** An answer of the reverse query is the only one: contents, number and order are all fixed. */
  lemma NewestIsUnique(r: seq<History>, s: seq<History>, candidates: set<History>, limit: nat)
    requires IsNewest(r, candidates, limit) && IsNewest(s, candidates, limit)
    ensures r == s
  {
    NewestContained(r, s, candidates, limit);
    NewestContained(s, r, candidates, limit);
    OrderIsUnique(r, s, (x: History, y: History) => y.createdAt < x.createdAt);
  }

  // ---------- The query that keeps the oldest ----------

  ghost function StrictMatches(data: Contents, q: Query): set<History> {
    set h | h in Records(data) && h.monitorID == q.monitorID && h.serverID == q.serverID
            && q.start < h.createdAt < q.end
  }

  /** r holds the oldest of the candidates, and no more than limit of them. */
  ghost predicate HoldsOldest(r: seq<History>, candidates: set<History>, limit: nat) {
    && |r| <= limit
    && (forall h :: h in r ==> h in candidates)
    && (forall c :: c in candidates && c !in r ==>
          |r| == limit && forall h :: h in r ==> h.createdAt < c.createdAt)
  }

  ghost predicate IsOldest(r: seq<History>, candidates: set<History>, limit: nat) {
    NewestFirst(r) && HoldsOldest(r, candidates, limit)
  }

  predicate OldestFirst(r: seq<History>) {
    forall i, j :: 0 <= i < j < |r| ==> r[i].createdAt < r[j].createdAt
  }

  /** The state of the forward scan below position i: every match there is in r, oldest first. */
  ghost predicate ScannedUpTo(r: seq<History>, candidates: set<History>, keys: seq<Bytes>, i: nat) {
    i <= |keys| && OldestFirst(r) && SplitUpTo(r, candidates, keys, i, KeyOf)
  }

  lemma PrefixSeekSkipsNoMatch(data: Contents, q: Query, keys: seq<Bytes>, lo: nat)
    requires SavedRecords(data) && (forall k :: k in keys <==> k in data) && lo <= |keys|
    requires forall j :: 0 <= j < lo ==> Less(keys[j], MonitorPrefix(q.monitorID))
    ensures ScannedUpTo([], StrictMatches(data, q), keys, lo)
  {
    forall h | h in StrictMatches(data, q)
      ensures KeyOf(h) in keys[lo..]
    {
      RecordHasKey(data, h);
      PrefixIsLeast(MonitorPrefix(q.monitorID), KeyOf(h));
      var p :| 0 <= p < |keys| && keys[p] == KeyOf(h);
      assert keys[lo..][p - lo] == KeyOf(h);
    }
  }

  lemma NoMatchBehindPrefix(data: Contents, q: Query, r: seq<History>, keys: seq<Bytes>, i: nat)
    requires SavedRecords(data) && Ascending(keys) && i < |keys|
    requires !Less(keys[i], MonitorPrefix(q.monitorID)) && !(MonitorPrefix(q.monitorID) <= keys[i])
    requires ScannedUpTo(r, StrictMatches(data, q), keys, i)
    ensures forall c :: c in StrictMatches(data, q) ==> c in r
  {
    forall c | c in StrictMatches(data, q)
      ensures c in r
    {
      if c !in r {
        var m :| 0 <= m < |keys| - i && keys[i..][m] == KeyOf(c);
        if m > 0 {
          LessTotal(keys[i], keys[i + m]);
          PrefixContiguous(MonitorPrefix(q.monitorID), MonitorPrefix(q.monitorID), keys[i], keys[i + m]);
        }
      }
    }
  }

  /** Records scanned before key i are older than its record. */
  lemma ScannedAreOlder(data: Contents, q: Query, r: seq<History>, keys: seq<Bytes>, i: nat, h: History)
    requires Ascending(keys) && i < |keys| && keys[i] == KeyOf(h)
    requires SavedRecords(data) && h.monitorID == q.monitorID && FIRST_WIDE <= h.createdAt
    requires ScannedUpTo(r, StrictMatches(data, q), keys, i)
    ensures forall a :: a in r ==> a.createdAt < h.createdAt
  {
    forall a | a in r
      ensures a.createdAt < h.createdAt
    {
      var j :| 0 <= j < i && keys[..i][j] == KeyOf(a);
      RecordHasKey(data, a);
      HistoryKeyShape(a.monitorID, a.createdAt);
      EarlierKeyIsOlder(a, h);
    }
  }

  lemma ForwardStep(data: Contents, q: Query, r: seq<History>, keys: seq<Bytes>, i: nat)
    requires SavedRecords(data) && Ascending(keys) && (forall k :: k in keys <==> k in data)
    requires i < |keys| && MonitorPrefix(q.monitorID) <= keys[i] && data[keys[i]].Saved?
    requires ScannedUpTo(r, StrictMatches(data, q), keys, i)
    ensures var h := data[keys[i]].history;
            ScannedUpTo(if h.serverID == q.serverID && h.createdAt > q.start && h.createdAt < q.end then r + [h] else r,
                        StrictMatches(data, q), keys, i + 1)
  {
    var h := data[keys[i]].history;
    ScannedKey(data, q, keys[i]);
    KeyNamesRecord(data, h);
    ScannedAreOlder(data, q, r, keys, i, h);
    TakeOrSkipUp(r, StrictMatches(data, q), keys, i, h, KeyOf);
  }

  lemma ForwardScanEnds(data: Contents, q: Query, r: seq<History>, keys: seq<Bytes>, i: nat, limit: nat, complete: bool)
    requires SavedRecords(data) && Ascending(keys)
    requires ScannedUpTo(r, StrictMatches(data, q), keys, i) && |r| <= limit
    requires complete ==> forall c :: c in StrictMatches(data, q) ==> c in r
    requires complete || i == |keys| || |r| == limit
    ensures HoldsOldest(r, StrictMatches(data, q), limit) && OldestFirst(r)
  {
    forall c, h | c in StrictMatches(data, q) && c !in r && h in r
      ensures h.createdAt < c.createdAt
    {
      var m :| 0 <= m < i && keys[..i][m] == KeyOf(h);
      var n :| 0 <= n < |keys| - i && keys[i..][n] == KeyOf(c);
      RecordHasKey(data, c);
      RecordHasKey(data, h);
      HistoryKeyShape(c.monitorID, c.createdAt);
      HistoryKeyShape(h.monitorID, h.createdAt);
      EarlierKeyIsOlder(h, c);
    }
  }

  lemma SortedStaysOldest(scanned: seq<History>, r: seq<History>, candidates: set<History>, limit: nat)
    requires HoldsOldest(scanned, candidates, limit) && OldestFirst(scanned)
    requires Sorted(r, Newer) && multiset(r) == multiset(scanned)
    ensures IsOldest(r, candidates, limit)
  {
    PermutationStaysDistinct(scanned, r);
    assert |r| == |multiset(r)| == |multiset(scanned)| == |scanned|;
    assert forall h :: h in r <==> h in multiset(r);
    assert forall h :: h in scanned <==> h in multiset(scanned);
    forall i, j | 0 <= i < j < |r|
      ensures r[j].createdAt < r[i].createdAt
    {
      assert !Newer(r[j], r[i]);
      assert r[i] in scanned && r[j] in scanned;
    }
  }

  /** With a limit, the query that keeps the oldest answers as the one that keeps the newest exactly when there are
      no more matches than the limit. */
  lemma OldestIsNewestExactly(r: seq<History>, s: seq<History>, candidates: set<History>, limit: nat)
    requires limit > 0 && IsOldest(r, candidates, limit) && IsNewest(s, candidates, limit)
    ensures r == s <==> |candidates| <= limit
  {
    DistinctCount(r);
    SubsetCount(ToSet(r), candidates);
    NewestCount(s, candidates, limit);
    DistinctCount(s);
    SubsetCount(ToSet(s), candidates);
    if |candidates| <= limit {
      if |r| < |candidates| {
        SubsetCount(candidates, ToSet(r));
      }
      assert ToSet(r) == candidates == ToSet(s);
      OrderIsUnique(r, s, (x: History, y: History) => y.createdAt < x.createdAt);
    } else {
      OldestIsNotNewest(r, s, candidates, limit);
    }
  }

  lemma OldestIsNotNewest(r: seq<History>, s: seq<History>, candidates: set<History>, limit: nat)
    requires IsOldest(r, candidates, limit) && IsNewest(s, candidates, limit)
    requires 0 < |ToSet(s)| < |candidates| && ToSet(s) <= candidates
    ensures r != s
  {
    var c := MissingElement(ToSet(s), candidates);
    if c !in r && |r| > 0 && |s| > 0 {
      assert r[0].createdAt < c.createdAt < s[0].createdAt;
    }
  }

  /** When the bounds' texts are ordered like the bounds: a start before 2001 must not sort after 10^18. */
  predicate StartTextOrdered(start: int64) {
    FIRST_WIDE <= start || !Less(FormatInt(FIRST_WIDE), FormatInt(start))
  }

  lemma WideTimeInTextRange(t: int64, start: int64, end: int64)
    requires FIRST_WIDE <= t && start <= t <= end && StartTextOrdered(start)
    ensures InTextRange(t, start, end)
  {
    WideTextOrder(end, t);
    WideTextOrder(FIRST_WIDE, t);
    if FIRST_WIDE <= start {
      WideTextOrder(t, start);
    } else {
      if Less(FormatInt(t), FormatInt(start)) && t != FIRST_WIDE {
        LessTransitive(FormatInt(FIRST_WIDE), FormatInt(t), FormatInt(start));
      }
    }
  }

  /** The store whose only record is h. */
  ghost function Only(h: History): Contents {
    map[KeyOf(h) := Saved(h)]
  }

  lemma OnlyRecord(h: History)
    requires FIRST_WIDE <= h.createdAt
    ensures SavedRecords(Only(h)) && Records(Only(h)) == {h}
  {
    HistoryKeyShape(h.monitorID, h.createdAt);
    assert Only(h)[KeyOf(h)] == Saved(h);
  }

  /** The reverse query sees every wanted record of every store exactly when the range ends before
      the first 19-digit time or the text of its start does not sort after that time's. */
  lemma ReverseScanExact(serverID: nat, monitorID: nat, start: int64, end: int64)
    ensures (end <= FIRST_WIDE || StartTextOrdered(start)) <==>
            forall data :: SavedRecords(data) ==>
              var q := Query(serverID, monitorID, start, end);
              ScannedMatches(data, q) == Matches(data, q)
  {
    var q := Query(serverID, monitorID, start, end);
    if end <= FIRST_WIDE || StartTextOrdered(start) {
      forall data | SavedRecords(data)
        ensures ScannedMatches(data, q) == Matches(data, q)
      {
        forall h | h in Matches(data, q)
          ensures h in ScannedMatches(data, q)
        {
          RecordHasKey(data, h);
          HistoryKeyShape(h.monitorID, h.createdAt);
          WideTimeInTextRange(h.createdAt, start, end);
        }
      }
    } else {
      var h := History(monitorID, serverID, FIRST_WIDE, 0.0, 0, 0);
      OnlyRecord(h);
      assert h in Matches(Only(h), q) && h !in ScannedMatches(Only(h), q);
    }
  }

  /** The first 19-digit time whose text is not before the text of n: n with zeros appended up to 19 digits. */
  function Bound(n: int64): nat {
    if n <= 0 then 0 else Padded(n, FIRST_WIDE)
  }

  lemma WideBeforeText(t: int64, n: int64)
    requires FIRST_WIDE <= t
    ensures Less(FormatInt(t), FormatInt(n)) <==> t < Bound(n)
  {
    DigitsAreDigits(t);
    WidePowers();
    WideHasNineteenDigits(t);
    if n >= 0 {
      TextOrderIsPadded(t, n, 19);
    }
  }

  lemma WideInNarrowRange(t: int64, start: int64, end: int64)
    requires end < FIRST_WIDE <= t
    ensures InTextRange(t, start, end) <==> Bound(start) <= t < Bound(end)
  {
    WideBeforeText(t, start);
    WideBeforeText(t, end);
    LessTotal(FormatInt(end), FormatInt(t));
    DigitsAreDigits(t);
    WideHasNineteenDigits(t);
    if end >= 0 {
      WideHasNineteenDigits(end);
    }
  }

  /** No 19-digit time's text lies between the texts of the bounds, which are padded to 19 digits to tell. */
  predicate NoWideText(start: int64, end: int64) {
    var first := if Bound(start) < FIRST_WIDE then FIRST_WIDE else Bound(start);
    MAX_INT64 < first || Bound(end) <= first
  }

  /** When the forward query sees the closed range: for a range that ends before the first 19-digit time, and so holds
      no record, when it sees none. */
  predicate ForwardSeesRange(start: int64, end: int64) {
    if FIRST_WIDE <= end then StartTextOrdered(start) else NoWideText(start, end)
  }

  lemma ForwardSeesWide(data: Contents, monitorID: nat, start: int64, end: int64, h: History)
    requires SavedRecords(data) && h in Records(data) && ForwardSeesRange(start, end)
    ensures h in ScannedRange(data, monitorID, start, end) <==> h in MonitorRange(data, monitorID, start, end)
  {
    RecordHasKey(data, h);
    HistoryKeyShape(h.monitorID, h.createdAt);
    if end < FIRST_WIDE {
      WideInNarrowRange(h.createdAt, start, end);
    } else {
      WideTextOrder(end, h.createdAt);
      if FIRST_WIDE <= start {
        WideTextOrder(h.createdAt, start);
      }
      if start <= h.createdAt <= end {
        WideTimeInTextRange(h.createdAt, start, end);
      }
    }
  }

  /** A record that the forward query gets wrong. */
  function Misread(monitorID: nat, start: int64, end: int64): History
    requires !ForwardSeesRange(start, end)
  {
    var t: int64 := if FIRST_WIDE <= end || Bound(start) < FIRST_WIDE then FIRST_WIDE else Bound(start);
    History(monitorID, 0, t, 0.0, 0, 0)
  }

  lemma MisreadShows(monitorID: nat, start: int64, end: int64)
    requires !ForwardSeesRange(start, end)
    ensures var h := Misread(monitorID, start, end);
            && SavedRecords(Only(h))
            && (h in ScannedRange(Only(h), monitorID, start, end)
                <==> h !in MonitorRange(Only(h), monitorID, start, end))
  {
    var h := Misread(monitorID, start, end);
    OnlyRecord(h);
    if end < FIRST_WIDE {
      WideInNarrowRange(h.createdAt, start, end);
    }
  }

  /** The forward query returns exactly the records of the closed range, whatever is stored, if and only if the text
      of the start does not sort after that of the first 19-digit time or, for a range that ends before that time, no
      19-digit text lies between the bounds' texts. */
  lemma ForwardScanExact(monitorID: nat, start: int64, end: int64)
    ensures ForwardSeesRange(start, end) <==>
            forall data :: SavedRecords(data) ==>
              ScannedRange(data, monitorID, start, end) == MonitorRange(data, monitorID, start, end)
  {
    if ForwardSeesRange(start, end) {
      forall data | SavedRecords(data)
        ensures ScannedRange(data, monitorID, start, end) == MonitorRange(data, monitorID, start, end)
      {
        forall h: History
          ensures h in ScannedRange(data, monitorID, start, end) <==> h in MonitorRange(data, monitorID, start, end)
        {
          if h in Records(data) {
            ForwardSeesWide(data, monitorID, start, end, h);
          }
        }
      }
    } else {
      MisreadShows(monitorID, start, end);
      assert SavedRecords(Only(Misread(monitorID, start, end)));
    }
  }

  // ---------- Clean-up ----------

  /** The clean-up's test of one key: the number behind the last colon is at or before the cutoff. */
  predicate Expired(key: Bytes, cutoff: int) {
    var idx := LastColon(key);
    && HISTORY <= key
    && idx > 0 && idx + 1 < |key|
    && ParseInt64(key[idx + 1..]).Some?
    && ParseInt64(key[idx + 1..]).value <= cutoff
  }

  /** A saved record expires by its time. */
  lemma SavedKeyExpires(h: History, cutoff: int)
    ensures Expired(KeyOf(h), cutoff) <==> h.createdAt <= cutoff
  {
    HistoryKeyShape(h.monitorID, h.createdAt);
    ParseIntRoundTrip(h.createdAt);
  }

  /** The one-pass filter that clean-up stands for. */
  function RemoveExpired(data: Contents, cutoff: int): Contents {
    map k | k in data && !Expired(k, cutoff) :: data[k]
  }

  /** Saving replaces the record with the same monitor and time, if there is one. */
  lemma SaveKeepsRecords(data: Contents, h: History)
    requires SavedRecords(data) && FIRST_WIDE <= h.createdAt
    ensures SavedRecords(data[KeyOf(h) := Saved(h)])
    ensures Records(data[KeyOf(h) := Saved(h)]) == (set x | x in Records(data) && !SameMoment(x, h)) + {h}
  {
    var after := data[KeyOf(h) := Saved(h)];
    HistoryKeyShape(h.monitorID, h.createdAt);
    forall x: History
      ensures x in Records(after) <==> (x in Records(data) && !SameMoment(x, h)) || x == h
    {
      KeysClashExactly(x, h);
      RecordHasKey(data, x);
      RecordHasKey(after, x);
    }
  }

  /** Among the stored records and the saves, no two different ones have the same monitor and time. */
  ghost predicate MomentsDiffer(data: Contents, saves: seq<History>) {
    forall a, b :: (a in Records(data) || a in saves) && (b in Records(data) || b in saves) && SameMoment(a, b)
                   ==> a == b
  }

  lemma OverlayUnderOwnKeys(data: Contents, saves: seq<History>)
    requires UnderOwnKeys(data)
    ensures UnderOwnKeys(data + Overlay(saves))
  {
    forall k | k in Overlay(saves)
      ensures Overlay(saves)[k].Saved? && k == KeyOf(Overlay(saves)[k].history)
    {
      var h := LayeredSource(saves, KeyOf, ValueOf, k);
    }
  }

  /** Without another record of its moment, a record is there after the saves. */
  lemma RecordSurvives(data: Contents, saves: seq<History>, h: History)
    requires UnderOwnKeys(data) && MomentsDiffer(data, saves) && (h in Records(data) || h in saves)
    ensures h in Records(data + Overlay(saves))
  {
    OverlayUnderOwnKeys(data, saves);
    RecordHasKey(data, h);
    RecordHasKey(data + Overlay(saves), h);
    if h in saves {
      LayeredHasKeys(saves, KeyOf, ValueOf, h);
    }
    if KeyOf(h) in Overlay(saves) {
      var x := LayeredSource(saves, KeyOf, ValueOf, KeyOf(h));
      KeysClashExactly(x, h);
    }
  }

  /** A sequence of saves loses no record, stored or saved, if and only if no two different ones have the same monitor
      and time. Records of different servers do not differ in that. */
  lemma SavesLoseNothingExactly(data: Contents, saves: seq<History>)
    requires UnderOwnKeys(data)
    ensures (forall h :: h in Records(data) || h in saves ==> h in Records(data + Overlay(saves)))
            <==> MomentsDiffer(data, saves)
  {
    var after := data + Overlay(saves);
    if MomentsDiffer(data, saves) {
      forall h | h in Records(data) || h in saves
        ensures h in Records(after)
      {
        RecordSurvives(data, saves, h);
      }
    } else {
      var a, b :| (a in Records(data) || a in saves) && (b in Records(data) || b in saves)
                  && SameMoment(a, b) && a != b;
      KeysClashExactly(a, b);
      OverlayUnderOwnKeys(data, saves);
      RecordHasKey(after, a);
      RecordHasKey(after, b);
    }
  }

  /** The one-pass filter keeps exactly the records after the cutoff. */
  lemma RemoveExpiredKeepsNewer(data: Contents, cutoff: int)
    requires SavedRecords(data)
    ensures SavedRecords(RemoveExpired(data, cutoff))
    ensures Records(RemoveExpired(data, cutoff)) == set h | h in Records(data) && cutoff < h.createdAt
    ensures forall k :: k in data && !(HISTORY <= k) ==> k in RemoveExpired(data, cutoff)
  {
    var after := RemoveExpired(data, cutoff);
    forall h: History
      ensures h in Records(after) <==> h in Records(data) && cutoff < h.createdAt
    {
      RecordHasKey(data, h);
      RecordHasKey(after, h);
      SavedKeyExpires(h, cutoff);
    }
  }

  ghost function ExpiredKeys(data: Contents, cutoff: int): set<Bytes> {
    set k | k in data && Expired(k, cutoff)
  }

  /** What a sequence of saves leaves behind. */
  function Overlay(saves: seq<History>): Contents {
    Layered(saves, KeyOf, ValueOf)
  }

  /** The state of one page's scan: of the keys from lo to i, the expired ones are listed, each once. */
  ghost predicate PageScanned(listed: seq<Bytes>, keys: seq<Bytes>, lo: nat, i: nat, cutoff: int) {
    && lo <= i <= |keys|
    && Ascending(keys)
    && (forall a, b :: 0 <= a < b < |listed| ==> listed[a] != listed[b])
    && (forall k :: k in listed ==> k in keys[..i] && Expired(k, cutoff))
    && (forall j :: lo <= j < i && Expired(keys[j], cutoff) ==> keys[j] in listed)
  }

  lemma PageStep(listed: seq<Bytes>, keys: seq<Bytes>, lo: nat, i: nat, cutoff: int)
    requires PageScanned(listed, keys, lo, i, cutoff) && i < |keys|
    ensures PageScanned(if Expired(keys[i], cutoff) then listed + [keys[i]] else listed, keys, lo, i + 1, cutoff)
  {
    LessIrreflexive(keys[i]);
    assert keys[..i + 1] == keys[..i] + [keys[i]];
  }

  /** A page covers every expired key from startKey to its end; the next page resumes right behind it. */
  lemma PageComplete(data: Contents, listed: seq<Bytes>, keys: seq<Bytes>, lo: nat, i: nat,
                     startKey: Bytes, cutoff: int, last: Option<Bytes>)
    requires PageScanned(listed, keys, lo, i, cutoff) && HISTORY <= startKey
    requires forall k :: k in keys <==> k in data
    requires forall j :: 0 <= j < lo ==> Less(keys[j], startKey)
    requires forall j :: lo <= j < |keys| ==> !Less(keys[j], startKey)
    requires last.Some? ==> lo < i && last.value == keys[i - 1]
    requires last.None? && i < |keys| ==> !(HISTORY <= keys[i])
    ensures forall k :: k in listed ==> k in ExpiredKeys(data, cutoff)
    ensures forall k :: k in ExpiredKeys(data, cutoff) && !Less(k, startKey) ==>
              k in listed || (last.Some? && !Less(k, last.value + [0]))
  {
    forall k | k in ExpiredKeys(data, cutoff) && !Less(k, startKey)
      ensures k in listed || (last.Some? && !Less(k, last.value + [0]))
    {
      var p :| 0 <= p < |keys| && keys[p] == k;
      if i <= p {
        if last.Some? {
          LessTotal(keys[i - 1], k);
          ZeroByteSuccessor(last.value, k);
        } else {
          LessTotal(keys[i], k);
          LessIrreflexive(k);
          PrefixContiguous(HISTORY, startKey, keys[i], k);
        }
      }
    }
  }

  ghost function KeysFrom(data: Contents, startKey: Bytes): set<Bytes> {
    set k | k in data && !Less(k, startKey)
  }

  /** The clean-up's invariant: only expired keys are gone, and those still to go are at or after startKey. */
  ghost predicate CleanedUpTo(first: Contents, gone: set<Bytes>, cutoff: int, startKey: Bytes) {
    && gone <= ExpiredKeys(first, cutoff)
    && forall k :: k in ExpiredKeys(first, cutoff) && k !in gone ==> !Less(k, startKey)
  }

  ghost predicate NewerThan(arrivals: seq<seq<History>>, cutoff: int) {
    forall a, h :: a in arrivals && h in a ==> cutoff < h.createdAt
  }

  lemma NothingBeforeHistory(first: Contents, cutoff: int)
    ensures CleanedUpTo(first, {}, cutoff, HISTORY)
  {
    forall k | k in ExpiredKeys(first, cutoff)
      ensures !Less(k, HISTORY)
    {
      PrefixIsLeast(HISTORY, k);
    }
  }

  ghost predicate NoneExpired(data: Contents, cutoff: int) {
    forall k :: k in data ==> !Expired(k, cutoff)
  }

  ghost predicate AllExpired(keys: seq<Bytes>, cutoff: int) {
    forall k :: k in keys ==> Expired(k, cutoff)
  }

  lemma {:induction false} FlattenNewer(batches: seq<seq<History>>, cutoff: int)
    requires NewerThan(batches, cutoff)
    ensures forall h :: h in Flatten(batches) ==> cutoff < h.createdAt
  {
    if batches != [] {
      FlattenNewer(batches[..|batches| - 1], cutoff);
    }
  }

  lemma SavesUnexpired(arrivals: seq<seq<History>>, gap: nat, cutoff: int)
    requires gap <= |arrivals| && NewerThan(arrivals, cutoff)
    ensures NoneExpired(Overlay(Flatten(arrivals[..gap])), cutoff)
  {
    FlattenNewer(arrivals[..gap], cutoff);
    OverlayOfNewer(Flatten(arrivals[..gap]), cutoff);
  }

  /** Deleting expired keys does not touch the saves on top. */
  lemma DeleteBelowSaves(base: Contents, keys: seq<Bytes>, start: nat, end: nat, saves: Contents, cutoff: int)
    requires start <= end <= |keys| && AllExpired(keys, cutoff) && NoneExpired(saves, cutoff)
    ensures ((base - ToSet(keys[..start])) + saves) - ToSet(keys[start..end]) == (base - ToSet(keys[..end])) + saves
  {
    DeleteInTwoSteps(base, keys, start, end);
    DeleteUnder(base - ToSet(keys[..start]), saves, ToSet(keys[start..end]));
  }

  lemma DeleteNothing(data: Contents, keys: seq<Bytes>)
    ensures data - ToSet(keys[..0]) == data
  {
  }

  lemma ExpiredKeysLeft(first: Contents, gone: set<Bytes>, saves: Contents, cutoff: int)
    requires NoneExpired(saves, cutoff)
    ensures ExpiredKeys((first - gone) + saves, cutoff) == ExpiredKeys(first, cutoff) - gone
  {
  }

  lemma AllExpiredGone(first: Contents, cutoff: int)
    ensures first - ExpiredKeys(first, cutoff) == RemoveExpired(first, cutoff)
  {
  }

  /** One page deletes expired keys that were there from the start, and moves the invariant past the page. */
  lemma PageIsFresh(first: Contents, gone: set<Bytes>, saves: Contents, cutoff: int, startKey: Bytes,
                    listed: seq<Bytes>, last: Option<Bytes>)
    requires CleanedUpTo(first, gone, cutoff, startKey) && NoneExpired(saves, cutoff)
    requires forall i, j :: 0 <= i < j < |listed| ==> listed[i] != listed[j]
    requires forall k :: k in listed ==> k in ExpiredKeys((first - gone) + saves, cutoff)
    requires forall k :: k in ExpiredKeys((first - gone) + saves, cutoff) && !Less(k, startKey) ==>
               k in listed || (last.Some? && !Less(k, last.value + [0]))
    ensures |gone + ToSet(listed)| == |gone| + |listed|
    ensures (first - gone) - ToSet(listed) == first - (gone + ToSet(listed))
    ensures last.Some? ==> CleanedUpTo(first, gone + ToSet(listed), cutoff, last.value + [0])
    ensures last.None? ==> first - (gone + ToSet(listed)) == RemoveExpired(first, cutoff)
    ensures last.None? ==> gone + ToSet(listed) == ExpiredKeys(first, cutoff)
  {
    var now := gone + ToSet(listed);
    ExpiredKeysLeft(first, gone, saves, cutoff);
    DistinctCount(listed);
    DisjointUnionCount(gone, ToSet(listed));
    DeleteUnion(first, gone, ToSet(listed));
    if last.None? {
      assert forall k :: k in ExpiredKeys(first, cutoff) ==> k in now;
      assert now == ExpiredKeys(first, cutoff);
      AllExpiredGone(first, cutoff);
    }
  }

  /** Without new saves, each page leaves fewer keys to scan: the key it ended at is behind the cursor. */
  lemma PageShrinksRest(scanned: Contents, data: Contents, startKey: Bytes, last: Bytes)
    requires data.Keys <= scanned.Keys && last in KeysFrom(scanned, startKey)
    ensures |KeysFrom(data, last + [0])| < |KeysFrom(scanned, startKey)|
  {
    forall k | k in KeysFrom(data, last + [0])
      ensures k in KeysFrom(scanned, startKey) - {last}
    {
      ZeroByteSuccessor(last, k);
      LessTotal(last, k);
      if Less(k, startKey) {
        LessTransitive(last, k, startKey);
      }
    }
    SubsetCount(KeysFrom(data, last + [0]), KeysFrom(scanned, startKey) - {last});
  }

  lemma OverlayOfNewer(saves: seq<History>, cutoff: int)
    requires forall h :: h in saves ==> cutoff < h.createdAt
    ensures NoneExpired(Overlay(saves), cutoff)
  {
    forall k | k in Overlay(saves)
      ensures !Expired(k, cutoff)
    {
      var h := LayeredSource(saves, KeyOf, ValueOf, k);
      SavedKeyExpires(h, cutoff);
    }
  }
}
