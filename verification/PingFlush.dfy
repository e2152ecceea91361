/** Ping results gathered per monitor and reporting server, and flushed to the store in batches. */
module PingFlush {
  import opened Means
  import opened Wrappers

  /** Which monitor, reported by which server. */
  datatype Source = Source(monitorID: nat, reporter: nat)

  /** The running figures of one source. */
  datatype Ping = Ping(count: nat, ping: real, up: nat, down: nat)

  const RESET_PING := Ping(0, 0.0, 0, 0)

  datatype Flush = Flush(source: Source, avgDelay: real, up: nat, down: nat)

  function AtMost(x: real, limit: real): real {
    if x > limit then limit else x
  }

  /** How many results make a batch; a setting below 1 counts as 1. */
  function BatchSize(avgPingCount: int): nat {
    if avgPingCount <= 0 then 1 else avgPingCount
  }

  function PingOf(results: seq<Result>): Ping {
    Ping(|results|, MeanDelay(results), Ups(results), Downs(results))
  }

  method AddResult(ts: Ping, x: Result, ghost before: seq<Result>) returns (r: Ping)
    requires ts == PingOf(before)
    ensures r == PingOf(before + [x])
  {
    assert (before + [x])[..|before|] == before;
    r := ts.(count := ts.count + 1);
    if x.successful {
      r := r.(up := r.up + 1);
      var mean := AddDelay(r.ping, r.up - 1, x, before);
      return r.(ping := mean);
    }
    r := r.(down := r.down + 1);
  }

  function FlushOf(s: Source, batch: seq<Result>, maxPing: real): Flush {
    Flush(s, AtMost(MeanDelay(batch), maxPing), Ups(batch), Downs(batch))
  }

  /** A flush carries the counts of its batch and the lower one of the mean of its successes and the maximum. */
  lemma FlushIsCapped(s: Source, batch: seq<Result>, maxPing: real)
    ensures var flush, mean := FlushOf(s, batch, maxPing), MeanOf(Ups(batch), Delays(batch));
            && flush.source == s && flush.up == Ups(batch) && flush.down == Downs(batch)
            && flush.avgDelay <= maxPing && flush.avgDelay <= mean
            && (flush.avgDelay == maxPing || flush.avgDelay == mean)
  {
  }

  method AddAndFlush(ts: Ping, s: Source, x: Result, avgPingCount: int, maxPing: real, ghost before: seq<Result>)
    returns (r: Ping, flush: Option<Flush>, ghost rest: seq<Result>)
    requires ts == PingOf(before)
    ensures r == PingOf(rest)
    ensures flush == if |before| + 1 >= avgPingCount then Some(FlushOf(s, before + [x], maxPing)) else None
    ensures rest == if flush.Some? then [] else before + [x]
  {
    r := AddResult(ts, x, before);
    flush, rest := None, before + [x];
    if r.count >= BatchSize(avgPingCount) {
      if r.ping > maxPing {
        r := r.(ping := maxPing);
      }
      flush := Some(Flush(s, r.ping, r.up, r.down));
      r, rest := RESET_PING, [];
    }
  }

  // ---------- What becomes of the results of one source ----------

  /** Results that left the table: flushed with the record that was stored for them, or dropped. */
  datatype Batch = Flushed(results: seq<Result>, record: Flush) | Dropped(results: seq<Result>)

  ghost function Contents(batches: seq<Batch>): seq<Result> {
    if batches == [] then [] else Contents(batches[..|batches| - 1]) + batches[|batches| - 1].results
  }

  /** Up and Down of the stored records. */
  ghost function FlushedUp(batches: seq<Batch>): nat {
    if batches == [] then 0
    else
      FlushedUp(batches[..|batches| - 1])
      + if batches[|batches| - 1].Flushed? then batches[|batches| - 1].record.up else 0
  }

  ghost function FlushedDown(batches: seq<Batch>): nat {
    if batches == [] then 0
    else
      FlushedDown(batches[..|batches| - 1])
      + if batches[|batches| - 1].Flushed? then batches[|batches| - 1].record.down else 0
  }

  ghost function DroppedResults(batches: seq<Batch>): seq<Result> {
    if batches == [] then []
    else
      DroppedResults(batches[..|batches| - 1])
      + if batches[|batches| - 1].Dropped? then batches[|batches| - 1].results else []
  }

  ghost predicate RecordsCount(batches: seq<Batch>) {
    forall i :: 0 <= i < |batches| && batches[i].Flushed? ==>
      batches[i].record.up == Ups(batches[i].results) && batches[i].record.down == Downs(batches[i].results)
  }

  lemma {:induction false} CountsOfContents(batches: seq<Batch>)
    requires RecordsCount(batches)
    ensures Ups(Contents(batches)) == FlushedUp(batches) + Ups(DroppedResults(batches))
    ensures Downs(Contents(batches)) == FlushedDown(batches) + Downs(DroppedResults(batches))
  {
    if batches != [] {
      var before, last := batches[..|batches| - 1], batches[|batches| - 1];
      CountsOfContents(before);
      CountsAppend(Contents(before), last.results);
      CountsAppend(DroppedResults(before), if last.Dropped? then last.results else []);
    }
  }

  /** One source's results: all that were received, what has left the table, and what is pending. No result is lost,
      repeated or reordered, and the stored records count theirs. */
  ghost predicate Balanced(received: seq<Result>, batches: seq<Batch>, pending: seq<Result>) {
    Contents(batches) + pending == received && RecordsCount(batches)
  }

  lemma BalancedBatch(received: seq<Result>, batches: seq<Batch>, pending: seq<Result>, b: Batch)
    requires Balanced(received, batches, pending) && RecordsCount([b])
    ensures b.results == pending ==> Balanced(received, batches + [b], [])
    ensures forall x :: b.results == pending + [x] ==> Balanced(received + [x], batches + [b], [])
  {
    assert (batches + [b])[..|batches|] == batches;
    assert [b][0] == b;
    forall x | b.results == pending + [x]
      ensures Balanced(received + [x], batches + [b], [])
    {
      assert Contents(batches) + (pending + [x]) + [] == received + [x];
    }
  }

  lemma BalancedResult(received: seq<Result>, batches: seq<Batch>, pending: seq<Result>, x: Result)
    requires Balanced(received, batches, pending)
    ensures Balanced(received + [x], batches, pending + [x])
  {
    assert Contents(batches) + (pending + [x]) == Contents(batches) + pending + [x];
  }

  // ---------- The table ----------

  ghost function Of<T>(m: map<Source, seq<T>>, s: Source): seq<T> {
    if s in m then m[s] else []
  }

  type Results = map<Source, seq<Result>>
  type Batches = map<Source, seq<Batch>>

  ghost predicate Conserved(received: Results, batches: Batches, pending: Results, s: Source) {
    Balanced(Of(received, s), Of(batches, s), Of(pending, s))
  }

  ghost predicate AllConserved(received: Results, batches: Batches, pending: Results) {
    forall s :: Conserved(received, batches, pending, s)
  }

  lemma UpdateConserves(received: Results, batches: Batches, pending: Results, s: Source,
                        r: seq<Result>, b: seq<Batch>, p: seq<Result>)
    requires AllConserved(received, batches, pending) && Balanced(r, b, p)
    ensures AllConserved(received[s := r], batches[s := b], pending[s := p])
  {
    var newReceived, newBatches, newPending := received[s := r], batches[s := b], pending[s := p];
    forall o
      ensures Conserved(newReceived, newBatches, newPending, o)
    {
      assert Conserved(received, batches, pending, o);
    }
  }

  /** A result that fills its batch leaves with it; any other is pending. */
  lemma ResultConserves(received: Results, batches: Batches, pending: Results, s: Source, x: Result,
                        flush: Option<Flush>)
    requires AllConserved(received, batches, pending)
    requires flush.Some? ==> RecordsCount([Flushed(Of(pending, s) + [x], flush.value)])
    ensures AllConserved(received[s := Of(received, s) + [x]], LeftAfter(batches, s, Of(pending, s) + [x], flush),
                         pending[s := if flush.Some? then [] else Of(pending, s) + [x]])
  {
    assert Conserved(received, batches, pending, s);
    if flush.Some? {
      var b := Flushed(Of(pending, s) + [x], flush.value);
      BalancedBatch(Of(received, s), Of(batches, s), Of(pending, s), b);
      UpdateConserves(received, batches, pending, s, Of(received, s) + [x], Of(batches, s) + [b], []);
    } else {
      BalancedResult(Of(received, s), Of(batches, s), Of(pending, s), x);
      UpdateConserves(received, batches, pending, s, Of(received, s) + [x], Of(batches, s), Of(pending, s) + [x]);
      assert Of(batches, s) + [] == Of(batches, s);
    }
  }

  /** The sources with pending results that are dropped, and what has left the table for them then. */
  ghost function DroppedNow(batches: Batches, pending: Results, sources: set<Source>): Batches {
    map s | s in pending && s in sources :: Of(batches, s) + [Dropped(pending[s])]
  }

  lemma DropConserves(received: Results, batches: Batches, pending: Results, sources: set<Source>)
    requires AllConserved(received, batches, pending)
    ensures AllConserved(received, batches + DroppedNow(batches, pending, sources), pending - sources)
  {
    var newBatches, newPending := batches + DroppedNow(batches, pending, sources), pending - sources;
    forall s
      ensures Conserved(received, newBatches, newPending, s)
    {
      assert Conserved(received, batches, pending, s);
      if s in pending && s in sources {
        BalancedBatch(Of(received, s), Of(batches, s), pending[s], Dropped(pending[s]));
      }
    }
  }

  ghost function LeftAfter(batches: Batches, s: Source, batch: seq<Result>, flush: Option<Flush>): Batches {
    batches[s := Of(batches, s) + if flush.Some? then [Flushed(batch, flush.value)] else []]
  }

  class PingTable {
    var pings: map<Source, Ping>
    /** Per source: the results since its last flush, all results received, and what has left the table. */
    ghost var pending: map<Source, seq<Result>>
    ghost var received: map<Source, seq<Result>>
    ghost var batches: map<Source, seq<Batch>>

    ghost predicate Valid()
      reads this
    {
      && pings.Keys == pending.Keys
      && (forall s :: s in pings ==> pings[s] == PingOf(pending[s]))
      && AllConserved(received, batches, pending)
    }

    constructor ()
      ensures Valid() && pending == map[] && received == map[] && batches == map[]
    {
      pings, pending, received, batches := map[], map[], map[], map[];
    }

    /** One result. When the batch is full it is flushed: the counts of its results, and the exact mean of its
        successes, limited to maxPing. */
    method HandlePing(s: Source, x: Result, avgPingCount: int, maxPing: real) returns (flush: Option<Flush>)
      requires Valid()
      modifies this
      ensures Valid()
      ensures received == old(received)[s := Of(old(received), s) + [x]]
      ensures var batch := Of(old(pending), s) + [x];
              && flush == (if |batch| >= avgPingCount then Some(FlushOf(s, batch, maxPing)) else None)
              && pending == old(pending)[s := if flush.Some? then [] else batch]
              && batches == LeftAfter(old(batches), s, batch, flush)
    {
      ghost var before := Of(pending, s);
      var ts := if s in pings then pings[s] else RESET_PING;
      ghost var rest;
      ts, flush, rest := AddAndFlush(ts, s, x, avgPingCount, maxPing, before);
      ResultConserves(received, batches, pending, s, x, flush);
      pings := pings[s := ts];
      batches := LeftAfter(batches, s, before + [x], flush);
      pending := pending[s := rest];
      received := received[s := Of(received, s) + [x]];
    }

    /** Memory limiting drops the figures of some sources. */
    method Evict(sources: set<Source>)
      requires Valid()
      modifies this
      ensures Valid() && received == old(received)
      ensures pending == old(pending) - sources
      ensures forall s :: Of(batches, s) == Of(old(batches), s)
                            + if s in sources && s in old(pending) then [Dropped(old(pending)[s])] else []
    {
      DropConserves(received, batches, pending, sources);
      batches := batches + DroppedNow(batches, pending, sources);
      pings := pings - sources;
      pending := pending - sources;
    }

    /** At any time, for every source: what has left the table followed by what is pending is what was received, in
        order, and the Up and Down of its stored records, of its dropped results and of its pending ones add up to those
        of all results received. */
    lemma EveryResultOnce(s: Source)
      requires Valid()
      ensures Contents(Of(batches, s)) + Of(pending, s) == Of(received, s)
      ensures FlushedUp(Of(batches, s)) + Ups(DroppedResults(Of(batches, s))) + Ups(Of(pending, s))
              == Ups(Of(received, s))
      ensures FlushedDown(Of(batches, s)) + Downs(DroppedResults(Of(batches, s))) + Downs(Of(pending, s))
              == Downs(Of(received, s))
    {
      assert Conserved(received, batches, pending, s);
      CountsOfContents(Of(batches, s));
      CountsAppend(Contents(Of(batches, s)), Of(pending, s));
    }
  }
}
