/** Exact means, kept up to date one value at a time, and the counts of results. Delays are real numbers: rounding is
    left out. */
module Means {
  import opened Sequences

  // ---------- Results ----------

  /** One result of a monitor. */
  datatype Result = Result(successful: bool, delay: real)

  function Ups(results: seq<Result>): nat {
    if results == [] then 0 else Ups(results[..|results| - 1]) + if results[|results| - 1].successful then 1 else 0
  }

  function Downs(results: seq<Result>): nat {
    if results == [] then 0 else Downs(results[..|results| - 1]) + if results[|results| - 1].successful then 0 else 1
  }

  /** The sum of the delays of the successes. */
  function Delays(results: seq<Result>): (sum: real)
    ensures Ups(results) == 0 ==> sum == 0.0
  {
    if results == [] then 0.0
    else
      Delays(results[..|results| - 1])
      + if results[|results| - 1].successful then results[|results| - 1].delay else 0.0
  }

  function MeanDelay(results: seq<Result>): real {
    MeanOf(Ups(results), Delays(results))
  }

  predicate SameCounts(a: seq<Result>, b: seq<Result>) {
    Ups(a) == Ups(b) && Downs(a) == Downs(b) && Delays(a) == Delays(b)
  }

  lemma CountOne(results: seq<Result>, x: Result)
    ensures var more := results + [x];
            && Ups(more) == Ups(results) + (if x.successful then 1 else 0)
            && Downs(more) == Downs(results) + (if x.successful then 0 else 1)
            && Delays(more) == (if x.successful then Delays(results) + x.delay else Delays(results))
            && (!x.successful ==> MeanDelay(more) == MeanDelay(results))
            && (x.successful && Ups(results) == 0 ==> MeanDelay(more) == x.delay)
  {
    assert (results + [x])[..|results|] == results;
  }

  lemma {:induction false} CountsAppend(a: seq<Result>, b: seq<Result>)
    ensures Ups(a + b) == Ups(a) + Ups(b) && Downs(a + b) == Downs(a) + Downs(b)
    ensures Delays(a + b) == Delays(a) + Delays(b)
  {
    if b == [] {
      assert a + b == a;
    } else {
      CountsAppend(a, b[..|b| - 1]);
      assert (a + b)[..|a + b| - 1] == a + b[..|b| - 1];
    }
  }

  predicate Succeeded(x: Result) {
    x.successful
  }

  predicate Failed(x: Result) {
    !x.successful
  }

  lemma {:induction false} CountsAreSelections(results: seq<Result>)
    ensures Ups(results) == |Select(results, Succeeded)| && Downs(results) == |Select(results, Failed)|
  {
    if results != [] {
      CountsAreSelections(results[..|results| - 1]);
    }
  }

  /** Up counts the positions of successes and down those of failures; every result is one of them. */
  lemma CountsArePositions(results: seq<Result>)
    ensures Ups(results) == |set i | 0 <= i < |results| && results[i].successful|
    ensures Downs(results) == |set i | 0 <= i < |results| && !results[i].successful|
    ensures Ups(results) + Downs(results) == |results|
  {
    CountsAreSelections(results);
    SelectCount(results, Succeeded);
    SelectCount(results, Failed);
    assert Positions(results, Succeeded) == set i | 0 <= i < |results| && results[i].successful;
    assert Positions(results, Failed) == set i | 0 <= i < |results| && !results[i].successful;
    AllCounted(results);
  }

  /** The mean delay is taken over the successes, and is 0 without any. */
  lemma MeanOverSuccesses(results: seq<Result>)
    ensures MeanDelay(results) == if Ups(results) == 0 then 0.0 else Delays(results) / Ups(results) as real
  {
  }

  lemma {:induction false} AllCounted(results: seq<Result>)
    ensures Ups(results) + Downs(results) == |results|
  {
    if results != [] {
      AllCounted(results[..|results| - 1]);
    }
  }

  /** The sum of delays takes a success with its delay and a failure with none, and it adds up over parts. */
  lemma DelaysAddUp(a: seq<Result>, x: Result, b: seq<Result>)
    ensures Delays(a + [x] + b) == Delays(a) + (if x.successful then x.delay else 0.0) + Delays(b)
  {
    CountOne(a, x);
    CountsAppend(a + [x], b);
  }

  /** The counts do not depend on the order of two parts. */
  lemma CountsSwap(a: seq<Result>, b: seq<Result>)
    ensures SameCounts(a + b, b + a)
  {
    CountsAppend(a, b);
    CountsAppend(b, a);
  }

  // ---------- Means ----------

  function MeanOf(n: nat, sum: real): real {
    if n == 0 then 0.0 else sum / n as real
  }

  /** One more value moves the mean of n values to the mean of n + 1. */
  method AddToMean(mean: real, n: nat, x: real, ghost sum: real) returns (r: real)
    requires mean == MeanOf(n, sum) && (n == 0 ==> sum == 0.0)
    ensures r == MeanOf(n + 1, sum + x)
  {
    assert mean * n as real == sum;
    r := (mean * n as real + x) / (n + 1) as real;
  }

  /** One more success moves the mean delay. */
  method AddDelay(mean: real, up: nat, x: Result, ghost results: seq<Result>) returns (r: real)
    requires mean == MeanDelay(results) && up == Ups(results) && x.successful
    ensures r == MeanDelay(results + [x])
  {
    CountOne(results, x);
    r := AddToMean(mean, up, x.delay, Delays(results));
  }
}
