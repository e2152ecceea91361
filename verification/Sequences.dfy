/** Facts about sequences, sets and maps that several modules share. */
module Sequences {
  import opened Wrappers

  function ToSet<T>(s: seq<T>): set<T> {
    set x | x in s
  }

  lemma {:induction false} DistinctCount<T>(s: seq<T>)
    requires forall i, j :: 0 <= i < j < |s| ==> s[i] != s[j]
    ensures |ToSet(s)| == |s|
  {
    if s != [] {
      var t := s[1..];
      DistinctCount(t);
      assert forall i :: 0 <= i < |t| ==> t[i] == s[i + 1] && t[i] != s[0];
      assert ToSet(s) == {s[0]} + ToSet(t) by {
        assert s == [s[0]] + t;
      }
    }
  }

  ghost predicate Distinct<T>(s: seq<T>) {
    forall i, j :: 0 <= i < j < |s| ==> s[i] != s[j]
  }

  lemma {:induction false} OnceInDistinct<T>(s: seq<T>, x: T)
    requires Distinct(s)
    ensures multiset(s)[x] <= 1
  {
    if s != [] {
      OnceInDistinct(s[1..], x);
      assert s == [s[0]] + s[1..];
    }
  }

  lemma RepeatedTwice<T>(s: seq<T>, i: nat, j: nat)
    requires i < j < |s| && s[i] == s[j]
    ensures multiset(s)[s[i]] >= 2
  {
    assert s == s[..i] + [s[i]] + s[i + 1..j] + [s[j]] + s[j + 1..];
  }

  /** A permutation repeats nothing that the original does not. */
  lemma PermutationStaysDistinct<T>(a: seq<T>, b: seq<T>)
    requires multiset(a) == multiset(b) && Distinct(a)
    ensures Distinct(b)
  {
    forall i, j | 0 <= i < j < |b|
      ensures b[i] != b[j]
    {
      if b[i] == b[j] {
        RepeatedTwice(b, i, j);
        OnceInDistinct(a, b[i]);
      }
    }
  }

  lemma SubsetCount<T>(a: set<T>, b: set<T>)
    requires a <= b
    ensures |a| <= |b|
    ensures |a| == |b| ==> a == b
  {
    assert b == a + (b - a);
  }

  lemma MissingElement<T>(a: set<T>, b: set<T>) returns (x: T)
    requires |a| < |b| && a <= b
    ensures x in b && x !in a
  {
    assert b == a + (b - a);
    x :| x in b - a;
  }

  ghost predicate SortedBy<T>(s: seq<T>, less: (T, T) -> bool) {
    forall i, j :: 0 <= i < j < |s| ==> less(s[i], s[j])
  }

  ghost predicate Asymmetric<T(!new)>(less: (T, T) -> bool) {
    forall x, y :: less(x, y) ==> !less(y, x)
  }

  lemma TailSet<T>(s: seq<T>)
    requires s != [] && s[0] !in s[1..]
    ensures ToSet(s[1..]) == ToSet(s) - {s[0]}
  {
    assert s == [s[0]] + s[1..];
  }

  /** A strict order leaves one way to sort a set. */
  lemma {:induction false} OrderIsUnique<T(!new)>(a: seq<T>, b: seq<T>, less: (T, T) -> bool)
    requires Asymmetric(less) && SortedBy(a, less) && SortedBy(b, less)
    requires ToSet(a) == ToSet(b)
    ensures a == b
  {
    DistinctCount(a);
    DistinctCount(b);
    if a != [] {
      assert a[0] in ToSet(b) && b[0] in ToSet(a);
      assert a[0] == b[0];
      assert forall i :: 0 < i < |a| ==> a[i] != a[0];
      assert forall i :: 0 < i < |b| ==> b[i] != b[0];
      TailSet(a);
      TailSet(b);
      OrderIsUnique(a[1..], b[1..], less);
      assert a == [a[0]] + a[1..] && b == [b[0]] + b[1..];
    }
  }

  /** r holds the candidates whose keys are at position i or later, and no others. */
  ghost predicate SplitAt<T(!new), K>(r: seq<T>, candidates: set<T>, keys: seq<K>, i: nat, key: T -> K)
    requires i <= |keys|
  {
    && (forall x :: x in r ==> x in candidates && key(x) in keys[i..])
    && (forall x :: x in candidates && x !in r ==> key(x) in keys[..i])
  }

  lemma TakeOrSkip<T(!new), K>(r: seq<T>, candidates: set<T>, keys: seq<K>, i: nat, h: T, key: T -> K)
    requires 0 < i <= |keys| && SplitAt(r, candidates, keys, i, key)
    requires keys[i - 1] == key(h)
    requires forall x :: x in candidates && key(x) == key(h) ==> x == h
    ensures SplitAt(if h in candidates then r + [h] else r, candidates, keys, i - 1, key)
  {
    assert keys[..i] == keys[..i - 1] + [keys[i - 1]];
    assert keys[i - 1..] == [keys[i - 1]] + keys[i..];
  }

  /** r holds the candidates whose keys are before position i, and no others. */
  ghost predicate SplitUpTo<T(!new), K>(r: seq<T>, candidates: set<T>, keys: seq<K>, i: nat, key: T -> K)
    requires i <= |keys|
  {
    && (forall x :: x in r ==> x in candidates && key(x) in keys[..i])
    && (forall x :: x in candidates && x !in r ==> key(x) in keys[i..])
  }

  lemma TakeOrSkipUp<T(!new), K>(r: seq<T>, candidates: set<T>, keys: seq<K>, i: nat, h: T, key: T -> K)
    requires i < |keys| && SplitUpTo(r, candidates, keys, i, key)
    requires keys[i] == key(h)
    requires forall x :: x in candidates && key(x) == key(h) ==> x == h
    ensures SplitUpTo(if h in candidates then r + [h] else r, candidates, keys, i + 1, key)
  {
    assert keys[..i + 1] == keys[..i] + [keys[i]];
    assert keys[i..] == [keys[i]] + keys[i + 1..];
  }

  /** The elements that pass a test, in their order. */
  function Select<T>(s: seq<T>, test: T -> bool): seq<T> {
    if s == [] then [] else Select(s[..|s| - 1], test) + if test(s[|s| - 1]) then [s[|s| - 1]] else []
  }

  lemma SelectOneMore<T>(s: seq<T>, x: T, test: T -> bool)
    ensures Select(s + [x], test) == if test(x) then Select(s, test) + [x] else Select(s, test)
  {
    assert (s + [x])[..|s|] == s;
  }

  /** The positions whose element passes the test. */
  ghost function Positions<T>(s: seq<T>, test: T -> bool): set<nat> {
    set i | 0 <= i < |s| && test(s[i])
  }

  /** As many elements are selected as there are such positions. */
  lemma {:induction false} SelectCount<T>(s: seq<T>, test: T -> bool)
    ensures |Select(s, test)| == |Positions(s, test)|
  {
    if s != [] {
      var n := |s| - 1;
      SelectCount(s[..n], test);
      assert Positions(s, test) == Positions(s[..n], test) + if test(s[n]) then {n} else {};
    }
  }

  lemma {:induction false} Selected<T>(s: seq<T>, test: T -> bool, x: T)
    ensures x in Select(s, test) <==> x in s && test(x)
  {
    if s != [] {
      Selected(s[..|s| - 1], test, x);
      assert s == s[..|s| - 1] + [s[|s| - 1]];
    }
  }

  lemma {:induction false} SameSelection<T>(s: seq<T>, f: T -> bool, g: T -> bool)
    requires forall x :: x in s ==> f(x) == g(x)
    ensures Select(s, f) == Select(s, g)
  {
    if s != [] {
      SameSelection(s[..|s| - 1], f, g);
    }
  }

  /** The values that are there, in their order. */
  function Values<T>(s: seq<Option<T>>): seq<T> {
    if s == [] then [] else Values(s[..|s| - 1]) + if s[|s| - 1].Some? then [s[|s| - 1].value] else []
  }

  lemma {:induction false} ValuesAppend<T>(a: seq<Option<T>>, b: seq<Option<T>>)
    ensures Values(a + b) == Values(a) + Values(b)
  {
    if b == [] {
      assert a + b == a;
    } else {
      ValuesAppend(a, b[..|b| - 1]);
      assert (a + b)[..|a + b| - 1] == a + b[..|b| - 1];
    }
  }

  lemma {:induction false} AllThere<T>(s: seq<Option<T>>, values: seq<T>)
    requires |s| == |values| && forall i :: 0 <= i < |s| ==> s[i] == Some(values[i])
    ensures Values(s) == values
  {
    if s != [] {
      AllThere(s[..|s| - 1], values[..|s| - 1]);
      assert values == values[..|s| - 1] + [values[|s| - 1]];
    }
  }

  lemma {:induction false} NoneThere<T>(s: seq<Option<T>>)
    requires forall i :: 0 <= i < |s| ==> s[i] == None
    ensures Values(s) == []
  {
    if s != [] {
      NoneThere(s[..|s| - 1]);
    }
  }

  function SumOver<T>(s: seq<T>, f: T -> nat): nat {
    if s == [] then 0 else f(s[0]) + SumOver(s[1..], f)
  }

  function Itself(n: nat): nat {
    n
  }

  lemma {:induction false} SumOverAppend<T>(a: seq<T>, b: seq<T>, f: T -> nat)
    ensures SumOver(a + b, f) == SumOver(a, f) + SumOver(b, f)
  {
    if a == [] {
      assert a + b == b;
    } else {
      SumOverAppend(a[1..], b, f);
      assert (a + b)[1..] == a[1..] + b;
    }
  }

  lemma SumOverLast<T>(s: seq<T>, f: T -> nat)
    requires s != []
    ensures SumOver(s, f) == SumOver(s[..|s| - 1], f) + f(s[|s| - 1])
  {
    var n := |s| - 1;
    assert s == s[..n] + [s[n]];
    SumOverAppend(s[..n], [s[n]], f);
    assert SumOver([s[n]], f) == f(s[n]);
  }

  // ---------- Sequences of sequences ----------

  function Flatten<T>(parts: seq<seq<T>>): seq<T> {
    if parts == [] then [] else Flatten(parts[..|parts| - 1]) + parts[|parts| - 1]
  }

  lemma {:induction false} FlattenHasParts<T>(parts: seq<seq<T>>, i: nat)
    requires i < |parts|
    ensures forall x :: x in parts[i] ==> x in Flatten(parts)
  {
    if i < |parts| - 1 {
      FlattenHasParts(parts[..|parts| - 1], i);
    }
  }

  lemma FlattenOneMore<T>(parts: seq<seq<T>>, part: seq<T>)
    ensures Flatten(parts + [part]) == Flatten(parts) + part
  {
    assert (parts + [part])[..|parts|] == parts;
  }

  lemma {:induction false} FlattenAppend<T>(a: seq<seq<T>>, b: seq<seq<T>>)
    ensures Flatten(a + b) == Flatten(a) + Flatten(b)
  {
    if b == [] {
      assert a + b == a;
    } else {
      var n := |b| - 1;
      FlattenAppend(a, b[..n]);
      FlattenOneMore(a + b[..n], b[n]);
      FlattenOneMore(b[..n], b[n]);
      assert a + b == a + b[..n] + [b[n]] && b[..n] + [b[n]] == b;
    }
  }

  lemma FlattenFirst<T>(parts: seq<seq<T>>)
    requires parts != []
    ensures Flatten(parts) == parts[0] + Flatten(parts[1..])
  {
    FlattenAppend([parts[0]], parts[1..]);
    FlattenOneMore([], parts[0]);
    assert parts == [parts[0]] + parts[1..] && [] + [parts[0]] == [parts[0]];
  }

  lemma DisjointUnionCount<T>(a: set<T>, b: set<T>)
    requires a !! b
    ensures |a + b| == |a| + |b|
  {
  }

  // ---------- Maps ----------

  lemma LayersAssociate<K, V>(a: map<K, V>, b: map<K, V>, c: map<K, V>)
    ensures (a + b) + c == a + (b + c)
  {
  }

  lemma DeleteUnder<K, V>(base: map<K, V>, top: map<K, V>, keys: set<K>)
    requires keys !! top.Keys
    ensures (base + top) - keys == (base - keys) + top
  {
  }

  lemma DeleteInTwoSteps<K, V>(base: map<K, V>, keys: seq<K>, start: nat, end: nat)
    requires start <= end <= |keys|
    ensures (base - ToSet(keys[..start])) - ToSet(keys[start..end]) == base - ToSet(keys[..end])
  {
    assert keys[..end] == keys[..start] + keys[start..end];
  }

  lemma DeleteUnion<K, V>(base: map<K, V>, a: set<K>, b: set<K>)
    ensures (base - a) - b == base - (a + b)
  {
  }

  /** What a sequence of writes leaves behind: of two writes to one key the later stays. */
  function Layered<T, K, V>(items: seq<T>, key: T -> K, value: T -> V): map<K, V> {
    if items == [] then map[]
    else
      var last := items[|items| - 1];
      Layered(items[..|items| - 1], key, value)[key(last) := value(last)]
  }

  lemma LayeredStep<T, K, V>(base: map<K, V>, items: seq<T>, i: nat, key: T -> K, value: T -> V)
    requires i < |items|
    ensures base + Layered(items[..i + 1], key, value)
            == (base + Layered(items[..i], key, value))[key(items[i]) := value(items[i])]
  {
    assert items[..i + 1][..i] == items[..i];
  }

  lemma {:induction false} LayeredAppend<T, K, V>(a: seq<T>, b: seq<T>, key: T -> K, value: T -> V)
    ensures Layered(a + b, key, value) == Layered(a, key, value) + Layered(b, key, value)
  {
    if b == [] {
      assert a + b == a;
    } else {
      LayeredAppend(a, b[..|b| - 1], key, value);
      assert (a + b)[..|a + b| - 1] == a + b[..|b| - 1];
    }
  }

  lemma {:induction false} LayeredHasKeys<T, K, V>(items: seq<T>, key: T -> K, value: T -> V, x: T)
    requires x in items
    ensures key(x) in Layered(items, key, value)
  {
    if x != items[|items| - 1] {
      LayeredHasKeys(items[..|items| - 1], key, value, x);
    }
  }

  /** A key is there because some item wrote it, and its value is that item's. */
  lemma {:induction false} LayeredSource<T, K, V>(items: seq<T>, key: T -> K, value: T -> V, k: K) returns (x: T)
    requires k in Layered(items, key, value)
    ensures x in items && k == key(x) && Layered(items, key, value)[k] == value(x)
  {
    x := items[|items| - 1];
    if k != key(x) {
      x := LayeredSource(items[..|items| - 1], key, value, k);
    }
  }

  // ---------- Runs of steps ----------

  /** The state after some steps. */
  function Folded<S, E>(next: (S, E) -> S, s: S, steps: seq<E>): S {
    if steps == [] then s else next(Folded(next, s, steps[..|steps| - 1]), steps[|steps| - 1])
  }

  /** What the steps tell, each in the state it is taken in. */
  function Gathered<S, E, O>(next: (S, E) -> S, told: (S, E) -> seq<O>, s: S, steps: seq<E>): seq<O> {
    if steps == [] then []
    else
      var before := steps[..|steps| - 1];
      Gathered(next, told, s, before) + told(Folded(next, s, before), steps[|steps| - 1])
  }

  lemma {:induction false} FoldedAppend<S, E>(next: (S, E) -> S, s: S, a: seq<E>, b: seq<E>)
    ensures Folded(next, s, a + b) == Folded(next, Folded(next, s, a), b)
  {
    if b == [] {
      assert a + b == a;
    } else {
      FoldedAppend(next, s, a, b[..|b| - 1]);
      assert (a + b)[..|a + b| - 1] == a + b[..|b| - 1];
    }
  }

  lemma {:induction false} GatheredAppend<S, E, O>(next: (S, E) -> S, told: (S, E) -> seq<O>, s: S, a: seq<E>,
                                                   b: seq<E>)
    ensures Gathered(next, told, s, a + b)
            == Gathered(next, told, s, a) + Gathered(next, told, Folded(next, s, a), b)
  {
    if b == [] {
      assert a + b == a;
    } else {
      GatheredAppend(next, told, s, a, b[..|b| - 1]);
      FoldedAppend(next, s, a, b[..|b| - 1]);
      assert (a + b)[..|a + b| - 1] == a + b[..|b| - 1];
    }
  }
}
