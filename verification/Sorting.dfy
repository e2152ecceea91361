/** Sorting a slice by a less function, as sort.Slice and sort.SliceStable do it. */
module Sorting {
  /** Nothing is less than itself, and what is not above stays not above. */
  ghost predicate StrictWeakOrder<T(!new)>(less: (T, T) -> bool) {
    && (forall x, y :: less(x, y) ==> !less(y, x))
    && (forall x, y, z :: !less(y, x) && !less(z, y) ==> !less(z, x))
  }

  ghost predicate Sorted<T>(s: seq<T>, less: (T, T) -> bool) {
    forall i, j :: 0 <= i < j < |s| ==> !less(s[j], s[i])
  }

  method SortSlice<T(!new)>(s: seq<T>, less: (T, T) -> bool) returns (r: seq<T>)
    requires StrictWeakOrder(less)
    ensures Sorted(r, less) && multiset(r) == multiset(s)
  {
    r := [];
    for n := 0 to |s|
      invariant Sorted(r, less) && multiset(r) == multiset(s[..n])
    {
      assert s[..n + 1] == s[..n] + [s[n]];
      r := Insert(r, s[n], less);
    }
    assert s[..|s|] == s;
  }

  method Insert<T(!new)>(r: seq<T>, x: T, less: (T, T) -> bool) returns (t: seq<T>)
    requires StrictWeakOrder(less) && Sorted(r, less)
    ensures Sorted(t, less) && multiset(t) == multiset(r) + multiset{x}
  {
    var i := |r|;
    while i > 0 && less(x, r[i - 1])
      invariant 0 <= i <= |r|
      invariant forall j :: i <= j < |r| ==> less(x, r[j])
    {
      i := i - 1;
    }
    InsertKeepsSorted(r, i, x, less);
    InsertAdds(r, i, x);
    t := r[..i] + [x] + r[i..];
  }

  lemma InsertKeepsSorted<T(!new)>(r: seq<T>, i: nat, x: T, less: (T, T) -> bool)
    requires StrictWeakOrder(less) && Sorted(r, less) && i <= |r|
    requires i > 0 ==> !less(x, r[i - 1])
    requires forall j :: i <= j < |r| ==> less(x, r[j])
    ensures Sorted(r[..i] + [x] + r[i..], less)
  {
    forall j | 0 <= j < i
      ensures !less(x, r[j])
    {
      if j < i - 1 {
        assert !less(r[i - 1], r[j]);
      }
    }
  }

  lemma InsertAdds<T>(r: seq<T>, i: nat, x: T)
    requires i <= |r|
    ensures multiset(r[..i] + [x] + r[i..]) == multiset(r) + multiset{x}
  {
    assert r == r[..i] + r[i..];
  }
}
