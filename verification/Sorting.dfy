/** Stands for sort.Slice. */
module Sorting {

  ghost predicate StrictWeakOrder<T(!new)>(less: (T, T) -> bool) {
    && (forall a: T, b: T :: less(a, b) ==> !less(b, a))
    && (forall a: T, b: T, c: T :: !less(a, b) && !less(b, c) ==> !less(a, c))
  }

  ghost predicate Sorted<T>(s: seq<T>, less: (T, T) -> bool) {
    forall i, j :: 0 <= i < j < |s| ==> !less(s[j], s[i])
  }

  /** Callers rely on a sorted rearrangement and on nothing else: the sort need not be stable. */
  method SortSlice<T(!new)>(items: seq<T>, less: (T, T) -> bool) returns (r: seq<T>)
    requires StrictWeakOrder(less)
    ensures Sorted(r, less) && multiset(r) == multiset(items)
  {
    r := [];
    for n := 0 to |items|
      invariant Sorted(r, less) && multiset(r) == multiset(items[..n])
    {
      var k := |r|;
      while k > 0 && less(items[n], r[k - 1])
        invariant 0 <= k <= |r|
        invariant forall i :: k <= i < |r| ==> less(items[n], r[i])
      {
        k := k - 1;
      }
      InsertKeepsSorted(r, k, items[n], less);
      assert items[..n + 1] == items[..n] + [items[n]];
      r := r[..k] + [items[n]] + r[k..];
    }
    assert items[..|items|] == items;
  }

  lemma InsertKeepsSorted<T(!new)>(s: seq<T>, k: nat, x: T, less: (T, T) -> bool)
    requires StrictWeakOrder(less) && Sorted(s, less) && k <= |s|
    requires forall i :: k <= i < |s| ==> less(x, s[i])
    requires k > 0 ==> !less(x, s[k - 1])
    ensures Sorted(s[..k] + [x] + s[k..], less)
    ensures multiset(s[..k] + [x] + s[k..]) == multiset(s) + multiset{x}
  {
    assert s == s[..k] + s[k..];
    var r := s[..k] + [x] + s[k..];
    forall i, j | 0 <= i < j < |r| ensures !less(r[j], r[i]) {
      if j == k && i < k - 1 {
        assert !less(s[k - 1], s[i]);
      }
    }
  }
}
