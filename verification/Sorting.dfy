/**
 Go's `sort.Slice` and TypeScript's `Array.sort`, seen from the outside: the result is
 a permutation of the input in which no later element is less than an earlier one.
 Nothing is promised about the order of ties, so what callers prove holds for every
 sorting algorithm.
 */
module Sorting {

  /** `less` is a strict order whose "not less" is transitive, as `sort.Slice` demands. */
  ghost predicate WeakOrder<T(!new)>(less: (T, T) -> bool) {
    && (forall x, y :: less(x, y) ==> !less(y, x))
    && (forall x, y, z :: !less(y, x) && !less(z, y) ==> !less(z, x))
  }

  ghost predicate SortedBy<T>(less: (T, T) -> bool, s: seq<T>) {
    forall i, j :: 0 <= i < j < |s| ==> !less(s[j], s[i])
  }

  method SortSlice<T(!new)>(less: (T, T) -> bool, s: seq<T>) returns (r: seq<T>)
    requires WeakOrder(less)
    ensures SortedBy(less, r)
    ensures multiset(r) == multiset(s)
  {
    r := [];
    for n := 0 to |s|
      invariant SortedBy(less, r)
      invariant multiset(r) == multiset(s[..n])
    {
      var k := |r|;
      while k > 0 && less(s[n], r[k - 1])
        invariant 0 <= k <= |r|
        invariant forall i :: k <= i < |r| ==> less(s[n], r[i])
      {
        k := k - 1;
      }
      assert multiset(r[..k]) + multiset(r[k..]) == multiset(r) by { assert r[..k] + r[k..] == r; }
      assert s[..n + 1] == s[..n] + [s[n]];
      r := InsertAt(less, r, k, s[n]);
    }
    assert s[..|s|] == s;
  }

  function InsertAt<T(!new)>(less: (T, T) -> bool, r: seq<T>, k: nat, x: T): (q: seq<T>)
    requires WeakOrder(less) && SortedBy(less, r) && k <= |r|
    requires forall i :: k <= i < |r| ==> less(x, r[i])
    requires k == 0 || !less(x, r[k - 1])
    ensures SortedBy(less, q)
    ensures multiset(q) == multiset(r[..k]) + multiset{x} + multiset(r[k..])
  {
    var q := r[..k] + [x] + r[k..];
    assert forall i :: 0 <= i < k ==> !less(x, r[i]) by {
      assert forall i :: 0 <= i < k - 1 ==> !less(r[k - 1], r[i]);
    }
    q
  }

  /** Distinct elements of `s` are never tied. */
  ghost predicate NoTies<T(!new)>(less: (T, T) -> bool, s: seq<T>) {
    forall i, j :: 0 <= i < |s| && 0 <= j < |s| && s[i] != s[j] ==> less(s[i], s[j]) || less(s[j], s[i])
  }

  lemma FirstIsLeast<T(!new)>(less: (T, T) -> bool, a: seq<T>, x: T)
    requires WeakOrder(less) && SortedBy(less, a) && x in a
    ensures !less(x, a[0])
  {
    var i :| 0 <= i < |a| && a[i] == x;
  }

  lemma SameFirst<T(!new)>(less: (T, T) -> bool, a: seq<T>, b: seq<T>)
    requires WeakOrder(less) && NoTies(less, a) && |a| > 0 && |b| > 0
    requires SortedBy(less, a) && SortedBy(less, b) && multiset(a) == multiset(b)
    ensures a[0] == b[0]
  {
    assert a[0] in multiset(b) && b[0] in multiset(a);
    FirstIsLeast(less, a, b[0]);
    FirstIsLeast(less, b, a[0]);
    var i :| 0 <= i < |a| && a[i] == b[0];
  }

  lemma TailOf<T(!new)>(less: (T, T) -> bool, a: seq<T>)
    requires |a| > 0 && SortedBy(less, a)
    ensures SortedBy(less, a[1..])
    ensures NoTies(less, a) ==> NoTies(less, a[1..])
    ensures multiset(a[1..]) == multiset(a) - multiset{a[0]}
  {
    assert a == [a[0]] + a[1..];
  }

  lemma Uncons<T>(s: seq<T>)
    requires |s| > 0
    ensures s == [s[0]] + s[1..]
  {
  }

  /** When distinct elements are never tied, the sorted permutation is unique. */
  lemma {:induction false} SortedUnique<T(!new)>(less: (T, T) -> bool, a: seq<T>, b: seq<T>)
    requires WeakOrder(less) && NoTies(less, a)
    requires SortedBy(less, a) && SortedBy(less, b) && multiset(a) == multiset(b)
    ensures a == b
    decreases |a|
  {
    assert |a| == |multiset(a)| == |multiset(b)| == |b|;
    if |a| > 0 {
      SameFirst(less, a, b);
      TailOf(less, a);
      TailOf(less, b);
      SortedUnique(less, a[1..], b[1..]);
      Uncons(a);
      Uncons(b);
    }
  }
}
