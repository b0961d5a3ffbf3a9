/** What the source takes from Go's `sort` and `slices` packages: ordering
    relations, a sort that `sort.Slice`/`slices.Sort` stand for, and first- and
    last-index lookups. */
module Slices {

  ghost predicate Irreflexive<T(!new)>(less: (T, T) -> bool) {
    forall x :: !less(x, x)
  }

  /** `less` is what `sort.Slice` demands of its comparison: irreflexive,
      transitive, and with transitive incomparability. The triggers name all
      three comparisons, so that the solver only combines comparisons that a
      proof already mentions. */
  ghost predicate StrictWeakOrder<T(!new)>(less: (T, T) -> bool) {
    && Irreflexive(less)
    && (forall x, y, z {:trigger less(x, y), less(y, z), less(x, z)} ::
          less(x, y) && less(y, z) ==> less(x, z))
    && (forall x, y, z {:trigger less(x, y), less(y, z), less(x, z)} ::
          !less(x, y) && !less(y, z) ==> !less(x, z))
  }

  /** Any two distinct values are comparable. */
  ghost predicate Connected<T(!new)>(less: (T, T) -> bool) {
    forall x, y {:trigger less(x, y), less(y, x)} :: x != y ==> less(x, y) || less(y, x)
  }

  /** A strict weak order in which only equal values are incomparable. */
  ghost predicate StrictTotalOrder<T(!new)>(less: (T, T) -> bool) {
    StrictWeakOrder(less) && Connected(less)
  }

  /** No element is `less` than one before it. */
  ghost predicate SortedBy<T>(s: seq<T>, less: (T, T) -> bool) {
    forall i, j :: 0 <= i < j < |s| ==> !less(s[j], s[i])
  }

  /** Two sequences sorted by a connected order that hold the same
      elements are equal: what a sort returns is fixed by its elements. */
  lemma {:induction false} SortedUnique<T(!new)>(r: seq<T>, e: seq<T>, less: (T, T) -> bool)
    requires Connected(less)
    requires SortedBy(r, less) && SortedBy(e, less)
    requires multiset(r) == multiset(e)
    ensures r == e
  {
    if r != [] {
      assert |r| == |multiset(r)| == |multiset(e)| == |e|;
      SortedHeadsAgree(r, e, less);
      var r', e' := r[1..], e[1..];
      TailMultiset(r, e);
      SortedTail(r, less);
      SortedTail(e, less);
      SortedUnique(r', e', less);
    }
  }

  /** Dropping the same first element from two sequences with the same
      elements leaves two sequences with the same elements. */
  lemma TailMultiset<T>(r: seq<T>, e: seq<T>)
    requires |r| > 0 && |e| > 0 && r[0] == e[0] && multiset(r) == multiset(e)
    ensures multiset(r[1..]) == multiset(e[1..])
  {
    assert r == [r[0]] + r[1..] && e == [e[0]] + e[1..];
    assert multiset(r[1..]) == multiset(r) - multiset{r[0]};
    assert multiset(e[1..]) == multiset(e) - multiset{e[0]};
  }

  /** The tail of a sorted sequence is sorted. */
  lemma SortedTail<T>(r: seq<T>, less: (T, T) -> bool)
    requires |r| > 0 && SortedBy(r, less)
    ensures SortedBy(r[1..], less)
  {
    forall i, j | 0 <= i < j < |r| - 1 ensures !less(r[1..][j], r[1..][i]) {
      assert r[1..][i] == r[i + 1] && r[1..][j] == r[j + 1];
    }
  }

  /** Two nonempty sequences sorted by a connected order that hold the same
      elements start with the same element. */
  lemma SortedHeadsAgree<T(!new)>(r: seq<T>, e: seq<T>, less: (T, T) -> bool)
    requires Connected(less)
    requires SortedBy(r, less) && SortedBy(e, less)
    requires |r| > 0 && multiset(r) == multiset(e)
    ensures |e| > 0 && r[0] == e[0]
  {
    assert r[0] in multiset(e);
    var k :| 0 <= k < |e| && e[k] == r[0];
    assert e[0] in multiset(r);
    var m :| 0 <= m < |r| && r[m] == e[0];
  }

  /** Insert `x` before the first element of `s` that is not less than `x`. */
  function Insert<T>(x: T, s: seq<T>, less: (T, T) -> bool): (r: seq<T>)
    ensures multiset(r) == multiset(s) + multiset{x}
    ensures |r| == |s| + 1
  {
    if s == [] || !less(s[0], x) then [x] + s
    else
      assert s == [s[0]] + s[1..];
      [s[0]] + Insert(x, s[1..], less)
  }

  /** The order `sort.Slice` leaves a slice in: an insertion sort. */
  function Sort<T>(s: seq<T>, less: (T, T) -> bool): (r: seq<T>)
    ensures multiset(r) == multiset(s)
    ensures |r| == |s|
  {
    if s == [] then []
    else
      assert s == [s[0]] + s[1..];
      Insert(s[0], Sort(s[1..], less), less)
  }

  lemma {:induction false} InsertSorted<T(!new)>(x: T, s: seq<T>, less: (T, T) -> bool)
    requires StrictWeakOrder(less)
    requires SortedBy(s, less)
    ensures SortedBy(Insert(x, s, less), less)
  {
    if s == [] || !less(s[0], x) {
      var r := [x] + s;
      forall i, j | 0 <= i < j < |r| ensures !less(r[j], r[i]) {
        if i == 0 {
          if j > 1 {
            assert !less(s[j - 1], s[0]);
          }
        }
      }
    } else {
      InsertSorted(x, s[1..], less);
      var t := Insert(x, s[1..], less);
      var r := [s[0]] + t;
      forall i, j | 0 <= i < j < |r| ensures !less(r[j], r[i]) {
        if i == 0 {
          var y := t[j - 1];
          assert y in multiset(t);
          assert y in multiset(s[1..]) + multiset{x};
          if y in multiset(s[1..]) {
            var k :| 0 <= k < |s[1..]| && s[1..][k] == y;
            assert s[k + 1] == y;
          } else {
            assert !less(x, x);
          }
        }
      }
    }
  }

  lemma {:induction false} SortSorted<T(!new)>(s: seq<T>, less: (T, T) -> bool)
    requires StrictWeakOrder(less)
    ensures SortedBy(Sort(s, less), less)
  {
    if s != [] {
      SortSorted(s[1..], less);
      InsertSorted(s[0], Sort(s[1..], less), less);
    }
  }

  /** Sorting an already sorted sequence leaves it as it is. */
  lemma {:induction false} SortOfSorted<T>(s: seq<T>, less: (T, T) -> bool)
    requires SortedBy(s, less)
    ensures Sort(s, less) == s
  {
    if s != [] {
      SortOfSorted(s[1..], less);
      assert s == [s[0]] + s[1..];
    }
  }

  /** Sorts the array in place, as `sort.Slice(a, ...)` does to a Go slice. */
  method SortInPlace<T>(a: array<T>, less: (T, T) -> bool)
    modifies a
    ensures a[..] == Sort(old(a[..]), less)
  {
    var r := Sort(a[..], less);
    for i := 0 to a.Length
      invariant a[..i] == r[..i]
      invariant |r| == a.Length
    {
      a[i] := r[i];
    }
  }

  /** `slices.Index`: the first index holding `x`, or -1. */
  function IndexOf<T(==)>(s: seq<T>, x: T): (i: int)
    ensures -1 <= i < |s|
    ensures i == -1 <==> x !in s
    ensures 0 <= i ==> s[i] == x && x !in s[..i]
  {
    if s == [] then -1
    else if s[0] == x then 0
    else
      var k := IndexOf(s[1..], x);
      if k == -1 then -1
      else
        assert s[..k + 1] == [s[0]] + s[1..][..k];
        k + 1
  }

  /** The index a Go map built by `m[s[i]] = i` keeps for `x`: the last one. */
  function LastIndexOf<T(==)>(s: seq<T>, x: T): (i: int)
    ensures -1 <= i < |s|
    ensures i == -1 <==> x !in s
    ensures 0 <= i ==> s[i] == x && x !in s[i + 1..]
  {
    if s == [] then -1
    else if s[|s| - 1] == x then |s| - 1
    else
      assert s[..|s| - 1] + [s[|s| - 1]] == s;
      LastIndexOf(s[..|s| - 1], x)
  }
}
