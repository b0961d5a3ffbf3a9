/** The generic sorted-set helpers of the goal package (`goal/util.go`):
    `setDifference` and `setIntersection` sort both inputs in place and then
    walk them with two indices. */
module GoalUtil {
  import opened Slices

  /** `x` is not equivalent to any element of `b` under `less`. */
  predicate NoEquivalentIn<T(!new)>(x: T, b: seq<T>, less: (T, T) -> bool) {
    forall k :: 0 <= k < |b| ==> less(x, b[k]) || less(b[k], x)
  }

  /** The elements of `s`, in order, that have no equivalent in `b`. */
  function Unmatched<T(!new)>(s: seq<T>, b: seq<T>, less: (T, T) -> bool): (r: seq<T>)
    ensures |r| <= |s|
    ensures multiset(r) <= multiset(s)
  {
    if s == [] then []
    else
      var init := s[..|s| - 1];
      assert s == init + [s[|s| - 1]];
      Unmatched(init, b, less) + (if NoEquivalentIn(s[|s| - 1], b, less) then [s[|s| - 1]] else [])
  }

  /** Under a total order, `Unmatched` is the difference of the two sequences. */
  lemma {:induction false} UnmatchedIsDifference<T(!new)>(s: seq<T>, b: seq<T>, less: (T, T) -> bool, x: T)
    requires StrictTotalOrder(less)
    ensures x in Unmatched(s, b, less) <==> x in s && x !in b
  {
    if s != [] {
      var init := s[..|s| - 1];
      assert s == init + [s[|s| - 1]];
      UnmatchedIsDifference(init, b, less, x);
    }
  }

  /** `setDifference(A, A)` is empty. */
  lemma {:induction false} UnmatchedSelf<T(!new)>(s: seq<T>, b: seq<T>, less: (T, T) -> bool)
    requires StrictWeakOrder(less)
    requires forall x :: x in s ==> x in b
    ensures Unmatched(s, b, less) == []
  {
    if s != [] {
      var init := s[..|s| - 1];
      assert s[|s| - 1] in b;
      assert forall x :: x in init ==> x in s;
      UnmatchedSelf(init, b, less);
    }
  }

  /** `setDifference(A, [])` is A. */
  lemma {:induction false} UnmatchedNothing<T(!new)>(s: seq<T>, less: (T, T) -> bool)
    ensures Unmatched(s, [], less) == s
  {
    if s != [] {
      UnmatchedNothing(s[..|s| - 1], less);
    }
  }

  /** Dropping elements keeps a sorted sequence sorted. */
  lemma {:induction false} UnmatchedSorted<T(!new)>(s: seq<T>, b: seq<T>, less: (T, T) -> bool)
    requires SortedBy(s, less)
    ensures SortedBy(Unmatched(s, b, less), less)
  {
    if s != [] {
      var init := s[..|s| - 1];
      UnmatchedSorted(init, b, less);
      var u := Unmatched(init, b, less);
      forall k | 0 <= k < |u| ensures !less(s[|s| - 1], u[k]) {
        assert u[k] in multiset(u);
        var m :| 0 <= m < |init| && init[m] == u[k];
      }
    }
  }

  /** The matches a two-index walk over `a` and `b` finds: at each step the
      smaller head is dropped, and equivalent heads are kept once (from `a`). */
  function Common<T(!new)>(a: seq<T>, b: seq<T>, less: (T, T) -> bool): (r: seq<T>)
    ensures multiset(r) <= multiset(a)
    decreases |a| + |b|
  {
    if a == [] || b == [] then []
    else if less(a[0], b[0]) then
      assert a == [a[0]] + a[1..];
      Common(a[1..], b, less)
    else if less(b[0], a[0]) then Common(a, b[1..], less)
    else
      assert a == [a[0]] + a[1..];
      [a[0]] + Common(a[1..], b[1..], less)
  }

  lemma MultisetIntersectionAbsent<T(!new)>(x: T, a: multiset<T>, b: multiset<T>)
    requires x !in b
    ensures (multiset{x} + a) * b == a * b
  {
    assert forall y :: ((multiset{x} + a) * b)[y] == (a * b)[y];
  }

  lemma MultisetIntersectionBoth<T(!new)>(x: T, a: multiset<T>, b: multiset<T>)
    ensures (multiset{x} + a) * (multiset{x} + b) == multiset{x} + a * b
  {
    assert forall y :: ((multiset{x} + a) * (multiset{x} + b))[y] == (multiset{x} + a * b)[y];
  }

  /** Nothing at or above the head of a sorted sequence is below it. */
  lemma BelowHeadIsAbsent<T(!new)>(x: T, b: seq<T>, less: (T, T) -> bool)
    requires Irreflexive(less) && SortedBy(b, less)
    requires b != [] && less(x, b[0])
    ensures x !in multiset(b)
  {
    forall k | 0 <= k < |b| ensures b[k] != x {
      assert k == 0 || !less(b[k], b[0]);
    }
  }

  /** Under a total order on sorted inputs, `Common` is the multiset
      intersection: each match consumes one element from each side. */
  lemma {:induction false} CommonIsIntersection<T(!new)>(a: seq<T>, b: seq<T>, less: (T, T) -> bool)
    requires Irreflexive(less) && Connected(less)
    requires SortedBy(a, less) && SortedBy(b, less)
    ensures multiset(Common(a, b, less)) == multiset(a) * multiset(b)
    decreases |a| + |b|
  {
    if a == [] || b == [] {
    } else if less(a[0], b[0]) {
      CommonIsIntersection(a[1..], b, less);
      assert a == [a[0]] + a[1..];
      BelowHeadIsAbsent(a[0], b, less);
      MultisetIntersectionAbsent(a[0], multiset(a[1..]), multiset(b));
    } else if less(b[0], a[0]) {
      CommonIsIntersection(a, b[1..], less);
      assert b == [b[0]] + b[1..];
      BelowHeadIsAbsent(b[0], a, less);
      MultisetIntersectionAbsent(b[0], multiset(b[1..]), multiset(a));
      assert multiset(b) * multiset(a) == multiset(a) * multiset(b);
      assert multiset(b[1..]) * multiset(a) == multiset(a) * multiset(b[1..]);
    } else {
      CommonIsIntersection(a[1..], b[1..], less);
      assert a == [a[0]] + a[1..] && b == [b[0]] + b[1..];
      assert a[0] == b[0];
      MultisetIntersectionBoth(a[0], multiset(a[1..]), multiset(b[1..]));
    }
  }

  /** `Common` keeps elements of `a` in their order, so it is sorted when `a` is. */
  lemma {:induction false} CommonSorted<T(!new)>(a: seq<T>, b: seq<T>, less: (T, T) -> bool)
    requires SortedBy(a, less)
    ensures SortedBy(Common(a, b, less), less)
    decreases |a| + |b|
  {
    if a == [] || b == [] {
    } else if less(a[0], b[0]) {
      CommonSorted(a[1..], b, less);
    } else if less(b[0], a[0]) {
      CommonSorted(a, b[1..], less);
    } else {
      CommonSorted(a[1..], b[1..], less);
      var t := Common(a[1..], b[1..], less);
      forall k | 0 <= k < |t| ensures !less(t[k], a[0]) {
        assert t[k] in multiset(a[1..]);
        var m :| 0 <= m < |a[1..]| && a[1..][m] == t[k];
        assert a[m + 1] == t[k];
      }
    }
  }

  /** What `setDifference` decides for one element `x` once the index into
      sorted `b` has passed every element below `x`. */
  lemma KeepDecision<T(!new)>(x: T, b: seq<T>, j: int, less: (T, T) -> bool)
    requires StrictWeakOrder(less) && SortedBy(b, less)
    requires 0 <= j <= |b|
    requires forall k :: 0 <= k < j ==> less(b[k], x)
    requires j == |b| || !less(b[j], x)
    ensures (j == |b| || less(x, b[j])) <==> NoEquivalentIn(x, b, less)
  {
    if j == |b| || less(x, b[j]) {
      forall k | j <= k < |b| ensures less(x, b[k]) {
        assert !less(b[k], b[j]);
      }
    }
  }

  /** Elements below `x` are below every `y` not below `x`. */
  lemma BelowCarriesOver<T(!new)>(b: seq<T>, j: int, x: T, y: T, less: (T, T) -> bool)
    requires StrictWeakOrder(less)
    requires 0 <= j <= |b|
    requires forall k :: 0 <= k < j ==> less(b[k], x)
    requires !less(y, x)
    ensures forall k :: 0 <= k < j ==> less(b[k], y)
  {
  }

  /** The in-place sorting both helpers start with. */
  method SortBoth<T(!new)>(a: array<T>, b: array<T>, less: (T, T) -> bool)
    requires StrictWeakOrder(less)
    modifies a, b
    ensures a[..] == Sort(old(a[..]), less) && b[..] == Sort(old(b[..]), less)
    ensures SortedBy(a[..], less) && SortedBy(b[..], less)
  {
    SortInPlace(a, less);
    SortSorted(old(a[..]), less);
    ghost var sortedA := a[..];
    SortInPlace(b, less);
    if a == b {
      SortOfSorted(sortedA, less);
      assert b[..] == sortedA;
    } else {
      SortSorted(old(b[..]), less);
    }
  }

  /** `setDifference`: sorts both arrays in place, then returns, in sorted
      order, the elements of `a` that have no equivalent element in `b`. */
  method SetDifference<T(!new)>(a: array<T>, b: array<T>, less: (T, T) -> bool) returns (diff: seq<T>)
    requires StrictWeakOrder(less)
    modifies a, b
    ensures a[..] == Sort(old(a[..]), less) && b[..] == Sort(old(b[..]), less)
    ensures diff == Unmatched(a[..], b[..], less)
  {
    SortBoth(a, b, less);
    diff := DifferenceOfSorted(a[..], b[..], less);
  }

  /** The walk of `setDifference` over the sorted inputs: the index into `b`
      only moves forward. */
  method DifferenceOfSorted<T(!new)>(a: seq<T>, b: seq<T>, less: (T, T) -> bool) returns (diff: seq<T>)
    requires StrictWeakOrder(less)
    requires SortedBy(a, less) && SortedBy(b, less)
    ensures diff == Unmatched(a, b, less)
  {
    diff := [];
    var j := 0;
    for i := 0 to |a|
      invariant 0 <= j <= |b|
      invariant diff == Unmatched(a[..i], b, less)
      invariant i < |a| ==> forall k :: 0 <= k < j ==> less(b[k], a[i])
    {
      while j < |b| && less(b[j], a[i])
        invariant 0 <= j <= |b|
        invariant forall k :: 0 <= k < j ==> less(b[k], a[i])
      {
        j := j + 1;
      }
      KeepDecision(a[i], b, j, less);
      assert a[..i + 1] == a[..i] + [a[i]];
      if j == |b| || less(a[i], b[j]) {
        diff := diff + [a[i]];
      }
      if i + 1 < |a| {
        BelowCarriesOver(b, j, a[i], a[i + 1], less);
      }
    }
    assert a[..|a|] == a;
  }

  /** `setIntersection`: sorts both arrays in place, then walks them and
      keeps the elements found on both sides. */
  method SetIntersection<T(!new)>(a: array<T>, b: array<T>, less: (T, T) -> bool) returns (r: seq<T>)
    requires StrictWeakOrder(less)
    modifies a, b
    ensures a[..] == Sort(old(a[..]), less) && b[..] == Sort(old(b[..]), less)
    ensures r == Common(a[..], b[..], less)
    ensures SortedBy(r, less)
    ensures Connected(less) ==> multiset(r) == multiset(old(a[..])) * multiset(old(b[..]))
  {
    SortBoth(a, b, less);
    r := CommonOfSorted(a[..], b[..], less);
    CommonSorted(a[..], b[..], less);
    if Connected(less) {
      CommonIsIntersection(a[..], b[..], less);
    }
  }

  /** The walk of `setIntersection` (and of the coordinator's `sliceUnion`)
      over two sequences: drop the smaller head, keep equivalent heads once. */
  method CommonOfSorted<T(!new)>(a: seq<T>, b: seq<T>, less: (T, T) -> bool) returns (r: seq<T>)
    ensures r == Common(a, b, less)
  {
    r := [];
    var i, j := 0, 0;
    while i < |a| && j < |b|
      invariant 0 <= i <= |a| && 0 <= j <= |b|
      invariant r + Common(a[i..], b[j..], less) == Common(a, b, less)
      decreases |a| - i + |b| - j
    {
      assert a[i..][1..] == a[i + 1..] && b[j..][1..] == b[j + 1..];
      if less(a[i], b[j]) {
        i := i + 1;
      } else if less(b[j], a[i]) {
        j := j + 1;
      } else {
        r := r + [a[i]];
        i, j := i + 1, j + 1;
      }
    }
  }
}
