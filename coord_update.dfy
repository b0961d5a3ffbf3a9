/** How the coordinator's record of up-to-date devices follows a new spec
    (`coord/update.go`): `sliceUnion`, which keeps the elements two sorted
    slices share, and the invalidation rule `updateSpecNoLock` applies. */
module CoordUpdate {
  import opened Slices
  import opened Goal
  import opened GoalUtil
  import opened Specs

  // ---------------------------------------------------------------------
  // Go's order on strings.

  /** `<` on Go strings: lexicographic, a proper prefix first. Go compares
      the UTF-8 bytes, which orders code points the same way. */
  predicate StringLess(x: string, y: string) {
    if x == [] then y != []
    else if y == [] then false
    else if x[0] != y[0] then x[0] < y[0]
    else StringLess(x[1..], y[1..])
  }

  lemma {:induction false} StringLessIrreflexive(x: string)
    ensures !StringLess(x, x)
  {
    if x != [] {
      StringLessIrreflexive(x[1..]);
    }
  }

  lemma {:induction false} StringLessTransitive(x: string, y: string, z: string)
    requires StringLess(x, y) && StringLess(y, z)
    ensures StringLess(x, z)
  {
    if x != [] && x[0] == y[0] && y[0] == z[0] {
      StringLessTransitive(x[1..], y[1..], z[1..]);
    }
  }

  lemma {:induction false} StringLessConnected(x: string, y: string)
    requires x != y
    ensures StringLess(x, y) || StringLess(y, x)
  {
    if x != [] && y != [] && x[0] == y[0] {
      assert x == [x[0]] + x[1..] && y == [y[0]] + y[1..];
      StringLessConnected(x[1..], y[1..]);
    }
  }

  /** `slices.Sort` on strings sorts by a strict total order. */
  lemma StringLessIsStrictTotalOrder()
    ensures StrictTotalOrder(StringLess)
  {
    forall x: string {
      StringLessIrreflexive(x);
    }
    forall x: string, y: string, z: string | StringLess(x, y) && StringLess(y, z)
      ensures StringLess(x, z)
    {
      StringLessTransitive(x, y, z);
    }
    forall x: string, y: string | x != y ensures StringLess(x, y) || StringLess(y, x) {
      StringLessConnected(x, y);
    }
    forall x: string, y: string, z: string | !StringLess(x, y) && !StringLess(y, z)
      ensures !StringLess(x, z)
    {
      if x != y && y != z {
        StringLessConnected(x, y);
        StringLessConnected(y, z);
        StringLessTransitive(z, y, x);
        if StringLess(x, z) {
          StringLessTransitive(x, z, x);
          StringLessIrreflexive(x);
        }
      }
    }
  }

  // ---------------------------------------------------------------------
  // sliceUnion.

  /** `sliceUnion`: despite its name, it sorts both slices in place and
      returns, sorted, the elements they have in common. It walks the two
      slices like `setIntersection` does. */
  method SliceUnion<T(!new)>(a: array<T>, b: array<T>, less: (T, T) -> bool) returns (r: seq<T>)
    requires StrictTotalOrder(less)
    modifies a, b
    ensures a[..] == Sort(old(a[..]), less) && b[..] == Sort(old(b[..]), less)
    ensures r == Common(a[..], b[..], less)
    ensures SortedBy(r, less)
    ensures multiset(r) == multiset(old(a[..])) * multiset(old(b[..]))
  {
    r := SetIntersection(a, b, less);
  }

  /** `<` on integers, the order `slices.Sort` uses in `update_test.go`. */
  predicate IntLess(x: int, y: int) {
    x < y
  }

  /** The five cases of `update_test.go`: the two slices and the expected
      result. */
  const SliceUnionCases: seq<(seq<int>, seq<int>, seq<int>)> := [
    ([1, 2, 3], [1], [1]),
    ([1, 2, 3], [2, 1], [1, 2]),
    ([1], [1, 2, 3], [1]),
    ([1, 2, 3, 4, 5, 6], [], []),
    ([1, 2, 3, 4, 5, 6], [5, 7], [5])
  ]

  /** Every case of `update_test.go` holds: whatever sorted sequence has
      the common elements of the two slices, as `SliceUnion` returns, is the
      expected one. */
  lemma SliceUnionExamples(a: seq<int>, b: seq<int>, expected: seq<int>, r: seq<int>)
    requires (a, b, expected) in SliceUnionCases
    requires SortedBy(r, IntLess)
    requires multiset(r) == multiset(a) * multiset(b)
    ensures r == expected
  {
    var k :| 0 <= k < |SliceUnionCases| && SliceUnionCases[k] == (a, b, expected);
    CaseDecided(k);
    DistinctIntersection(a, b, expected, r);
  }

  /** Each case of the test is decided by those facts. */
  lemma CaseDecided(k: nat)
    requires k < |SliceUnionCases|
    ensures Decided(SliceUnionCases[k].0, SliceUnionCases[k].1, SliceUnionCases[k].2)
  {
    if k == 0 {
      assert Decided([1, 2, 3], [1], [1]);
    } else if k == 1 {
      assert Decided([1, 2, 3], [2, 1], [1, 2]);
    } else if k == 2 {
      assert Decided([1], [1, 2, 3], [1]);
    } else if k == 3 {
      assert Decided([1, 2, 3, 4, 5, 6], [], []);
    } else {
      assert Decided([1, 2, 3, 4, 5, 6], [5, 7], [5]);
    }
  }

  /** What decides a case: no slice repeats an element, the expected
      result is sorted, and it holds exactly the elements both slices
      have. */
  ghost predicate Decided(a: seq<int>, b: seq<int>, expected: seq<int>) {
    && Distinct(a) && Distinct(b) && Distinct(expected)
    && SortedBy(expected, IntLess)
    && (forall x :: x in expected <==> x in a && x in b)
  }

  /** For slices without repeats, a sorted sequence holding their common
      elements is the sorted sequence of the elements both slices have. */
  lemma DistinctIntersection(a: seq<int>, b: seq<int>, expected: seq<int>, r: seq<int>)
    requires Distinct(a) && Distinct(b) && Distinct(expected)
    requires SortedBy(expected, IntLess) && SortedBy(r, IntLess)
    requires forall x :: x in expected <==> x in a && x in b
    requires multiset(r) == multiset(a) * multiset(b)
    ensures r == expected
  {
    forall x ensures (multiset(a) * multiset(b))[x] == multiset(expected)[x] {
      DistinctCount(a, x);
      DistinctCount(b, x);
      DistinctCount(expected, x);
    }
    assert multiset(a) * multiset(b) == multiset(expected);
    SortedUnique(r, expected, IntLess);
  }

  /** No element occurs twice in `s`. */
  predicate Distinct(s: seq<int>) {
    forall i, j :: 0 <= i < j < |s| ==> s[i] != s[j]
  }

  /** In a sequence without repeats every element occurs once. */
  lemma {:induction false} DistinctCount(s: seq<int>, x: int)
    requires Distinct(s)
    ensures multiset(s)[x] == if x in s then 1 else 0
  {
    if s != [] {
      assert s == [s[0]] + s[1..];
      DistinctCount(s[1..], x);
      assert x == s[0] ==> x !in s[1..];
    }
  }

  // ---------------------------------------------------------------------
  // The invalidation rule.

  /** A device is kept exactly when both networks have it and its view of
      the network is the same in both. */
  predicate StillLatest(oldSN: Network, newSN: Network, name: string) {
    && name in Names(newSN.devices, DeviceName)
    && name in Names(oldSN.devices, DeviceName)
    && NetworkCensoredEqual(CensorForDevice(oldSN, name), CensorForDevice(newSN, name))
  }

  /** The devices of `newSN`, from index `i` on and in order, that `oldSN`
      also has and whose censored view is equal before and after. */
  function KeepFrom(oldSN: Network, newSN: Network, i: nat): seq<string>
    requires i <= |newSN.devices|
    decreases |newSN.devices| - i
  {
    if i == |newSN.devices| then []
    else
      var name := newSN.devices[i].censored.name;
      assert name == Names(newSN.devices, DeviceName)[i];
      (if StillLatest(oldSN, newSN, name) then [name] else [])
      + KeepFrom(oldSN, newSN, i + 1)
  }

  lemma {:induction false} KeepFromMembers(oldSN: Network, newSN: Network, i: nat, name: string)
    requires i <= |newSN.devices|
    decreases |newSN.devices| - i
    ensures name in KeepFrom(oldSN, newSN, i)
        <==> StillLatest(oldSN, newSN, name) && name in Names(newSN.devices[i..], DeviceName)
  {
    if i < |newSN.devices| {
      KeepFromMembers(oldSN, newSN, i + 1, name);
      KeepFromStep(oldSN, newSN, i);
      var ns := Names(newSN.devices[i..], DeviceName);
      var rest := Names(newSN.devices[i + 1..], DeviceName);
      assert ns == [newSN.devices[i].censored.name] + rest;
      assert name in ns <==> name == newSN.devices[i].censored.name || name in rest;
    }
  }

  /** One step of `KeepFrom`. */
  lemma KeepFromStep(oldSN: Network, newSN: Network, j: nat)
    requires j < |newSN.devices|
    ensures var name := newSN.devices[j].censored.name;
            && name in Names(newSN.devices, DeviceName)
            && KeepFrom(oldSN, newSN, j)
               == (if StillLatest(oldSN, newSN, name) then [name] else [])
                  + KeepFrom(oldSN, newSN, j + 1)
  {
    assert newSN.devices[j].censored.name == Names(newSN.devices, DeviceName)[j];
  }

  function Keep(oldSN: Network, newSN: Network): seq<string> {
    KeepFrom(oldSN, newSN, 0)
  }

  /** `keep` holds exactly the devices that are still up to date. */
  lemma KeepMembers(oldSN: Network, newSN: Network, name: string)
    ensures name in Keep(oldSN, newSN) <==> StillLatest(oldSN, newSN, name)
  {
    KeepFromMembers(oldSN, newSN, 0, name);
    assert newSN.devices[0..] == newSN.devices;
  }

  /** The list of network `n` in `latest`; a missing entry reads as empty. */
  function LatestOf(latest: map<string, seq<string>>, n: string): seq<string> {
    if n in latest then latest[n] else []
  }

  /** The first loop: the entries of the listed old networks that the new
      spec no longer has are deleted. */
  function DeleteRemoved(latest: map<string, seq<string>>, oldNets: seq<Network>, newSpec: Spec): map<string, seq<string>>
  {
    if oldNets == [] then latest
    else
      var m := DeleteRemoved(latest, oldNets[..|oldNets| - 1], newSpec);
      var name := oldNets[|oldNets| - 1].name;
      if GetNetwork(newSpec, name).None? then m - {name} else m
  }

  /** The second loop's step for one new network: when the old spec has a
      network of that name, its entry becomes `sliceUnion(keep, entry)`. */
  function Intersect(oldSpec: Spec, latest: map<string, seq<string>>, newSN: Network): map<string, seq<string>>
  {
    var oldSN := GetNetwork(oldSpec, newSN.name);
    if oldSN.None? then latest
    else
      latest[newSN.name := Common(Sort(Keep(oldSN.value, newSN), StringLess),
                                  Sort(LatestOf(latest, newSN.name), StringLess), StringLess)]
  }

  /** The second loop, over the listed new networks. */
  function IntersectAll(oldSpec: Spec, latest: map<string, seq<string>>, newNets: seq<Network>): map<string, seq<string>>
  {
    if newNets == [] then latest
    else Intersect(oldSpec, IntersectAll(oldSpec, latest, newNets[..|newNets| - 1]), newNets[|newNets| - 1])
  }

  /** `latest` after `updateSpecNoLock(newSpec)` on a server holding
      `oldSpec`. */
  function LatestAfterUpdate(oldSpec: Spec, latest: map<string, seq<string>>, newSpec: Spec): map<string, seq<string>> {
    IntersectAll(oldSpec, DeleteRemoved(latest, oldSpec.networks, newSpec), newSpec.networks)
  }

  /** The first loop, one old network further. */
  lemma DeleteRemovedPrefix(latest: map<string, seq<string>>, oldNets: seq<Network>, newSpec: Spec, i: nat)
    requires i < |oldNets|
    ensures DeleteRemoved(latest, oldNets[..i + 1], newSpec)
         == var m := DeleteRemoved(latest, oldNets[..i], newSpec);
            if GetNetwork(newSpec, oldNets[i].name).None? then m - {oldNets[i].name} else m
  {
    assert oldNets[..i + 1][..i] == oldNets[..i];
  }

  /** The second loop, one new network further. */
  lemma IntersectAllPrefix(oldSpec: Spec, latest: map<string, seq<string>>, newNets: seq<Network>, i: nat)
    requires i < |newNets|
    ensures IntersectAll(oldSpec, latest, newNets[..i + 1])
         == Intersect(oldSpec, IntersectAll(oldSpec, latest, newNets[..i]), newNets[i])
  {
    assert newNets[..i + 1][..i] == newNets[..i];
  }

  /** The first loop deletes exactly the listed networks missing from the
      new spec. */
  lemma {:induction false} DeleteRemovedEntries(latest: map<string, seq<string>>, oldNets: seq<Network>, newSpec: Spec, n: string)
    ensures var m := DeleteRemoved(latest, oldNets, newSpec);
            if n in Names(oldNets, NetworkName) && n !in Names(newSpec.networks, NetworkName)
            then n !in m
            else (n in m <==> n in latest) && LatestOf(m, n) == LatestOf(latest, n)
  {
    if oldNets != [] {
      var init := oldNets[..|oldNets| - 1];
      DeleteRemovedEntries(latest, init, newSpec, n);
      assert Names(oldNets, NetworkName) == Names(init, NetworkName) + [oldNets[|oldNets| - 1].name];
    }
  }

  /** Only networks the old spec has are touched by the second loop: their
      entries are set, and every other entry stays as it was. */
  lemma {:induction false} IntersectAllOthers(oldSpec: Spec, latest: map<string, seq<string>>, newNets: seq<Network>, n: string)
    requires n !in Names(oldSpec.networks, NetworkName) || n !in Names(newNets, NetworkName)
    ensures var m := IntersectAll(oldSpec, latest, newNets);
            (n in m <==> n in latest) && LatestOf(m, n) == LatestOf(latest, n)
  {
    if newNets != [] {
      var init := newNets[..|newNets| - 1];
      assert Names(newNets, NetworkName) == Names(init, NetworkName) + [newNets[|newNets| - 1].name];
      IntersectAllOthers(oldSpec, latest, init, n);
    }
  }

  /** A device stays listed for network `n` exactly when it was listed and
      every new network named `n` still has it up to date. */
  ghost predicate KeptByAll(oldSN: Network, newNets: seq<Network>, n: string, d: string) {
    forall k :: 0 <= k < |newNets| && newNets[k].name == n ==> StillLatest(oldSN, newNets[k], d)
  }

  /** One step of the second loop on the entry of a network both specs
      have. */
  lemma IntersectStep(oldSpec: Spec, latest: map<string, seq<string>>, newSN: Network, d: string)
    requires GetNetwork(oldSpec, newSN.name).Some?
    ensures var m := Intersect(oldSpec, latest, newSN);
            && newSN.name in m
            && SortedBy(m[newSN.name], StringLess)
            && (d in m[newSN.name] <==> d in LatestOf(latest, newSN.name) && StillLatest(GetNetwork(oldSpec, newSN.name).value, newSN, d))
  {
    var oldSN := GetNetwork(oldSpec, newSN.name).value;
    var a := Sort(Keep(oldSN, newSN), StringLess);
    var b := Sort(LatestOf(latest, newSN.name), StringLess);
    StringLessIsStrictTotalOrder();
    SortSorted(Keep(oldSN, newSN), StringLess);
    SortSorted(LatestOf(latest, newSN.name), StringLess);
    CommonIsIntersection(a, b, StringLess);
    CommonSorted(a, b, StringLess);
    KeepMembers(oldSN, newSN, d);
    assert d in Common(a, b, StringLess) <==> d in multiset(a) * multiset(b);
    assert d in multiset(a) <==> d in Keep(oldSN, newSN);
    assert d in multiset(b) <==> d in LatestOf(latest, newSN.name);
  }

  lemma KeptByAllSnoc(oldSN: Network, newNets: seq<Network>, n: string, d: string)
    requires newNets != []
    ensures var init := newNets[..|newNets| - 1];
            var last := newNets[|newNets| - 1];
            (KeptByAll(oldSN, newNets, n, d)
             <==> KeptByAll(oldSN, init, n, d) && (last.name == n ==> StillLatest(oldSN, last, d)))
  {
    var init := newNets[..|newNets| - 1];
    assert forall k :: 0 <= k < |init| ==> newNets[k] == init[k];
  }

  lemma KeptByAllAbsent(oldSN: Network, newNets: seq<Network>, n: string, d: string)
    requires n !in Names(newNets, NetworkName)
    ensures KeptByAll(oldSN, newNets, n, d)
  {
    forall k | 0 <= k < |newNets| ensures newNets[k].name != n {
      assert Names(newNets, NetworkName)[k] == newNets[k].name;
    }
  }

  /** For a network both specs have, after the second loop the entry is
      sorted and holds exactly the devices listed before that every new
      network of that name kept. */
  lemma {:induction false} IntersectAllShared(oldSpec: Spec, latest: map<string, seq<string>>, newNets: seq<Network>, n: string, d: string)
    requires GetNetwork(oldSpec, n).Some? && n in Names(newNets, NetworkName)
    ensures var m := IntersectAll(oldSpec, latest, newNets);
            && n in m
            && SortedBy(m[n], StringLess)
            && (d in m[n] <==> d in LatestOf(latest, n) && KeptByAll(GetNetwork(oldSpec, n).value, newNets, n, d))
  {
    var init := newNets[..|newNets| - 1];
    var last := newNets[|newNets| - 1];
    var oldSN := GetNetwork(oldSpec, n).value;
    assert Names(newNets, NetworkName) == Names(init, NetworkName) + [last.name];
    var m0 := IntersectAll(oldSpec, latest, init);
    assert IntersectAll(oldSpec, latest, newNets) == Intersect(oldSpec, m0, last);
    KeptByAllSnoc(oldSN, newNets, n, d);
    if n in Names(init, NetworkName) {
      IntersectAllShared(oldSpec, latest, init, n, d);
      if last.name == n {
        IntersectStep(oldSpec, m0, last, d);
      }
    } else {
      IntersectAllOthers(oldSpec, latest, init, n);
      KeptByAllAbsent(oldSN, init, n, d);
      IntersectStep(oldSpec, m0, last, d);
    }
  }

  /** The invalidation rule: networks the new spec dropped lose their
      entry; networks the old spec did not have keep theirs untouched; a
      network in both keeps, sorted, only the devices that were up to date
      and whose censored view no new network of that name changed, so an
      entry never grows. */
  lemma LatestAfterUpdateRule(oldSpec: Spec, latest: map<string, seq<string>>, newSpec: Spec, n: string, d: string)
    ensures var m := LatestAfterUpdate(oldSpec, latest, newSpec);
            && (n in Names(oldSpec.networks, NetworkName) && n !in Names(newSpec.networks, NetworkName) ==> n !in m)
            && (n !in Names(oldSpec.networks, NetworkName) ==> (n in m <==> n in latest) && LatestOf(m, n) == LatestOf(latest, n))
            && (n in Names(oldSpec.networks, NetworkName) && n in Names(newSpec.networks, NetworkName) ==>
                  && n in m
                  && SortedBy(m[n], StringLess)
                  && (d in m[n] <==> d in LatestOf(latest, n) && KeptByAll(GetNetwork(oldSpec, n).value, newSpec.networks, n, d)))
  {
    var m1 := DeleteRemoved(latest, oldSpec.networks, newSpec);
    DeleteRemovedEntries(latest, oldSpec.networks, newSpec, n);
    if n in Names(oldSpec.networks, NetworkName) && n in Names(newSpec.networks, NetworkName) {
      IntersectAllShared(oldSpec, m1, newSpec.networks, n, d);
    } else {
      IntersectAllOthers(oldSpec, m1, newSpec.networks, n);
    }
  }
}
