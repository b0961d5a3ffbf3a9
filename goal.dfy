/** The goal package's diff engine (`goal/goal.go`): structural differences
    between the current and the desired machine, interface and peer. */
module Goal {
  import opened Wrappers
  import opened Slices
  import opened Net

  /** A WireGuard peer as the goal describes it. `persistentKeepalive` is a
      duration in nanoseconds; 0 disables it. */
  datatype InterfacePeer = InterfacePeer(
    name: string,
    publicKey: Key,
    presharedKey: Option<Key>,
    endpoint: string,
    persistentKeepalive: int,
    allowedIPs: seq<IPNet>)

  /** A WireGuard interface; `listenPort` is -1 for none. */
  datatype Interface = Interface(
    name: string,
    privateKey: Key,
    listenPort: int,
    addresses: seq<IPNet>,
    peers: seq<InterfacePeer>)

  datatype Machine = Machine(interfaces: seq<Interface>, forwardsIPv4: bool, forwardsIPv6: bool)

  datatype MachineDiff = MachineDiff(
    interfacesAdded: seq<Interface>,
    interfacesRemoved: seq<Interface>,
    interfacesChanged: seq<string>,
    interfaceNoChange: bool,
    forwardsIPv4Changed: bool,
    forwardsIPv6Changed: bool)

  datatype InterfaceDiff = InterfaceDiff(
    privateKeyChanged: bool,
    listenPortChanged: bool,
    addressesAdded: seq<IPNet>,
    addressesRemoved: seq<IPNet>,
    addressesNoChange: bool,
    peersAdded: seq<InterfacePeer>,
    peersRemoved: seq<InterfacePeer>,
    peersChanged: seq<string>)
  {
    predicate NoChange() {
      !privateKeyChanged && !listenPortChanged && addressesNoChange
      && |peersAdded| == 0 && |peersRemoved| == 0 && |peersChanged| == 0
    }
  }

  /** The operations of a `Change`, in the order of the source's constants
      (no change = 0, add = 1, remove = 2). */
  datatype ChangeOp = NoChangeOp | Add | Remove

  datatype Change = Change(op: ChangeOp, value: IPNet)

  datatype InterfacePeerDiff = InterfacePeerDiff(
    publicKeyChanged: bool,
    presharedKeyChanged: bool,
    endpointChanged: bool,
    persistentKeepaliveChanged: bool,
    allowedIPsChanged: seq<Change>,
    allowedIPsNoChange: bool)
  {
    predicate NoChange() {
      if publicKeyChanged || presharedKeyChanged || endpointChanged || persistentKeepaliveChanged then false
      else allowedIPsNoChange
    }
  }

  /** A Go runtime panic the diff can reach: indexing past the end of a slice. */
  datatype DiffError = IndexOutOfRange

  // ---------------------------------------------------------------------
  // Names, as the source's `map[string]int` of names to indices sees them.

  function PeerName(p: InterfacePeer): string { p.name }
  function InterfaceName(i: Interface): string { i.name }

  function Names<T>(xs: seq<T>, nameOf: T -> string): (r: seq<string>)
    ensures |r| == |xs|
    ensures forall k :: 0 <= k < |xs| ==> r[k] == nameOf(xs[k])
  {
    seq(|xs|, k requires 0 <= k < |xs| => nameOf(xs[k]))
  }

  /** Replacing an element by one of the same name keeps the names. */
  lemma NamesUpdate<T>(xs: seq<T>, i: nat, x: T, nameOf: T -> string)
    requires i < |xs| && nameOf(x) == nameOf(xs[i])
    ensures Names(xs[i := x], nameOf) == Names(xs, nameOf)
  {
    assert forall k :: 0 <= k < |xs| ==> Names(xs[i := x], nameOf)[k] == Names(xs, nameOf)[k];
  }

  /** The map a loop `m[x.Name] = i` over `xs` builds. */
  function NameIndex<T>(xs: seq<T>, nameOf: T -> string): (m: map<string, int>)
  {
    if xs == [] then map[]
    else NameIndex(xs[..|xs| - 1], nameOf)[nameOf(xs[|xs| - 1]) := |xs| - 1]
  }

  /** The map holds every name, each at the last index carrying it. */
  lemma {:induction false} NameIndexIsLastIndex<T>(xs: seq<T>, nameOf: T -> string, n: string)
    ensures n in NameIndex(xs, nameOf) <==> n in Names(xs, nameOf)
    ensures n in NameIndex(xs, nameOf) ==> NameIndex(xs, nameOf)[n] == LastIndexOf(Names(xs, nameOf), n)
  {
    if xs != [] {
      var init := xs[..|xs| - 1];
      NameIndexIsLastIndex(init, nameOf, n);
      assert Names(xs, nameOf) == Names(init, nameOf) + [nameOf(xs[|xs| - 1])];
      assert Names(xs, nameOf)[..|xs| - 1] == Names(init, nameOf);
    }
  }

  /** The elements of `xs`, in order, whose name is not in `names`. */
  function Absent<T>(xs: seq<T>, nameOf: T -> string, names: seq<string>): (r: seq<T>)
  {
    if xs == [] then []
    else
      var x := xs[|xs| - 1];
      Absent(xs[..|xs| - 1], nameOf, names) + (if nameOf(x) in names then [] else [x])
  }

  /** `Absent` keeps exactly the elements whose name is missing, in their order. */
  lemma {:induction false} AbsentMembers<T>(xs: seq<T>, nameOf: T -> string, names: seq<string>, x: T)
    ensures x in Absent(xs, nameOf, names) <==> x in xs && nameOf(x) !in names
    ensures |Absent(xs, nameOf, names)| <= |xs|
  {
    if xs != [] {
      var init := xs[..|xs| - 1];
      AbsentMembers(init, nameOf, names, x);
      assert xs == init + [xs[|xs| - 1]];
    }
  }

  /** With no names to match, nothing is absent; with none matching, all are. */
  lemma {:induction false} AbsentExtremes<T>(xs: seq<T>, nameOf: T -> string, names: seq<string>)
    ensures (forall k :: 0 <= k < |xs| ==> nameOf(xs[k]) in names) ==> Absent(xs, nameOf, names) == []
    ensures (forall k :: 0 <= k < |xs| ==> nameOf(xs[k]) !in names) ==> Absent(xs, nameOf, names) == xs
  {
    if xs != [] {
      var init := xs[..|xs| - 1];
      AbsentExtremes(init, nameOf, names);
      assert xs == init + [xs[|xs| - 1]];
    }
  }

  /** Builds `m[nameOf(x)] = i` for every element, as the source's name maps. */
  method BuildNameIndex<T>(xs: seq<T>, nameOf: T -> string) returns (m: map<string, int>)
    ensures m == NameIndex(xs, nameOf)
  {
    m := map[];
    for i := 0 to |xs|
      invariant m == NameIndex(xs[..i], nameOf)
    {
      assert xs[..i + 1][..i] == xs[..i];
      m := m[nameOf(xs[i]) := i];
    }
    assert xs[..|xs|] == xs;
  }

  /** Appends, in order, the elements of `xs` whose name is not a key of
      `other`, the name map built from `ys`. */
  method CollectAbsent<T>(xs: seq<T>, nameOf: T -> string, other: map<string, int>, ghost ys: seq<T>)
    returns (r: seq<T>)
    requires other == NameIndex(ys, nameOf)
    ensures r == Absent(xs, nameOf, Names(ys, nameOf))
  {
    r := [];
    for i := 0 to |xs|
      invariant r == Absent(xs[..i], nameOf, Names(ys, nameOf))
    {
      assert xs[..i + 1][..i] == xs[..i];
      NameIndexIsLastIndex(ys, nameOf, nameOf(xs[i]));
      if nameOf(xs[i]) !in other {
        r := r + [xs[i]];
      }
    }
    assert xs[..|xs|] == xs;
  }

  // ---------------------------------------------------------------------
  // Allowed IPs of a peer: a sorted two-index merge into a `Change` list.

  /** The merge of `DiffInterfacePeer` over sorted `sa` and `sb`, continued
      from indices `i`, `j` with the changes `acc` found so far. */
  function AllowedIPsWalk(sa: seq<IPNet>, sb: seq<IPNet>, i: nat, j: nat, acc: seq<Change>): seq<Change>
    requires i <= |sa| && j <= |sb|
    decreases |sa| - i + |sb| - j
  {
    if i < |sa| && j < |sb| then
      var cmp := Compare(sa[i].ip, sb[j].ip);
      if cmp < 0 then AllowedIPsWalk(sa, sb, i + 1, j, acc + [Change(Remove, sa[i])])
      else if cmp > 0 then AllowedIPsWalk(sa, sb, i, j + 1, acc + [Change(Add, sb[j])])
      else if sa[i].mask != sb[j].mask then
        AllowedIPsWalk(sa, sb, i + 1, j + 1, acc + [Change(Remove, sa[i]), Change(Add, sb[j])])
      else AllowedIPsWalk(sa, sb, i + 1, j + 1, acc + [Change(NoChangeOp, sa[i])])
    else if i < |sa| then AllowedIPsWalk(sa, sb, i + 1, j, acc + [Change(Remove, sa[i])])
    else if j < |sb| then AllowedIPsWalk(sa, sb, i, j + 1, acc + [Change(Add, sb[j])])
    else acc
  }

  /** The `AllowedIPsChanged` list for two peers' allowed IPs. */
  function AllowedIPsChanges(a: seq<IPNet>, b: seq<IPNet>): seq<Change> {
    AllowedIPsWalk(Sort(a, LessIP), Sort(b, LessIP), 0, 0, [])
  }

  predicate AllNoChange(cs: seq<Change>) {
    forall k :: 0 <= k < |cs| ==> cs[k].op == NoChangeOp
  }

  /** The values of the entries that are not `Add`: what the old side held. */
  function OldSide(cs: seq<Change>): seq<IPNet> {
    if cs == [] then []
    else OldSide(cs[..|cs| - 1]) + (if cs[|cs| - 1].op == Add then [] else [cs[|cs| - 1].value])
  }

  /** The values of the entries that are not `Remove`: what the new side holds. */
  function NewSide(cs: seq<Change>): seq<IPNet> {
    if cs == [] then []
    else NewSide(cs[..|cs| - 1]) + (if cs[|cs| - 1].op == Remove then [] else [cs[|cs| - 1].value])
  }

  function Count(cs: seq<Change>, op: ChangeOp): nat {
    if cs == [] then 0
    else Count(cs[..|cs| - 1], op) + (if cs[|cs| - 1].op == op then 1 else 0)
  }

  lemma SidesOfOne(c: Change)
    ensures OldSide([c]) == (if c.op == Add then [] else [c.value])
    ensures NewSide([c]) == (if c.op == Remove then [] else [c.value])
    ensures forall op :: Count([c], op) == if c.op == op then 1 else 0
  {
    assert [c][..0] == [];
  }

  lemma SidesAppend(cs: seq<Change>, ds: seq<Change>)
    ensures OldSide(cs + ds) == OldSide(cs) + OldSide(ds)
    ensures NewSide(cs + ds) == NewSide(cs) + NewSide(ds)
  {
    OldSideAppend(cs, ds);
    NewSideAppend(cs, ds);
  }

  lemma {:induction false} OldSideAppend(cs: seq<Change>, ds: seq<Change>)
    ensures OldSide(cs + ds) == OldSide(cs) + OldSide(ds)
    decreases |ds|
  {
    if ds == [] {
      assert cs + ds == cs;
    } else {
      var init := ds[..|ds| - 1];
      var last := if ds[|ds| - 1].op == Add then [] else [ds[|ds| - 1].value];
      OldSideAppend(cs, init);
      assert (cs + ds)[..|cs + ds| - 1] == cs + init;
      assert (cs + ds)[|cs + ds| - 1] == ds[|ds| - 1];
      assert OldSide(cs + ds) == (OldSide(cs) + OldSide(init)) + last;
    }
  }

  lemma {:induction false} NewSideAppend(cs: seq<Change>, ds: seq<Change>)
    ensures NewSide(cs + ds) == NewSide(cs) + NewSide(ds)
    decreases |ds|
  {
    if ds == [] {
      assert cs + ds == cs;
    } else {
      var init := ds[..|ds| - 1];
      var last := if ds[|ds| - 1].op == Remove then [] else [ds[|ds| - 1].value];
      NewSideAppend(cs, init);
      assert (cs + ds)[..|cs + ds| - 1] == cs + init;
      assert (cs + ds)[|cs + ds| - 1] == ds[|ds| - 1];
      assert NewSide(cs + ds) == (NewSide(cs) + NewSide(init)) + last;
    }
  }

  lemma {:induction false} SidesCount(cs: seq<Change>)
    ensures |OldSide(cs)| == Count(cs, Remove) + Count(cs, NoChangeOp)
    ensures |NewSide(cs)| == Count(cs, Add) + Count(cs, NoChangeOp)
  {
    if cs != [] {
      SidesCount(cs[..|cs| - 1]);
    }
  }

  /** One step of the merge, read back on the old side. */
  lemma OldSideStep(acc: seq<Change>, c: Change, x: IPNet, rest: seq<IPNet>)
    requires c.op != Add && c.value == x
    ensures (OldSide(acc) + [x]) + rest == OldSide(acc + [c]) + rest
  {
    SidesAppend(acc, [c]);
    SidesOfOne(c);
  }

  lemma NewSideStep(acc: seq<Change>, c: Change, x: IPNet, rest: seq<IPNet>)
    requires c.op != Remove && c.value == x
    ensures (NewSide(acc) + [x]) + rest == NewSide(acc + [c]) + rest
  {
    SidesAppend(acc, [c]);
    SidesOfOne(c);
  }

  lemma SidesUnchanged(acc: seq<Change>, c: Change)
    ensures c.op == Add ==> OldSide(acc + [c]) == OldSide(acc)
    ensures c.op == Remove ==> NewSide(acc + [c]) == NewSide(acc)
  {
    SidesAppend(acc, [c]);
    SidesOfOne(c);
  }

  /** The old side of the changes is `sa`: each step consumes one old
      element exactly when it records a `Remove` or a `NoChange`. */
  lemma {:induction false} AllowedIPsWalkOldSide(sa: seq<IPNet>, sb: seq<IPNet>, i: nat, j: nat, acc: seq<Change>)
    requires i <= |sa| && j <= |sb|
    ensures OldSide(AllowedIPsWalk(sa, sb, i, j, acc)) == OldSide(acc) + sa[i..]
    decreases |sa| - i + |sb| - j
  {
    if i < |sa| {
      assert sa[i..] == [sa[i]] + sa[i + 1..];
    }
    if i < |sa| && j < |sb| {
      var cmp := Compare(sa[i].ip, sb[j].ip);
      if cmp < 0 {
        AllowedIPsWalkOldSide(sa, sb, i + 1, j, acc + [Change(Remove, sa[i])]);
        assert AllowedIPsWalk(sa, sb, i, j, acc) == AllowedIPsWalk(sa, sb, i + 1, j, acc + [Change(Remove, sa[i])]);
        OldSideStep(acc, Change(Remove, sa[i]), sa[i], sa[i + 1..]);
      } else if cmp > 0 {
        AllowedIPsWalkOldSide(sa, sb, i, j + 1, acc + [Change(Add, sb[j])]);
        assert AllowedIPsWalk(sa, sb, i, j, acc) == AllowedIPsWalk(sa, sb, i, j + 1, acc + [Change(Add, sb[j])]);
        SidesUnchanged(acc, Change(Add, sb[j]));
      } else if sa[i].mask != sb[j].mask {
        var acc1 := acc + [Change(Remove, sa[i])];
        assert acc + [Change(Remove, sa[i]), Change(Add, sb[j])] == acc1 + [Change(Add, sb[j])];
        AllowedIPsWalkOldSide(sa, sb, i + 1, j + 1, acc1 + [Change(Add, sb[j])]);
        assert AllowedIPsWalk(sa, sb, i, j, acc) == AllowedIPsWalk(sa, sb, i + 1, j + 1, acc1 + [Change(Add, sb[j])]);
        SidesUnchanged(acc1, Change(Add, sb[j]));
        OldSideStep(acc, Change(Remove, sa[i]), sa[i], sa[i + 1..]);
      } else {
        AllowedIPsWalkOldSide(sa, sb, i + 1, j + 1, acc + [Change(NoChangeOp, sa[i])]);
        assert AllowedIPsWalk(sa, sb, i, j, acc) == AllowedIPsWalk(sa, sb, i + 1, j + 1, acc + [Change(NoChangeOp, sa[i])]);
        OldSideStep(acc, Change(NoChangeOp, sa[i]), sa[i], sa[i + 1..]);
      }
    } else if i < |sa| {
      AllowedIPsWalkOldSide(sa, sb, i + 1, j, acc + [Change(Remove, sa[i])]);
      assert AllowedIPsWalk(sa, sb, i, j, acc) == AllowedIPsWalk(sa, sb, i + 1, j, acc + [Change(Remove, sa[i])]);
      OldSideStep(acc, Change(Remove, sa[i]), sa[i], sa[i + 1..]);
    } else if j < |sb| {
      AllowedIPsWalkOldSide(sa, sb, i, j + 1, acc + [Change(Add, sb[j])]);
      assert AllowedIPsWalk(sa, sb, i, j, acc) == AllowedIPsWalk(sa, sb, i, j + 1, acc + [Change(Add, sb[j])]);
      SidesUnchanged(acc, Change(Add, sb[j]));
    }
  }

  /** The new side of the changes is `sb`; a `NoChange` entry carries the
      old element, which equals the new one (same address, same mask). */
  lemma {:induction false} AllowedIPsWalkNewSide(sa: seq<IPNet>, sb: seq<IPNet>, i: nat, j: nat, acc: seq<Change>)
    requires i <= |sa| && j <= |sb|
    ensures NewSide(AllowedIPsWalk(sa, sb, i, j, acc)) == NewSide(acc) + sb[j..]
    decreases |sa| - i + |sb| - j
  {
    if j < |sb| {
      assert sb[j..] == [sb[j]] + sb[j + 1..];
    }
    if i < |sa| && j < |sb| {
      var cmp := Compare(sa[i].ip, sb[j].ip);
      if cmp < 0 {
        AllowedIPsWalkNewSide(sa, sb, i + 1, j, acc + [Change(Remove, sa[i])]);
        assert AllowedIPsWalk(sa, sb, i, j, acc) == AllowedIPsWalk(sa, sb, i + 1, j, acc + [Change(Remove, sa[i])]);
        SidesUnchanged(acc, Change(Remove, sa[i]));
      } else if cmp > 0 {
        AllowedIPsWalkNewSide(sa, sb, i, j + 1, acc + [Change(Add, sb[j])]);
        assert AllowedIPsWalk(sa, sb, i, j, acc) == AllowedIPsWalk(sa, sb, i, j + 1, acc + [Change(Add, sb[j])]);
        NewSideStep(acc, Change(Add, sb[j]), sb[j], sb[j + 1..]);
      } else if sa[i].mask != sb[j].mask {
        var acc1 := acc + [Change(Remove, sa[i])];
        assert acc + [Change(Remove, sa[i]), Change(Add, sb[j])] == acc1 + [Change(Add, sb[j])];
        AllowedIPsWalkNewSide(sa, sb, i + 1, j + 1, acc1 + [Change(Add, sb[j])]);
        assert AllowedIPsWalk(sa, sb, i, j, acc) == AllowedIPsWalk(sa, sb, i + 1, j + 1, acc1 + [Change(Add, sb[j])]);
        SidesUnchanged(acc, Change(Remove, sa[i]));
        NewSideStep(acc1, Change(Add, sb[j]), sb[j], sb[j + 1..]);
      } else {
        assert sa[i] == sb[j];
        AllowedIPsWalkNewSide(sa, sb, i + 1, j + 1, acc + [Change(NoChangeOp, sa[i])]);
        assert AllowedIPsWalk(sa, sb, i, j, acc) == AllowedIPsWalk(sa, sb, i + 1, j + 1, acc + [Change(NoChangeOp, sa[i])]);
        NewSideStep(acc, Change(NoChangeOp, sa[i]), sb[j], sb[j + 1..]);
      }
    } else if i < |sa| {
      AllowedIPsWalkNewSide(sa, sb, i + 1, j, acc + [Change(Remove, sa[i])]);
      assert AllowedIPsWalk(sa, sb, i, j, acc) == AllowedIPsWalk(sa, sb, i + 1, j, acc + [Change(Remove, sa[i])]);
      SidesUnchanged(acc, Change(Remove, sa[i]));
    } else if j < |sb| {
      AllowedIPsWalkNewSide(sa, sb, i, j + 1, acc + [Change(Add, sb[j])]);
      assert AllowedIPsWalk(sa, sb, i, j, acc) == AllowedIPsWalk(sa, sb, i, j + 1, acc + [Change(Add, sb[j])]);
      NewSideStep(acc, Change(Add, sb[j]), sb[j], sb[j + 1..]);
    }
  }

  /** #Remove + #NoChange is the number of old allowed IPs, and #Add +
      #NoChange the number of new ones; the two sides, read back from the
      changes, are the sorted inputs. */
  lemma AllowedIPsChangesAccount(a: seq<IPNet>, b: seq<IPNet>)
    ensures OldSide(AllowedIPsChanges(a, b)) == Sort(a, LessIP)
    ensures NewSide(AllowedIPsChanges(a, b)) == Sort(b, LessIP)
    ensures Count(AllowedIPsChanges(a, b), Remove) + Count(AllowedIPsChanges(a, b), NoChangeOp) == |a|
    ensures Count(AllowedIPsChanges(a, b), Add) + Count(AllowedIPsChanges(a, b), NoChangeOp) == |b|
  {
    AllowedIPsWalkOldSide(Sort(a, LessIP), Sort(b, LessIP), 0, 0, []);
    AllowedIPsWalkNewSide(Sort(a, LessIP), Sort(b, LessIP), 0, 0, []);
    SidesCount(AllowedIPsChanges(a, b));
  }

  lemma {:induction false} AllowedIPsWalkSame(s: seq<IPNet>, i: nat, acc: seq<Change>)
    requires i <= |s|
    requires AllNoChange(acc)
    ensures AllNoChange(AllowedIPsWalk(s, s, i, i, acc))
    decreases |s| - i
  {
    if i < |s| {
      AllowedIPsWalkSame(s, i + 1, acc + [Change(NoChangeOp, s[i])]);
    }
  }

  lemma {:induction false} OldNewSideOfNoChange(cs: seq<Change>)
    requires AllNoChange(cs)
    ensures OldSide(cs) == NewSide(cs)
  {
    if cs != [] {
      OldNewSideOfNoChange(cs[..|cs| - 1]);
    }
  }

  /** Every entry is `NoChange` exactly when the two lists, sorted by
      address, are the same. */
  lemma AllowedIPsNoChangeIff(a: seq<IPNet>, b: seq<IPNet>)
    ensures AllNoChange(AllowedIPsChanges(a, b)) <==> Sort(a, LessIP) == Sort(b, LessIP)
  {
    AllowedIPsChangesAccount(a, b);
    if AllNoChange(AllowedIPsChanges(a, b)) {
      OldNewSideOfNoChange(AllowedIPsChanges(a, b));
    }
    if Sort(a, LessIP) == Sort(b, LessIP) {
      AllowedIPsWalkSame(Sort(a, LessIP), 0, []);
    }
  }

  /** The same address under a different mask becomes a `Remove` of the old
      entry followed by an `Add` of the new one. */
  lemma MaskChangeIsRemoveThenAdd(x: IPNet, y: IPNet)
    requires x.ip == y.ip && x.mask != y.mask
    ensures AllowedIPsChanges([x], [y]) == [Change(Remove, x), Change(Add, y)]
  {
    assert Sort([x], LessIP) == [x];
    assert Sort([y], LessIP) == [y];
    assert Compare(x.ip, y.ip) == 0;
    assert AllowedIPsWalk([x], [y], 0, 0, []) ==
      AllowedIPsWalk([x], [y], 1, 1, [] + [Change(Remove, x), Change(Add, y)]);
    assert AllowedIPsWalk([x], [y], 1, 1, [Change(Remove, x), Change(Add, y)]) == [Change(Remove, x), Change(Add, y)];
  }

  /** Preshared keys differ when exactly one is set, or both are set to
      different bytes. */
  predicate PresharedKeyChanged(a: Option<Key>, b: Option<Key>) {
    (a.None? != b.None?) || (a.Some? && b.Some? && a.value != b.value)
  }

  lemma PresharedKeyChangedIff(a: Option<Key>, b: Option<Key>)
    ensures PresharedKeyChanged(a, b) <==> a != b
  {
  }

  /** What `DiffInterfacePeer` returns for `a` and `b`. */
  function PeerDiff(a: InterfacePeer, b: InterfacePeer): InterfacePeerDiff {
    var changes := AllowedIPsChanges(a.allowedIPs, b.allowedIPs);
    InterfacePeerDiff(
      a.publicKey != b.publicKey,
      PresharedKeyChanged(a.presharedKey, b.presharedKey),
      a.endpoint != b.endpoint,
      a.persistentKeepalive != b.persistentKeepalive,
      changes,
      AllNoChange(changes))
  }

  /** A peer diff reports no change exactly when the peers agree on every
      field except the name and the order of their allowed IPs. */
  lemma PeerDiffNoChangeIff(a: InterfacePeer, b: InterfacePeer)
    ensures PeerDiff(a, b).NoChange() <==>
      && a.publicKey == b.publicKey
      && a.presharedKey == b.presharedKey
      && a.endpoint == b.endpoint
      && a.persistentKeepalive == b.persistentKeepalive
      && Sort(a.allowedIPs, LessIP) == Sort(b.allowedIPs, LessIP)
  {
    AllowedIPsNoChangeIff(a.allowedIPs, b.allowedIPs);
  }

  /** The peer with its allowed IPs in the order `DiffInterfacePeer` leaves them. */
  function SortPeerIPs(p: InterfacePeer): InterfacePeer {
    p.(allowedIPs := Sort(p.allowedIPs, LessIP))
  }

  /** Sorting a peer's allowed IPs beforehand does not change its diff. */
  lemma PeerDiffOfSorted(a: InterfacePeer, b: InterfacePeer)
    ensures PeerDiff(SortPeerIPs(a), b) == PeerDiff(a, b)
    ensures PeerDiff(a, SortPeerIPs(b)) == PeerDiff(a, b)
  {
    LessIPIsStrictWeakOrder();
    SortSorted(a.allowedIPs, LessIP);
    SortOfSorted(Sort(a.allowedIPs, LessIP), LessIP);
    SortSorted(b.allowedIPs, LessIP);
    SortOfSorted(Sort(b.allowedIPs, LessIP), LessIP);
  }

  /** Two addresses already in order sort to themselves. */
  lemma SortPair(x: IPNet, y: IPNet)
    requires Compare(x.ip, y.ip) < 0
    ensures Sort([x, y], LessIP) == [x, y]
  {
    CompareAntisymmetric(x.ip, y.ip);
    assert [x, y][1..] == [y];
    assert Sort([y], LessIP) == [y];
    assert Insert(x, [y], LessIP) == [x, y];
  }

  /** The merge of three addresses in order, where the old side holds the
      first two and the new side the last two. */
  lemma AllowedIPsWalkOverlap(x: IPNet, y: IPNet, z: IPNet)
    requires Compare(x.ip, y.ip) < 0 && Compare(y.ip, z.ip) < 0
    ensures AllowedIPsWalk([x, y], [y, z], 0, 0, []) ==
      [Change(Remove, x), Change(NoChangeOp, y), Change(Add, z)]
  {
    var sa, sb := [x, y], [y, z];
    var c0, c1, c2 := Change(Remove, x), Change(NoChangeOp, y), Change(Add, z);
    assert AllowedIPsWalk(sa, sb, 0, 0, []) == AllowedIPsWalk(sa, sb, 1, 0, [] + [c0]);
    assert AllowedIPsWalk(sa, sb, 1, 0, [c0]) == AllowedIPsWalk(sa, sb, 2, 1, [c0] + [c1]);
    assert AllowedIPsWalk(sa, sb, 2, 1, [c0, c1]) == AllowedIPsWalk(sa, sb, 2, 2, [c0, c1] + [c2]);
    assert [] + [c0] == [c0] && [c0] + [c1] == [c0, c1] && [c0, c1] + [c2] == [c0, c1, c2];
  }

  /** The allowed-IP changes of `TestDiffInterfacePeer`. */
  lemma ExampleChanges()
    ensures var n0 := IPNet([10, 10, 0, 0], [255, 255, 255, 0]);
            var n1 := IPNet([10, 10, 1, 0], [255, 255, 255, 128]);
            var n2 := IPNet([10, 10, 2, 0], [255, 255, 255, 255]);
            AllowedIPsChanges([n0, n1], [n1, n2]) ==
              [Change(Remove, n0), Change(NoChangeOp, n1), Change(Add, n2)]
  {
    var n0 := IPNet([10, 10, 0, 0], [255, 255, 255, 0]);
    var n1 := IPNet([10, 10, 1, 0], [255, 255, 255, 128]);
    var n2 := IPNet([10, 10, 2, 0], [255, 255, 255, 255]);
    assert Compare(n0.ip, n1.ip) == -1;
    assert Compare(n1.ip, n2.ip) == -1;
    SortPair(n0, n1);
    SortPair(n1, n2);
    AllowedIPsWalkOverlap(n0, n1, n2);
  }

  /** The example of `TestDiffInterfacePeer`: a peer whose key, endpoint and
      keepalive change, and whose allowed IPs lose 10.10.0.0/24, keep
      10.10.1.0/25 and gain 10.10.2.0/32. */
  lemma PeerDiffExample()
    ensures var k1 := ZeroKey[0 := 1];
            var n0 := IPNet([10, 10, 0, 0], [255, 255, 255, 0]);
            var n1 := IPNet([10, 10, 1, 0], [255, 255, 255, 128]);
            var n2 := IPNet([10, 10, 2, 0], [255, 255, 255, 255]);
            var a := InterfacePeer("", k1, Some(k1), "localhost", 0, [n0, n1]);
            var b := InterfacePeer("", ZeroKey, Some(k1), "127.0.0.1", 1000000000, [n1, n2]);
            PeerDiff(a, b) == InterfacePeerDiff(true, false, true, true,
              [Change(Remove, n0), Change(NoChangeOp, n1), Change(Add, n2)], false)
  {
    var n0 := IPNet([10, 10, 0, 0], [255, 255, 255, 0]);
    var n1 := IPNet([10, 10, 1, 0], [255, 255, 255, 128]);
    var n2 := IPNet([10, 10, 2, 0], [255, 255, 255, 255]);
    assert ZeroKey[0 := 1] != ZeroKey by { assert ZeroKey[0 := 1][0] != ZeroKey[0]; }
    ExampleChanges();
    var cs := [Change(Remove, n0), Change(NoChangeOp, n1), Change(Add, n2)];
    assert !AllNoChange(cs) by { assert cs[0].op != NoChangeOp; }
  }

  /** `DiffInterfacePeer`: compares the fields, sorts both peers' allowed
      IPs by address (returned as `a1` and `b1`) and merges them. */
  method DiffInterfacePeer(a: InterfacePeer, b: InterfacePeer)
    returns (diff: InterfacePeerDiff, a1: InterfacePeer, b1: InterfacePeer)
    ensures diff == PeerDiff(a, b)
    ensures a1 == SortPeerIPs(a) && b1 == SortPeerIPs(b)
  {
    var publicKeyChanged := a.publicKey != b.publicKey;
    var presharedKeyChanged :=
      (a.presharedKey.None? != b.presharedKey.None?)
      || (a.presharedKey.Some? && b.presharedKey.Some? && a.presharedKey.value != b.presharedKey.value);
    var endpointChanged := a.endpoint != b.endpoint;
    var keepaliveChanged := a.persistentKeepalive != b.persistentKeepalive;
    a1, b1 := SortPeerIPs(a), SortPeerIPs(b);
    var changes, noChange := MergeAllowedIPs(a1.allowedIPs, b1.allowedIPs);
    diff := InterfacePeerDiff(publicKeyChanged, presharedKeyChanged, endpointChanged, keepaliveChanged,
                              changes, noChange);
  }

  /** The two-index merge of `DiffInterfacePeer` over sorted allowed IPs. */
  method MergeAllowedIPs(sa: seq<IPNet>, sb: seq<IPNet>) returns (changes: seq<Change>, noChange: bool)
    ensures changes == AllowedIPsWalk(sa, sb, 0, 0, [])
    ensures noChange <==> AllNoChange(changes)
  {
    changes := [];
    noChange := true;
    var i, j := 0, 0;
    while i < |sa| && j < |sb|
      invariant 0 <= i <= |sa| && 0 <= j <= |sb|
      invariant AllowedIPsWalk(sa, sb, i, j, changes) == AllowedIPsWalk(sa, sb, 0, 0, [])
      invariant noChange <==> AllNoChange(changes)
      decreases |sa| - i + |sb| - j
    {
      var cmp := Compare(sa[i].ip, sb[j].ip);
      if cmp < 0 {
        noChange := false;
        changes := changes + [Change(Remove, sa[i])];
        assert changes[|changes| - 1].op == Remove;
        i := i + 1;
      } else if cmp > 0 {
        noChange := false;
        changes := changes + [Change(Add, sb[j])];
        assert changes[|changes| - 1].op == Add;
        j := j + 1;
      } else {
        ghost var before := changes;
        if sa[i].mask != sb[j].mask {
          noChange := false;
          changes := changes + [Change(Remove, sa[i])];
          changes := changes + [Change(Add, sb[j])];
          assert changes == before + [Change(Remove, sa[i]), Change(Add, sb[j])];
          assert changes[|changes| - 1].op == Add;
        } else {
          changes := changes + [Change(NoChangeOp, sa[i])];
          assert AllNoChange(changes) <==> AllNoChange(before) by {
            assert forall k :: 0 <= k < |before| ==> before[k] == changes[k];
          }
        }
        i, j := i + 1, j + 1;
      }
    }
    while i < |sa|
      invariant 0 <= i <= |sa| && 0 <= j <= |sb|
      invariant i < |sa| ==> j == |sb|
      invariant AllowedIPsWalk(sa, sb, i, j, changes) == AllowedIPsWalk(sa, sb, 0, 0, [])
      invariant noChange <==> AllNoChange(changes)
    {
      noChange := false;
      changes := changes + [Change(Remove, sa[i])];
      assert changes[|changes| - 1].op == Remove;
      i := i + 1;
    }
    while j < |sb|
      invariant i == |sa| && 0 <= j <= |sb|
      invariant AllowedIPsWalk(sa, sb, i, j, changes) == AllowedIPsWalk(sa, sb, 0, 0, [])
      invariant noChange <==> AllNoChange(changes)
    {
      noChange := false;
      changes := changes + [Change(Add, sb[j])];
      assert changes[|changes| - 1].op == Add;
      j := j + 1;
    }
  }

  // ---------------------------------------------------------------------
  // Interface addresses: the merge of `DiffInterface`, as written.

  /** The address lists and flag `DiffInterface` accumulates. */
  datatype AddressChanges = AddressChanges(added: seq<IPNet>, removed: seq<IPNet>, noChange: bool)

  /** The address merge of `DiffInterface` over sorted `sa` and `sb`, exactly
      as written: when the new side's address is smaller it appends the old
      side's `sa[i]` to the added list, and when the masks differ it appends
      `sb[i]`, indexing the new side with the old side's index (a panic when
      that index is past the end). */
  function AddressWalk(sa: seq<IPNet>, sb: seq<IPNet>, i: nat, j: nat, acc: AddressChanges)
    : Result<AddressChanges, DiffError>
    requires i <= |sa| && j <= |sb|
    decreases |sa| - i + |sb| - j
  {
    if i < |sa| && j < |sb| then
      var cmp := Compare(sa[i].ip, sb[j].ip);
      if cmp < 0 then
        AddressWalk(sa, sb, i + 1, j, AddressChanges(acc.added, acc.removed + [sa[i]], false))
      else if cmp > 0 then
        AddressWalk(sa, sb, i, j + 1, AddressChanges(acc.added + [sa[i]], acc.removed, false))
      else if sa[i].mask != sb[j].mask then
        if i < |sb| then
          AddressWalk(sa, sb, i + 1, j + 1, AddressChanges(acc.added + [sb[i]], acc.removed + [sa[i]], false))
        else Err(IndexOutOfRange)
      else AddressWalk(sa, sb, i + 1, j + 1, acc)
    else if i < |sa| then
      AddressWalk(sa, sb, i + 1, j, AddressChanges(acc.added, acc.removed + [sa[i]], false))
    else if j < |sb| then
      AddressWalk(sa, sb, i, j + 1, AddressChanges(acc.added + [sb[j]], acc.removed, false))
    else Ok(acc)
  }

  function AddressDiff(a: seq<IPNet>, b: seq<IPNet>): Result<AddressChanges, DiffError> {
    AddressWalk(Sort(a, LessIP), Sort(b, LessIP), 0, 0, AddressChanges([], [], true))
  }

  predicate FlagMatchesLists(c: AddressChanges) {
    c.noChange <==> c.added == [] && c.removed == []
  }

  lemma {:induction false} AddressWalkFlag(sa: seq<IPNet>, sb: seq<IPNet>, i: nat, j: nat, acc: AddressChanges)
    requires i <= |sa| && j <= |sb|
    requires FlagMatchesLists(acc)
    ensures AddressWalk(sa, sb, i, j, acc).Ok? ==> FlagMatchesLists(AddressWalk(sa, sb, i, j, acc).value)
    ensures AddressWalk(sa, sb, i, j, acc).Ok? && AddressWalk(sa, sb, i, j, acc).value.noChange ==>
      acc.noChange && sa[i..] == sb[j..]
    decreases |sa| - i + |sb| - j
  {
    if i < |sa| && j < |sb| {
      var cmp := Compare(sa[i].ip, sb[j].ip);
      if cmp < 0 {
        AddressWalkFlag(sa, sb, i + 1, j, AddressChanges(acc.added, acc.removed + [sa[i]], false));
      } else if cmp > 0 {
        AddressWalkFlag(sa, sb, i, j + 1, AddressChanges(acc.added + [sa[i]], acc.removed, false));
      } else if sa[i].mask != sb[j].mask {
        if i < |sb| {
          AddressWalkFlag(sa, sb, i + 1, j + 1, AddressChanges(acc.added + [sb[i]], acc.removed + [sa[i]], false));
        }
      } else {
        AddressWalkFlag(sa, sb, i + 1, j + 1, acc);
        assert sa[i] == sb[j];
        assert sa[i..] == [sa[i]] + sa[i + 1..];
        assert sb[j..] == [sb[j]] + sb[j + 1..];
      }
    } else if i < |sa| {
      AddressWalkFlag(sa, sb, i + 1, j, AddressChanges(acc.added, acc.removed + [sa[i]], false));
    } else if j < |sb| {
      AddressWalkFlag(sa, sb, i, j + 1, AddressChanges(acc.added + [sb[j]], acc.removed, false));
    }
  }

  lemma {:induction false} AddressWalkSame(s: seq<IPNet>, i: nat, acc: AddressChanges)
    requires i <= |s|
    ensures AddressWalk(s, s, i, i, acc) == Ok(acc)
    decreases |s| - i
  {
    if i < |s| {
      AddressWalkSame(s, i + 1, acc);
    }
  }

  /** `AddressesNoChange` holds exactly when nothing is added or removed,
      and exactly when the two interfaces have the same addresses once
      sorted by address; then the merge cannot panic. */
  lemma AddressDiffNoChangeIff(a: seq<IPNet>, b: seq<IPNet>)
    ensures AddressDiff(a, b).Ok? ==> FlagMatchesLists(AddressDiff(a, b).value)
    ensures (AddressDiff(a, b).Ok? && AddressDiff(a, b).value.noChange) <==> Sort(a, LessIP) == Sort(b, LessIP)
  {
    AddressWalkFlag(Sort(a, LessIP), Sort(b, LessIP), 0, 0, AddressChanges([], [], true));
    if Sort(a, LessIP) == Sort(b, LessIP) {
      AddressWalkSame(Sort(a, LessIP), 0, AddressChanges([], [], true));
    }
  }

  lemma {:induction false} AddressWalkFromEmpty(sb: seq<IPNet>, j: nat, acc: AddressChanges)
    requires j <= |sb|
    ensures AddressWalk([], sb, 0, j, acc) ==
      Ok(AddressChanges(acc.added + sb[j..], acc.removed, acc.noChange && j == |sb|))
    decreases |sb| - j
  {
    if j < |sb| {
      AddressWalkFromEmpty(sb, j + 1, AddressChanges(acc.added + [sb[j]], acc.removed, false));
      assert sb[j..] == [sb[j]] + sb[j + 1..];
      assert acc.added + [sb[j]] + sb[j + 1..] == acc.added + sb[j..];
    } else {
      assert acc.added + sb[j..] == acc.added;
    }
  }

  /** With no current addresses, every desired address is added, sorted by
      address, and nothing is removed. */
  lemma AddressDiffFromEmpty(b: seq<IPNet>)
    ensures AddressDiff([], b) == Ok(AddressChanges(Sort(b, LessIP), [], b == []))
  {
    AddressWalkFromEmpty(Sort(b, LessIP), 0, AddressChanges([], [], true));
    assert [] + Sort(b, LessIP)[0..] == Sort(b, LessIP);
    assert Sort([], LessIP) == [];
  }

  /** As written, an address that only the new side has is never added when
      the old side has a larger one: the old address is "added" and removed. */
  lemma AddressDiffAddsOldAddress()
    ensures var x := IPNet([10, 0, 0, 1], [255, 255, 255, 255]);
            var y := IPNet([10, 0, 0, 2], [255, 255, 255, 255]);
            AddressDiff([y], [x]) == Ok(AddressChanges([y], [y], false))
  {
    var x := IPNet([10, 0, 0, 1], [255, 255, 255, 255]);
    var y := IPNet([10, 0, 0, 2], [255, 255, 255, 255]);
    assert Sort([y], LessIP) == [y];
    assert Sort([x], LessIP) == [x];
    assert Compare(y.ip, x.ip) == 1;
    var acc := AddressChanges([y], [], false);
    assert AddressWalk([y], [x], 1, 1, AddressChanges([y], [y], false)) == Ok(AddressChanges([y], [y], false));
    assert acc.removed + [y] == [y];
    assert AddressWalk([y], [x], 0, 1, acc) == Ok(AddressChanges([y], [y], false));
  }

  /** As written, a mask change after a removal indexes the new side past
      its end: the diff panics. */
  lemma AddressDiffPanics()
    ensures var x := IPNet([10, 0, 0, 1], [255, 255, 255, 255]);
            var y := IPNet([10, 0, 0, 2], [255, 255, 255, 255]);
            var y24 := IPNet([10, 0, 0, 2], [255, 255, 255, 0]);
            AddressDiff([x, y], [y24]) == Err(IndexOutOfRange)
  {
    var x := IPNet([10, 0, 0, 1], [255, 255, 255, 255]);
    var y := IPNet([10, 0, 0, 2], [255, 255, 255, 255]);
    var y24 := IPNet([10, 0, 0, 2], [255, 255, 255, 0]);
    assert Compare(x.ip, y.ip) == -1;
    assert Compare(y.ip, x.ip) == 1;
    assert Sort([y], LessIP) == [y];
    assert Insert(x, [y], LessIP) == [x, y];
    assert Sort([x, y], LessIP) == [x, y];
    assert Sort([y24], LessIP) == [y24];
    assert Compare(y.ip, y24.ip) == 0;
  }

  // ---------------------------------------------------------------------
  // Interfaces and machines.

  /** `PeersChanged`: in the order of `ap`, the name of each peer whose name
      `bp` also has and whose diff against the last such peer of `bp` is a
      change. */
  function ChangedPeers(ap: seq<InterfacePeer>, bp: seq<InterfacePeer>): (r: seq<string>)
    ensures forall n :: n in r ==> n in Names(ap, PeerName) && n in Names(bp, PeerName)
  {
    if ap == [] then []
    else
      var p := ap[|ap| - 1];
      var j := LastIndexOf(Names(bp, PeerName), p.name);
      var init := ChangedPeers(ap[..|ap| - 1], bp);
      assert forall n :: n in Names(ap[..|ap| - 1], PeerName) ==> n in Names(ap, PeerName) by {
        forall n | n in Names(ap[..|ap| - 1], PeerName) ensures n in Names(ap, PeerName) {
          var k :| 0 <= k < |ap| - 1 && Names(ap[..|ap| - 1], PeerName)[k] == n;
          assert Names(ap, PeerName)[k] == n;
        }
      }
      assert p.name == Names(ap, PeerName)[|ap| - 1];
      init + (if j >= 0 && !PeerDiff(p, bp[j]).NoChange() then [bp[j].name] else [])
  }

  /** What `DiffInterface` returns for two interfaces of the same name. */
  function InterfaceDiffOf(a: Interface, b: Interface): Result<InterfaceDiff, DiffError> {
    var addresses := AddressDiff(a.addresses, b.addresses);
    if addresses.Err? then Err(addresses.error)
    else Ok(InterfaceDiff(
      a.privateKey != b.privateKey,
      a.listenPort != b.listenPort,
      addresses.value.added,
      addresses.value.removed,
      addresses.value.noChange,
      Absent(b.peers, PeerName, Names(a.peers, PeerName)),
      Absent(a.peers, PeerName, Names(b.peers, PeerName)),
      ChangedPeers(a.peers, b.peers)))
  }

  /** The current peers after `DiffInterface`: those it diffed have their
      allowed IPs sorted. */
  function PeersAfterDiffA(ap: seq<InterfacePeer>, bp: seq<InterfacePeer>): seq<InterfacePeer> {
    seq(|ap|, k requires 0 <= k < |ap| =>
      if ap[k].name in Names(bp, PeerName) then SortPeerIPs(ap[k]) else ap[k])
  }

  /** The desired peers after `DiffInterface`: the last peer of each name
      that the current side also has was diffed, and so sorted. */
  function PeersAfterDiffB(ap: seq<InterfacePeer>, bp: seq<InterfacePeer>): seq<InterfacePeer> {
    seq(|bp|, k requires 0 <= k < |bp| =>
      if bp[k].name in Names(ap, PeerName) && LastIndexOf(Names(bp, PeerName), bp[k].name) == k
      then SortPeerIPs(bp[k]) else bp[k])
  }

  lemma SortPeerIPsTwice(p: InterfacePeer)
    ensures SortPeerIPs(SortPeerIPs(p)) == SortPeerIPs(p)
    ensures SortPeerIPs(p).name == p.name
  {
    LessIPIsStrictWeakOrder();
    SortSorted(p.allowedIPs, LessIP);
    SortOfSorted(Sort(p.allowedIPs, LessIP), LessIP);
  }

  lemma NamesOfPrefix(ap: seq<InterfacePeer>, i: nat)
    requires i < |ap|
    ensures ap[..i + 1][..i] == ap[..i]
    ensures Names(ap[..i + 1], PeerName) == Names(ap[..i], PeerName) + [ap[i].name]
  {
    assert ap[..i + 1][..i] == ap[..i];
  }

  lemma AfterDiffAStep(ap: seq<InterfacePeer>, bp: seq<InterfacePeer>, i: nat)
    requires i < |ap|
    ensures (PeersAfterDiffA(ap[..i], bp) + ap[i..])[i := if ap[i].name in Names(bp, PeerName) then SortPeerIPs(ap[i]) else ap[i]]
      == PeersAfterDiffA(ap[..i + 1], bp) + ap[i + 1..]
  {
  }

  lemma AfterDiffBStep(ap: seq<InterfacePeer>, bp: seq<InterfacePeer>, i: nat)
    requires i < |ap|
    ensures var j := LastIndexOf(Names(bp, PeerName), ap[i].name);
            var before := PeersAfterDiffB(ap[..i], bp);
            (if j >= 0 then before[j := SortPeerIPs(bp[j])] else before) == PeersAfterDiffB(ap[..i + 1], bp)
  {
    NamesOfPrefix(ap, i);
    var j := LastIndexOf(Names(bp, PeerName), ap[i].name);
    var before := PeersAfterDiffB(ap[..i], bp);
    var after := PeersAfterDiffB(ap[..i + 1], bp);
    forall k | 0 <= k < |bp| ensures (if j >= 0 then before[j := SortPeerIPs(bp[j])] else before)[k] == after[k] {
      if k == j {
        SortPeerIPsTwice(bp[j]);
      }
    }
  }

  lemma ChangedStep(ap: seq<InterfacePeer>, bp: seq<InterfacePeer>, i: nat)
    requires i < |ap|
    ensures var j := LastIndexOf(Names(bp, PeerName), ap[i].name);
            ChangedPeers(ap[..i + 1], bp) ==
              ChangedPeers(ap[..i], bp) + (if j >= 0 && !PeerDiff(ap[i], bp[j]).NoChange() then [bp[j].name] else [])
  {
    NamesOfPrefix(ap, i);
  }

  /** One iteration of the changed-peers loop of `DiffInterface`. */
  method DiffPeerPair(ap0: seq<InterfacePeer>, bp0: seq<InterfacePeer>, i: nat,
                      ap: seq<InterfacePeer>, bp: seq<InterfacePeer>, changed: seq<string>,
                      aNames: map<string, int>, bNames: map<string, int>)
    returns (ap': seq<InterfacePeer>, bp': seq<InterfacePeer>, changed': seq<string>)
    requires i < |ap0|
    requires aNames == NameIndex(ap0, PeerName) && bNames == NameIndex(bp0, PeerName)
    requires ap == PeersAfterDiffA(ap0[..i], bp0) + ap0[i..]
    requires bp == PeersAfterDiffB(ap0[..i], bp0)
    requires changed == ChangedPeers(ap0[..i], bp0)
    ensures ap' == PeersAfterDiffA(ap0[..i + 1], bp0) + ap0[i + 1..]
    ensures bp' == PeersAfterDiffB(ap0[..i + 1], bp0)
    ensures changed' == ChangedPeers(ap0[..i + 1], bp0)
  {
    var p := ap[i];
    assert p == ap0[i];
    NameIndexIsLastIndex(ap0, PeerName, p.name);
    NameIndexIsLastIndex(bp0, PeerName, p.name);
    AfterDiffAStep(ap0, bp0, i);
    AfterDiffBStep(ap0, bp0, i);
    ChangedStep(ap0, bp0, i);
    ap', bp', changed' := ap, bp, changed;
    if p.name in aNames && p.name in bNames {
      var j := bNames[p.name];
      assert bp[j] == bp0[j] || bp[j] == SortPeerIPs(bp0[j]);
      var d, pa, pb := DiffInterfacePeer(ap[i], bp[j]);
      PeerDiffOfSorted(p, bp0[j]);
      SortPeerIPsTwice(bp0[j]);
      ap' := ap[i := pa];
      bp' := bp[j := pb];
      if !d.NoChange() {
        changed' := changed + [bp'[j].name];
      }
    }
  }

  /** The peer part of `DiffInterface`: peers matched by name, the peers
      of each side missing from the other, and the changed peers, with the
      diffed peers' allowed IPs sorted in place. */
  method DiffPeers(ap0: seq<InterfacePeer>, bp0: seq<InterfacePeer>)
    returns (added: seq<InterfacePeer>, removed: seq<InterfacePeer>, changed: seq<string>,
             ap: seq<InterfacePeer>, bp: seq<InterfacePeer>)
    ensures added == Absent(bp0, PeerName, Names(ap0, PeerName))
    ensures removed == Absent(ap0, PeerName, Names(bp0, PeerName))
    ensures changed == ChangedPeers(ap0, bp0)
    ensures ap == PeersAfterDiffA(ap0, bp0) && bp == PeersAfterDiffB(ap0, bp0)
  {
    var aNames := BuildNameIndex(ap0, PeerName);
    var bNames := BuildNameIndex(bp0, PeerName);
    removed := CollectAbsent(ap0, PeerName, bNames, bp0);
    added := CollectAbsent(bp0, PeerName, aNames, ap0);
    ap, bp, changed := DiffPeerPairs(ap0, bp0, aNames, bNames);
  }

  /** The loop of `DiffPeers` over the peers of the current side. */
  method DiffPeerPairs(ap0: seq<InterfacePeer>, bp0: seq<InterfacePeer>,
                       aNames: map<string, int>, bNames: map<string, int>)
    returns (ap: seq<InterfacePeer>, bp: seq<InterfacePeer>, changed: seq<string>)
    requires aNames == NameIndex(ap0, PeerName) && bNames == NameIndex(bp0, PeerName)
    ensures changed == ChangedPeers(ap0, bp0)
    ensures ap == PeersAfterDiffA(ap0, bp0) && bp == PeersAfterDiffB(ap0, bp0)
  {
    ap, bp := ap0, bp0;
    changed := [];
    assert PeersAfterDiffB(ap0[..0], bp0) == bp0;
    for i := 0 to |ap0|
      invariant ap == PeersAfterDiffA(ap0[..i], bp0) + ap0[i..]
      invariant bp == PeersAfterDiffB(ap0[..i], bp0)
      invariant changed == ChangedPeers(ap0[..i], bp0)
    {
      ap, bp, changed := DiffPeerPair(ap0, bp0, i, ap, bp, changed, aNames, bNames);
    }
    assert ap0[..|ap0|] == ap0;
  }

  /** The interfaces as `DiffInterface` leaves them: addresses sorted by
      address, and the diffed peers' allowed IPs sorted. */
  function InterfaceAfterDiffA(a: Interface, b: Interface): Interface {
    a.(addresses := Sort(a.addresses, LessIP), peers := PeersAfterDiffA(a.peers, b.peers))
  }

  function InterfaceAfterDiffB(a: Interface, b: Interface): Interface {
    b.(addresses := Sort(b.addresses, LessIP), peers := PeersAfterDiffB(a.peers, b.peers))
  }

  /** `DiffInterface`: the two interfaces must have the same name. Peers are
      matched by name; the addresses of both sides are sorted in place by
      address (returned as `a1` and `b1`) and merged, as written. */
  method DiffInterface(a: Interface, b: Interface)
    returns (diff: Result<InterfaceDiff, DiffError>, a1: Interface, b1: Interface)
    requires a.name == b.name
    ensures diff == InterfaceDiffOf(a, b)
    ensures a1 == InterfaceAfterDiffA(a, b) && b1 == InterfaceAfterDiffB(a, b)
  {
    var privateKeyChanged := a.privateKey != b.privateKey;
    var listenPortChanged := a.listenPort != b.listenPort;
    var peersAdded, peersRemoved, peersChanged, ap, bp := DiffPeers(a.peers, b.peers);
    var sa, sb := Sort(a.addresses, LessIP), Sort(b.addresses, LessIP);
    a1 := a.(addresses := sa, peers := ap);
    b1 := b.(addresses := sb, peers := bp);
    var addresses := MergeAddresses(sa, sb);
    if addresses.Err? {
      return Err(addresses.error), a1, b1;
    }
    diff := Ok(InterfaceDiff(
      privateKeyChanged, listenPortChanged,
      addresses.value.added, addresses.value.removed, addresses.value.noChange,
      peersAdded, peersRemoved, peersChanged));
  }

  /** The address merge of `DiffInterface`, as written. */
  method MergeAddresses(sa: seq<IPNet>, sb: seq<IPNet>) returns (r: Result<AddressChanges, DiffError>)
    ensures r == AddressWalk(sa, sb, 0, 0, AddressChanges([], [], true))
  {
    var added, removed: seq<IPNet> := [], [];
    var noChange := true;
    var i, j := 0, 0;
    ghost var start := AddressChanges([], [], true);
    while i < |sa| && j < |sb|
      invariant 0 <= i <= |sa| && 0 <= j <= |sb|
      invariant AddressWalk(sa, sb, i, j, AddressChanges(added, removed, noChange)) == AddressWalk(sa, sb, 0, 0, start)
      decreases |sa| - i + |sb| - j
    {
      var cmp := Compare(sa[i].ip, sb[j].ip);
      if cmp < 0 {
        noChange := false;
        removed := removed + [sa[i]];
        i := i + 1;
      } else if cmp > 0 {
        noChange := false;
        added := added + [sa[i]];
        j := j + 1;
      } else {
        if sa[i].mask != sb[j].mask {
          noChange := false;
          removed := removed + [sa[i]];
          if i >= |sb| {
            return Err(IndexOutOfRange);
          }
          added := added + [sb[i]];
        }
        i, j := i + 1, j + 1;
      }
    }
    while i < |sa|
      invariant 0 <= i <= |sa| && 0 <= j <= |sb|
      invariant i < |sa| ==> j == |sb|
      invariant AddressWalk(sa, sb, i, j, AddressChanges(added, removed, noChange)) == AddressWalk(sa, sb, 0, 0, start)
    {
      noChange := false;
      removed := removed + [sa[i]];
      i := i + 1;
    }
    while j < |sb|
      invariant i == |sa| && 0 <= j <= |sb|
      invariant AddressWalk(sa, sb, i, j, AddressChanges(added, removed, noChange)) == AddressWalk(sa, sb, 0, 0, start)
    {
      noChange := false;
      added := added + [sb[j]];
      j := j + 1;
    }
    r := Ok(AddressChanges(added, removed, noChange));
  }

  /** `InterfacesChanged`: in the order of `ai`, the name of each interface
      that `bi` also has and whose diff against the last interface of `bi`
      with that name is a change; the first panicking diff stops it. */
  function ChangedInterfaces(ai: seq<Interface>, bi: seq<Interface>): Result<seq<string>, DiffError> {
    if ai == [] then Ok([])
    else
      var init := ChangedInterfaces(ai[..|ai| - 1], bi);
      var x := ai[|ai| - 1];
      var j := LastIndexOf(Names(bi, InterfaceName), x.name);
      if init.Err? || j < 0 then init
      else
        var d := InterfaceDiffOf(x, bi[j]);
        if d.Err? then Err(d.error)
        else if d.value.NoChange() then init
        else Ok(init.value + [bi[j].name])
  }

  /** What `DiffMachine` returns. It never sets `InterfaceNoChange`, nor the
      forwarding flags. */
  function MachineDiffOf(a: Machine, b: Machine): Result<MachineDiff, DiffError> {
    var changed := ChangedInterfaces(a.interfaces, b.interfaces);
    if changed.Err? then Err(changed.error)
    else Ok(MachineDiff(
      Absent(b.interfaces, InterfaceName, Names(a.interfaces, InterfaceName)),
      Absent(a.interfaces, InterfaceName, Names(b.interfaces, InterfaceName)),
      changed.value,
      false, false, false))
  }

  lemma ChangedInterfacesStep(ai: seq<Interface>, bi: seq<Interface>, i: nat)
    requires i < |ai|
    ensures var init := ChangedInterfaces(ai[..i], bi);
            var j := LastIndexOf(Names(bi, InterfaceName), ai[i].name);
            ChangedInterfaces(ai[..i + 1], bi) ==
              if init.Err? || j < 0 then init
              else if InterfaceDiffOf(ai[i], bi[j]).Err? then Err(InterfaceDiffOf(ai[i], bi[j]).error)
              else if InterfaceDiffOf(ai[i], bi[j]).value.NoChange() then init
              else Ok(init.value + [bi[j].name])
  {
    assert ai[..i + 1][..i] == ai[..i];
  }

  /** The first interface whose diff panics decides the outcome. */
  lemma {:induction false} ChangedInterfacesErrorSticks(ai: seq<Interface>, bi: seq<Interface>, i: nat)
    requires i <= |ai|
    requires ChangedInterfaces(ai[..i], bi).Err?
    ensures ChangedInterfaces(ai, bi) == ChangedInterfaces(ai[..i], bi)
    decreases |ai| - i
  {
    if i < |ai| {
      ChangedInterfacesStep(ai, bi, i);
      ChangedInterfacesErrorSticks(ai, bi, i + 1);
    } else {
      assert ai[..i] == ai;
    }
  }

  /** One iteration of the loop of `DiffMachine`. */
  method DiffInterfacePair(ai: seq<Interface>, bi: seq<Interface>, i: nat, changed: seq<string>,
                           aNames: map<string, int>, bNames: map<string, int>)
    returns (r: Result<seq<string>, DiffError>)
    requires i < |ai|
    requires aNames == NameIndex(ai, InterfaceName) && bNames == NameIndex(bi, InterfaceName)
    requires ChangedInterfaces(ai[..i], bi) == Ok(changed)
    ensures r == ChangedInterfaces(ai[..i + 1], bi)
  {
    ChangedInterfacesStep(ai, bi, i);
    var x := ai[i];
    NameIndexIsLastIndex(ai, InterfaceName, x.name);
    NameIndexIsLastIndex(bi, InterfaceName, x.name);
    r := Ok(changed);
    if x.name in aNames && x.name in bNames {
      var j := bNames[x.name];
      var d, _, _ := DiffInterface(x, bi[j]);
      if d.Err? {
        return Err(d.error);
      }
      if !d.value.NoChange() {
        r := Ok(changed + [bi[j].name]);
      }
    }
  }

  /** `DiffMachine`: interfaces are matched by name; each pair present on
      both sides is diffed with `DiffInterface`. */
  method DiffMachine(a: Machine, b: Machine) returns (diff: Result<MachineDiff, DiffError>)
    ensures diff == MachineDiffOf(a, b)
    ensures diff.Ok? ==>
      !diff.value.interfaceNoChange && !diff.value.forwardsIPv4Changed && !diff.value.forwardsIPv6Changed
  {
    var aNames := BuildNameIndex(a.interfaces, InterfaceName);
    var bNames := BuildNameIndex(b.interfaces, InterfaceName);
    var removed := CollectAbsent(a.interfaces, InterfaceName, bNames, b.interfaces);
    var added := CollectAbsent(b.interfaces, InterfaceName, aNames, a.interfaces);
    var changed: seq<string> := [];
    for i := 0 to |a.interfaces|
      invariant ChangedInterfaces(a.interfaces[..i], b.interfaces) == Ok(changed)
    {
      var r := DiffInterfacePair(a.interfaces, b.interfaces, i, changed, aNames, bNames);
      if r.Err? {
        ChangedInterfacesErrorSticks(a.interfaces, b.interfaces, i + 1);
        return Err(r.error);
      }
      changed := r.value;
    }
    assert a.interfaces[..|a.interfaces|] == a.interfaces;
    diff := Ok(MachineDiff(added, removed, changed, false, false, false));
  }

  // ---------------------------------------------------------------------
  // Diffing a goal against itself.

  /** No two elements share a name, as the goal's interfaces and peers are
      meant to be. */
  predicate DistinctNames<T>(xs: seq<T>, nameOf: T -> string) {
    forall i, j :: 0 <= i < j < |xs| ==> nameOf(xs[i]) != nameOf(xs[j])
  }

  lemma LastIndexOfDistinct<T>(xs: seq<T>, nameOf: T -> string, k: nat)
    requires DistinctNames(xs, nameOf) && k < |xs|
    ensures LastIndexOf(Names(xs, nameOf), nameOf(xs[k])) == k
  {
    var ns := Names(xs, nameOf);
    assert ns[k] == nameOf(xs[k]);
  }

  lemma {:induction false} ChangedPeersOfSelf(ap: seq<InterfacePeer>, i: nat)
    requires DistinctNames(ap, PeerName) && i <= |ap|
    ensures ChangedPeers(ap[..i], ap) == []
  {
    if i > 0 {
      ChangedPeersOfSelf(ap, i - 1);
      ChangedStep(ap, ap, i - 1);
      LastIndexOfDistinct(ap, PeerName, i - 1);
      PeerDiffNoChangeIff(ap[i - 1], ap[i - 1]);
    }
  }

  /** An interface whose peers have distinct names has no difference from
      itself. */
  lemma InterfaceDiffOfSelf(x: Interface)
    requires DistinctNames(x.peers, PeerName)
    ensures InterfaceDiffOf(x, x).Ok? && InterfaceDiffOf(x, x).value.NoChange()
  {
    AddressDiffNoChangeIff(x.addresses, x.addresses);
    AbsentExtremes(x.peers, PeerName, Names(x.peers, PeerName));
    ChangedPeersOfSelf(x.peers, |x.peers|);
    assert x.peers[..|x.peers|] == x.peers;
  }

  lemma {:induction false} ChangedInterfacesOfSelf(ai: seq<Interface>, i: nat)
    requires DistinctNames(ai, InterfaceName) && i <= |ai|
    requires forall k :: 0 <= k < |ai| ==> DistinctNames(ai[k].peers, PeerName)
    ensures ChangedInterfaces(ai[..i], ai) == Ok([])
  {
    if i > 0 {
      ChangedInterfacesOfSelf(ai, i - 1);
      ChangedInterfacesStep(ai, ai, i - 1);
      LastIndexOfDistinct(ai, InterfaceName, i - 1);
      InterfaceDiffOfSelf(ai[i - 1]);
    }
  }

  /** A machine diffed against itself reports no interface added, removed
      or changed. */
  lemma MachineDiffOfSelf(m: Machine)
    requires DistinctNames(m.interfaces, InterfaceName)
    requires forall k :: 0 <= k < |m.interfaces| ==> DistinctNames(m.interfaces[k].peers, PeerName)
    ensures MachineDiffOf(m, m) == Ok(MachineDiff([], [], [], false, false, false))
  {
    AbsentExtremes(m.interfaces, InterfaceName, Names(m.interfaces, InterfaceName));
    ChangedInterfacesOfSelf(m.interfaces, |m.interfaces|);
    assert m.interfaces[..|m.interfaces|] == m.interfaces;
  }

  /** A peer of the desired side whose name the current side lacks is
      reported added, whatever else the two sides hold. */
  lemma NewPeerIsAdded(a: Interface, b: Interface, p: InterfacePeer)
    requires p in b.peers && p.name !in Names(a.peers, PeerName)
    ensures InterfaceDiffOf(a, b).Ok? ==> p in InterfaceDiffOf(a, b).value.peersAdded
  {
    AbsentMembers(b.peers, PeerName, Names(a.peers, PeerName), p);
  }
}
