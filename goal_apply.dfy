/** Applying a diff to the host (`goal/apply_linux.go`). The kernel, netlink,
    wgctrl and `/proc` are abstracted into an `Os` value: the set of links,
    the contents of `ip_forward`, and the trace of calls issued so far. Which
    calls fail is decided by an oracle, the set of trace positions at which a
    call fails. */
module GoalApply {
  import opened Wrappers
  import opened Slices
  import opened Net
  import opened GoalUtil
  import opened Goal

  /** A peer as handed to `wgctrl`; `endpoint` is `None` for a blank
      endpoint, otherwise the address that was resolved. */
  datatype PeerConfig = PeerConfig(
    publicKey: Key,
    presharedKey: Option<Key>,
    endpoint: Option<string>,
    replaceAllowedIPs: bool,
    allowedIPs: seq<IPNet>)

  /** A device configuration; `listenPort` is `None` for port 0. */
  datatype DeviceConfig = DeviceConfig(
    privateKey: Key,
    listenPort: Option<int>,
    replacePeers: bool,
    peers: seq<PeerConfig>)

  /** The calls the apply code issues to the operating system. */
  datatype Op =
    | LinkByName(name: string)
    | LinkAdd(name: string)
    | LinkDel(name: string)
    | ResolveUDPAddr(endpoint: string)
    | ConfigureDevice(name: string, config: DeviceConfig)
    | AddrDel(name: string, ip: IPNet)
    | AddrAdd(name: string, ip: IPNet)
    | LinkSetUp(name: string)
    | RouteAdd(name: string, ip: IPNet)
    | RouteDel(name: string, ip: IPNet)
    | ReadIPForward
    | WriteIPForward(on: bool)

  /** `LinkNotFound` is the one error the caller inspects by type; a Go
      panic is `Panic`. */
  datatype ApplyError =
    | LinkNotFound(name: string)
    | OpFailed(op: Op)
    | NameTooLong(name: string)
    | ParseFailed
    | Panic

  /** The host as the apply code sees it. `ipForward` is the integer in
      `/proc/sys/net/ipv4/ip_forward`, or `None` when it does not parse. */
  datatype Os = Os(links: set<string>, ipForward: Option<int>, trace: seq<Op>)

  datatype Outcome = Outcome(os: Os, err: Option<ApplyError>)

  // ---------------------------------------------------------------------
  // One call.

  /** A call fails when the oracle says so at its position; looking up or
      deleting a missing link, and adding an existing one, fail too. */
  predicate Succeeds(op: Op, s: Os, failing: set<nat>) {
    && |s.trace| !in failing
    && match op
       case LinkByName(n) => n in s.links
       case LinkAdd(n) => n !in s.links
       case LinkDel(n) => n in s.links
       case _ => true
  }

  /** Only a lookup of a missing link reports `LinkNotFound`. */
  function ErrorOf(op: Op, s: Os): ApplyError {
    if op.LinkByName? && op.name !in s.links then LinkNotFound(op.name) else OpFailed(op)
  }

  function After(op: Op, s: Os, failing: set<nat>): Os {
    var ok := Succeeds(op, s, failing);
    Os(
      if ok && op.LinkAdd? then s.links + {op.name}
      else if ok && op.LinkDel? then s.links - {op.name}
      else s.links,
      if ok && op.WriteIPForward? then Some(if op.on then 1 else 0) else s.ipForward,
      s.trace + [op])
  }

  /** Issues `ops` in order and stops at the first that fails. */
  function Attempt(ops: seq<Op>, s: Os, failing: set<nat>): Outcome
    decreases |ops|
  {
    if ops == [] then Outcome(s, None)
    else if !Succeeds(ops[0], s, failing) then Outcome(After(ops[0], s, failing), Some(ErrorOf(ops[0], s)))
    else Attempt(ops[1..], After(ops[0], s, failing), failing)
  }

  /** Issues all of `ops`, ignoring failures, as the cleanup code does. */
  function IssueAll(ops: seq<Op>, s: Os, failing: set<nat>): Os
    decreases |ops|
  {
    if ops == [] then s else IssueAll(ops[1..], After(ops[0], s, failing), failing)
  }

  // ---------------------------------------------------------------------
  // ApplyInterfaceDiff.

  function ConfigOfPeer(p: InterfacePeer): PeerConfig {
    PeerConfig(p.publicKey, p.presharedKey, if p.endpoint == "" then None else Some(p.endpoint), true, p.allowedIPs)
  }

  /** The configuration `ApplyInterfaceDiff` sends for the desired
      interface: every peer of it, replacing all existing ones. */
  function ConfigOf(b: Interface): DeviceConfig {
    DeviceConfig(b.privateKey, if b.listenPort == 0 then None else Some(b.listenPort), true,
                 seq(|b.peers|, k requires 0 <= k < |b.peers| => ConfigOfPeer(b.peers[k])))
  }

  /** The endpoint of each peer that has one is resolved, in peer order. */
  function Resolves(peers: seq<InterfacePeer>): seq<Op> {
    if peers == [] then []
    else (if peers[0].endpoint == "" then [] else [ResolveUDPAddr(peers[0].endpoint)]) + Resolves(peers[1..])
  }

  /** The calls before any address is touched: the link lookup, the endpoint
      resolutions and the device configuration. */
  function Prefix(b: Interface): seq<Op> {
    [LinkByName(b.name)] + Resolves(b.peers) + [ConfigureDevice(b.name, ConfigOf(b))]
  }

  function AddrDels(name: string, ips: seq<IPNet>): seq<Op> {
    seq(|ips|, k requires 0 <= k < |ips| => AddrDel(name, ips[k]))
  }

  function AddrAdds(name: string, ips: seq<IPNet>): seq<Op> {
    seq(|ips|, k requires 0 <= k < |ips| => AddrAdd(name, ips[k]))
  }

  datatype RouteTask = RouteTask(add: bool, ip: IPNet)

  function RouteOp(name: string, t: RouteTask): Op {
    if t.add then RouteAdd(name, t.ip) else RouteDel(name, t.ip)
  }

  function RouteOps(name: string, tasks: seq<RouteTask>): seq<Op> {
    seq(|tasks|, k requires 0 <= k < |tasks| => RouteOp(name, tasks[k]))
  }

  function Tasks(add: bool, ips: seq<IPNet>): seq<RouteTask> {
    seq(|ips|, k requires 0 <= k < |ips| => RouteTask(add, ips[k]))
  }

  /** One task per allowed IP of each peer, in order. */
  function PeerTasks(peers: seq<InterfacePeer>, add: bool): seq<RouteTask> {
    if peers == [] then []
    else PeerTasks(peers[..|peers| - 1], add) + Tasks(add, peers[|peers| - 1].allowedIPs)
  }

  /** For a changed peer: adds for the allowed IPs it gained, then deletes
      for those it lost, each computed by `setDifference` under `lessIPNet`. */
  function ChangedPeerTasks(oldPeer: InterfacePeer, newPeer: InterfacePeer): seq<RouteTask> {
    var sNew := Sort(newPeer.allowedIPs, LessIPNet);
    var sOld := Sort(oldPeer.allowedIPs, LessIPNet);
    Tasks(true, Unmatched(sNew, sOld, LessIPNet)) + Tasks(false, Unmatched(sOld, sNew, LessIPNet))
  }

  /** The changed peers' tasks, each peer found by its first index on
      either side; a name missing from either side is an index panic. */
  function ChangedTasks(ap: seq<InterfacePeer>, bp: seq<InterfacePeer>, names: seq<string>)
    : Result<seq<RouteTask>, ApplyError>
  {
    if names == [] then Ok([])
    else
      var init := ChangedTasks(ap, bp, names[..|names| - 1]);
      var oldI := IndexOf(Names(ap, PeerName), names[|names| - 1]);
      var newI := IndexOf(Names(bp, PeerName), names[|names| - 1]);
      if init.Err? then init
      else if oldI < 0 || newI < 0 then Err(Panic)
      else Ok(init.value + ChangedPeerTasks(ap[oldI], bp[newI]))
  }

  /** The task list of `applyInterfaceDiffRoutes`: removed peers' allowed
      IPs as deletes, added peers' as adds, then the changed peers'. */
  function RouteTasks(a: Interface, b: Interface, id: InterfaceDiff): Result<seq<RouteTask>, ApplyError> {
    var changed := ChangedTasks(a.peers, b.peers, id.peersChanged);
    if changed.Err? then changed
    else Ok(PeerTasks(id.peersRemoved, false) + PeerTasks(id.peersAdded, true) + changed.value)
  }

  /** `applyInterfaceDiffRoutes`: runs the tasks in order and stops at the
      first failure. Its cleanup is registered after the loop, so tasks
      already done are never undone. */
  function RoutesOutcome(a: Interface, b: Interface, id: InterfaceDiff, s: Os, failing: set<nat>): Outcome {
    var tasks := RouteTasks(a, b, id);
    if tasks.Err? then Outcome(s, Some(tasks.error))
    else Attempt(RouteOps(b.name, tasks.value), s, failing)
  }

  /** `ApplyInterfaceDiff`: interfaces of different names are refused with
      a panic; the link lookup, endpoint resolutions and device
      configuration come first, and a failure among them undoes nothing. */
  function ApplyInterfaceDiffOutcome(a: Interface, b: Interface, id: InterfaceDiff, setUpLink: bool,
                                     s: Os, failing: set<nat>): Outcome
  {
    if a.name != b.name then Outcome(s, Some(Panic))
    else
      var o := Attempt(Prefix(b), s, failing);
      if o.err.Some? then o else RemoveAddressesOutcome(a, b, id, o.os, failing)
  }

  /** From the address removals on: a failure among them undoes nothing. */
  function RemoveAddressesOutcome(a: Interface, b: Interface, id: InterfaceDiff, s: Os, failing: set<nat>): Outcome {
    var o := Attempt(AddrDels(b.name, id.addressesRemoved), s, failing);
    if o.err.Some? then o else AddAddressesOutcome(a, b, id, o.os, failing)
  }

  /** From the address additions on: a failure among them re-adds the
      removed addresses, as the first cleanup registered. */
  function AddAddressesOutcome(a: Interface, b: Interface, id: InterfaceDiff, s: Os, failing: set<nat>): Outcome {
    var o := Attempt(AddrAdds(b.name, id.addressesAdded), s, failing);
    if o.err.Some? then Outcome(IssueAll(AddrAdds(b.name, id.addressesRemoved), o.os, failing), o.err)
    else LinkUpOutcome(a, b, id, o.os, failing)
  }

  /** From the link-up on (done whatever `setUpLink` says): a failure at
      link-up or in the routes runs both cleanups, last registered first,
      deleting the added addresses and then re-adding the removed ones. A
      panic runs no cleanup, since the error variable is still nil. */
  function LinkUpOutcome(a: Interface, b: Interface, id: InterfaceDiff, s: Os, failing: set<nat>): Outcome {
    var o1 := Attempt([LinkSetUp(b.name)], s, failing);
    var o2 := if o1.err.Some? then o1 else RoutesOutcome(a, b, id, o1.os, failing);
    if o2.err.None? || o2.err == Some(Panic) then o2
    else
      var undone := IssueAll(AddrDels(b.name, id.addressesAdded), o2.os, failing);
      Outcome(IssueAll(AddrAdds(b.name, id.addressesRemoved), undone, failing), o2.err)
  }

  // ---------------------------------------------------------------------
  // Interfaces and machines.

  /** `DeleteInterface`: look the link up, then delete it. */
  function DeleteInterfaceOutcome(iface: Interface, s: Os, failing: set<nat>): Outcome {
    Attempt([LinkByName(iface.name), LinkDel(iface.name)], s, failing)
  }

  /** The interface `CreateInterface` diffs against: same name, private key
      and listen port, no addresses and no peers. */
  function Base(iface: Interface): Interface {
    Interface(iface.name, iface.privateKey, iface.listenPort, [], [])
  }

  /** `CreateInterface`: names longer than 15 bytes are refused before any
      call; otherwise the link is added, the diff against `Base` applied,
      and the link deleted again if that fails. */
  function CreateInterfaceOutcome(iface: Interface, s: Os, failing: set<nat>): Outcome {
    if |iface.name| > 15 then Outcome(s, Some(NameTooLong(iface.name)))
    else
      var o1 := Attempt([LinkAdd(iface.name)], s, failing);
      if o1.err.Some? then o1
      else
        var base := Base(iface);
        var id := InterfaceDiffOf(base, iface);
        if id.Err? then Outcome(o1.os, Some(Panic))
        else
          var o2 := ApplyInterfaceDiffOutcome(InterfaceAfterDiffA(base, iface), InterfaceAfterDiffB(base, iface),
                                              id.value, true, o1.os, failing);
          if o2.err.None? || o2.err == Some(Panic) then o2
          else Outcome(IssueAll([LinkDel(iface.name)], o2.os, failing), o2.err)
  }

  function DeleteAll(ifaces: seq<Interface>, s: Os, failing: set<nat>): Outcome
    decreases |ifaces|
  {
    if ifaces == [] then Outcome(s, None)
    else
      var o := DeleteInterfaceOutcome(ifaces[0], s, failing);
      if o.err.Some? then o else DeleteAll(ifaces[1..], o.os, failing)
  }

  function CreateAll(ifaces: seq<Interface>, s: Os, failing: set<nat>): Outcome
    decreases |ifaces|
  {
    if ifaces == [] then Outcome(s, None)
    else
      var o := CreateInterfaceOutcome(ifaces[0], s, failing);
      if o.err.Some? then o else CreateAll(ifaces[1..], o.os, failing)
  }

  /** One changed interface: both sides found by their first index (a
      missing name is an index panic), diffed, and the diff applied; a
      missing link is created from the desired interface instead. */
  function ChangeOutcome(a: Machine, b: Machine, name: string, s: Os, failing: set<nat>): Outcome {
    var ai := IndexOf(Names(a.interfaces, InterfaceName), name);
    var bi := IndexOf(Names(b.interfaces, InterfaceName), name);
    if ai < 0 || bi < 0 then Outcome(s, Some(Panic))
    else
      var x, y := a.interfaces[ai], b.interfaces[bi];
      var id := InterfaceDiffOf(x, y);
      if id.Err? then Outcome(s, Some(Panic))
      else
        var y' := InterfaceAfterDiffB(x, y);
        var o := ApplyInterfaceDiffOutcome(InterfaceAfterDiffA(x, y), y', id.value, false, s, failing);
        if o.err.Some? && o.err.value.LinkNotFound? then CreateInterfaceOutcome(y', o.os, failing) else o
  }

  function ChangeAll(a: Machine, b: Machine, names: seq<string>, s: Os, failing: set<nat>): Outcome
    decreases |names|
  {
    if names == [] then Outcome(s, None)
    else
      var o := ChangeOutcome(a, b, names[0], s, failing);
      if o.err.Some? then o else ChangeAll(a, b, names[1..], o.os, failing)
  }

  /** Reads `ip_forward` and writes it only when its value (1 meaning on)
      differs from the desired setting. */
  function IPForwardOutcome(want: bool, s: Os, failing: set<nat>): Outcome {
    var o := Attempt([ReadIPForward], s, failing);
    if o.err.Some? then o
    else if s.ipForward.None? then Outcome(o.os, Some(ParseFailed))
    else if (s.ipForward.value == 1) != want then Attempt([WriteIPForward(want)], o.os, failing)
    else o
  }

  /** `ApplyMachineDiff`: removals, then additions, then changes, then
      IPv4 forwarding, stopping at the first error; a change of IPv6
      forwarding panics. */
  function ApplyMachineDiffOutcome(a: Machine, b: Machine, md: MachineDiff, writeProc: bool,
                                   s: Os, failing: set<nat>): Outcome
  {
    var o1 := DeleteAll(md.interfacesRemoved, s, failing);
    if o1.err.Some? then o1
    else
      var o2 := CreateAll(md.interfacesAdded, o1.os, failing);
      if o2.err.Some? then o2
      else
        var o3 := ChangeAll(a, b, md.interfacesChanged, o2.os, failing);
        if o3.err.Some? then o3
        else
          var o4 := if md.forwardsIPv4Changed && writeProc then IPForwardOutcome(b.forwardsIPv4, o3.os, failing)
                    else o3;
          if o4.err.Some? then o4
          else if md.forwardsIPv6Changed then Outcome(o4.os, Some(Panic))
          else o4
  }

  // ---------------------------------------------------------------------
  // How a sequence of calls plays out.

  /** The offset of the first of `n` consecutive trace positions from `p`
      at which a call fails, or `n` when none does. */
  function FirstFailure(p: nat, n: nat, failing: set<nat>): (k: nat)
    ensures k <= n
    ensures forall q :: p <= q < p + k ==> q !in failing
    ensures k < n ==> p + k in failing
    decreases n
  {
    if n == 0 || p in failing then 0 else 1 + FirstFailure(p + 1, n - 1, failing)
  }

  /** A call that neither changes the links nor writes `ip_forward`. */
  predicate Observing(op: Op) {
    !op.LinkAdd? && !op.LinkDel? && !op.WriteIPForward?
  }

  /** An observing call that fails only when the oracle says so. */
  predicate Plain(op: Op) {
    Observing(op) && !op.LinkByName?
  }

  /** A plain call is recorded and changes nothing else; it fails only
      when the oracle says so. */
  lemma AttemptPlainStep(ops: seq<Op>, s: Os, failing: set<nat>)
    requires ops != [] && Plain(ops[0])
    ensures var s' := s.(trace := s.trace + [ops[0]]);
            Attempt(ops, s, failing)
              == if |s.trace| in failing then Outcome(s', Some(OpFailed(ops[0])))
                 else Attempt(ops[1..], s', failing)
  {
    assert After(ops[0], s, failing) == s.(trace := s.trace + [ops[0]]);
  }

  /** Plain calls run up to and including the first failing one. */
  lemma AttemptPlainFails(ops: seq<Op>, s: Os, failing: set<nat>)
    requires forall i :: 0 <= i < |ops| ==> Plain(ops[i])
    requires FirstFailure(|s.trace|, |ops|, failing) < |ops|
    ensures var k := FirstFailure(|s.trace|, |ops|, failing);
            Attempt(ops, s, failing) == Outcome(s.(trace := s.trace + ops[..k + 1]), Some(OpFailed(ops[k])))
  {
    AttemptPlainFailsAt(ops, s, failing, FirstFailure(|s.trace|, |ops|, failing));
  }

  /** `AttemptPlainFails` for a given position of the first failure. */
  lemma {:induction false} AttemptPlainFailsAt(ops: seq<Op>, s: Os, failing: set<nat>, k: nat)
    requires forall i :: 0 <= i < |ops| ==> Plain(ops[i])
    requires k < |ops|
    requires forall q :: |s.trace| <= q < |s.trace| + k ==> q !in failing
    requires |s.trace| + k in failing
    ensures Attempt(ops, s, failing) == Outcome(s.(trace := s.trace + ops[..k + 1]), Some(OpFailed(ops[k])))
    decreases k
  {
    AttemptPlainStep(ops, s, failing);
    if k == 0 {
      assert ops[..1] == [ops[0]];
    } else {
      var s' := s.(trace := s.trace + [ops[0]]);
      assert |s.trace| !in failing;
      assert forall i :: 0 <= i < |ops[1..]| ==> Plain(ops[1..][i]);
      AttemptPlainFailsAt(ops[1..], s', failing, k - 1);
      AttemptPlainFailsLater(ops, s, failing, k - 1);
    }
  }

  /** The step of `AttemptPlainFails`: a first call that succeeds puts the
      rest's failure one position later. */
  lemma AttemptPlainFailsLater(ops: seq<Op>, s: Os, failing: set<nat>, k: nat)
    requires k + 2 <= |ops| && Plain(ops[0]) && |s.trace| !in failing
    requires var s' := s.(trace := s.trace + [ops[0]]);
             Attempt(ops[1..], s', failing) == Outcome(s'.(trace := s'.trace + ops[1..][..k + 1]), Some(OpFailed(ops[1..][k])))
    ensures Attempt(ops, s, failing) == Outcome(s.(trace := s.trace + ops[..k + 2]), Some(OpFailed(ops[k + 1])))
  {
    AttemptPlainStep(ops, s, failing);
    TraceShift(s.trace, ops, k);
  }

  /** Issuing the first call and then a prefix of the rest issues a prefix
      of all the calls. */
  lemma TraceShift(trace: seq<Op>, ops: seq<Op>, k: nat)
    requires k + 2 <= |ops|
    ensures (trace + [ops[0]]) + ops[1..][..k + 1] == trace + ops[..k + 2]
    ensures ops[1..][k] == ops[k + 1]
  {
    assert ops[1..][..k + 1] == ops[1..k + 2];
    assert [ops[0]] + ops[1..k + 2] == ops[..k + 2];
  }

  /** Plain calls that all succeed are all issued. */
  lemma {:induction false} AttemptPlainSucceeds(ops: seq<Op>, s: Os, failing: set<nat>)
    requires forall i :: 0 <= i < |ops| ==> Plain(ops[i])
    requires FirstFailure(|s.trace|, |ops|, failing) == |ops|
    ensures Attempt(ops, s, failing) == Outcome(s.(trace := s.trace + ops), None)
    decreases |ops|
  {
    if ops != [] {
      AttemptPlainStep(ops, s, failing);
      var s' := s.(trace := s.trace + [ops[0]]);
      AttemptPlainSucceeds(ops[1..], s', failing);
      assert [ops[0]] + ops[1..] == ops;
    }
  }

  /** Observing calls keep the links and `ip_forward`; when none fails, the
      trace grows by exactly those calls. */
  lemma {:induction false} AttemptObserving(ops: seq<Op>, s: Os, failing: set<nat>)
    requires forall i :: 0 <= i < |ops| ==> Observing(ops[i])
    ensures var o := Attempt(ops, s, failing);
            && o.os.links == s.links && o.os.ipForward == s.ipForward
            && (o.err.None? ==> o.os.trace == s.trace + ops)
    decreases |ops|
  {
    if ops != [] && Succeeds(ops[0], s, failing) {
      AttemptObserving(ops[1..], After(ops[0], s, failing), failing);
      assert [ops[0]] + ops[1..] == ops;
    }
  }

  /** Cleanup calls that only observe leave the links and `ip_forward` alone
      and are all issued. */
  lemma {:induction false} IssueAllObserving(ops: seq<Op>, s: Os, failing: set<nat>)
    requires forall i :: 0 <= i < |ops| ==> Observing(ops[i])
    ensures IssueAll(ops, s, failing) == s.(trace := s.trace + ops)
    decreases |ops|
  {
    if ops != [] {
      IssueAllObserving(ops[1..], After(ops[0], s, failing), failing);
      assert [ops[0]] + ops[1..] == ops;
    }
  }

  lemma {:induction false} ResolvesObserve(peers: seq<InterfacePeer>)
    ensures forall i :: 0 <= i < |Resolves(peers)| ==> Resolves(peers)[i].ResolveUDPAddr?
  {
    if peers != [] {
      ResolvesObserve(peers[1..]);
    }
  }

  lemma AddrOpsPrefix(name: string, ips: seq<IPNet>, m: nat)
    requires m <= |ips|
    ensures AddrDels(name, ips)[..m] == AddrDels(name, ips[..m])
    ensures AddrAdds(name, ips)[..m] == AddrAdds(name, ips[..m])
  {
  }

  lemma RouteOpsPrefix(name: string, tasks: seq<RouteTask>, m: nat)
    requires m <= |tasks|
    ensures RouteOps(name, tasks)[..m] == RouteOps(name, tasks[..m])
  {
  }

  // ---------------------------------------------------------------------
  // ApplyInterfaceDiff, by where the first failure happens.

  /** A missing link is reported as such, after one call and before any
      change. */
  lemma MissingLinkIsReported(a: Interface, b: Interface, id: InterfaceDiff, setUpLink: bool, s: Os, failing: set<nat>)
    requires a.name == b.name && b.name !in s.links
    ensures ApplyInterfaceDiffOutcome(a, b, id, setUpLink, s, failing)
         == Outcome(s.(trace := s.trace + [LinkByName(b.name)]), Some(LinkNotFound(b.name)))
  {
  }

  /** When the lookup, resolutions and configuration succeed, the host is
      as it was, with those calls appended, and the removals follow. */
  lemma PrefixSucceeds(a: Interface, b: Interface, id: InterfaceDiff, setUpLink: bool, s: Os, failing: set<nat>)
    requires a.name == b.name
    requires Attempt(Prefix(b), s, failing).err == None
    ensures ApplyInterfaceDiffOutcome(a, b, id, setUpLink, s, failing)
         == RemoveAddressesOutcome(a, b, id, s.(trace := s.trace + Prefix(b)), failing)
  {
    ResolvesObserve(b.peers);
    AttemptObserving(Prefix(b), s, failing);
  }

  /** A failure while removing addresses undoes nothing. */
  lemma RemovalFailureUndoesNothing(a: Interface, b: Interface, id: InterfaceDiff, s: Os, failing: set<nat>)
    requires FirstFailure(|s.trace|, |id.addressesRemoved|, failing) < |id.addressesRemoved|
    ensures var k := FirstFailure(|s.trace|, |id.addressesRemoved|, failing);
            RemoveAddressesOutcome(a, b, id, s, failing)
              == Outcome(s.(trace := s.trace + AddrDels(b.name, id.addressesRemoved[..k + 1])),
                         Some(OpFailed(AddrDel(b.name, id.addressesRemoved[k]))))
  {
    AttemptPlainFails(AddrDels(b.name, id.addressesRemoved), s, failing);
    var k := FirstFailure(|s.trace|, |id.addressesRemoved|, failing);
    AddrOpsPrefix(b.name, id.addressesRemoved, k + 1);
  }

  /** When every removal succeeds, the additions follow. */
  lemma RemovalsSucceed(a: Interface, b: Interface, id: InterfaceDiff, s: Os, failing: set<nat>)
    requires FirstFailure(|s.trace|, |id.addressesRemoved|, failing) == |id.addressesRemoved|
    ensures RemoveAddressesOutcome(a, b, id, s, failing)
         == AddAddressesOutcome(a, b, id, s.(trace := s.trace + AddrDels(b.name, id.addressesRemoved)), failing)
  {
    AttemptPlainSucceeds(AddrDels(b.name, id.addressesRemoved), s, failing);
  }

  /** A failure while adding addresses re-adds every removed address, but
      leaves the additions made so far in place. */
  lemma AdditionFailureReaddsRemoved(a: Interface, b: Interface, id: InterfaceDiff, s: Os, failing: set<nat>)
    requires FirstFailure(|s.trace|, |id.addressesAdded|, failing) < |id.addressesAdded|
    ensures var k := FirstFailure(|s.trace|, |id.addressesAdded|, failing);
            AddAddressesOutcome(a, b, id, s, failing)
              == Outcome(s.(trace := s.trace + AddrAdds(b.name, id.addressesAdded[..k + 1])
                                     + AddrAdds(b.name, id.addressesRemoved)),
                         Some(OpFailed(AddrAdd(b.name, id.addressesAdded[k]))))
  {
    AttemptPlainFails(AddrAdds(b.name, id.addressesAdded), s, failing);
    var k := FirstFailure(|s.trace|, |id.addressesAdded|, failing);
    AddrOpsPrefix(b.name, id.addressesAdded, k + 1);
    var s1 := s.(trace := s.trace + AddrAdds(b.name, id.addressesAdded[..k + 1]));
    IssueAllObserving(AddrAdds(b.name, id.addressesRemoved), s1, failing);
  }

  /** When every addition succeeds, the link-up follows. */
  lemma AdditionsSucceed(a: Interface, b: Interface, id: InterfaceDiff, s: Os, failing: set<nat>)
    requires FirstFailure(|s.trace|, |id.addressesAdded|, failing) == |id.addressesAdded|
    ensures AddAddressesOutcome(a, b, id, s, failing)
         == LinkUpOutcome(a, b, id, s.(trace := s.trace + AddrAdds(b.name, id.addressesAdded)), failing)
  {
    AttemptPlainSucceeds(AddrAdds(b.name, id.addressesAdded), s, failing);
  }

  /** The two address cleanups, last registered first. */
  lemma RollbackIssuesBoth(name: string, id: InterfaceDiff, s: Os, failing: set<nat>)
    ensures IssueAll(AddrAdds(name, id.addressesRemoved), IssueAll(AddrDels(name, id.addressesAdded), s, failing), failing)
         == s.(trace := s.trace + AddrDels(name, id.addressesAdded) + AddrAdds(name, id.addressesRemoved))
  {
    IssueAllObserving(AddrDels(name, id.addressesAdded), s, failing);
    IssueAllObserving(AddrAdds(name, id.addressesRemoved), s.(trace := s.trace + AddrDels(name, id.addressesAdded)), failing);
  }

  /** A failure to set the link up deletes the added addresses, then
      re-adds the removed ones. */
  lemma LinkUpFailureRollsBack(a: Interface, b: Interface, id: InterfaceDiff, s: Os, failing: set<nat>)
    requires |s.trace| in failing
    ensures LinkUpOutcome(a, b, id, s, failing)
         == Outcome(s.(trace := s.trace + [LinkSetUp(b.name)] + AddrDels(b.name, id.addressesAdded)
                                + AddrAdds(b.name, id.addressesRemoved)),
                    Some(OpFailed(LinkSetUp(b.name))))
  {
    RollbackIssuesBoth(b.name, id, s.(trace := s.trace + [LinkSetUp(b.name)]), failing);
  }

  /** A failing route task stops the routes; the tasks done before it stay
      done, since the route cleanup is never registered, and only the
      addresses are rolled back. */
  lemma RouteFailureKeepsDoneRoutes(a: Interface, b: Interface, id: InterfaceDiff, s: Os, failing: set<nat>,
                                    tasks: seq<RouteTask>)
    requires |s.trace| !in failing
    requires RouteTasks(a, b, id) == Ok(tasks)
    requires FirstFailure(|s.trace| + 1, |tasks|, failing) < |tasks|
    ensures var k := FirstFailure(|s.trace| + 1, |tasks|, failing);
            LinkUpOutcome(a, b, id, s, failing)
              == Outcome(s.(trace := s.trace + [LinkSetUp(b.name)] + RouteOps(b.name, tasks[..k + 1])
                                     + AddrDels(b.name, id.addressesAdded) + AddrAdds(b.name, id.addressesRemoved)),
                         Some(OpFailed(RouteOp(b.name, tasks[k]))))
  {
    var s1 := s.(trace := s.trace + [LinkSetUp(b.name)]);
    AttemptPlainSucceeds([LinkSetUp(b.name)], s, failing);
    var ops := RouteOps(b.name, tasks);
    AttemptPlainFails(ops, s1, failing);
    var k := FirstFailure(|s1.trace|, |tasks|, failing);
    RouteOpsPrefix(b.name, tasks, k + 1);
    var s2 := s1.(trace := s1.trace + RouteOps(b.name, tasks[..k + 1]));
    var e := Some(OpFailed(RouteOp(b.name, tasks[k])));
    assert RoutesOutcome(a, b, id, s1, failing) == Outcome(s2, e);
    RollbackIssuesBoth(b.name, id, s2, failing);
    assert LinkUpOutcome(a, b, id, s, failing)
        == Outcome(s2.(trace := s2.trace + AddrDels(b.name, id.addressesAdded) + AddrAdds(b.name, id.addressesRemoved)), e);
  }

  /** Without a failure, the link goes up and every route task runs once,
      in order, and nothing is undone. */
  lemma LinkUpAndRoutesSucceed(a: Interface, b: Interface, id: InterfaceDiff, s: Os, failing: set<nat>,
                               tasks: seq<RouteTask>)
    requires |s.trace| !in failing
    requires RouteTasks(a, b, id) == Ok(tasks)
    requires FirstFailure(|s.trace| + 1, |tasks|, failing) == |tasks|
    ensures LinkUpOutcome(a, b, id, s, failing)
         == Outcome(s.(trace := s.trace + [LinkSetUp(b.name)] + RouteOps(b.name, tasks)), None)
  {
    var s1 := s.(trace := s.trace + [LinkSetUp(b.name)]);
    AttemptPlainSucceeds([LinkSetUp(b.name)], s, failing);
    AttemptPlainSucceeds(RouteOps(b.name, tasks), s1, failing);
  }

  // ---------------------------------------------------------------------
  // Route tasks.

  lemma TasksMembers(add: bool, ips: seq<IPNet>, t: RouteTask)
    ensures t in Tasks(add, ips) <==> t.add == add && t.ip in ips
  {
    if t.add == add && t.ip in ips {
      var k :| 0 <= k < |ips| && ips[k] == t.ip;
      assert Tasks(add, ips)[k] == t;
    }
  }

  lemma SortMembers<T>(s: seq<T>, less: (T, T) -> bool, x: T)
    ensures x in Sort(s, less) <==> x in s
  {
    assert x in multiset(Sort(s, less)) <==> x in multiset(s);
  }

  /** A changed peer gets an add task for exactly the allowed IPs it gained
      and a delete task for exactly those it lost. */
  lemma ChangedPeerTasksAreDifferences(oldPeer: InterfacePeer, newPeer: InterfacePeer, t: RouteTask)
    ensures t in ChangedPeerTasks(oldPeer, newPeer) <==>
      if t.add then t.ip in newPeer.allowedIPs && t.ip !in oldPeer.allowedIPs
      else t.ip in oldPeer.allowedIPs && t.ip !in newPeer.allowedIPs
  {
    LessIPNetIsStrictTotalOrder();
    var sNew := Sort(newPeer.allowedIPs, LessIPNet);
    var sOld := Sort(oldPeer.allowedIPs, LessIPNet);
    UnmatchedIsDifference(sNew, sOld, LessIPNet, t.ip);
    UnmatchedIsDifference(sOld, sNew, LessIPNet, t.ip);
    SortMembers(newPeer.allowedIPs, LessIPNet, t.ip);
    SortMembers(oldPeer.allowedIPs, LessIPNet, t.ip);
    TasksMembers(true, Unmatched(sNew, sOld, LessIPNet), t);
    TasksMembers(false, Unmatched(sOld, sNew, LessIPNet), t);
  }

  lemma {:induction false} ChangedTasksOk(ap: seq<InterfacePeer>, bp: seq<InterfacePeer>, names: seq<string>)
    requires forall i :: 0 <= i < |names| ==> names[i] in Names(ap, PeerName) && names[i] in Names(bp, PeerName)
    ensures ChangedTasks(ap, bp, names).Ok?
  {
    if names != [] {
      ChangedTasksOk(ap, bp, names[..|names| - 1]);
    }
  }

  lemma NamesAfterDiff(ap: seq<InterfacePeer>, bp: seq<InterfacePeer>)
    ensures Names(PeersAfterDiffA(ap, bp), PeerName) == Names(ap, PeerName)
    ensures Names(PeersAfterDiffB(ap, bp), PeerName) == Names(bp, PeerName)
  {
    forall k | 0 <= k < |ap| ensures PeersAfterDiffA(ap, bp)[k].name == ap[k].name {
      SortPeerIPsTwice(ap[k]);
    }
    forall k | 0 <= k < |bp| ensures PeersAfterDiffB(ap, bp)[k].name == bp[k].name {
      SortPeerIPsTwice(bp[k]);
    }
  }

  /** Applying a diff that `DiffInterface` produced never panics while
      building route tasks: every changed peer is found on both sides. */
  lemma RouteTasksOfDiffAreOk(a: Interface, b: Interface)
    requires InterfaceDiffOf(a, b).Ok?
    ensures RouteTasks(InterfaceAfterDiffA(a, b), InterfaceAfterDiffB(a, b), InterfaceDiffOf(a, b).value).Ok?
  {
    var names := ChangedPeers(a.peers, b.peers);
    NamesAfterDiff(a.peers, b.peers);
    forall i | 0 <= i < |names|
      ensures names[i] in Names(PeersAfterDiffA(a.peers, b.peers), PeerName)
      ensures names[i] in Names(PeersAfterDiffB(a.peers, b.peers), PeerName)
    {
      assert names[i] in names;
    }
    ChangedTasksOk(PeersAfterDiffA(a.peers, b.peers), PeersAfterDiffB(a.peers, b.peers), names);
  }

  // ---------------------------------------------------------------------
  // Links: only interface creation and deletion change them.

  lemma RouteOpsObserve(name: string, tasks: seq<RouteTask>)
    ensures forall i :: 0 <= i < |RouteOps(name, tasks)| ==> Plain(RouteOps(name, tasks)[i])
  {
  }

  lemma LinkUpKeepsLinks(a: Interface, b: Interface, id: InterfaceDiff, s: Os, failing: set<nat>)
    ensures LinkUpOutcome(a, b, id, s, failing).os.links == s.links
  {
    AttemptObserving([LinkSetUp(b.name)], s, failing);
    var o1 := Attempt([LinkSetUp(b.name)], s, failing);
    if o1.err.None? && RouteTasks(a, b, id).Ok? {
      RouteOpsObserve(b.name, RouteTasks(a, b, id).value);
      AttemptObserving(RouteOps(b.name, RouteTasks(a, b, id).value), o1.os, failing);
    }
    var o2 := if o1.err.Some? then o1 else RoutesOutcome(a, b, id, o1.os, failing);
    IssueAllObserving(AddrDels(b.name, id.addressesAdded), o2.os, failing);
    IssueAllObserving(AddrAdds(b.name, id.addressesRemoved), IssueAll(AddrDels(b.name, id.addressesAdded), o2.os, failing), failing);
  }

  /** `ApplyInterfaceDiff` never adds or deletes a link. */
  lemma ApplyInterfaceDiffKeepsLinks(a: Interface, b: Interface, id: InterfaceDiff, setUpLink: bool, s: Os, failing: set<nat>)
    ensures ApplyInterfaceDiffOutcome(a, b, id, setUpLink, s, failing).os.links == s.links
  {
    ResolvesObserve(b.peers);
    AttemptObserving(Prefix(b), s, failing);
    var s1 := Attempt(Prefix(b), s, failing).os;
    AttemptObserving(AddrDels(b.name, id.addressesRemoved), s1, failing);
    var s2 := Attempt(AddrDels(b.name, id.addressesRemoved), s1, failing).os;
    AttemptObserving(AddrAdds(b.name, id.addressesAdded), s2, failing);
    var s3 := Attempt(AddrAdds(b.name, id.addressesAdded), s2, failing).os;
    IssueAllObserving(AddrAdds(b.name, id.addressesRemoved), s3, failing);
    LinkUpKeepsLinks(a, b, id, s3, failing);
  }

  /** `CreateInterface` diffs against an interface that has nothing: every
      address is added, sorted, and every peer is added. */
  lemma BaseDiffAddsEverything(iface: Interface)
    ensures InterfaceDiffOf(Base(iface), iface)
         == Ok(InterfaceDiff(false, false, Sort(iface.addresses, LessIP), [], iface.addresses == [], iface.peers, [], []))
  {
    AddressDiffFromEmpty(iface.addresses);
    AbsentExtremes(iface.peers, PeerName, Names([], PeerName));
  }

  /** Names longer than 15 bytes are refused before any call. */
  lemma CreateInterfaceRejectsLongName(iface: Interface, s: Os, failing: set<nat>)
    requires |iface.name| > 15
    ensures CreateInterfaceOutcome(iface, s, failing) == Outcome(s, Some(NameTooLong(iface.name)))
  {
  }

  /** A created interface is the only link added; when the creation fails
      otherwise than by a panic, the link is deleted again, unless that
      final deletion fails too. */
  lemma CreateInterfaceLinks(iface: Interface, s: Os, failing: set<nat>)
    ensures var o := CreateInterfaceOutcome(iface, s, failing);
            && (o.err.None? ==> o.os.links == s.links + {iface.name} && iface.name !in s.links)
            && (o.err.Some? && o.err != Some(Panic) ==>
                  o.os.links == s.links
                  || (|o.os.trace| > 0 && |o.os.trace| - 1 in failing && o.os.links == s.links + {iface.name}))
  {
    if |iface.name| <= 15 {
      AttemptOne(LinkAdd(iface.name), s, failing);
      var o1 := Attempt([LinkAdd(iface.name)], s, failing);
      var base := Base(iface);
      var id := InterfaceDiffOf(base, iface);
      if o1.err.None? && id.Ok? {
        var x, y := InterfaceAfterDiffA(base, iface), InterfaceAfterDiffB(base, iface);
        ApplyInterfaceDiffKeepsLinks(x, y, id.value, true, o1.os, failing);
        var o2 := ApplyInterfaceDiffOutcome(x, y, id.value, true, o1.os, failing);
        assert [LinkDel(iface.name)][1..] == [];
        assert IssueAll([LinkDel(iface.name)], o2.os, failing) == After(LinkDel(iface.name), o2.os, failing);
      }
    }
  }

  // ---------------------------------------------------------------------
  // ip_forward and the machine level.

  lemma AttemptOne(op: Op, s: Os, failing: set<nat>)
    ensures Attempt([op], s, failing)
         == Outcome(After(op, s, failing), if Succeeds(op, s, failing) then None else Some(ErrorOf(op, s)))
  {
    assert [op][1..] == [];
  }

  /** `ip_forward` is read, and written only when its value differs from
      the desired setting; once the step succeeds, the setting is the
      desired one. */
  lemma IPForwardWrittenOnlyWhenDiffers(want: bool, s: Os, failing: set<nat>)
    requires |s.trace| !in failing
    ensures var o := IPForwardOutcome(want, s, failing);
            var differs := s.ipForward.Some? && (s.ipForward.value == 1) != want;
            && o.os.trace == s.trace + [ReadIPForward] + (if differs then [WriteIPForward(want)] else [])
            && (o.err.None? ==> o.os.ipForward.Some? && (o.os.ipForward.value == 1) == want)
            && (o.err.None? <==> s.ipForward.Some? && (!differs || |s.trace| + 1 !in failing))
  {
    AttemptOne(ReadIPForward, s, failing);
    AttemptOne(WriteIPForward(want), After(ReadIPForward, s, failing), failing);
  }

  /** A change of IPv6 forwarding never applies successfully. */
  lemma ForwardsIPv6ChangeFails(a: Machine, b: Machine, md: MachineDiff, writeProc: bool, s: Os, failing: set<nat>)
    requires md.forwardsIPv6Changed
    ensures ApplyMachineDiffOutcome(a, b, md, writeProc, s, failing).err.Some?
  {
  }

  /** A changed interface whose link is missing is created from the desired
      interface instead, right after the failed lookup. */
  lemma MissingLinkIsRecreated(a: Machine, b: Machine, name: string, s: Os, failing: set<nat>)
    requires name in Names(a.interfaces, InterfaceName) && name in Names(b.interfaces, InterfaceName)
    requires name !in s.links
    ensures var x := a.interfaces[IndexOf(Names(a.interfaces, InterfaceName), name)];
            var y := b.interfaces[IndexOf(Names(b.interfaces, InterfaceName), name)];
            InterfaceDiffOf(x, y).Ok? ==>
              ChangeOutcome(a, b, name, s, failing)
                == CreateInterfaceOutcome(InterfaceAfterDiffB(x, y), s.(trace := s.trace + [LinkByName(name)]), failing)
  {
    var x := a.interfaces[IndexOf(Names(a.interfaces, InterfaceName), name)];
    var y := b.interfaces[IndexOf(Names(b.interfaces, InterfaceName), name)];
    if InterfaceDiffOf(x, y).Ok? {
      MissingLinkIsReported(InterfaceAfterDiffA(x, y), InterfaceAfterDiffB(x, y), InterfaceDiffOf(x, y).value, false, s, failing);
    }
  }

  /** Deleting interfaces succeeds only when each one's link exists, and
      then removes exactly their links. */
  lemma {:induction false} DeleteAllLinks(ifaces: seq<Interface>, s: Os, failing: set<nat>)
    ensures var o := DeleteAll(ifaces, s, failing);
            o.err.None? ==>
              && (forall k :: 0 <= k < |ifaces| ==> ifaces[k].name in s.links)
              && o.os.links == s.links - set k | 0 <= k < |ifaces| :: ifaces[k].name
  {
    if ifaces != [] {
      var n := ifaces[0].name;
      var ops := [LinkByName(n), LinkDel(n)];
      assert ops[1..] == [LinkDel(n)];
      AttemptOne(LinkDel(n), After(LinkByName(n), s, failing), failing);
      var o := DeleteInterfaceOutcome(ifaces[0], s, failing);
      DeleteAllLinks(ifaces[1..], o.os, failing);
      if DeleteAll(ifaces, s, failing).err.None? {
        assert o.os.links == s.links - {n};
        forall k | 1 <= k < |ifaces| ensures ifaces[k].name in s.links {
          assert ifaces[1..][k - 1] == ifaces[k];
        }
        var rest := set k | 0 <= k < |ifaces[1..]| :: ifaces[1..][k].name;
        var all := set k | 0 <= k < |ifaces| :: ifaces[k].name;
        assert all == {n} + rest by {
          forall x | x in all ensures x in {n} + rest {
            var k :| 0 <= k < |ifaces| && ifaces[k].name == x;
            if k > 0 { assert ifaces[1..][k - 1].name == x; }
          }
          forall x | x in rest ensures x in all {
            var k :| 0 <= k < |ifaces[1..]| && ifaces[1..][k].name == x;
            assert ifaces[k + 1].name == x;
          }
        }
      }
    }
  }

  /** Creating interfaces succeeds only when none of their links exists,
      and then adds exactly their links. */
  lemma {:induction false} CreateAllLinks(ifaces: seq<Interface>, s: Os, failing: set<nat>)
    ensures var o := CreateAll(ifaces, s, failing);
            o.err.None? ==>
              && (forall k :: 0 <= k < |ifaces| ==> ifaces[k].name !in s.links)
              && o.os.links == s.links + set k | 0 <= k < |ifaces| :: ifaces[k].name
  {
    if ifaces != [] {
      var n := ifaces[0].name;
      CreateInterfaceLinks(ifaces[0], s, failing);
      var o := CreateInterfaceOutcome(ifaces[0], s, failing);
      CreateAllLinks(ifaces[1..], o.os, failing);
      if CreateAll(ifaces, s, failing).err.None? {
        forall k | 1 <= k < |ifaces| ensures ifaces[k].name !in s.links {
          assert ifaces[1..][k - 1] == ifaces[k];
        }
        var rest := set k | 0 <= k < |ifaces[1..]| :: ifaces[1..][k].name;
        var all := set k | 0 <= k < |ifaces| :: ifaces[k].name;
        assert all == {n} + rest by {
          forall x | x in all ensures x in {n} + rest {
            var k :| 0 <= k < |ifaces| && ifaces[k].name == x;
            if k > 0 { assert ifaces[1..][k - 1].name == x; }
          }
          forall x | x in rest ensures x in all {
            var k :| 0 <= k < |ifaces[1..]| && ifaces[1..][k].name == x;
            assert ifaces[k + 1].name == x;
          }
        }
      }
    }
  }

  /** A successful change of an interface loses no link; it adds one only
      when it had to create the interface. */
  lemma ChangeKeepsLinks(a: Machine, b: Machine, name: string, s: Os, failing: set<nat>)
    ensures var o := ChangeOutcome(a, b, name, s, failing);
            o.err.None? ==> s.links <= o.os.links
  {
    var ai := IndexOf(Names(a.interfaces, InterfaceName), name);
    var bi := IndexOf(Names(b.interfaces, InterfaceName), name);
    if 0 <= ai && 0 <= bi {
      var x, y := a.interfaces[ai], b.interfaces[bi];
      var id := InterfaceDiffOf(x, y);
      if id.Ok? {
        var y' := InterfaceAfterDiffB(x, y);
        ApplyInterfaceDiffKeepsLinks(InterfaceAfterDiffA(x, y), y', id.value, false, s, failing);
        var o := ApplyInterfaceDiffOutcome(InterfaceAfterDiffA(x, y), y', id.value, false, s, failing);
        CreateInterfaceLinks(y', o.os, failing);
      }
    }
  }

  lemma {:induction false} ChangeAllKeepsLinks(a: Machine, b: Machine, names: seq<string>, s: Os, failing: set<nat>)
    ensures var o := ChangeAll(a, b, names, s, failing);
            o.err.None? ==> s.links <= o.os.links
  {
    if names != [] {
      ChangeKeepsLinks(a, b, names[0], s, failing);
      ChangeAllKeepsLinks(a, b, names[1..], ChangeOutcome(a, b, names[0], s, failing).os, failing);
    }
  }

  /** After a successful apply every removed interface had a link, and
      every added interface has one. */
  lemma ApplyMachineDiffLinks(a: Machine, b: Machine, md: MachineDiff, writeProc: bool, s: Os, failing: set<nat>)
    ensures var o := ApplyMachineDiffOutcome(a, b, md, writeProc, s, failing);
            o.err.None? ==>
              && (forall k :: 0 <= k < |md.interfacesRemoved| ==> md.interfacesRemoved[k].name in s.links)
              && (forall k :: 0 <= k < |md.interfacesAdded| ==> md.interfacesAdded[k].name in o.os.links)
  {
    DeleteAllLinks(md.interfacesRemoved, s, failing);
    var o1 := DeleteAll(md.interfacesRemoved, s, failing);
    CreateAllLinks(md.interfacesAdded, o1.os, failing);
    var o2 := CreateAll(md.interfacesAdded, o1.os, failing);
    ChangeAllKeepsLinks(a, b, md.interfacesChanged, o2.os, failing);
    var o3 := ChangeAll(a, b, md.interfacesChanged, o2.os, failing);
    AttemptOne(ReadIPForward, o3.os, failing);
    AttemptOne(WriteIPForward(b.forwardsIPv4), After(ReadIPForward, o3.os, failing), failing);
    forall k | 0 <= k < |md.interfacesAdded|
      ensures md.interfacesAdded[k].name in o2.os.links || o2.err.Some?
    {
    }
  }

  /** Applying the diff of a machine against itself issues no call. */
  lemma SelfDiffAppliesNothing(m: Machine, writeProc: bool, s: Os, failing: set<nat>)
    requires DistinctNames(m.interfaces, InterfaceName)
    requires forall k :: 0 <= k < |m.interfaces| ==> DistinctNames(m.interfaces[k].peers, PeerName)
    ensures MachineDiffOf(m, m).Ok?
    ensures ApplyMachineDiffOutcome(m, m, MachineDiffOf(m, m).value, writeProc, s, failing) == Outcome(s, None)
  {
    MachineDiffOfSelf(m);
  }

  // ---------------------------------------------------------------------
  // The host, and the apply code as methods on it.

  /** The operating system the apply code drives. `failing` is the oracle:
      the call issued at trace position `k` fails when `k` is in it. */
  class Host {
    var links: set<string>
    var ipForward: Option<int>
    var trace: seq<Op>
    const failing: set<nat>

    function State(): Os
      reads this
    {
      Os(links, ipForward, trace)
    }

    constructor(links: set<string>, ipForward: Option<int>, failing: set<nat>)
      ensures State() == Os(links, ipForward, []) && this.failing == failing
    {
      this.links := links;
      this.ipForward := ipForward;
      this.trace := [];
      this.failing := failing;
    }

    /** Issues one call. */
    method Call(op: Op) returns (err: Option<ApplyError>)
      modifies this
      ensures State() == After(op, old(State()), failing)
      ensures err == if Succeeds(op, old(State()), failing) then None else Some(ErrorOf(op, old(State())))
    {
      var s := State();
      err := if Succeeds(op, s, failing) then None else Some(ErrorOf(op, s));
      var t := After(op, s, failing);
      links, ipForward, trace := t.links, t.ipForward, t.trace;
    }

    /** Issues `ops` in order, returning at the first failure. */
    method Run(ops: seq<Op>) returns (err: Option<ApplyError>)
      modifies this
      ensures Outcome(State(), err) == Attempt(ops, old(State()), failing)
    {
      ghost var s0 := State();
      for i := 0 to |ops|
        invariant Attempt(ops[i..], State(), failing) == Attempt(ops, s0, failing)
      {
        assert ops[i..][1..] == ops[i + 1..];
        err := Call(ops[i]);
        if err.Some? {
          return;
        }
      }
      err := None;
    }

    /** Issues every call of `ops`, logging and ignoring failures. */
    method RunAll(ops: seq<Op>)
      modifies this
      ensures State() == IssueAll(ops, old(State()), failing)
    {
      ghost var s0 := State();
      for i := 0 to |ops|
        invariant IssueAll(ops[i..], State(), failing) == IssueAll(ops, s0, failing)
      {
        assert ops[i..][1..] == ops[i + 1..];
        var _ := Call(ops[i]);
      }
    }

    method ApplyInterfaceDiff(a: Interface, b: Interface, id: InterfaceDiff, setUpLink: bool)
      returns (err: Option<ApplyError>)
      modifies this
      ensures Outcome(State(), err) == ApplyInterfaceDiffOutcome(a, b, id, setUpLink, old(State()), failing)
    {
      if a.name != b.name {
        return Some(Panic);
      }
      err := Run(Prefix(b));
      if err.Some? {
        return;
      }
      err := Run(AddrDels(b.name, id.addressesRemoved));
      if err.Some? {
        return;
      }
      err := Run(AddrAdds(b.name, id.addressesAdded));
      if err.Some? {
        RunAll(AddrAdds(b.name, id.addressesRemoved));
        return;
      }
      err := Run([LinkSetUp(b.name)]);
      if err.None? {
        err := ApplyRoutes(a, b, id);
      }
      if err.Some? && err != Some(Panic) {
        RunAll(AddrDels(b.name, id.addressesAdded));
        RunAll(AddrAdds(b.name, id.addressesRemoved));
      }
    }

    /** `applyInterfaceDiffRoutes`. */
    method ApplyRoutes(a: Interface, b: Interface, id: InterfaceDiff) returns (err: Option<ApplyError>)
      modifies this
      ensures Outcome(State(), err) == RoutesOutcome(a, b, id, old(State()), failing)
    {
      var tasks := BuildRouteTasks(a, b, id);
      if tasks.Err? {
        return Some(tasks.error);
      }
      err := Run(RouteOps(b.name, tasks.value));
    }

    method DeleteInterface(iface: Interface) returns (err: Option<ApplyError>)
      modifies this
      ensures Outcome(State(), err) == DeleteInterfaceOutcome(iface, old(State()), failing)
    {
      err := Run([LinkByName(iface.name), LinkDel(iface.name)]);
    }

    method CreateInterface(iface: Interface) returns (err: Option<ApplyError>)
      modifies this
      ensures Outcome(State(), err) == CreateInterfaceOutcome(iface, old(State()), failing)
    {
      if |iface.name| > 15 {
        return Some(NameTooLong(iface.name));
      }
      err := Run([LinkAdd(iface.name)]);
      if err.Some? {
        return;
      }
      var base := Base(iface);
      var id, a1, b1 := DiffInterface(base, iface);
      if id.Err? {
        return Some(Panic);
      }
      err := ApplyInterfaceDiff(a1, b1, id.value, true);
      if err.Some? && err != Some(Panic) {
        RunAll([LinkDel(iface.name)]);
      }
    }

    /** One iteration of the changed-interfaces loop of `ApplyMachineDiff`. */
    method ChangeInterface(a: Machine, b: Machine, name: string) returns (err: Option<ApplyError>)
      modifies this
      ensures Outcome(State(), err) == ChangeOutcome(a, b, name, old(State()), failing)
    {
      var ai := IndexOf(Names(a.interfaces, InterfaceName), name);
      var bi := IndexOf(Names(b.interfaces, InterfaceName), name);
      if ai < 0 || bi < 0 {
        return Some(Panic);
      }
      var id, x, y := DiffInterface(a.interfaces[ai], b.interfaces[bi]);
      if id.Err? {
        return Some(Panic);
      }
      err := ApplyInterfaceDiff(x, y, id.value, false);
      if err.Some? && err.value.LinkNotFound? {
        err := CreateInterface(y);
      }
    }

    method ApplyMachineDiff(a: Machine, b: Machine, md: MachineDiff, writeProc: bool)
      returns (err: Option<ApplyError>)
      modifies this
      ensures Outcome(State(), err) == ApplyMachineDiffOutcome(a, b, md, writeProc, old(State()), failing)
    {
      ghost var s0 := State();
      for i := 0 to |md.interfacesRemoved|
        invariant DeleteAll(md.interfacesRemoved[i..], State(), failing) == DeleteAll(md.interfacesRemoved, s0, failing)
      {
        assert md.interfacesRemoved[i..][1..] == md.interfacesRemoved[i + 1..];
        err := DeleteInterface(md.interfacesRemoved[i]);
        if err.Some? {
          return;
        }
      }
      ghost var s1 := State();
      for i := 0 to |md.interfacesAdded|
        invariant CreateAll(md.interfacesAdded[i..], State(), failing) == CreateAll(md.interfacesAdded, s1, failing)
      {
        assert md.interfacesAdded[i..][1..] == md.interfacesAdded[i + 1..];
        err := CreateInterface(md.interfacesAdded[i]);
        if err.Some? {
          return;
        }
      }
      ghost var s2 := State();
      for i := 0 to |md.interfacesChanged|
        invariant ChangeAll(a, b, md.interfacesChanged[i..], State(), failing) == ChangeAll(a, b, md.interfacesChanged, s2, failing)
      {
        assert md.interfacesChanged[i..][1..] == md.interfacesChanged[i + 1..];
        err := ChangeInterface(a, b, md.interfacesChanged[i]);
        if err.Some? {
          return;
        }
      }
      err := None;
      if md.forwardsIPv4Changed && writeProc {
        err := SetIPForward(b.forwardsIPv4);
        if err.Some? {
          return;
        }
      }
      if md.forwardsIPv6Changed {
        err := Some(Panic);
      }
    }

    /** The `ip_forward` step of `ApplyMachineDiff`. */
    method SetIPForward(want: bool) returns (err: Option<ApplyError>)
      modifies this
      ensures Outcome(State(), err) == IPForwardOutcome(want, old(State()), failing)
    {
      var value := ipForward;
      err := Run([ReadIPForward]);
      if err.Some? {
        return;
      }
      if value.None? {
        return Some(ParseFailed);
      }
      if (value.value == 1) != want {
        err := Run([WriteIPForward(want)]);
      }
    }
  }

  // ---------------------------------------------------------------------
  // Building the route tasks.

  /** The task list of `applyInterfaceDiffRoutes`, built by appending. */
  method BuildRouteTasks(a: Interface, b: Interface, id: InterfaceDiff)
    returns (r: Result<seq<RouteTask>, ApplyError>)
    ensures r == RouteTasks(a, b, id)
  {
    var removed := CollectPeerTasks(id.peersRemoved, false);
    var added := CollectPeerTasks(id.peersAdded, true);
    var changed: seq<RouteTask> := [];
    for i := 0 to |id.peersChanged|
      invariant ChangedTasks(a.peers, b.peers, id.peersChanged[..i]) == Ok(changed)
    {
      ChangedTasksStep(a.peers, b.peers, id.peersChanged, i);
      var pn := id.peersChanged[i];
      var oldI := IndexOf(Names(a.peers, PeerName), pn);
      var newI := IndexOf(Names(b.peers, PeerName), pn);
      if oldI < 0 || newI < 0 {
        ChangedTasksErrorSticks(a.peers, b.peers, id.peersChanged, i + 1);
        return Err(Panic);
      }
      var t := PeerRouteTasks(a.peers[oldI], b.peers[newI]);
      changed := changed + t;
    }
    assert id.peersChanged[..|id.peersChanged|] == id.peersChanged;
    r := Ok(removed + added + changed);
  }

  lemma ChangedTasksStep(ap: seq<InterfacePeer>, bp: seq<InterfacePeer>, names: seq<string>, i: nat)
    requires i < |names|
    ensures var init := ChangedTasks(ap, bp, names[..i]);
            var oldI := IndexOf(Names(ap, PeerName), names[i]);
            var newI := IndexOf(Names(bp, PeerName), names[i]);
            ChangedTasks(ap, bp, names[..i + 1]) ==
              if init.Err? then init
              else if oldI < 0 || newI < 0 then Err(Panic)
              else Ok(init.value + ChangedPeerTasks(ap[oldI], bp[newI]))
  {
    assert names[..i + 1][..i] == names[..i];
  }

  lemma {:induction false} ChangedTasksErrorSticks(ap: seq<InterfacePeer>, bp: seq<InterfacePeer>, names: seq<string>, i: nat)
    requires i <= |names|
    requires ChangedTasks(ap, bp, names[..i]).Err?
    ensures ChangedTasks(ap, bp, names) == ChangedTasks(ap, bp, names[..i])
    decreases |names| - i
  {
    if i < |names| {
      ChangedTasksStep(ap, bp, names, i);
      ChangedTasksErrorSticks(ap, bp, names, i + 1);
    } else {
      assert names[..i] == names;
    }
  }

  /** One task per allowed IP of each peer. */
  method CollectPeerTasks(peers: seq<InterfacePeer>, add: bool) returns (tasks: seq<RouteTask>)
    ensures tasks == PeerTasks(peers, add)
  {
    tasks := [];
    for i := 0 to |peers|
      invariant tasks == PeerTasks(peers[..i], add)
    {
      assert peers[..i + 1][..i] == peers[..i];
      tasks := AppendTasks(tasks, add, peers[i].allowedIPs);
    }
    assert peers[..|peers|] == peers;
  }

  /** The tasks of one changed peer: `setDifference` in each direction, on
      copies of the two allowed-IP lists, which it sorts. */
  method PeerRouteTasks(oldPeer: InterfacePeer, newPeer: InterfacePeer) returns (tasks: seq<RouteTask>)
    ensures tasks == ChangedPeerTasks(oldPeer, newPeer)
  {
    var addedIPs, removedIPs := AllowedIPsDifferences(oldPeer.allowedIPs, newPeer.allowedIPs);
    tasks := AppendTasks([], true, addedIPs);
    assert tasks == Tasks(true, addedIPs);
    tasks := AppendTasks(tasks, false, removedIPs);
  }

  /** `setDifference(new, old)` then `setDifference(old, new)`; the second
      call finds both lists already sorted. */
  method AllowedIPsDifferences(oldIPs: seq<IPNet>, newIPs: seq<IPNet>)
    returns (addedIPs: seq<IPNet>, removedIPs: seq<IPNet>)
    ensures addedIPs == Unmatched(Sort(newIPs, LessIPNet), Sort(oldIPs, LessIPNet), LessIPNet)
    ensures removedIPs == Unmatched(Sort(oldIPs, LessIPNet), Sort(newIPs, LessIPNet), LessIPNet)
  {
    LessIPNetIsStrictTotalOrder();
    var na := new IPNet[|newIPs|](k requires 0 <= k < |newIPs| => newIPs[k]);
    var oa := new IPNet[|oldIPs|](k requires 0 <= k < |oldIPs| => oldIPs[k]);
    assert na[..] == newIPs && oa[..] == oldIPs;
    addedIPs := SetDifference(na, oa, LessIPNet);
    SortSorted(oldIPs, LessIPNet);
    SortSorted(newIPs, LessIPNet);
    SortOfSorted(Sort(oldIPs, LessIPNet), LessIPNet);
    SortOfSorted(Sort(newIPs, LessIPNet), LessIPNet);
    removedIPs := SetDifference(oa, na, LessIPNet);
  }

  /** Appends one task per address, in order. */
  method AppendTasks(tasks: seq<RouteTask>, add: bool, ips: seq<IPNet>) returns (r: seq<RouteTask>)
    ensures r == tasks + Tasks(add, ips)
  {
    r := tasks;
    for i := 0 to |ips|
      invariant r == tasks + Tasks(add, ips[..i])
    {
      assert Tasks(add, ips[..i + 1]) == Tasks(add, ips[..i]) + [RouteTask(add, ips[i])];
      r := r + [RouteTask(add, ips[i])];
    }
    assert ips[..|ips|] == ips;
  }
}
