/** The network specification the coordinator hands out (`spec/spec.go`):
    networks of devices, the view of a network one device is allowed to see,
    and the lookups, equality and copies the rest of the system uses. */
module Specs {
  import opened Wrappers
  import opened Slices
  import opened Net
  import opened Goal

  /** What any device may learn about a device. `persistentKeepalive` is a
      duration in nanoseconds. `forwardsFor` is the field the coordinator
      calls `Accessible`: the devices this one forwards packets to. */
  datatype NetworkDeviceCensored = NetworkDeviceCensored(
    name: string,
    endpoints: seq<string>,
    forwarderAndEndpointChosen: bool,
    usesForwarder: bool,
    endpointChosenIndex: int,
    forwarderChosenIndex: int,
    addresses: seq<IPNet>,
    listenPort: int,
    publicKey: Key,
    presharedKey: Option<Key>,
    persistentKeepalive: int,
    forwardsFor: seq<string>)

  /** `accessOnly` is `None` for a nil slice, which `Validate` tells apart
      from an empty one. */
  datatype AccessControl = AccessControl(accessAll: bool, accessOnly: Option<seq<string>>)

  datatype NetworkDevice = NetworkDevice(censored: NetworkDeviceCensored, access: AccessControl)

  datatype Network = Network(name: string, devices: seq<NetworkDevice>)

  datatype NetworkCensored = NetworkCensored(name: string, devices: seq<NetworkDeviceCensored>, censoredFor: string)

  datatype Spec = Spec(networks: seq<Network>)

  datatype SpecCensored = SpecCensored(networks: seq<NetworkCensored>)

  function NetworkName(n: Network): string { n.name }
  function CensoredNetworkName(n: NetworkCensored): string { n.name }
  function DeviceName(d: NetworkDevice): string { d.censored.name }
  function CensoredDeviceName(d: NetworkDeviceCensored): string { d.name }

  // ---------------------------------------------------------------------
  // Lookups by name.

  /** `i` is the first position of `xs` whose name is `name`. */
  ghost predicate FirstNamed<T>(xs: seq<T>, nameOf: T -> string, name: string, i: int) {
    && 0 <= i < |xs|
    && nameOf(xs[i]) == name
    && forall k :: 0 <= k < i ==> nameOf(xs[k]) != name
  }

  /** `slices.IndexFunc` with a name test: the first index whose name is
      `name`, or -1. */
  function FindName<T>(xs: seq<T>, nameOf: T -> string, name: string): (i: int)
    ensures i == -1 <==> name !in Names(xs, nameOf)
    ensures i != -1 ==> FirstNamed(xs, nameOf, name, i)
  {
    var i := IndexOf(Names(xs, nameOf), name);
    if i == -1 then -1
    else
      assert forall k :: 0 <= k < i ==> Names(xs, nameOf)[..i][k] == nameOf(xs[k]);
      i
  }

  /** `Spec.GetNetworkIndex`: a missing network reports index 0. */
  function GetNetworkIndex(s: Spec, name: string): (r: (int, bool))
    ensures r.1 <==> name in Names(s.networks, NetworkName)
    ensures r.1 ==> FirstNamed(s.networks, NetworkName, name, r.0)
    ensures !r.1 ==> r.0 == 0
  {
    var i := FindName(s.networks, NetworkName, name);
    if i == -1 then (0, false) else (i, true)
  }

  function GetNetwork(s: Spec, name: string): (r: Option<Network>)
    ensures r.Some? <==> name in Names(s.networks, NetworkName)
    ensures r.Some? ==> r.value.name == name && r.value in s.networks
  {
    var (i, ok) := GetNetworkIndex(s, name);
    if ok then Some(s.networks[i]) else None
  }

  /** `SpecCensored.GetNetworkIndex`: a missing network reports index 0. */
  function GetCensoredNetworkIndex(s: SpecCensored, name: string): (r: (int, bool))
    ensures r.1 <==> name in Names(s.networks, CensoredNetworkName)
    ensures r.1 ==> FirstNamed(s.networks, CensoredNetworkName, name, r.0)
    ensures !r.1 ==> r.0 == 0
  {
    var i := FindName(s.networks, CensoredNetworkName, name);
    if i == -1 then (0, false) else (i, true)
  }

  function GetCensoredNetwork(s: SpecCensored, name: string): (r: Option<NetworkCensored>)
    ensures r.Some? <==> name in Names(s.networks, CensoredNetworkName)
    ensures r.Some? ==> r.value.name == name && r.value in s.networks
  {
    var (i, ok) := GetCensoredNetworkIndex(s, name);
    if ok then Some(s.networks[i]) else None
  }

  /** `Network.GetDeviceIndex`: a missing device reports index -1. */
  function GetDeviceIndex(n: Network, name: string): (r: (int, bool))
    ensures r.1 <==> name in Names(n.devices, DeviceName)
    ensures r.1 ==> FirstNamed(n.devices, DeviceName, name, r.0)
    ensures !r.1 ==> r.0 == -1
  {
    var i := FindName(n.devices, DeviceName, name);
    (i, i != -1)
  }

  function GetDevice(n: Network, name: string): (r: Option<NetworkDevice>)
    ensures r.Some? <==> name in Names(n.devices, DeviceName)
    ensures r.Some? ==> r.value.censored.name == name && r.value in n.devices
  {
    var (i, ok) := GetDeviceIndex(n, name);
    if ok then Some(n.devices[i]) else None
  }

  /** `NetworkCensored.GetDeviceIndex`: a missing device reports index -1. */
  function GetCensoredDeviceIndex(n: NetworkCensored, name: string): (r: (int, bool))
    ensures r.1 <==> name in Names(n.devices, CensoredDeviceName)
    ensures r.1 ==> FirstNamed(n.devices, CensoredDeviceName, name, r.0)
    ensures !r.1 ==> r.0 == -1
  {
    var i := FindName(n.devices, CensoredDeviceName, name);
    (i, i != -1)
  }

  function GetCensoredDevice(n: NetworkCensored, name: string): (r: Option<NetworkDeviceCensored>)
    ensures r.Some? <==> name in Names(n.devices, CensoredDeviceName)
    ensures r.Some? ==> r.value.name == name && r.value in n.devices
  {
    var (i, ok) := GetCensoredDeviceIndex(n, name);
    if ok then Some(n.devices[i]) else None
  }

  // ---------------------------------------------------------------------
  // Forwarders.

  /** A device offers to forward for `name` once it has chosen its own
      forwarder and endpoint. */
  predicate CanForwardFor(d: NetworkDeviceCensored, name: string) {
    name in d.forwardsFor && d.forwarderAndEndpointChosen
  }

  /** The names, in device order, of the devices that can forward for `name`. */
  function ForwardersAmong(devices: seq<NetworkDeviceCensored>, name: string): (r: seq<string>)
    ensures |r| <= |devices|
    ensures forall n :: n in r <==>
      exists k :: 0 <= k < |devices| && devices[k].name == n && CanForwardFor(devices[k], name)
  {
    if devices == [] then []
    else
      var rest := ForwardersAmong(devices[1..], name);
      assert forall k :: 1 <= k < |devices| ==> devices[k] == devices[1..][k - 1];
      assert forall k :: 0 <= k < |devices| - 1 ==> devices[1..][k] == devices[k + 1];
      (if CanForwardFor(devices[0], name) then [devices[0].name] else []) + rest
  }

  /** `NetworkCensored.GetForwardersFor`. */
  function GetForwardersFor(nc: NetworkCensored, name: string): seq<string> {
    ForwardersAmong(nc.devices, name)
  }

  // ---------------------------------------------------------------------
  // Equality.

  /** `slices.EqualFunc`. */
  function EqualFunc<T>(a: seq<T>, b: seq<T>, eq: (T, T) -> bool): (r: bool)
    ensures r <==> |a| == |b| && forall i :: 0 <= i < |a| ==> eq(a[i], b[i])
  {
    if |a| != |b| then false
    else if a == [] then true
    else
      assert forall i :: 1 <= i < |a| ==> a[i] == a[1..][i - 1] && b[i] == b[1..][i - 1];
      eq(a[0], b[0]) && EqualFunc(a[1..], b[1..], eq)
  }

  /** `ipNetEqual`: the addresses are equal as IPs (so a 4-byte address
      equals its IPv4-in-IPv6 form) and the masks byte for byte. */
  predicate IPNetEqual(a: IPNet, b: IPNet) {
    IPEqual(a.ip, b.ip) && a.mask == b.mask
  }

  /** Both keys absent, or both present and equal. */
  predicate PresharedKeyEqual(a: Option<Key>, b: Option<Key>) {
    (a.Some? && b.Some? && a.value == b.value) || (a.None? && b.None?)
  }

  /** `NetworkDeviceCensored.Equal`: the choice fields
      (`forwarderAndEndpointChosen`, `usesForwarder`, `endpointChosenIndex`,
      `forwarderChosenIndex`) are not compared. */
  predicate DeviceCensoredEqual(a: NetworkDeviceCensored, b: NetworkDeviceCensored) {
    && a.name == b.name
    && a.endpoints == b.endpoints
    && EqualFunc(a.addresses, b.addresses, IPNetEqual)
    && a.listenPort == b.listenPort
    && a.publicKey == b.publicKey
    && PresharedKeyEqual(a.presharedKey, b.presharedKey)
    && a.persistentKeepalive == b.persistentKeepalive
    && a.forwardsFor == b.forwardsFor
  }

  predicate NetworkCensoredEqual(a: NetworkCensored, b: NetworkCensored) {
    a.name == b.name && EqualFunc(a.devices, b.devices, DeviceCensoredEqual) && a.censoredFor == b.censoredFor
  }

  predicate SpecCensoredEqual(a: SpecCensored, b: SpecCensored) {
    EqualFunc(a.networks, b.networks, NetworkCensoredEqual)
  }

  /** `slices.Equal` does not tell a nil slice from an empty one. */
  function AccessOnlyNames(a: AccessControl): seq<string> {
    if a.accessOnly.Some? then a.accessOnly.value else []
  }

  predicate AccessControlEqual(a: AccessControl, b: AccessControl) {
    a.accessAll == b.accessAll && AccessOnlyNames(a) == AccessOnlyNames(b)
  }

  predicate NetworkDeviceEqual(a: NetworkDevice, b: NetworkDevice) {
    DeviceCensoredEqual(a.censored, b.censored) && AccessControlEqual(a.access, b.access)
  }

  /** Device equality is an equivalence. */
  lemma DeviceCensoredEqualIsEquivalence(a: NetworkDeviceCensored, b: NetworkDeviceCensored, c: NetworkDeviceCensored)
    ensures DeviceCensoredEqual(a, a)
    ensures DeviceCensoredEqual(a, b) ==> DeviceCensoredEqual(b, a)
    ensures DeviceCensoredEqual(a, b) && DeviceCensoredEqual(b, c) ==> DeviceCensoredEqual(a, c)
  {
    forall i | 0 <= i < |a.addresses| ensures IPNetEqual(a.addresses[i], a.addresses[i]) {
      IPEqualIsEquivalence(a.addresses[i].ip, a.addresses[i].ip, a.addresses[i].ip);
    }
    if DeviceCensoredEqual(a, b) {
      forall i | 0 <= i < |a.addresses| ensures IPNetEqual(b.addresses[i], a.addresses[i]) {
        IPEqualIsEquivalence(a.addresses[i].ip, b.addresses[i].ip, a.addresses[i].ip);
      }
      if DeviceCensoredEqual(b, c) {
        forall i | 0 <= i < |a.addresses| ensures IPNetEqual(a.addresses[i], c.addresses[i]) {
          IPEqualIsEquivalence(a.addresses[i].ip, b.addresses[i].ip, c.addresses[i].ip);
        }
      }
    }
  }

  /** Equality ignores the four fields a device fills in when it chooses
      its endpoint or forwarder. */
  lemma DeviceCensoredEqualIgnoresChoice(a: NetworkDeviceCensored, chosen: bool, uses: bool, endpointIndex: int, forwarderIndex: int)
    ensures DeviceCensoredEqual(a, a.(forwarderAndEndpointChosen := chosen, usesForwarder := uses,
                                      endpointChosenIndex := endpointIndex, forwarderChosenIndex := forwarderIndex))
  {
    DeviceCensoredEqualIsEquivalence(a, a, a);
  }

  /** Every censored network equals itself. */
  lemma NetworkCensoredEqualReflexive(n: NetworkCensored)
    ensures NetworkCensoredEqual(n, n)
  {
    forall i | 0 <= i < |n.devices| ensures DeviceCensoredEqual(n.devices[i], n.devices[i]) {
      DeviceCensoredEqualIsEquivalence(n.devices[i], n.devices[i], n.devices[i]);
    }
  }

  // ---------------------------------------------------------------------
  // Copies.

  /** `NetworkDeviceCensored.Clone`: a deep copy of every field except
      `usesForwarder` and `forwardsFor`, which come out zero. */
  function DeviceCensoredClone(d: NetworkDeviceCensored): (r: NetworkDeviceCensored)
    ensures r == d.(usesForwarder := false, forwardsFor := [])
  {
    NetworkDeviceCensored(d.name, d.endpoints, d.forwarderAndEndpointChosen, false, d.endpointChosenIndex,
                          d.forwarderChosenIndex, d.addresses, d.listenPort, d.publicKey, d.presharedKey,
                          d.persistentKeepalive, [])
  }

  /** A clone equals its original exactly when the original forwards for
      nobody. */
  lemma DeviceCensoredCloneEqualIff(d: NetworkDeviceCensored)
    ensures DeviceCensoredEqual(DeviceCensoredClone(d), d) <==> d.forwardsFor == []
  {
    DeviceCensoredEqualIsEquivalence(d, d, d);
  }

  /** A device that forwards for another one does not survive a clone. */
  lemma CloneDropsForwardsFor()
    ensures exists d: NetworkDeviceCensored :: !DeviceCensoredEqual(DeviceCensoredClone(d), d)
  {
    var d := NetworkDeviceCensored("a", [], true, true, 0, 0, [], 0, ZeroKey, None, 0, ["b"]);
    DeviceCensoredCloneEqualIff(d);
  }

  /** `AccessControl.Clone`: a nil `AccessOnly` stays nil and a non-nil one
      is copied, so the clone is the same value. */
  function AccessControlClone(a: AccessControl): (r: AccessControl)
    ensures r == a
  {
    AccessControl(a.accessAll, if a.accessOnly.None? then None else Some(a.accessOnly.value[..]))
  }

  function NetworkDeviceClone(d: NetworkDevice): NetworkDevice {
    NetworkDevice(DeviceCensoredClone(d.censored), AccessControlClone(d.access))
  }

  function NetworkClone(n: Network): Network {
    Network(n.name, seq(|n.devices|, k requires 0 <= k < |n.devices| => NetworkDeviceClone(n.devices[k])))
  }

  function SpecClone(s: Spec): Spec {
    Spec(seq(|s.networks|, k requires 0 <= k < |s.networks| => NetworkClone(s.networks[k])))
  }

  /** No device uses a forwarder or forwards for another. */
  ghost predicate NoForwarding(s: Spec) {
    forall i, j :: 0 <= i < |s.networks| && 0 <= j < |s.networks[i].devices| ==>
      !s.networks[i].devices[j].censored.usesForwarder && s.networks[i].devices[j].censored.forwardsFor == []
  }

  /** `Spec.Clone` keeps every network and device name in place, and gives
      back the same spec exactly when no device forwards. */
  lemma SpecCloneIff(s: Spec)
    ensures Names(SpecClone(s).networks, NetworkName) == Names(s.networks, NetworkName)
    ensures forall i :: 0 <= i < |s.networks| ==>
      Names(SpecClone(s).networks[i].devices, DeviceName) == Names(s.networks[i].devices, DeviceName)
    ensures SpecClone(s) == s <==> NoForwarding(s)
  {
    var c := SpecClone(s);
    if NoForwarding(s) {
      forall i | 0 <= i < |s.networks| ensures c.networks[i] == s.networks[i] {
        assert c.networks[i].devices == s.networks[i].devices;
      }
      assert c.networks == s.networks;
    }
    if c == s {
      forall i, j | 0 <= i < |s.networks| && 0 <= j < |s.networks[i].devices|
        ensures !s.networks[i].devices[j].censored.usesForwarder && s.networks[i].devices[j].censored.forwardsFor == []
      {
        assert c.networks[i].devices[j] == s.networks[i].devices[j];
      }
    }
  }

  datatype ValidationError = AccessOnlyWithAccessAll

  /** `AccessControl.Validate`. */
  function Validate(a: AccessControl): (r: Option<ValidationError>)
    ensures r.Some? <==> a.accessAll && a.accessOnly.Some?
  {
    if a.accessAll && a.accessOnly != None then Some(AccessOnlyWithAccessAll) else None
  }

  /** An empty but non-nil `AccessOnly` is refused next to `AccessAll`,
      although equality treats it as nil. */
  lemma ValidateTellsNilFromEmpty()
    ensures Validate(AccessControl(true, Some([]))).Some?
    ensures Validate(AccessControl(true, None)).None?
    ensures AccessControlEqual(AccessControl(true, Some([])), AccessControl(true, None))
  {
  }

  // ---------------------------------------------------------------------
  // Censoring.

  /** The access rule: everything, or the listed names. */
  predicate Visible(access: AccessControl, name: string) {
    access.accessAll || name in AccessOnlyNames(access)
  }

  /** The public parts, in order, of the devices `access` lets one see. */
  function VisibleDevices(access: AccessControl, devices: seq<NetworkDevice>): (r: seq<NetworkDeviceCensored>)
    ensures |r| <= |devices|
    ensures forall d :: d in r <==>
      exists k :: 0 <= k < |devices| && devices[k].censored == d && Visible(access, d.name)
    ensures access.accessAll ==> |r| == |devices|
  {
    if devices == [] then []
    else
      var rest := VisibleDevices(access, devices[1..]);
      assert forall k :: 1 <= k < |devices| ==> devices[k] == devices[1..][k - 1];
      assert forall k :: 0 <= k < |devices| - 1 ==> devices[1..][k] == devices[k + 1];
      (if Visible(access, devices[0].censored.name) then [devices[0].censored] else []) + rest
  }

  /** `Network.CensorForDevice`: the view of the network that the first
      device named `censorFor` is allowed to see. A missing device is a
      panic in the source, so callers must name a device that exists. */
  function CensorForDevice(n: Network, censorFor: string): (r: NetworkCensored)
    requires censorFor in Names(n.devices, DeviceName)
    ensures r.name == n.name && r.censoredFor == censorFor
    ensures r.devices == VisibleDevices(n.devices[FindName(n.devices, DeviceName, censorFor)].access, n.devices)
  {
    var i := FindName(n.devices, DeviceName, censorFor);
    NetworkCensored(n.name, VisibleDevices(n.devices[i].access, n.devices), censorFor)
  }

  /** The requester sees itself only if its own access rule names it. */
  lemma CensorIncludesSelfIff(n: Network, censorFor: string)
    requires censorFor in Names(n.devices, DeviceName)
    ensures var i := FindName(n.devices, DeviceName, censorFor);
            (n.devices[i].censored in CensorForDevice(n, censorFor).devices <==> Visible(n.devices[i].access, censorFor))
  {
  }
}
