/** Compiling the view a device has of the spec into the goal for its
    machine (`spec/compile.go`): one interface per network the device is
    in, one peer per other device it can reach directly, with the addresses
    of the devices a peer forwards for added to that peer's allowed IPs. */
module SpecCompile {
  import opened Wrappers
  import opened Slices
  import opened Net
  import opened Goal
  import opened Specs

  /** The two reported errors, and a Go panic (a name in the compiled
      device's `forwardsFor` missing from the network, or an index out of
      range). */
  datatype CompileError =
    | UnsetPublicKey(network: string, device: string)
    | ForwarderNotChosen(network: string, device: string, forwarder: string)
    | Panic

  predicate Keyed(d: NetworkDeviceCensored) {
    d.publicKey != ZeroKey
  }

  /** The device reaches the others through a forwarder it has chosen. */
  predicate Forwarded(d: NetworkDeviceCensored) {
    d.forwarderAndEndpointChosen && d.usesForwarder
  }

  // ---------------------------------------------------------------------
  // The forwarding table.

  /** Device `i` is entered in the table of forwardees when the compiled
      device is `self`. */
  predicate InTable(devices: seq<NetworkDeviceCensored>, self: int, i: int)
    requires 0 <= i < |devices|
  {
    i != self && Keyed(devices[i]) && Forwarded(devices[i])
  }

  /** Every table entry's forwarder index is in range; otherwise building
      the table panics. */
  predicate TableInRange(devices: seq<NetworkDeviceCensored>, self: int) {
    forall i | 0 <= i < |devices| :: InTable(devices, self, i) ==> 0 <= devices[i].forwarderChosenIndex < |devices|
  }

  /** The addresses, in device order from index `from` on, of the table
      entries that chose device `j` as their forwarder. */
  function ForwardedAddresses(devices: seq<NetworkDeviceCensored>, self: int, j: int, from: nat): seq<IPNet>
    requires from <= |devices|
    decreases |devices| - from
  {
    if from == |devices| then []
    else if InTable(devices, self, from) && devices[from].forwarderChosenIndex == j then
      devices[from].addresses + ForwardedAddresses(devices, self, j, from + 1)
    else ForwardedAddresses(devices, self, j, from + 1)
  }

  /** An address is forwarded to `j` exactly when a table entry that chose
      `j` has it. */
  lemma ForwardedAddressesMembers(devices: seq<NetworkDeviceCensored>, self: int, j: int, from: nat, a: IPNet)
    requires from <= |devices|
    ensures a in ForwardedAddresses(devices, self, j, from)
        <==> exists i :: from <= i < |devices| && InTable(devices, self, i)
                         && devices[i].forwarderChosenIndex == j && a in devices[i].addresses
  {
    if a in ForwardedAddresses(devices, self, j, from) {
      var i := ForwardedAddressFrom(devices, self, j, from, a);
    }
    if exists i :: from <= i < |devices| && InTable(devices, self, i)
                   && devices[i].forwarderChosenIndex == j && a in devices[i].addresses {
      var i :| from <= i < |devices| && InTable(devices, self, i)
               && devices[i].forwarderChosenIndex == j && a in devices[i].addresses;
      ForwardedAddressTo(devices, self, j, from, i, a);
    }
  }

  /** A forwarded address comes from a table entry that chose `j`. */
  lemma {:induction false} ForwardedAddressFrom(devices: seq<NetworkDeviceCensored>, self: int, j: int, from: nat, a: IPNet)
    returns (i: nat)
    requires from <= |devices|
    requires a in ForwardedAddresses(devices, self, j, from)
    ensures from <= i < |devices| && InTable(devices, self, i)
            && devices[i].forwarderChosenIndex == j && a in devices[i].addresses
    decreases |devices| - from
  {
    if InTable(devices, self, from) && devices[from].forwarderChosenIndex == j && a in devices[from].addresses {
      i := from;
    } else {
      i := ForwardedAddressFrom(devices, self, j, from + 1, a);
    }
  }

  /** The addresses of a table entry that chose `j` are forwarded to it. */
  lemma {:induction false} ForwardedAddressTo(devices: seq<NetworkDeviceCensored>, self: int, j: int, from: nat, i: nat, a: IPNet)
    requires from <= i < |devices| && InTable(devices, self, i)
    requires devices[i].forwarderChosenIndex == j && a in devices[i].addresses
    ensures a in ForwardedAddresses(devices, self, j, from)
    decreases i - from
  {
    if from < i {
      ForwardedAddressTo(devices, self, j, from + 1, i, a);
    }
  }

  // ---------------------------------------------------------------------
  // Peers.

  /** Device `i` becomes a peer: it is not the compiled device, has a key,
      and reaches the others directly. */
  predicate Emitted(devices: seq<NetworkDeviceCensored>, self: int, i: int)
    requires 0 <= i < |devices|
  {
    i != self && Keyed(devices[i]) && !Forwarded(devices[i])
  }

  /** A chosen endpoint index points into the endpoint list. */
  predicate EndpointInRange(d: NetworkDeviceCensored) {
    d.forwarderAndEndpointChosen ==> 0 <= d.endpointChosenIndex < |d.endpoints|
  }

  /** Device `i` makes the compilation fail: an unset key, a chosen
      endpoint index out of range, a forwarder index out of range, or a
      forwarder that has not chosen its own endpoint. */
  predicate Fails(devices: seq<NetworkDeviceCensored>, self: int, ignoreIncomplete: bool, i: int)
    requires 0 <= i < |devices|
  {
    var d := devices[i];
    && i != self
    && (|| (!Keyed(d) && !ignoreIncomplete)
        || (Keyed(d) && !d.usesForwarder && !EndpointInRange(d))
        || (Keyed(d) && Forwarded(d) && !(0 <= d.forwarderChosenIndex < |devices|))
        || (Keyed(d) && Forwarded(d) && 0 <= d.forwarderChosenIndex < |devices|
            && !devices[d.forwarderChosenIndex].forwarderAndEndpointChosen && !ignoreIncomplete))
  }

  predicate NoFailureFrom(devices: seq<NetworkDeviceCensored>, self: int, ignoreIncomplete: bool, from: nat) {
    forall i | from <= i < |devices| :: !Fails(devices, self, ignoreIncomplete, i)
  }

  /** The peer device `i` becomes: its own addresses, then those of the
      devices that forward through it. */
  function PeerOf(devices: seq<NetworkDeviceCensored>, self: int, i: nat): InterfacePeer
    requires i < |devices| && Emitted(devices, self, i) && EndpointInRange(devices[i])
  {
    var d := devices[i];
    InterfacePeer(d.name, d.publicKey, d.presharedKey,
                  if d.forwarderAndEndpointChosen then d.endpoints[d.endpointChosenIndex] else "",
                  d.persistentKeepalive,
                  d.addresses + ForwardedAddresses(devices, self, i, 0))
  }

  /** A peer's allowed IPs are its own addresses and those of the table
      entries that chose it as their forwarder. */
  lemma AllowedIPsOneHop(devices: seq<NetworkDeviceCensored>, self: int, i: nat, a: IPNet)
    requires i < |devices| && Emitted(devices, self, i) && EndpointInRange(devices[i])
    ensures a in PeerOf(devices, self, i).allowedIPs
        <==> || a in devices[i].addresses
             || exists j :: 0 <= j < |devices| && InTable(devices, self, j)
                            && devices[j].forwarderChosenIndex == i && a in devices[j].addresses
  {
    ForwardedAddressesMembers(devices, self, i, 0, a);
  }

  /** The peer's fields come from its device; the endpoint is blank until
      one is chosen, and the chosen one afterwards. */
  lemma PeerOfFields(devices: seq<NetworkDeviceCensored>, self: int, i: nat)
    requires i < |devices| && Emitted(devices, self, i) && EndpointInRange(devices[i])
    ensures var p := PeerOf(devices, self, i);
            var d := devices[i];
            && p.name == d.name && p.publicKey == d.publicKey && p.publicKey != ZeroKey
            && p.presharedKey == d.presharedKey && p.persistentKeepalive == d.persistentKeepalive
            && (!d.forwarderAndEndpointChosen ==> p.endpoint == "")
            && (d.forwarderAndEndpointChosen ==> p.endpoint == d.endpoints[d.endpointChosenIndex])
            && p.allowedIPs[..|d.addresses|] == d.addresses
  {
  }

  /** The indices, from `from` on and in order, of the devices that become
      peers. */
  function EmittedIndices(devices: seq<NetworkDeviceCensored>, self: int, from: nat): (r: seq<nat>)
    requires from <= |devices|
    decreases |devices| - from
    ensures forall k :: 0 <= k < |r| ==> from <= r[k] < |devices|
  {
    if from == |devices| then []
    else (if Emitted(devices, self, from) then [from] else []) + EmittedIndices(devices, self, from + 1)
  }

  /** Exactly the emitted devices are listed. */
  lemma {:induction false} EmittedIndicesMembers(devices: seq<NetworkDeviceCensored>, self: int, from: nat, i: int)
    requires from <= |devices|
    decreases |devices| - from
    ensures i in EmittedIndices(devices, self, from) <==> from <= i < |devices| && Emitted(devices, self, i)
  {
    if from < |devices| {
      EmittedIndicesMembers(devices, self, from + 1, i);
    }
  }

  predicate Increasing(s: seq<nat>) {
    forall k, l :: 0 <= k < l < |s| ==> s[k] < s[l]
  }

  /** The emitted devices are listed in device order. */
  lemma {:induction false} EmittedIndicesIncreasing(devices: seq<NetworkDeviceCensored>, self: int, from: nat)
    requires from <= |devices|
    decreases |devices| - from
    ensures Increasing(EmittedIndices(devices, self, from))
  {
    if from < |devices| {
      EmittedIndicesIncreasing(devices, self, from + 1);
      var rest := EmittedIndices(devices, self, from + 1);
      var r := EmittedIndices(devices, self, from);
      if Emitted(devices, self, from) {
        assert r == [from] + rest;
        forall k, l | 0 <= k < l < |r| ensures r[k] < r[l] {
          assert r[l] == rest[l - 1] && from < r[l];
          if k > 0 {
            assert r[k] == rest[k - 1];
            assert rest[k - 1] < rest[l - 1];
          }
        }
      } else {
        assert r == rest;
      }
    }
  }

  /** Every listed device becomes a peer, with its chosen endpoint index
      in range. */
  ghost predicate Peerable(devices: seq<NetworkDeviceCensored>, self: int, idx: seq<nat>) {
    forall k :: 0 <= k < |idx| ==>
      idx[k] < |devices| && Emitted(devices, self, idx[k]) && EndpointInRange(devices[idx[k]])
  }

  /** The peers of the listed devices, in the order listed. */
  function PeersAt(devices: seq<NetworkDeviceCensored>, self: int, idx: seq<nat>): (r: seq<InterfacePeer>)
    requires Peerable(devices, self, idx)
    ensures |r| == |idx|
    ensures forall k :: 0 <= k < |idx| ==> r[k] == PeerOf(devices, self, idx[k])
  {
    if idx == [] then []
    else
      assert forall k :: 0 <= k < |idx| - 1 ==> idx[1..][k] == idx[k + 1];
      [PeerOf(devices, self, idx[0])] + PeersAt(devices, self, idx[1..])
  }

  /** The peer loop of `CompileMachine`, from device `i` on, as the list of
      devices it turns into peers: it stops at the first error, skips
      incomplete devices when told to ignore them, and never emits a device
      that uses a forwarder. */
  function PeerIndicesFrom(sn: NetworkCensored, self: int, ignoreIncomplete: bool, i: nat): (r: Result<seq<nat>, CompileError>)
    requires i <= |sn.devices|
    decreases |sn.devices| - i
    ensures r.Ok? ==> Peerable(sn.devices, self, r.value)
  {
    var devices := sn.devices;
    if i == |devices| then Ok([])
    else if i == self then PeerIndicesFrom(sn, self, ignoreIncomplete, i + 1)
    else
      var d := devices[i];
      if !Keyed(d) then
        if ignoreIncomplete then PeerIndicesFrom(sn, self, ignoreIncomplete, i + 1)
        else Err(UnsetPublicKey(sn.name, d.name))
      else if !d.forwarderAndEndpointChosen then
        Cons(i, PeerIndicesFrom(sn, self, ignoreIncomplete, i + 1))
      else if !d.usesForwarder then
        if 0 <= d.endpointChosenIndex < |d.endpoints| then
          Cons(i, PeerIndicesFrom(sn, self, ignoreIncomplete, i + 1))
        else Err(Panic)
      else if !(0 <= d.forwarderChosenIndex < |devices|) then Err(Panic)
      else if !devices[d.forwarderChosenIndex].forwarderAndEndpointChosen && !ignoreIncomplete then
        Err(ForwarderNotChosen(sn.name, d.name, devices[d.forwarderChosenIndex].name))
      else PeerIndicesFrom(sn, self, ignoreIncomplete, i + 1)
  }

  function Cons(i: nat, r: Result<seq<nat>, CompileError>): Result<seq<nat>, CompileError> {
    if r.Err? then r else Ok([i] + r.value)
  }

  lemma NoFailureStep(devices: seq<NetworkDeviceCensored>, self: int, ignoreIncomplete: bool, i: nat)
    requires i < |devices|
    ensures NoFailureFrom(devices, self, ignoreIncomplete, i)
        <==> !Fails(devices, self, ignoreIncomplete, i) && NoFailureFrom(devices, self, ignoreIncomplete, i + 1)
  {
  }

  /** The peer loop fails exactly when some device fails it, and otherwise
      turns exactly the emitted devices into peers, in device order. */
  lemma {:induction false} PeerIndicesFromIff(sn: NetworkCensored, self: int, ignoreIncomplete: bool, i: nat)
    requires i <= |sn.devices|
    decreases |sn.devices| - i
    ensures var r := PeerIndicesFrom(sn, self, ignoreIncomplete, i);
            && (r.Ok? <==> NoFailureFrom(sn.devices, self, ignoreIncomplete, i))
            && (r.Ok? ==> r.value == EmittedIndices(sn.devices, self, i))
  {
    if i < |sn.devices| {
      PeerIndicesFromIff(sn, self, ignoreIncomplete, i + 1);
      NoFailureStep(sn.devices, self, ignoreIncomplete, i);
      var r := PeerIndicesFrom(sn, self, ignoreIncomplete, i);
      var r' := PeerIndicesFrom(sn, self, ignoreIncomplete, i + 1);
      if Fails(sn.devices, self, ignoreIncomplete, i) {
        assert r.Err?;
      } else if Emitted(sn.devices, self, i) {
        assert r == Cons(i, r');
      } else {
        assert r == r';
      }
    }
  }

  // ---------------------------------------------------------------------
  // Forwarding flags.

  /** The addresses of the first device named `name`, or none. */
  function AddressesOfName(sn: NetworkCensored, name: string): seq<IPNet> {
    var i := FindName(sn.devices, CensoredDeviceName, name);
    if i == -1 then [] else sn.devices[i].addresses
  }

  /** The addresses of the devices the compiled device forwards for; a name
      missing from the network is a panic. */
  function AccessibleAddresses(sn: NetworkCensored, names: seq<string>): (r: Result<seq<IPNet>, CompileError>)
    ensures r.Ok? <==> forall k :: 0 <= k < |names| ==> names[k] in Names(sn.devices, CensoredDeviceName)
    ensures r.Ok? ==> forall a :: a in r.value <==> exists k :: 0 <= k < |names| && a in AddressesOfName(sn, names[k])
  {
    if names == [] then Ok([])
    else if names[0] !in Names(sn.devices, CensoredDeviceName) then Err(Panic)
    else
      var rest := AccessibleAddresses(sn, names[1..]);
      assert forall k :: 1 <= k < |names| ==> names[k] == names[1..][k - 1];
      assert forall k :: 0 <= k < |names| - 1 ==> names[1..][k] == names[k + 1];
      if rest.Err? then rest else Ok(AddressesOfName(sn, names[0]) + rest.value)
  }

  /** The flags the address loop sets: IPv4 for an address `To4` accepts,
      IPv6 for any other. */
  function FamilyFlags(addresses: seq<IPNet>): (r: (bool, bool))
    ensures r.0 <==> exists a :: a in addresses && IsIPv4(a.ip)
    ensures r.1 <==> exists a :: a in addresses && !IsIPv4(a.ip)
  {
    if addresses == [] then (false, false)
    else
      var rest := FamilyFlags(addresses[1..]);
      assert forall a :: a in addresses <==> a == addresses[0] || a in addresses[1..];
      (IsIPv4(addresses[0].ip) || rest.0, !IsIPv4(addresses[0].ip) || rest.1)
  }

  // ---------------------------------------------------------------------
  // Networks and the machine.

  datatype Compiled = Compiled(iface: Interface, forwardsIPv4: bool, forwardsIPv6: bool)

  /** One network: nothing when the device is not in it; otherwise the
      forwarding flags, the table and the peers, in that order of failure. */
  function CompileNetwork(sn: NetworkCensored, name: string, ignoreIncomplete: bool): Result<Option<Compiled>, CompileError> {
    var self := FindName(sn.devices, CensoredDeviceName, name);
    if self == -1 then Ok(None)
    else
      var snd := sn.devices[self];
      var addresses := AccessibleAddresses(sn, snd.forwardsFor);
      if addresses.Err? then Err(addresses.error)
      else if !TableInRange(sn.devices, self) then Err(Panic)
      else
        var peers := PeerIndicesFrom(sn, self, ignoreIncomplete, 0);
        if peers.Err? then Err(peers.error)
        else
          var flags := FamilyFlags(addresses.value);
          Ok(Some(Compiled(Interface(sn.name, ZeroKey, snd.listenPort, snd.addresses, PeersAt(sn.devices, self, peers.value)),
                           flags.0, flags.1)))
  }

  /** A network compiles to an interface exactly when the device is in it;
      the interface carries the network's name, no private key, and the
      device's own port and addresses. */
  lemma CompileNetworkShape(sn: NetworkCensored, name: string, ignoreIncomplete: bool)
    ensures var r := CompileNetwork(sn, name, ignoreIncomplete);
            && (r.Ok? && r.value.None? <==> name !in Names(sn.devices, CensoredDeviceName))
            && (r.Ok? && r.value.Some? ==>
                  var snd := sn.devices[FindName(sn.devices, CensoredDeviceName, name)];
                  var iface := r.value.value.iface;
                  && iface.name == sn.name
                  && iface.privateKey == ZeroKey
                  && iface.listenPort == snd.listenPort
                  && iface.addresses == snd.addresses)
  {
  }

  /** The interface's peers are those of the emitted devices, in order. */
  lemma CompileNetworkPeers(sn: NetworkCensored, name: string, ignoreIncomplete: bool)
    ensures var r := CompileNetwork(sn, name, ignoreIncomplete);
            var self := FindName(sn.devices, CensoredDeviceName, name);
            r.Ok? && r.value.Some? ==>
              && Peerable(sn.devices, self, EmittedIndices(sn.devices, self, 0))
              && r.value.value.iface.peers == PeersAt(sn.devices, self, EmittedIndices(sn.devices, self, 0))
  {
    var self := FindName(sn.devices, CensoredDeviceName, name);
    if self != -1 {
      PeerIndicesFromIff(sn, self, ignoreIncomplete, 0);
    }
  }

  /** The flags say which address families the devices the compiled device
      forwards for have. */
  lemma CompileNetworkFlags(sn: NetworkCensored, name: string, ignoreIncomplete: bool)
    ensures var r := CompileNetwork(sn, name, ignoreIncomplete);
            r.Ok? && r.value.Some? ==>
              var names := sn.devices[FindName(sn.devices, CensoredDeviceName, name)].forwardsFor;
              var c := r.value.value;
              && (c.forwardsIPv4 <==> exists k, a :: 0 <= k < |names| && a in AddressesOfName(sn, names[k]) && IsIPv4(a.ip))
              && (c.forwardsIPv6 <==> exists k, a :: 0 <= k < |names| && a in AddressesOfName(sn, names[k]) && !IsIPv4(a.ip))
  {
  }

  /** A network the device is in fails to compile exactly when a name it
      forwards for is missing, a forwarder index is out of range, or some
      other device fails the peer loop. */
  lemma CompileNetworkFailsIff(sn: NetworkCensored, name: string, ignoreIncomplete: bool)
    requires name in Names(sn.devices, CensoredDeviceName)
    ensures var self := FindName(sn.devices, CensoredDeviceName, name);
            CompileNetwork(sn, name, ignoreIncomplete).Err? <==>
              || (exists k :: 0 <= k < |sn.devices[self].forwardsFor|
                              && sn.devices[self].forwardsFor[k] !in Names(sn.devices, CensoredDeviceName))
              || !TableInRange(sn.devices, self)
              || !NoFailureFrom(sn.devices, self, ignoreIncomplete, 0)
  {
    var self := FindName(sn.devices, CensoredDeviceName, name);
    PeerIndicesFromIff(sn, self, ignoreIncomplete, 0);
  }

  /** With distinct device names, the device is never its own peer. */
  lemma NotOwnPeer(sn: NetworkCensored, name: string, ignoreIncomplete: bool)
    requires DistinctNames(sn.devices, CensoredDeviceName)
    ensures var r := CompileNetwork(sn, name, ignoreIncomplete);
            r.Ok? && r.value.Some? ==> name !in Names(r.value.value.iface.peers, PeerName)
  {
    var self := FindName(sn.devices, CensoredDeviceName, name);
    CompileNetworkPeers(sn, name, ignoreIncomplete);
    var r := CompileNetwork(sn, name, ignoreIncomplete);
    if r.Ok? && r.value.Some? {
      var idx := EmittedIndices(sn.devices, self, 0);
      var peers := r.value.value.iface.peers;
      forall k | 0 <= k < |peers| ensures peers[k].name != name {
        assert peers[k] == PeerOf(sn.devices, self, idx[k]);
        assert Names(sn.devices, CensoredDeviceName)[idx[k]] == sn.devices[idx[k]].name;
        assert Names(sn.devices, CensoredDeviceName)[self] == name;
      }
    }
  }

  /** The networks compiled so far, front to back, stopping at the first
      error. */
  function CompileNetworks(networks: seq<NetworkCensored>, name: string, ignoreIncomplete: bool): Result<seq<Compiled>, CompileError> {
    if networks == [] then Ok([])
    else
      var first := CompileNetwork(networks[0], name, ignoreIncomplete);
      if first.Err? then Err(first.error)
      else
        var rest := CompileNetworks(networks[1..], name, ignoreIncomplete);
        if rest.Err? then rest
        else if first.value.None? then rest
        else Ok([first.value.value] + rest.value)
  }

  /** `SpecCensored.CompileMachine`: the forwarding flags are set when any
      network's forwarded addresses include that family. */
  function CompileMachine(sc: SpecCensored, name: string, ignoreIncomplete: bool): Result<Machine, CompileError> {
    var cs := CompileNetworks(sc.networks, name, ignoreIncomplete);
    if cs.Err? then Err(cs.error)
    else
      Ok(Machine(seq(|cs.value|, k requires 0 <= k < |cs.value| => cs.value[k].iface),
                 AnyForwards(cs.value, true), AnyForwards(cs.value, false)))
  }

  /** Whether any compiled network forwards IPv4 (`v4`) or IPv6 (`!v4`). */
  function AnyForwards(cs: seq<Compiled>, v4: bool): (r: bool)
    ensures r <==> exists k :: 0 <= k < |cs| && (if v4 then cs[k].forwardsIPv4 else cs[k].forwardsIPv6)
  {
    if cs == [] then false
    else
      assert forall k :: 1 <= k < |cs| ==> cs[k] == cs[1..][k - 1];
      (if v4 then cs[0].forwardsIPv4 else cs[0].forwardsIPv6) || AnyForwards(cs[1..], v4)
  }

  /** The networks, in order, that have a device named `name`. */
  function NetworksWith(networks: seq<NetworkCensored>, name: string): seq<string> {
    if networks == [] then []
    else
      (if name in Names(networks[0].devices, CensoredDeviceName) then [networks[0].name] else [])
      + NetworksWith(networks[1..], name)
  }

  /** The compiled networks carry the names `ws`, in order, and no private
      key. */
  predicate NamedAfter(cs: seq<Compiled>, ws: seq<string>) {
    && |cs| == |ws|
    && forall k :: 0 <= k < |cs| ==> cs[k].iface.name == ws[k] && cs[k].iface.privateKey == ZeroKey
  }

  lemma NamedAfterAppend(c: seq<Compiled>, d: seq<Compiled>, v: seq<string>, w: seq<string>)
    requires NamedAfter(c, v) && NamedAfter(d, w)
    ensures NamedAfter(c + d, v + w)
  {
    forall k | 0 <= k < |c + d|
      ensures (c + d)[k].iface.name == (v + w)[k] && (c + d)[k].iface.privateKey == ZeroKey
    {
      if k >= |c| {
        assert (c + d)[k] == d[k - |c|];
        assert (v + w)[k] == w[k - |c|];
      }
    }
  }

  /** One step of `CompileNetworks`: the first network's interface, if it
      has one, in front of the rest. */
  lemma CompileNetworksStep(networks: seq<NetworkCensored>, name: string, ignoreIncomplete: bool)
    requires networks != []
    ensures var r := CompileNetworks(networks, name, ignoreIncomplete);
            var first := CompileNetwork(networks[0], name, ignoreIncomplete);
            var rest := CompileNetworks(networks[1..], name, ignoreIncomplete);
            r.Ok? ==> first.Ok? && rest.Ok?
                      && r.value == (if first.value.Some? then [first.value.value] else []) + rest.value
  {
  }

  lemma {:induction false} CompileNetworksNames(networks: seq<NetworkCensored>, name: string, ignoreIncomplete: bool)
    ensures var r := CompileNetworks(networks, name, ignoreIncomplete);
            r.Ok? ==> NamedAfter(r.value, NetworksWith(networks, name))
  {
    if networks != [] {
      var first := CompileNetwork(networks[0], name, ignoreIncomplete);
      var rest := CompileNetworks(networks[1..], name, ignoreIncomplete);
      var r := CompileNetworks(networks, name, ignoreIncomplete);
      CompileNetworkShape(networks[0], name, ignoreIncomplete);
      CompileNetworksStep(networks, name, ignoreIncomplete);
      CompileNetworksNames(networks[1..], name, ignoreIncomplete);
      if r.Ok? {
        var head := if first.value.Some? then [first.value.value] else [];
        var names := if name in Names(networks[0].devices, CensoredDeviceName) then [networks[0].name] else [];
        assert NamedAfter(head, names);
        NamedAfterAppend(head, rest.value, names, NetworksWith(networks[1..], name));
      }
    }
  }

  /** The machine has one interface per network holding the device, named
      after it, in network order, and none has a private key. */
  lemma CompileMachineInterfaces(sc: SpecCensored, name: string, ignoreIncomplete: bool)
    ensures var r := CompileMachine(sc, name, ignoreIncomplete);
            r.Ok? ==> Names(r.value.interfaces, InterfaceName) == NetworksWith(sc.networks, name)
                      && forall k :: 0 <= k < |r.value.interfaces| ==> r.value.interfaces[k].privateKey == ZeroKey
  {
    CompileNetworksNames(sc.networks, name, ignoreIncomplete);
  }
}
