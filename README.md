# qrystal control plane: diff, apply, compile, coordinate, resolve

This project models the core of qrystal. qrystal is a control plane for
WireGuard meshes. Its parts are:

- **Coordination server.** It holds the **spec**: networks, each with
  devices, their keys, addresses, endpoints and access rules.
- **Device clients.** Each client fetches its **censored view** of a
  network. It chooses an endpoint or a forwarder for every other device and
  compiles the view into a **goal**. The goal is a machine of WireGuard
  interfaces with peers and allowed IPs.
- **Goal diff and apply.** The client diffs the goal against the current
  machine and applies the diff to the host. It then reports back that it is
  up to date.
- **DNS server.** It runs on devices and answers `A`/`AAAA` queries for
  device names.

The model follows the Go packages one module each:

| module | file | what it holds |
|---|---|---|
| `Wrappers` | `wrappers.dfy` | `Option`, `Result` |
| `Slices` | `slices.dfy` | the sort that stands for `sort.Slice`/`slices.Sort`, `slices.Index` |
| `Net` | `net.dfy` | byte strings, `bytes.Compare`, IP networks, `lessIPNet`, `To4`, keys |
| `GoStrings` | `go_strings.dfy` | `strings.TrimPrefix/TrimSuffix/Split`, `slices.Reverse` |
| `GoalUtil` | `goal_util.dfy` | `setDifference`, `setIntersection` (`goal/util.go`) |
| `Goal` | `goal.dfy` | `DiffMachine`, `DiffInterface`, `DiffInterfacePeer` (`goal/goal.go`) |
| `GoalApply` | `goal_apply.dfy` | class `Host`: `ApplyMachineDiff` and helpers (`goal/apply_linux.go`) |
| `Specs` | `spec.dfy` | spec types, lookups, `Equal`, `Clone`, `CensorForDevice` (`spec/spec.go`) |
| `SpecResolve` | `spec_resolve.dfy` | `ChooseEndpoint` (`spec/resolve.go`) |
| `SpecCompile` | `spec_compile.dfy` | `CompileMachine` (`spec/compile.go`) |
| `CoordUpdate` | `coord_update.dfy` | `sliceUnion` and the invalidation rule of `updateSpecNoLock` (`coord/update.go`) |
| `Coord` | `coord_server.dfy` | class `Server`: the reify endpoints (`coord/server.go`) |
| `Device` | `device.dfy` | `chooseEndpoints`, `patchAccessible`, classes `Client` and `ContinuousClient` |
| `Dns` | `dns.dfy` | `NewServer`, `handleQuery`, `handleParent`, `returnAddresses` (`dns/dns.go`) |

Code that mutates state stays imperative:

- The host is a class `Host`. Its fields are the links, the `ip_forward`
  setting, and the trace of calls issued to the operating system. A constant
  oracle, the set of trace positions that fail, decides which calls fail.
- The coordinator is a class `Server`. Its fields are the spec, the map of
  up-to-date devices (`latest`), and the token table.
- The loops of the source are `while`/`for` loops. Each is proved against a
  recursive function that specifies it ("walk" functions). The properties
  are proved as lemmas about those functions.

Go panics that an input can reach are modelled as error values: `Panic`,
`IndexOutOfRange`, `ClientPanic`. Examples are an index past the end of a
slice and a missing device in a map lookup. A panic that callers rule out
by construction is a `requires`. Examples are two interfaces of different
names given to `DiffInterface`, and a device missing from the network given
to `CensorForDevice`.

### Behaviour as written

Several spots in the source do something other than what their names or
comments suggest. The model keeps the code as written, and the lemmas below
show each one:

- **Address diff.** In `goal/goal.go:147` the "added" branch appends
  `a.Addresses[i]`, an old address, instead of `b.Addresses[j]`.
  `goal/goal.go:153` indexes `b.Addresses[i]` with the old side's index.
  - `Goal.AddressDiffAddsOldAddress`: the desired address 10.0.0.1/32 is
    never added against a current 10.0.0.2/32. The old one is "added" and
    removed instead.
  - `Goal.AddressDiffPanics`: a mask change after a removal indexes past
    the end and panics.
- **`updateSpecNoLock` never stores the new spec**
  (`coord/update.go:23-49`). It only trims `latest`.
  `Coord.Server.UpdateSpecNoLock` and `Coord.Server.PatchReifySpec` state
  `spec == old(spec)`. So a patch that passes every check still leaves the
  spec as it was.
- **`Clone` drops fields.** `NetworkDeviceCensored.Clone` drops
  `ForwardsFor` and `UsesForwarder` (`spec/spec.go:251-276`). A cloned spec
  equals the original only when no device forwards
  (`Specs.DeviceCensoredCloneEqualIff`, `Specs.SpecCloneIff`).
- **`ForwarderChosenIndex` has two meanings.** `chooseEndpoints` stores a
  position in the list of forwarder names (`device/client.go:267-268`), but
  `CompileMachine` reads it as an index into the network's devices
  (`spec/compile.go:44,67`). `Device.ForwarderIndexMisread` builds a network
  where this routes a device's addresses to the wrong peer.
- **Debug lines can panic.** The debug lines after a choice read
  `Endpoints[...ChosenIndex]` from the record as it was before the choice
  (`device/client.go:255,271`). They panic when that index is out of range
  (`Device.ForwarderLogPanics`).
- **`postReifyStatus`** (`coord/server.go:242-299`):
  - It has no `return` after a body that fails to decode. The 400 is
    followed by the normal handling of the zero request
    (`Coord.ZeroStatusMatches`).
  - It appends to `latest` without checking for a repeat
    (`Coord.AppendTwiceDuplicates`).
- **The route rollback never runs.** The rollback `defer` in
  `applyInterfaceDiffRoutes` is registered only after the loop it would
  undo (`goal/apply_linux.go:359-385`). A failing route task therefore
  leaves the earlier routes in place (`GoalApply.RouteFailureKeepsDoneRoutes`).
- **A dead check in `CompileMachine`.** The forwardee key check at
  `spec/compile.go:84-91` can never fail. The table it reads only lists
  devices with a key. The model does not include that branch.
- **`sliceUnion` is an intersection.** It returns the common elements
  (`CoordUpdate.SliceUnion`), as its test expects.

Where the specification of the system and the code disagree, the model
follows the code:

- `spec/compile.go` sets `Machine.ForwardsIPv4`/`ForwardsIPv6`, and
  `goal/apply_linux.go` reads `MachineDiff.ForwardsIPv4Changed` and
  `ForwardsIPv6Changed`. The types in `goal/goal.go` have none of these
  fields. The model adds them, and `DiffMachine` leaves the two flags false,
  as it never sets them (nor `InterfaceNoChange`).
- The device's accessible list and the `forwardsFor` list it is compiled
  from are one field, `forwardsFor`.
- `setDifference` is taken in its two-argument form, with `lessIPNet`.

## Model

| member | source | states |
|---|---|---|
| Net.Compare | goal/util.go:98-102 | `bytes.Compare` is -1, 0 or 1, and 0 exactly on equal byte strings |
| Net.CompareAntisymmetric | goal/util.go:98-102 | swapping the arguments flips the sign |
| Net.CompareTransitive | goal/util.go:98-102 | the byte order is transitive, so sorting by address is consistent |
| Net.LessIPNet | goal/util.go:98-102 | `lessIPNet`: by address bytes, then by mask bytes (its order properties are the next row) |
| Net.LessIP | goal/goal.go:130-135 | the comparison the address and allowed-IP sorts use: address bytes only, the mask ignored |
| Net.LessIPNetIsStrictTotalOrder | goal/util.go:98-102 | `lessIPNet` (address, then mask) is irreflexive, transitive and connected on IP networks |
| Net.LessIPIsStrictWeakOrder | goal/goal.go:130-135 | sorting by address alone is a strict weak order: networks with equal addresses are incomparable |
| Net.IPEqualIsEquivalence | spec/spec.go:243-245 | `ipNetEqual` is reflexive, symmetric and transitive |
| Net.IsIPv4IffEqualsFourBytes | spec/compile.go:24-33 | `To4` accepts an address exactly when it equals some 4-byte address |
| Slices.Sort | goal/util.go:108-109 | the sort gives a permutation of its input, of the same length |
| Slices.SortSorted | goal/util.go:108-109 | under a strict weak order, the result of the sort is sorted |
| Slices.SortOfSorted | goal/goal.go:236-241 | sorting an already sorted slice leaves it unchanged |
| Slices.SortedUnique | coord/update.go:55-56 | two sequences sorted by a connected order that hold the same elements are equal, so a sorted result is fixed by its elements |
| Slices.SortInPlace | goal/util.go:108-109 | sorts an array in place: the new contents are the sorted permutation of the old |
| Slices.IndexOf | goal/apply_linux.go:318-319 | `slices.Index`: the first index holding the value, or -1 when there is none |
| Slices.LastIndexOf | goal/goal.go:101-108 | the index a name map built by `m[s[i]] = i` keeps is the last one holding the name |
| GoStrings.TrimPrefix | dns/dns.go:129 | the result with the prefix put back is the input when the prefix is there; otherwise it is the input |
| GoStrings.TrimSuffix | dns/dns.go:129 | the result with the suffix put back is the input when the suffix is there; otherwise it is the input |
| GoStrings.SplitParts | dns/dns.go:129 | the pieces of `strings.Split` hold no separator and join back to the input |
| GoStrings.SplitJoin | dns/dns.go:129 | splitting undoes joining pieces that hold no separator |
| GoStrings.ReverseIndex | dns/dns.go:133 | `slices.Reverse` puts the element `k` places from the end at index `k` |
| GoalUtil.UnmatchedIsDifference | goal/util.go:104-120 | under a total order, the elements of `a` with no equivalent in `b` are exactly those of `a` that are not in `b` |
| GoalUtil.UnmatchedSelf | goal/util_test.go:14-18 | `setDifference(A, A)` is empty |
| GoalUtil.UnmatchedNothing | goal/util_test.go:14-18 | `setDifference(A, nil)` is A |
| GoalUtil.UnmatchedSorted | goal/util.go:104-120 | the difference of a sorted slice is sorted |
| GoalUtil.CommonIsIntersection | goal/util.go:122-138 | on sorted inputs under a total order, the two-index walk yields the multiset intersection |
| GoalUtil.CommonSorted | goal/util.go:122-138 | the intersection keeps `a`'s order, so it is sorted |
| GoalUtil.SetDifference | goal/util.go:107-120 | sorts both arrays in place (each ends as the sort of its old contents) and returns the elements of sorted `a` without an equivalent in sorted `b` |
| GoalUtil.DifferenceOfSorted | goal/util.go:110-119 | the loop of `setDifference` on sorted inputs returns exactly the unmatched elements |
| GoalUtil.SetIntersection | goal/util.go:122-138 | sorts both arrays in place and returns their common elements, sorted |
| GoalUtil.CommonOfSorted | goal/util.go:125-137 | the walk of `setIntersection` returns the common elements the specification function describes |
| Goal.NameIndexIsLastIndex | goal/goal.go:101-108 | the name map holds every name, each mapped to the last index that carries it |
| Goal.BuildNameIndex | goal/goal.go:101-108 | the loop builds exactly that map |
| Goal.AbsentMembers | goal/goal.go:109-118 | the removed (added) peers are exactly those whose name the other side lacks |
| Goal.AbsentExtremes | goal/goal.go:109-118 | when the other side has every name nothing is absent; when it has none of them, everything is |
| Goal.CollectAbsent | goal/goal.go:109-118 | the loop appends exactly the absent elements, in order |
| Goal.AllowedIPsChanges | goal/goal.go:236-277 | the `AllowedIPsChanged` list: both lists sorted by address and merged; the same address and mask is `NoChange`, a new mask is `Remove` then `Add`, the rest `Remove` or `Add` |
| Goal.AllowedIPsWalkOldSide | goal/goal.go:243-277 | the `Remove` and `NoChange` entries of the change list, in order, are the sorted old allowed IPs |
| Goal.AllowedIPsWalkNewSide | goal/goal.go:243-277 | the `Add` and `NoChange` entries, in order, are the sorted new allowed IPs |
| Goal.AllowedIPsChangesAccount | goal/goal.go:243-277 | #Remove + #NoChange is the number of old IPs, #Add + #NoChange that of the new, and both sides can be read back from the changes |
| Goal.AllowedIPsNoChangeIff | goal/goal.go:199-204 | every change is `NoChange` exactly when the two allowed-IP lists, sorted by address, are equal |
| Goal.MaskChangeIsRemoveThenAdd | goal/goal.go:257-260 | the same address under a new mask becomes a `Remove` of the old entry followed by an `Add` of the new one |
| Goal.PresharedKeyChangedIff | goal/goal.go:224-235 | the preshared key is reported changed exactly when the two optional keys differ |
| Goal.PeerDiff | goal/goal.go:222-279 | the `InterfacePeerDiff` of two peers: public key, preshared key, endpoint and keepalive compared, and the allowed-IP changes |
| Goal.PeerDiffNoChangeIff | goal/goal.go:199-204 | a peer diff reports no change exactly when the peers agree on every field except the name and the order of their allowed IPs |
| Goal.PeerDiffOfSorted | goal/goal.go:236-241 | sorting a peer's allowed IPs beforehand does not change the diff |
| Goal.ExampleChanges | goal/goal_test.go:22-65 | the allowed-IP changes of the test: 10.10.0.0/24 removed, 10.10.1.0/25 kept, 10.10.2.0/32 added |
| Goal.PeerDiffExample | goal/goal_test.go:22-65 | the whole expected `InterfacePeerDiff` of the test: public key, endpoint and keepalive changed, preshared key unchanged, and those allowed-IP changes |
| Goal.DiffInterfacePeer | goal/goal.go:222-279 | returns the diff of the two peers and their allowed IPs sorted by address |
| Goal.MergeAllowedIPs | goal/goal.go:243-277 | the two-index merge loop returns the change list the walk function specifies |
| Goal.AddressDiff | goal/goal.go:130-168 | the address part of `DiffInterface`: both lists sorted by address and merged as written (lines 147 and 153 included), or the panic of line 153 |
| Goal.AddressDiffNoChangeIff | goal/goal.go:136-168 | `AddressesNoChange` holds exactly when nothing is added or removed, and exactly when the addresses agree once sorted |
| Goal.AddressDiffFromEmpty | goal/goal.go:165-168 | against no current addresses, every desired address is added, sorted, and nothing is removed |
| Goal.AddressDiffAddsOldAddress | goal/goal.go:145-148 | as written, a desired address below a current one is never added; the current one is both added and removed |
| Goal.AddressDiffPanics | goal/goal.go:149-154 | as written, a mask change after a removal indexes the new side out of range |
| Goal.MergeAddresses | goal/goal.go:136-168 | the address merge loop returns what the address walk specifies, including its panic |
| Goal.ChangedPeers | goal/goal.go:119-129 | the changed peers are, in `a`'s order, exactly those whose name `b` has and whose diff against `b`'s last peer of that name is a change |
| Goal.DiffPeerPair | goal/goal.go:119-129 | one loop turn appends the peer's name exactly when its diff is a change, and sorts both peers' allowed IPs |
| Goal.DiffPeers | goal/goal.go:101-129 | the peer part of `DiffInterface`: removed, added and changed peers as above |
| Goal.DiffPeerPairs | goal/goal.go:119-129 | the loop over `a`'s peers yields `ChangedPeers` |
| Goal.InterfaceDiffOf | goal/goal.go:90-170 | the `InterfaceDiff` of two interfaces: private key and port flags, peers removed, added and changed, and the address diff, or the address merge's panic |
| Goal.DiffInterface | goal/goal.go:90-170 | for interfaces of one name: key and port flags, the peer diff, and the address diff as written, with both address lists sorted |
| Goal.ChangedInterfacesErrorSticks | goal/goal.go:43-53 | the first interface whose diff panics decides the outcome of the loop |
| Goal.DiffInterfacePair | goal/goal.go:43-53 | one loop turn of `DiffMachine` adds the interface's diff when it is a change |
| Goal.MachineDiffOf | goal/goal.go:22-56 | the `MachineDiff` of two machines: interfaces removed and added by name, and the names of matched interfaces whose diff is a change, or the first panic |
| Goal.DiffMachine | goal/goal.go:22-56 | returns the machine diff the specification function gives (interfaces matched by name, removed, added, changed); `InterfaceNoChange` and the forwarding flags are never set |
| Goal.InterfaceDiffOfSelf | goal/goal.go:90-170 | an interface whose peers have distinct names has no difference from itself |
| Goal.MachineDiffOfSelf | goal/goal.go:22-56 | a machine diffed against itself reports no interface added, removed or changed |
| Goal.NewPeerIsAdded | goal/goal.go:114-118 | a desired peer whose name the current side lacks is reported added, whatever else the sides hold |
| SpecResolve.ChoiceUnique | spec/resolve.go:64-73 | at most one endpoint meets the argmax rule, so the rule decides the endpoint |
| SpecResolve.ChooseEndpoint | spec/resolve.go:36-80 | scores each endpoint once; with no success the record is unchanged and `ErrAllEndpointsBad` is returned; when no success scores at least 0 it panics; otherwise it writes the chosen index and the choice flags and nothing else |
| Specs.FindName | spec/spec.go:35-41 | the first index whose name matches, or -1 when none does |
| Specs.GetNetworkIndex | spec/spec.go:35-41 | the first network of the name and `true`, or index 0 and `false` when there is none |
| Specs.GetNetwork | spec/spec.go:27-33 | the network of the name when there is one |
| Specs.GetCensoredNetworkIndex | spec/spec.go:59-65 | as `GetNetworkIndex`, on censored specs |
| Specs.GetCensoredNetwork | spec/spec.go:51-57 | the censored network of the name when there is one |
| Specs.GetDeviceIndex | spec/spec.go:80-83 | the first device of the name and `true`, or -1 and `false` |
| Specs.GetDevice | spec/spec.go:72-78 | the device of the name when there is one |
| Specs.GetCensoredDeviceIndex | spec/spec.go:107-110 | as `GetDeviceIndex`, on censored networks |
| Specs.GetCensoredDevice | spec/spec.go:99-105 | the censored device of the name when there is one |
| Specs.GetForwardersFor | spec/spec.go:112-121 | `GetForwardersFor`: the devices that can forward for the name, as the next row states |
| Specs.ForwardersAmong | spec/spec.go:112-121 | exactly the names of the devices that list the name in `ForwardsFor` and have chosen an endpoint or forwarder |
| Specs.EqualFunc | spec/spec.go:123-125 | `slices.EqualFunc`: same length and pairwise equal |
| Specs.DeviceCensoredEqual | spec/spec.go:243-249 | `NetworkDeviceCensored.Equal`: name, endpoints, addresses (by `ipNetEqual`), port, public key, preshared key (both nil or equal), keepalive and `ForwardsFor` agree; the four choice fields are not compared |
| Specs.NetworkCensoredEqual | spec/spec.go:123-125 | `NetworkCensored.Equal`: the names, the devices pairwise, and `CensoredFor` agree |
| Specs.SpecCensoredEqual | spec/spec.go:47-49 | `SpecCensored.Equal`: the networks are pairwise equal |
| Specs.AccessControlEqual | spec/spec.go:283-285 | `AccessControl.Equal`: `AccessAll` agrees and `AccessOnly` is equal, a nil list counting as empty |
| Specs.NetworkDeviceEqual | spec/spec.go:147-149 | `NetworkDevice.Equal`: the censored parts and the access rules are equal |
| Specs.DeviceCensoredEqualIsEquivalence | spec/spec.go:247-249 | device equality is reflexive, symmetric and transitive |
| Specs.DeviceCensoredEqualIgnoresChoice | spec/spec.go:247-249 | equality ignores the four fields a device fills in when it chooses an endpoint or forwarder |
| Specs.NetworkCensoredEqualReflexive | spec/spec.go:123-125 | every censored network equals itself |
| Specs.DeviceCensoredClone | spec/spec.go:251-276 | the clone copies every field except `UsesForwarder` and `ForwardsFor`, which come out zero |
| Specs.DeviceCensoredCloneEqualIff | spec/spec.go:251-276 | a clone equals its original exactly when the original forwards for nobody |
| Specs.CloneDropsForwardsFor | spec/spec.go:251-276 | a device that forwards for another is not equal to its clone |
| Specs.NetworkDeviceClone | spec/spec.go:151-156 | `NetworkDevice.Clone`: the censored part cloned as above and the access rule copied |
| Specs.NetworkClone | spec/spec.go:85-91 | `Network.Clone`: the name, and every device cloned in place |
| Specs.SpecClone | spec/spec.go:19-25 | `Spec.Clone`: every network cloned in place |
| Specs.AccessControlClone | spec/spec.go:294-303 | a nil `AccessOnly` stays nil and a non-nil one is copied, so the clone is the same value |
| Specs.SpecCloneIff | spec/spec.go:19-25 | a spec clone keeps every network and device name in place, and equals the spec exactly when no device forwards |
| Specs.Validate | spec/spec.go:287-292 | an access rule is refused exactly when `AccessAll` is set and `AccessOnly` is non-nil |
| Specs.ValidateTellsNilFromEmpty | spec/spec.go:283-292 | an empty but non-nil `AccessOnly` is refused next to `AccessAll`, though equality treats it as nil |
| Specs.VisibleDevices | spec/spec.go:134-138 | exactly the public parts of the devices the access rule lets one see; all of them under `AccessAll` |
| Specs.CensorForDevice | spec/spec.go:127-140 | the view has the network's name, the requester's name, and exactly the visible devices |
| Specs.CensorIncludesSelfIff | spec/spec.go:134-138 | the requester sees itself exactly when its own access rule admits it |
| SpecCompile.ForwardedAddresses | spec/compile.go:35-46 | the addresses, in device order, of the keyed devices other than the compiled one whose chosen forwarder is device `j`: what the table entry `forwardsFor[j]` adds to that peer |
| SpecCompile.ForwardedAddressesMembers | spec/compile.go:35-46 | an address is routed to device `j` exactly when some device other than the compiled one, with a key and a chosen forwarder at index `j`, has it |
| SpecCompile.AllowedIPsOneHop | spec/compile.go:80-93 | an address is among a peer's allowed IPs exactly when it is the peer's own or belongs to a device that chose the peer as forwarder |
| SpecCompile.PeerOf | spec/compile.go:60-101 | the peer a device becomes: its name, keys and keepalive, the chosen endpoint or a blank one, and its addresses followed by those forwarded through it |
| SpecCompile.PeerOfFields | spec/compile.go:60-101 | the peer's key, preshared key, keepalive and name come from its device; the endpoint is blank until one is chosen, then it is the chosen one |
| SpecCompile.EmittedIndices | spec/compile.go:47-79 | the indices of the devices the peer loop turns into peers, in device order |
| SpecCompile.EmittedIndicesMembers | spec/compile.go:47-79 | exactly the devices other than the compiled one that have a key and do not use a chosen forwarder become peers |
| SpecCompile.EmittedIndicesIncreasing | spec/compile.go:48 | peers come in device order |
| SpecCompile.PeersAt | spec/compile.go:94-101 | the peers of the listed devices, one per device, in order |
| SpecCompile.PeerIndicesFrom | spec/compile.go:48-102 | every device the peer loop lets through has a key, uses no forwarder, and has its chosen endpoint index in range |
| SpecCompile.PeerIndicesFromIff | spec/compile.go:48-102 | the peer loop fails exactly when some device fails it, and otherwise emits exactly the emitted devices, in order |
| SpecCompile.AccessibleAddresses | spec/compile.go:19-24 | the addresses of the devices forwarded for; a missing name is a panic |
| SpecCompile.FamilyFlags | spec/compile.go:24-33 | the IPv4 flag is set exactly when some such address passes `To4`, and the IPv6 flag exactly when some does not |
| SpecCompile.CompileNetwork | spec/compile.go:13-108 | one network: nothing when the device is not in it; otherwise a panic for a missing forwarded-for name or an out-of-range forwarder index, a peer-loop error, or the interface with its forwarding flags |
| SpecCompile.CompileNetworkShape | spec/compile.go:13-18 | a network yields an interface exactly when the device is in it; the interface has the network's name, no private key, and the device's port and addresses |
| SpecCompile.CompileNetworkPeers | spec/compile.go:103-108 | the interface's peers are those of the emitted devices, in order |
| SpecCompile.CompileNetworkFlags | spec/compile.go:19-34 | the forwarding flags follow the families of the forwarded-for addresses |
| SpecCompile.CompileNetworkFailsIff | spec/compile.go:19-102 | a network fails to compile exactly when a forwarded-for name is missing, a forwarder index is out of range, or the peer loop fails |
| SpecCompile.NotOwnPeer | spec/compile.go:37-39 | with distinct device names, the compiled device is never its own peer |
| SpecCompile.AnyForwards | spec/compile.go:28-31 | a machine forwards a family exactly when one of its networks does |
| SpecCompile.CompileNetworks | spec/compile.go:13-109 | the compiled networks that hold the device, in order, or the first error |
| SpecCompile.CompileNetworksNames | spec/compile.go:13-17 | the machine has one interface per network holding the device, named after it, in network order |
| SpecCompile.CompileMachine | spec/compile.go:11-111 | `CompileMachine`: the interfaces of the compiled networks, and each forwarding flag set when some network forwards that family |
| SpecCompile.CompileMachineInterfaces | spec/compile.go:11-111 | the machine has one interface per network holding the device, named after it, in order, none with a private key |
| GoalApply.FirstFailure | goal/apply_linux.go:217-227 | the first failing call among consecutive calls, or their count when none fails |
| GoalApply.AttemptPlainFails | goal/apply_linux.go:217-227 | plain calls run up to and including the first failing one, and the error is that call's |
| GoalApply.AttemptPlainSucceeds | goal/apply_linux.go:217-227 | plain calls that all succeed are all issued, in order |
| GoalApply.AttemptObserving | goal/apply_linux.go:178-196 | lookups and resolutions keep the links and `ip_forward`; when none fails the trace grows by exactly those calls |
| GoalApply.IssueAllObserving | goal/apply_linux.go:229-248 | cleanup calls that only touch addresses keep the links and `ip_forward` and are all issued |
| GoalApply.ApplyInterfaceDiffOutcome | goal/apply_linux.go:150-298 | `ApplyInterfaceDiff` on a host state: a panic for different names; then lookup, resolutions and configuration; address removals and additions with their deferred rollbacks; link-up; route tasks |
| GoalApply.MissingLinkIsReported | goal/apply_linux.go:168-171 | a missing link is reported as `LinkNotFound` after one call and before any change |
| GoalApply.PrefixSucceeds | goal/apply_linux.go:168-211 | when lookup, resolutions and configuration succeed, the host is unchanged apart from the trace, and the removals follow |
| GoalApply.RemovalFailureUndoesNothing | goal/apply_linux.go:217-227 | a failure while removing addresses undoes nothing |
| GoalApply.RemovalsSucceed | goal/apply_linux.go:217-227 | when every removal succeeds, the additions follow |
| GoalApply.AdditionFailureReaddsRemoved | goal/apply_linux.go:229-262 | a failure while adding re-adds every removed address, and leaves the additions made so far in place |
| GoalApply.AdditionsSucceed | goal/apply_linux.go:252-262 | when every addition succeeds, the link-up follows |
| GoalApply.RollbackIssuesBoth | goal/apply_linux.go:229-283 | the two address cleanups run last-registered first |
| GoalApply.LinkUpFailureRollsBack | goal/apply_linux.go:264-289 | a failed link-up deletes the added addresses, then re-adds the removed ones |
| GoalApply.RouteFailureKeepsDoneRoutes | goal/apply_linux.go:338-385 | a failing route task stops the loop; earlier tasks stay done, and only the addresses are rolled back |
| GoalApply.LinkUpAndRoutesSucceed | goal/apply_linux.go:286-294 | without a failure the link goes up and every route task runs once, in order, with nothing undone |
| GoalApply.RouteTasks | goal/apply_linux.go:305-330 | the route tasks: removed peers' allowed IPs as deletes, added peers' as adds, then each changed peer's differences; a changed name missing from either side panics |
| GoalApply.TasksMembers | goal/apply_linux.go:305-330 | a task list holds exactly one task per address, with the given direction |
| GoalApply.ChangedPeerTasksAreDifferences | goal/apply_linux.go:317-328 | a changed peer gets add tasks for exactly the allowed IPs it gained and delete tasks for exactly those it lost |
| GoalApply.ChangedTasksOk | goal/apply_linux.go:317-328 | building the changed-peer tasks succeeds when every changed name is on both sides |
| GoalApply.NamesAfterDiff | goal/goal.go:119-129 | the in-place sorting of allowed IPs during the diff keeps every peer name in place on both sides |
| GoalApply.RouteTasksOfDiffAreOk | goal/apply_linux.go:305-330 | route tasks for a diff that `DiffInterface` produced never panic |
| GoalApply.LinkUpKeepsLinks | goal/apply_linux.go:286-294 | link-up and route calls never add or delete a link |
| GoalApply.ApplyInterfaceDiffKeepsLinks | goal/apply_linux.go:150-298 | `ApplyInterfaceDiff` never adds or deletes a link |
| GoalApply.BaseDiffAddsEverything | goal/apply_linux.go:141-147 | creation diffs against an empty interface: every address is added, sorted, and every peer is added |
| GoalApply.CreateInterfaceOutcome | goal/apply_linux.go:103-148 | `CreateInterface` on a host state: a name over 15 bytes refused; otherwise the link added, the diff from a bare interface applied, and the link deleted again on failure |
| GoalApply.CreateInterfaceRejectsLongName | goal/apply_linux.go:107-109 | names longer than 15 bytes are refused before any call |
| GoalApply.CreateInterfaceLinks | goal/apply_linux.go:103-148 | the created link is the only one added; when creation fails without a panic, the link is deleted again unless that deletion fails too |
| GoalApply.IPForwardOutcome | goal/apply_linux.go:60-82 | reads `ip_forward`, fails when it does not parse, and writes the desired value only when it differs |
| GoalApply.IPForwardWrittenOnlyWhenDiffers | goal/apply_linux.go:60-82 | `ip_forward` is read and written only when it differs from the desired value; on success it is the desired value |
| GoalApply.ForwardsIPv6ChangeFails | goal/apply_linux.go:83-85 | a change of IPv6 forwarding never applies successfully |
| GoalApply.MissingLinkIsRecreated | goal/apply_linux.go:44-59 | a changed interface with a missing link is created from the desired interface right after the failed lookup |
| GoalApply.DeleteAllLinks | goal/apply_linux.go:30-36 | deleting interfaces succeeds only when each link exists, and then removes exactly those links |
| GoalApply.CreateAllLinks | goal/apply_linux.go:37-43 | creating interfaces succeeds only when none of their links exists, and then adds exactly those links |
| GoalApply.ChangeKeepsLinks | goal/apply_linux.go:44-59 | a successful change of an interface loses no link |
| GoalApply.ApplyMachineDiffOutcome | goal/apply_linux.go:29-87 | `ApplyMachineDiff` on a host state: removed interfaces deleted, added ones created, changed ones changed, then IPv4 forwarding set, stopping at the first error; an IPv6 forwarding change panics |
| GoalApply.ApplyMachineDiffLinks | goal/apply_linux.go:29-87 | after a successful apply, every removed interface had a link and every added interface has one |
| GoalApply.SelfDiffAppliesNothing | goal/apply_linux.go:29-87 | applying the diff of a machine against itself issues no call |
| GoalApply.Host.constructor | goal/apply_linux.go:29 | a host with the given links and `ip_forward`, and an empty trace |
| GoalApply.Host.Call | goal/apply_linux.go:168 | one call: it is recorded, changes the links only on success, and fails as the oracle and the links say |
| GoalApply.Host.Run | goal/apply_linux.go:217-227 | issues calls in order up to the first failure |
| GoalApply.Host.RunAll | goal/apply_linux.go:229-248 | issues every call, ignoring failures |
| GoalApply.Host.ApplyInterfaceDiff | goal/apply_linux.go:150-298 | the new host state and error are those the outcome function gives for the old state |
| GoalApply.Host.ApplyRoutes | goal/apply_linux.go:300-387 | the routes outcome for the old state |
| GoalApply.Host.DeleteInterface | goal/apply_linux.go:89-101 | the deletion outcome for the old state |
| GoalApply.Host.CreateInterface | goal/apply_linux.go:103-148 | the creation outcome for the old state |
| GoalApply.Host.ChangeInterface | goal/apply_linux.go:44-59 | the outcome of one changed interface for the old state |
| GoalApply.Host.ApplyMachineDiff | goal/apply_linux.go:29-87 | the machine-diff outcome for the old state |
| GoalApply.Host.SetIPForward | goal/apply_linux.go:60-82 | the `ip_forward` outcome for the old state |
| GoalApply.BuildRouteTasks | goal/apply_linux.go:305-330 | the task list of `applyInterfaceDiffRoutes` |
| GoalApply.CollectPeerTasks | goal/apply_linux.go:307-316 | one task per allowed IP of each peer, in order |
| GoalApply.PeerRouteTasks | goal/apply_linux.go:317-328 | the tasks of one changed peer, from `setDifference` in each direction |
| GoalApply.AllowedIPsDifferences | goal/apply_linux.go:323-326 | the gained and the lost allowed IPs, each sorted |
| GoalApply.AppendTasks | goal/apply_linux.go:305-330 | appends one task per address, in order |
| CoordUpdate.StringLess | coord/update.go:55-56 | Go's `<` on strings: lexicographic, a proper prefix first |
| CoordUpdate.StringLessIsStrictTotalOrder | coord/update.go:54-78 | `slices.Sort` sorts strings by a strict total order |
| CoordUpdate.SliceUnion | coord/update.go:54-78 | the result is sorted and is the multiset intersection of the two slices |
| CoordUpdate.SliceUnionExamples | coord/update_test.go:8-24 | each of the five cases of the test: any sorted sequence holding the common elements of the two slices is the expected one |
| CoordUpdate.Keep | coord/update.go:35-46 | `keep`: the devices of the new network, in order, that stay up to date, as the next row states |
| CoordUpdate.KeepMembers | coord/update.go:29-48 | `keep` holds exactly the devices of the new network that the old one has with an equal censored view |
| CoordUpdate.DeleteRemovedEntries | coord/update.go:24-28 | the first loop deletes exactly the entries of networks the new spec lacks |
| CoordUpdate.IntersectAllOthers | coord/update.go:29-48 | the second loop sets only entries of networks the old spec has, and leaves the others as they were |
| CoordUpdate.IntersectAllShared | coord/update.go:29-48 | for a network in both specs, the entry is sorted and holds exactly the devices every same-named new network kept |
| CoordUpdate.LatestAfterUpdate | coord/update.go:23-49 | `latest` after `updateSpecNoLock`: entries of dropped networks deleted, then each network in both specs set to `sliceUnion(keep, latest[name])` |
| CoordUpdate.LatestAfterUpdateRule | coord/update.go:23-49 | dropped networks lose their entry, new ones keep theirs, and a shared one keeps, sorted, only devices that were up to date with an unchanged view, so an entry never grows |
| Coord.VerifyIdentity | coord/server.go:62-85 | an accepted header has the prefix, the hash of its token is known, and that token lists the network and device |
| Coord.VerifyIdentityAccepts | coord/server.go:62-85 | for a prefixed header whose token hash is known, acceptance is exactly the token listing the network and device |
| Coord.VerifyIdentityNeedsPrefix | coord/server.go:63-68 | every header that does not start with the prefix is refused |
| Coord.PatchDevice | coord/server.go:200-221 | the device record with each flagged field of the request replaced; with no flag set it is unchanged |
| Coord.PatchDeviceFields | coord/server.go:200-211 | each patched field is the request's when flagged, the old one otherwise |
| Coord.Patched | coord/server.go:197-221 | the clone of the spec with only the caller's device patched; it has as many networks as the spec |
| Coord.PatchedOnlyOwnDevice | coord/server.go:197-221 | the patch changes, in the clone, only the caller's own device; every network and device keeps its name |
| Coord.ZeroStatusMatches | coord/server.go:261-284 | the zero request left by a failed decode matches the view of a device named "" with no visible devices |
| Coord.AppendTwiceDuplicates | coord/server.go:286-291 | two matching reports list the device twice |
| Coord.Server.constructor | coord/server.go:34-46 | the given spec and tokens, no device up to date |
| Coord.Server.UpdateSpecNoLock | coord/update.go:23-49 | the spec is kept as it was, and `latest` becomes what the invalidation rule gives |
| Coord.Server.DropRemovedNetworks | coord/update.go:24-28 | the first loop, as `DeleteRemoved` |
| Coord.Server.IntersectSharedNetworks | coord/update.go:29-48 | the second loop, as `IntersectAll` |
| Coord.Server.Unchanged | coord/update.go:36-45 | a device of the new network is kept exactly when the old network has it and its censored view is equal in both |
| Coord.Server.KeepDevices | coord/update.go:31-45 | the devices, in new order, whose view did not change |
| Coord.Server.UnionOf | coord/update.go:54-78 | `sliceUnion` on arrays holding the two lists |
| Coord.Server.GetReifyLatest | coord/server.go:91-121 | 401 without identity, 404 for a missing network or device, else 200 and whether the device is listed up to date |
| Coord.Server.GetReifySpec | coord/server.go:123-150 | 401, 404, or 200 with the caller's censored view |
| Coord.Server.PatchReifySpec | coord/server.go:167-232 | 401, 404, 500 for an unreadable body, 400 for an undecodable one or an unknown accessible name, all with `latest` unchanged; otherwise 204 with `latest` updated against the patched clone; the spec is never changed |
| Coord.Server.AllDevicesOf | coord/server.go:212-218 | true exactly when every name is a device of the network |
| Coord.Server.PostReifyStatus | coord/server.go:242-299 | 401 or 404 with nothing changed; otherwise 400 after a decode failure and 200 otherwise, and `latest` gains the device exactly when the report equals its current view |
| Device.QueuedUpTo | device/client.go:236-257 | the indices queued for a forwarder, in device order |
| Device.QueuedUpToMembers | device/client.go:236-257 | exactly the pending devices with no answering endpoint are queued |
| Device.ChooseDirectOne | device/client.go:236-257 | one turn of the first loop: queued, panicked or given its endpoint, as the scores say |
| Device.ChooseDirect | device/client.go:236-257 | panics exactly when some pending device does; otherwise every pending device gets its endpoint or is queued, and the queue is as specified |
| Device.TurnViewCurrent | device/client.go:258-272 | the network a queued device sees on its turn is the state reached so far |
| Device.ForwarderChosenStable | device/client.go:258-272 | a later turn does not change an earlier device's choice |
| Device.ChooseForwarders | device/client.go:258-272 | each queued device, in order, gets a forwarder among those that can forward for it in the state so far, others untouched; it panics only when, on some turn, the device has a forwarder and its old forwarder index is out of range for its endpoints |
| Device.ChooseEndpoints | device/client.go:228-274 | panics for a missing device; succeeds when no endpoint choice panics and every queued device's forwarder index is in range, and fails only when a device is missing, an endpoint choice panics or some queued device's index is out of range; on success every device is chosen as above |
| Device.ForwardingExampleRoutes | spec/compile.go:35-46 | where compiling routes the forwarded device's addresses once its forwarder index is 0 |
| Device.ForwarderLogPanics | device/client.go:267-271 | a forwarded device without endpoints makes the debug line panic |
| Device.ForwarderIndexMisread | device/client.go:258-272 | the stored forwarder index is a name-list position, so compiling routes the device's addresses to the wrong peer |
| Device.ChosenNames | device/client.go:276-296 | exactly the names of the devices with a chosen endpoint or forwarder, in order |
| Device.AccessiblePatch | device/client.go:285-288 | a request that sets only `Accessible`, to the names |
| Device.AccessibleRequest | device/client.go:276-296 | a patch is sent exactly when some device has a choice, and it sets `accessible` to those names |
| Device.AccessiblePatchKnown | device/client.go:276-296 | that patch passes the coordinator's accessible check when every visible device is in the network |
| Device.Client.constructor | device/client.go:194-226 | a client for the network and device, with the given private key |
| Device.PublicKeyPatch | device/client.go:215-218 | a request that sets only the public key |
| Device.Client.UpdateMyKeys | device/client.go:194-226 | generates a missing private key; patches the public key at the coordinator and in the view exactly when the view's differs |
| Device.UpdatedKeyMatches | device/client.go:212-224 | after the update the view holds the derived public key for the device and nothing else changes |
| Device.ContinuousClient.constructor | device/continuous.go:18-35 | a client not yet up to date |
| Device.ContinuousClient.Step | device/continuous.go:18-35 | asks whether it is up to date when it was, reifies otherwise; an error keeps the state |
| Dns.ParentError | dns/dns.go:35-49 | the first configuration rule a parent breaks, in the order checked |
| Dns.CheckParents | dns/dns.go:34-54 | the loop of `NewServer` over the first parents: the first error, or the map from each suffix to its parent |
| Dns.CheckParentsOk | dns/dns.go:34-54 | the loop passes exactly when every parent is valid and the suffixes are distinct |
| Dns.CheckParentsErr | dns/dns.go:34-54 | the loop stops at the error of the first parent that fails |
| Dns.NewServer | dns/dns.go:28-60 | a configuration is accepted exactly when it has a parent, each is valid and the suffixes are distinct |
| Dns.ParseName | dns/dns.go:129-144 | `handleParent`'s parse: trailing dot dropped, suffix trimmed, labels split on `.` and reversed after the parent's network and device; exactly two parts name (network, device) |
| Dns.ParseNameFixed | dns/dns.go:129-144 | a parent with a network and a device resolves a name exactly when nothing precedes its suffix, and then to its own network and device |
| Dns.ParseNameSpelled | dns/dns.go:129-144 | under a parent without them, a name parses to (network, device) exactly when it reads `<device>.<network><suffix>` |
| Dns.ParseNameRoundTrip | dns/dns.go:129-144 | the name a parent gives a device parses back to that device |
| Dns.Resolve | dns/dns.go:145-154 | the network of the name, then its device of the name: found exactly when the spec has both, and it carries the asked name |
| Dns.RecordFor | dns/dns.go:159-188 | an A record for a /32, an AAAA record for a /128, none otherwise |
| Dns.Records | dns/dns.go:159-188 | the records `returnAddresses` appends, in address order, at most one per address |
| Dns.RecordsAppend | dns/dns.go:159-188 | records come in the order of their addresses |
| Dns.RecordsA | dns/dns.go:161-171 | the A records are exactly those of the /32 addresses |
| Dns.RecordsAAAA | dns/dns.go:172-182 | the AAAA records are exactly those of the /128 addresses |
| Dns.ParentOutcome | dns/dns.go:122-157 | server failure without a spec, name error for a name that does not parse or resolve, the records otherwise |
| Dns.ParentOutcomeCodes | dns/dns.go:122-157 | fails on the server exactly without a spec, and succeeds exactly when the name resolves, with that device's records |
| Dns.FirstMatch | dns/dns.go:105-106 | the first parent whose suffix ends the name |
| Dns.QuestionOutcome | dns/dns.go:104-117 | type A questions are answered under the first matching parent, and nothing else |
| Dns.OutcomesAreOutcomes | dns/dns.go:104-117 | outcome `i` is that of question `i` |
| Dns.QueryOutcome | dns/dns.go:103-120 | `handleQuery`'s answer: the records of the questions up to the first failure, and that failure's code or success |
| Dns.CombineFirstFailure | dns/dns.go:103-120 | the query's code is that of the first failing question |
| Dns.CombineSomeFailure | dns/dns.go:103-120 | when every failure has the same code, that code is the answer |
| Dns.CombineAllSucceed | dns/dns.go:103-120 | questions that all succeed give success, with the records of each question appended in turn |
| Dns.NoSpecQuestion | dns/dns.go:125-128 | without a spec a question succeeds with no records or, for a matching type A question, fails on the server |
| Dns.NoSpecFails | dns/dns.go:125-128 | without a spec any matching type A question fails the query |
| Dns.AnswersDevice | dns/dns.go:103-188 | a type A question for a device's name is answered with exactly that device's records, unless an earlier parent also matches |
| Dns.Msg.constructor | dns/dns.go:93 | a reply with no answers |
| Dns.Server.constructor | dns/dns.go:56-59 | a server for parents that `NewServer` accepts |
| Dns.Server.ReturnAddresses | dns/dns.go:159-188 | appends to the reply exactly the records of the addresses |
| Dns.Server.HandleParent | dns/dns.go:122-157 | the code and records of the parent outcome, appended to the reply |
| Dns.Server.FindParent | dns/dns.go:105-106 | the first parent whose suffix ends the name |
| Dns.Server.HandleQuestion | dns/dns.go:104-117 | one question, as the question outcome says |
| Dns.Server.HandleMatched | dns/dns.go:107-113 | a type A question under its first matching parent is answered as `handleParent` answers it |
| Dns.Server.AnswerQuestion | dns/dns.go:104-117 | one turn of the outer loop: stop on failure or add the records |
| Dns.Server.AnswerQuestions | dns/dns.go:104-118 | the outer loop stops at the first failure, with the records before it |
| Dns.Server.HandleQuery | dns/dns.go:103-120 | the records up to the first failing question, with its code, or success |

## Left out

- Sorting: `sort.Slice` is unstable and its order among equal elements is unspecified. The model uses one deterministic insertion sort (`Slices.Sort`). Properties that depend on the order of equal elements are therefore stated for that sort.
- Operating system: netlink, `wgctrl`, `/proc/sys/net/ipv4/ip_forward` and `net.ResolveUDPAddr` are reduced to the host state (links, `ip_forward`, a trace of calls) and a failure oracle. Address and route state in the kernel and WireGuard device state are recorded only as calls in the trace.
- Network I/O: HTTP routing, JSON encoding, status codes written to a `ResponseWriter`, locks and goroutines are not modelled. Each handler takes its decoded request (or a decode failure) as a parameter and returns its status code.
- Randomness: `rand.Intn` in forwarder choice is a nondeterministic choice (`:|`). The properties hold for any choice.
- Token handling: token parsing and hashing (`ParseToken`, `Hash`) are the parameter `hashOf`. The token map's construction and its nil panic in `NewServer` are not modelled.
- Keys: key generation and `curve25519` public-key derivation are parameters (`generated`, `publicKeyOf`). A failing key generation is not modelled.
- Endpoint scoring: the endpoint scorer is a function parameter. Its network probing is not modelled.
- SpecResolve.ChooseEndpoint: returns the updated record instead of updating the caller's record in place.
- Go slices: aliasing of `append` is not modelled. All slices are values, so an append never writes into a slice shared with a caller.
- Device.ChooseEndpoints: success is stated by a sufficient and a necessary condition rather than one if-and-only-if. Whether a queued device's debug line runs depends on whether its turn finds a forwarder, and the failed result does not carry the state of that turn; `Device.ChooseForwarders` states the exact panic condition, per turn.
- Goal.DiffMachine: the in-place sorting that `DiffInterface` does to the interfaces' slices is not carried back into the two machines.
- Coord.Server: a nil `latest` map is the empty map.
- Strings are sequences of characters. Byte lengths (the 15-byte interface name limit) are taken as character counts.
- Go panics that callers exclude are preconditions:
  - `CensorForDevice` on a device missing from the network;
  - `DiffInterface` on interfaces of different names. (`ApplyInterfaceDiff` on interfaces of different names is modelled: it is a `Panic` outcome.)
- Dns: a question with an empty name (whose `q.Name[:len-1]` would panic) is excluded by precondition.
- Dns: `handle`, `ListenDNS`, `ListenRPC` and the RPC server `dns/rpc.go` are not modelled. The spec that RPC sets is a field of `Dns.Server`.
- `StringConfig`, the JSON marshalling of keys, networks and durations, and `goal/apply.go` (the non-Linux stub) are not part of this model.
- The command-line programs and the `cs`, `node` and `central` packages are not part of this model.
