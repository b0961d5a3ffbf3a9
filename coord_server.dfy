/** The coordinator (`coord/server.go`, `coord/update.go`): it holds the
    spec and, per network, the devices that reported having applied it, and
    answers the four reify endpoints. Each handler is a state transition
    that gives back the HTTP status code it writes. */
module Coord {
  import opened Wrappers
  import opened Slices
  import opened Net
  import opened Goal
  import opened GoalUtil
  import opened Specs
  import opened CoordUpdate
  import opened GoStrings

  /** The hash of a token, as bytes. */
  type TokenHash = seq<byte>

  /** The (network, device) pairs a token may act as. */
  datatype TokenInfo = TokenInfo(identities: seq<(string, string)>)

  const IdentityPrefix: string := "QrystalCoordIdentityToken "

  const StatusOK := 200
  const StatusNoContent := 204
  const StatusBadRequest := 400
  const StatusUnauthorized := 401
  const StatusNotFound := 404
  const StatusInternalServerError := 500

  /** `verifyIdentity`: the header must carry the identity prefix, the rest
      must parse as a token, the token's hash must be known, and the token
      must list (`network`, `device`). `hashOf` stands for `ParseToken`
      followed by `Hash`, and answers `None` when parsing fails. */
  function VerifyIdentity(tokens: map<TokenHash, TokenInfo>, header: string,
                          hashOf: string -> Option<TokenHash>, network: string, device: string): (ok: bool)
    ensures ok ==> HasPrefix(header, IdentityPrefix)
    ensures ok ==> var h := hashOf(header[|IdentityPrefix|..]);
                   h.Some? && h.value in tokens && (network, device) in tokens[h.value].identities
  {
    if !HasPrefix(header, IdentityPrefix) then false
    else
      var h := hashOf(TrimPrefix(header, IdentityPrefix));
      h.Some? && h.value in tokens && (network, device) in tokens[h.value].identities
  }

  /** A well-formed header for a token that may act as (`network`,
      `device`) is accepted, and nothing else about the header matters. */
  lemma VerifyIdentityAccepts(tokens: map<TokenHash, TokenInfo>, token: string,
                              hashOf: string -> Option<TokenHash>, network: string, device: string)
    requires hashOf(token).Some? && hashOf(token).value in tokens
    ensures VerifyIdentity(tokens, IdentityPrefix + token, hashOf, network, device)
        <==> (network, device) in tokens[hashOf(token).value].identities
  {
    var header := IdentityPrefix + token;
    assert header[..|IdentityPrefix|] == IdentityPrefix;
    assert header[|IdentityPrefix|..] == token;
  }

  /** A header without the prefix is refused whatever follows it. */
  lemma VerifyIdentityNeedsPrefix(tokens: map<TokenHash, TokenInfo>, header: string,
                                  hashOf: string -> Option<TokenHash>, network: string, device: string)
    requires !HasPrefix(header, IdentityPrefix)
    ensures !VerifyIdentity(tokens, header, hashOf, network, device)
  {
  }

  /** The network and the device both exist in `s`. */
  predicate Present(s: Spec, network: string, device: string) {
    var sn := GetNetwork(s, network);
    sn.Some? && device in Names(sn.value.devices, DeviceName)
  }

  /** The body of a request as the handler sees it. */
  datatype Body<T> = ReadFailed | Undecodable | Decoded(value: T)

  /** The fields a device may change about itself; a field is taken only
      when its flag is set. `accessible` is the device's `forwardsFor`. */
  datatype PatchReifySpecRequest = PatchReifySpecRequest(
    listenPort: int, listenPortSet: bool,
    publicKey: Key, publicKeySet: bool,
    presharedKey: Option<Key>, presharedKeySet: bool,
    persistentKeepalive: int, persistentKeepaliveSet: bool,
    accessible: seq<string>, accessibleSet: bool)

  /** A request with every flag clear. */
  predicate NoFlags(req: PatchReifySpecRequest) {
    !req.listenPortSet && !req.publicKeySet && !req.presharedKeySet
    && !req.persistentKeepaliveSet && !req.accessibleSet
  }

  /** The device's own record with the flagged fields replaced. */
  function PatchDevice(d: NetworkDeviceCensored, req: PatchReifySpecRequest): (r: NetworkDeviceCensored)
    ensures NoFlags(req) ==> r == d
    ensures r == d.(listenPort := r.listenPort, publicKey := r.publicKey, presharedKey := r.presharedKey,
                    persistentKeepalive := r.persistentKeepalive, forwardsFor := r.forwardsFor)
  {
    var d1 := if req.listenPortSet then d.(listenPort := req.listenPort) else d;
    var d2 := if req.publicKeySet then d1.(publicKey := req.publicKey) else d1;
    var d3 := if req.presharedKeySet then d2.(presharedKey := req.presharedKey) else d2;
    var d4 := if req.persistentKeepaliveSet then d3.(persistentKeepalive := req.persistentKeepalive) else d3;
    if req.accessibleSet then d4.(forwardsFor := req.accessible) else d4
  }

  /** Each field of the patched record is the request's when flagged and
      the old one otherwise. */
  lemma PatchDeviceFields(d: NetworkDeviceCensored, req: PatchReifySpecRequest)
    ensures var r := PatchDevice(d, req);
            && r.listenPort == (if req.listenPortSet then req.listenPort else d.listenPort)
            && r.publicKey == (if req.publicKeySet then req.publicKey else d.publicKey)
            && r.presharedKey == (if req.presharedKeySet then req.presharedKey else d.presharedKey)
            && r.persistentKeepalive == (if req.persistentKeepaliveSet then req.persistentKeepalive else d.persistentKeepalive)
            && r.forwardsFor == (if req.accessibleSet then req.accessible else d.forwardsFor)
  {
  }

  /** The names in a patch's `accessible` list, when it is set, are all
      devices of the network. */
  predicate AccessibleKnown(sn: Network, req: PatchReifySpecRequest) {
    req.accessibleSet ==>
      forall k :: 0 <= k < |req.accessible| ==> req.accessible[k] in Names(sn.devices, DeviceName)
  }

  /** The spec a patch builds: a clone of `s` in which only the caller's
      own device, the first of its name in the first network of its name,
      is patched. */
  function Patched(s: Spec, network: string, device: string, req: PatchReifySpecRequest): (r: Spec)
    requires Present(s, network, device)
    ensures |r.networks| == |s.networks|
  {
    var c := SpecClone(s);
    SpecCloneIff(s);
    var nI := GetNetworkIndex(c, network).0;
    var sn := c.networks[nI];
    var dI := GetDeviceIndex(sn, device).0;
    var d := sn.devices[dI];
    Spec(c.networks[nI := sn.(devices := sn.devices[dI := d.(censored := PatchDevice(d.censored, req))])])
  }

  /** A patch changes, in the clone, only the caller's own device, and only
      through `PatchDevice`; every network and device keeps its name. */
  lemma PatchedOnlyOwnDevice(s: Spec, network: string, device: string, req: PatchReifySpecRequest)
    requires Present(s, network, device)
    ensures var c := SpecClone(s);
            var r := Patched(s, network, device, req);
            var nI := GetNetworkIndex(s, network).0;
            var dI := GetDeviceIndex(s.networks[nI], device).0;
            && 0 <= nI < |s.networks| && 0 <= dI < |s.networks[nI].devices|
            && s.networks[nI].name == network && s.networks[nI].devices[dI].censored.name == device
            && Names(r.networks, NetworkName) == Names(s.networks, NetworkName)
            && (forall i :: 0 <= i < |s.networks| && i != nI ==> r.networks[i] == c.networks[i])
            && r.networks[nI].name == network
            && |r.networks[nI].devices| == |s.networks[nI].devices|
            && Names(r.networks[nI].devices, DeviceName) == Names(s.networks[nI].devices, DeviceName)
            && (forall j :: 0 <= j < |s.networks[nI].devices| && j != dI ==>
                  r.networks[nI].devices[j] == c.networks[nI].devices[j])
            && r.networks[nI].devices[dI]
               == c.networks[nI].devices[dI].(censored := PatchDevice(c.networks[nI].devices[dI].censored, req))
  {
    var c := SpecClone(s);
    SpecCloneIff(s);
    var r := Patched(s, network, device, req);
    var nI := GetNetworkIndex(s, network).0;
    assert GetNetworkIndex(c, network) == GetNetworkIndex(s, network);
    assert GetDeviceIndex(c.networks[nI], device) == GetDeviceIndex(s.networks[nI], device);
    var dI := GetDeviceIndex(s.networks[nI], device).0;
    var sn := c.networks[nI];
    var d := sn.devices[dI];
    var nd := d.(censored := PatchDevice(d.censored, req));
    var nsn := sn.(devices := sn.devices[dI := nd]);
    assert r.networks == c.networks[nI := nsn];
    NamesUpdate(sn.devices, dI, nd, DeviceName);
    NamesUpdate(c.networks, nI, nsn, NetworkName);
  }

  /** The response to a status post: the status code and, when a body is
      written, the `Latest` it carries. */
  datatype StatusAnswer = StatusAnswer(code: int, latest: Option<bool>)

  /** The body of a status post after decoding: what was decoded, and
      whether decoding failed part-way. A failed decode leaves whatever had
      been filled in, the zero value when nothing was. */
  datatype StatusBody = StatusBody(reified: NetworkCensored, decodeFailed: bool)

  /** The value a status body decodes to when nothing could be read. */
  const ZeroNetworkCensored := NetworkCensored("", [], "")

  /** A zero-valued status matches the view of a device named "" in a
      network named "" whose access rule lets it see nothing, so a post
      whose body fails to decode still marks that device up to date. */
  lemma ZeroStatusMatches()
    ensures var d := NetworkDeviceCensored("", [], false, false, 0, 0, [], 0, ZeroKey, None, 0, []);
            var n := Network("", [NetworkDevice(d, AccessControl(false, None))]);
            && Names(n.devices, DeviceName) == [""]
            && NetworkCensoredEqual(ZeroNetworkCensored, CensorForDevice(n, ""))
  {
    var d := NetworkDeviceCensored("", [], false, false, 0, 0, [], 0, ZeroKey, None, 0, []);
    var n := Network("", [NetworkDevice(d, AccessControl(false, None))]);
    assert Names(n.devices, DeviceName)[0] == "";
    assert VisibleDevices(AccessControl(false, None), n.devices) == [];
  }

  /** Posting a matching status twice lists the device twice: the append
      does not de-duplicate. */
  lemma AppendTwiceDuplicates(latest: map<string, seq<string>>, network: string, device: string)
    requires LatestOf(latest, network) == []
    ensures var once := latest[network := LatestOf(latest, network) + [device]];
            var twice := once[network := LatestOf(once, network) + [device]];
            twice[network] == [device, device]
  {
  }

  /** Moving the head of the remaining part onto the accumulator. */
  lemma AppendStep(acc: seq<string>, head: seq<string>, rest: seq<string>, remaining: seq<string>, whole: seq<string>)
    requires acc + remaining == whole && remaining == head + rest
    ensures (acc + head) + rest == whole
  {
    assert acc + (head + rest) == (acc + head) + rest;
  }

  class Server {
    /** The spec every answer is computed from. */
    var spec: Spec
    /** For each network, the devices that reported having applied the
        current spec. */
    var latest: map<string, seq<string>>
    /** The known tokens, by hash. */
    const tokens: map<TokenHash, TokenInfo>

    /** `NewServer`: the given spec, no device up to date. */
    constructor (spec: Spec, tokens: map<TokenHash, TokenInfo>)
      ensures this.spec == spec && this.tokens == tokens && latest == map[]
    {
      this.spec := spec;
      this.tokens := tokens;
      latest := map[];
    }

    /** `updateSpecNoLock`: drop the entries of networks the new spec no
        longer has, then intersect the entry of every network both specs
        have with the devices whose view did not change. The spec itself is
        left as it was: `newSpec` is only compared against. */
    method UpdateSpecNoLock(newSpec: Spec)
      modifies this
      ensures spec == old(spec)
      ensures latest == LatestAfterUpdate(old(spec), old(latest), newSpec)
    {
      DropRemovedNetworks(newSpec);
      ghost var deleted := latest;
      IntersectSharedNetworks(newSpec, deleted);
    }

    /** The first loop of `updateSpecNoLock`. */
    method DropRemovedNetworks(newSpec: Spec)
      modifies this
      ensures spec == old(spec)
      ensures latest == DeleteRemoved(old(latest), spec.networks, newSpec)
    {
      var i := 0;
      while i < |spec.networks|
        invariant 0 <= i <= |spec.networks|
        invariant spec == old(spec)
        invariant latest == DeleteRemoved(old(latest), spec.networks[..i], newSpec)
      {
        var oldSN := spec.networks[i];
        if GetNetwork(newSpec, oldSN.name).None? {
          latest := latest - {oldSN.name};
        }
        DeleteRemovedPrefix(old(latest), spec.networks, newSpec, i);
        i := i + 1;
      }
      assert spec.networks[..i] == spec.networks;
    }

    /** The second loop of `updateSpecNoLock`, starting from the entries
        the first loop left. */
    method IntersectSharedNetworks(newSpec: Spec, ghost deleted: map<string, seq<string>>)
      requires latest == deleted
      modifies this
      ensures spec == old(spec)
      ensures latest == IntersectAll(spec, deleted, newSpec.networks)
    {
      var i := 0;
      while i < |newSpec.networks|
        invariant 0 <= i <= |newSpec.networks|
        invariant spec == old(spec)
        invariant latest == IntersectAll(spec, deleted, newSpec.networks[..i])
      {
        var newSN := newSpec.networks[i];
        IntersectAllPrefix(spec, deleted, newSpec.networks, i);
        var oldSN := GetNetwork(spec, newSN.name);
        if oldSN.None? {
          i := i + 1;
          continue;
        }
        var keep := KeepDevices(oldSN.value, newSN);
        var r := UnionOf(keep, LatestOf(latest, newSN.name));
        latest := latest[newSN.name := r];
        i := i + 1;
      }
      assert newSpec.networks[..i] == newSpec.networks;
    }

    /** The inner loop of `updateSpecNoLock`: the devices, in the new
        network's order, that the old network also has and whose censored
        view is equal in both. */
    static method KeepDevices(oldSN: Network, newSN: Network) returns (keep: seq<string>)
      ensures keep == Keep(oldSN, newSN)
    {
      keep := [];
      var j := 0;
      while j < |newSN.devices|
        invariant 0 <= j <= |newSN.devices|
        invariant keep + KeepFrom(oldSN, newSN, j) == Keep(oldSN, newSN)
      {
        var name := newSN.devices[j].censored.name;
        KeepFromStep(oldSN, newSN, j);
        var kept := Unchanged(oldSN, newSN, name);
        ghost var rest := KeepFrom(oldSN, newSN, j + 1);
        ghost var added := if kept then [name] else [];
        AppendStep(keep, added, rest, KeepFrom(oldSN, newSN, j), Keep(oldSN, newSN));
        if kept {
          keep := keep + [name];
        }
        j := j + 1;
      }
    }

    /** The test for one device of the new network: the old network has it
        and its censored view is equal in both. */
    static method Unchanged(oldSN: Network, newSN: Network, name: string) returns (kept: bool)
      requires name in Names(newSN.devices, DeviceName)
      ensures kept <==> StillLatest(oldSN, newSN, name)
    {
      if GetDevice(oldSN, name).None? {
        return false;
      }
      var oldNC := CensorForDevice(oldSN, name);
      var newNC := CensorForDevice(newSN, name);
      kept := NetworkCensoredEqual(oldNC, newNC);
    }

    /** `sliceUnion` on fresh arrays holding `keep` and `current`. */
    static method UnionOf(keep: seq<string>, current: seq<string>) returns (r: seq<string>)
      ensures r == Common(Sort(keep, StringLess), Sort(current, StringLess), StringLess)
    {
      StringLessIsStrictTotalOrder();
      var ka := new string[|keep|](k requires 0 <= k < |keep| => keep[k]);
      var la := new string[|current|](k requires 0 <= k < |current| => current[k]);
      assert ka[..] == keep && la[..] == current;
      r := SliceUnion(ka, la, StringLess);
    }

    /** `getReifyLatest`: whether the device is listed as up to date. It
        changes nothing. */
    method GetReifyLatest(header: string, hashOf: string -> Option<TokenHash>, network: string, device: string)
      returns (code: int, isLatest: bool)
      ensures !VerifyIdentity(tokens, header, hashOf, network, device) ==> code == StatusUnauthorized && !isLatest
      ensures VerifyIdentity(tokens, header, hashOf, network, device) && !Present(spec, network, device)
              ==> code == StatusNotFound && !isLatest
      ensures VerifyIdentity(tokens, header, hashOf, network, device) && Present(spec, network, device)
              ==> code == StatusOK && (isLatest <==> device in LatestOf(latest, network))
    {
      if !VerifyIdentity(tokens, header, hashOf, network, device) {
        return StatusUnauthorized, false;
      }
      var sn := GetNetwork(spec, network);
      if sn.None? {
        return StatusNotFound, false;
      }
      if GetDevice(sn.value, device).None? {
        return StatusNotFound, false;
      }
      code := StatusOK;
      isLatest := device in LatestOf(latest, network);
    }

    /** `getReifySpec`: the caller's censored view of its network. It
        changes nothing. */
    method GetReifySpec(header: string, hashOf: string -> Option<TokenHash>, network: string, device: string)
      returns (code: int, view: Option<NetworkCensored>)
      ensures !VerifyIdentity(tokens, header, hashOf, network, device) ==> code == StatusUnauthorized && view == None
      ensures VerifyIdentity(tokens, header, hashOf, network, device) && !Present(spec, network, device)
              ==> code == StatusNotFound && view == None
      ensures VerifyIdentity(tokens, header, hashOf, network, device) && Present(spec, network, device)
              ==> && code == StatusOK
                  && view == Some(CensorForDevice(GetNetwork(spec, network).value, device))
                  && view.value.name == network && view.value.censoredFor == device
    {
      if !VerifyIdentity(tokens, header, hashOf, network, device) {
        return StatusUnauthorized, None;
      }
      var sn := GetNetwork(spec, network);
      if sn.None? {
        return StatusNotFound, None;
      }
      if GetDevice(sn.value, device).None? {
        return StatusNotFound, None;
      }
      var (nI, _) := GetNetworkIndex(spec, network);
      code := StatusOK;
      view := Some(CensorForDevice(spec.networks[nI], device));
    }

    /** `patchReifySpec`: check the body, build the patched clone, and run
        `updateSpecNoLock` with it. A name in `accessible` that the network
        lacks refuses the whole patch. */
    method PatchReifySpec(header: string, hashOf: string -> Option<TokenHash>, network: string, device: string,
                          body: Body<PatchReifySpecRequest>)
      returns (code: int)
      modifies this
      ensures spec == old(spec)
      ensures !VerifyIdentity(tokens, header, hashOf, network, device) ==> code == StatusUnauthorized && latest == old(latest)
      ensures VerifyIdentity(tokens, header, hashOf, network, device) && !Present(spec, network, device)
              ==> code == StatusNotFound && latest == old(latest)
      ensures VerifyIdentity(tokens, header, hashOf, network, device) && Present(spec, network, device) ==>
                && (body.ReadFailed? ==> code == StatusInternalServerError && latest == old(latest))
                && (body.Undecodable? ==> code == StatusBadRequest && latest == old(latest))
                && (body.Decoded? && !AccessibleKnown(GetNetwork(spec, network).value, body.value)
                    ==> code == StatusBadRequest && latest == old(latest))
                && (body.Decoded? && AccessibleKnown(GetNetwork(spec, network).value, body.value)
                    ==> code == StatusNoContent
                        && latest == LatestAfterUpdate(old(spec), old(latest), Patched(old(spec), network, device, body.value)))
    {
      if !VerifyIdentity(tokens, header, hashOf, network, device) {
        return StatusUnauthorized;
      }
      var sn := GetNetwork(spec, network);
      if sn.None? {
        return StatusNotFound;
      }
      if GetDevice(sn.value, device).None? {
        return StatusNotFound;
      }
      if body.ReadFailed? {
        return StatusInternalServerError;
      }
      if body.Undecodable? {
        return StatusBadRequest;
      }
      var req := body.value;
      var newSpec := Patched(spec, network, device, req);
      PatchedOnlyOwnDevice(spec, network, device, req);
      var (nI, _) := GetNetworkIndex(spec, network);
      assert sn.value == spec.networks[nI];
      if req.accessibleSet {
        var known := AllDevicesOf(newSpec.networks[nI], req.accessible);
        if !known {
          return StatusBadRequest;
        }
      }
      UpdateSpecNoLock(newSpec);
      code := StatusNoContent;
    }

    /** The check of a patch's `accessible` list: every name is a device
        of the network. */
    static method AllDevicesOf(sn: Network, names: seq<string>) returns (ok: bool)
      ensures ok <==> forall k :: 0 <= k < |names| ==> names[k] in Names(sn.devices, DeviceName)
    {
      var k := 0;
      while k < |names|
        invariant 0 <= k <= |names|
        invariant forall m :: 0 <= m < k ==> names[m] in Names(sn.devices, DeviceName)
      {
        if GetDevice(sn, names[k]).None? {
          return false;
        }
        k := k + 1;
      }
      return true;
    }

    /** `postReifyStatus`: a device reports the view it applied. When the
        report equals the device's current view it is appended to the
        network's entry, with no check for a repeat. A body that fails to
        decode is answered 400 and then handled all the same, with whatever
        had been decoded. */
    method PostReifyStatus(header: string, hashOf: string -> Option<TokenHash>, network: string, device: string,
                           body: StatusBody)
      returns (answer: StatusAnswer)
      modifies this
      ensures spec == old(spec)
      ensures !VerifyIdentity(tokens, header, hashOf, network, device)
              ==> answer == StatusAnswer(StatusUnauthorized, None) && latest == old(latest)
      ensures VerifyIdentity(tokens, header, hashOf, network, device) && !Present(spec, network, device)
              ==> answer == StatusAnswer(StatusNotFound, None) && latest == old(latest)
      ensures VerifyIdentity(tokens, header, hashOf, network, device) && Present(spec, network, device) ==>
                var matched := NetworkCensoredEqual(body.reified, CensorForDevice(GetNetwork(spec, network).value, device));
                && answer.code == (if body.decodeFailed then StatusBadRequest else StatusOK)
                && answer.latest == Some(matched)
                && latest == (if matched then old(latest)[network := LatestOf(old(latest), network) + [device]]
                              else old(latest))
    {
      if !VerifyIdentity(tokens, header, hashOf, network, device) {
        return StatusAnswer(StatusUnauthorized, None);
      }
      var sn := GetNetwork(spec, network);
      if sn.None? {
        return StatusAnswer(StatusNotFound, None);
      }
      if GetDevice(sn.value, device).None? {
        return StatusAnswer(StatusNotFound, None);
      }
      // The first status written wins: after a decode error the 400 stays.
      var code := if body.decodeFailed then StatusBadRequest else StatusOK;
      var (nI, ok) := GetNetworkIndex(spec, network);
      // The 422 answer for a missing network cannot happen: the network
      // was just found.
      assert ok;
      if !NetworkCensoredEqual(body.reified, CensorForDevice(spec.networks[nI], device)) {
        return StatusAnswer(code, Some(false));
      }
      latest := latest[network := LatestOf(latest, network) + [device]];
      answer := StatusAnswer(code, Some(true));
    }
  }
}
