/** The device side (`device/client.go`, `device/continuous.go`): choosing,
    in the device's own view of its network, an endpoint or a forwarder for
    every other device; the patches it sends the coordinator about its key
    and about the devices it can forward for; and the polling step that
    alternates between asking whether it is up to date and reifying. */
module Device {
  import opened Wrappers
  import opened Net
  import opened Goal
  import opened Specs
  import opened SpecResolve
  import opened SpecCompile
  import opened Coord

  /** A Go panic, and a patch the coordinator refused or never got. */
  datatype ClientError = ClientPanic | PatchFailed

  // ---------------------------------------------------------------------
  // chooseEndpoints.

  /** Device `i` gets an endpoint or forwarder in this round: it is not the
      device itself and has none yet. */
  predicate Pending(devices: seq<NetworkDeviceCensored>, self: int, i: int)
    requires 0 <= i < |devices|
  {
    i != self && !devices[i].forwarderAndEndpointChosen
  }

  /** Device `i` is pending and none of its endpoints answers, so it is
      queued for a forwarder. */
  predicate NeedsForwarder(devices: seq<NetworkDeviceCensored>, self: int, scorer: string -> Score, i: int)
    requires 0 <= i < |devices|
  {
    Pending(devices, self, i) && !AnySucceeded(Scores(devices[i].endpoints, scorer))
  }

  /** The pending device panics in the first loop: every answering
      endpoint scores below 0, or an endpoint is chosen while the debug
      line after it reads `Endpoints[EndpointChosenIndex]` from the record
      as it was before the choice, and that index is out of range. */
  predicate EndpointPanics(d: NetworkDeviceCensored, scorer: string -> Score) {
    var rs := Scores(d.endpoints, scorer);
    || (AnySucceeded(rs) && !AnyUsable(rs))
    || (AnyUsable(rs) && !(0 <= d.endpointChosenIndex < |d.endpoints|))
  }

  /** `needsForwarders` after the first `n` devices: the queued indices, in
      device order. */
  function QueuedUpTo(devices: seq<NetworkDeviceCensored>, self: int, scorer: string -> Score, n: nat): (q: seq<nat>)
    requires n <= |devices|
    ensures forall k :: 0 <= k < |q| ==> q[k] < n
    ensures Increasing(q)
  {
    if n == 0 then []
    else
      var q := QueuedUpTo(devices, self, scorer, n - 1);
      if NeedsForwarder(devices, self, scorer, n - 1) then q + [n - 1] else q
  }

  /** `needsForwarders` after the first loop. */
  function Queued(devices: seq<NetworkDeviceCensored>, self: int, scorer: string -> Score): seq<nat> {
    QueuedUpTo(devices, self, scorer, |devices|)
  }

  /** Exactly the devices that need a forwarder are queued. */
  lemma {:induction false} QueuedUpToMembers(devices: seq<NetworkDeviceCensored>, self: int, scorer: string -> Score, n: nat, i: int)
    requires n <= |devices|
    ensures i in QueuedUpTo(devices, self, scorer, n) <==> 0 <= i < n && NeedsForwarder(devices, self, scorer, i)
  {
    if n > 0 {
      QueuedUpToMembers(devices, self, scorer, n - 1, i);
    }
  }

  /** What the first loop does to device `d`, when it does not queue it: a
      device that is not pending is left alone, and a pending one gets the
      endpoint `ChooseEndpoint` picks. */
  predicate EndpointChosen(d: NetworkDeviceCensored, r: NetworkDeviceCensored, pending: bool, scorer: string -> Score) {
    if !pending then r == d
    else
      var rs := Scores(d.endpoints, scorer);
      && AnyUsable(rs)
      && !EndpointPanics(d, scorer)
      && IsChoice(rs, r.endpointChosenIndex)
      && r == d.(endpointChosenIndex := r.endpointChosenIndex, forwarderAndEndpointChosen := true)
  }

  /** The network as the `k`-th queued device finds it: the devices still
      waiting in the queue as they were before, every other one as it ends
      up. */
  function TurnView(before: seq<NetworkDeviceCensored>, after: seq<NetworkDeviceCensored>, queue: seq<nat>, k: nat)
    : (view: seq<NetworkDeviceCensored>)
    requires |before| == |after| && k <= |queue|
    ensures |view| == |after|
  {
    seq(|after|, j requires 0 <= j < |after| => if j in queue[k..] then before[j] else after[j])
  }

  /** Device `d` becomes `r` when the forwarders that can forward for it
      are `fs`: with none it stays without one, otherwise it uses the
      forwarder at some index of `fs` (Go picks it at random). */
  predicate ForwarderPicked(d: NetworkDeviceCensored, r: NetworkDeviceCensored, fs: seq<string>) {
    if fs == [] then r == d.(forwarderAndEndpointChosen := false)
    else
      && 0 <= r.forwarderChosenIndex < |fs|
      && r == d.(forwarderChosenIndex := r.forwarderChosenIndex, usesForwarder := true,
                 forwarderAndEndpointChosen := true)
  }

  /** What the second loop does to the `k`-th queued device, picking among
      the forwarders of the network as that device's turn finds it. The
      debug line after the choice reads `Endpoints[ForwarderChosenIndex]`
      from the record as it was before, so that index is in range whenever
      a forwarder is chosen. */
  predicate ForwarderChosen(before: seq<NetworkDeviceCensored>, after: seq<NetworkDeviceCensored>, queue: seq<nat>, k: nat)
    requires |before| == |after| && k < |queue| && queue[k] < |before|
  {
    var i := queue[k];
    var d := before[i];
    var fs := ForwardersAmong(TurnView(before, after, queue, k), d.name);
    && ForwarderPicked(d, after[i], fs)
    && (fs != [] ==> 0 <= d.forwarderChosenIndex < |d.endpoints|)
  }

  /** What the first loop leaves for device `j`: untouched while it waits
      for a forwarder, otherwise as `EndpointChosen` says. */
  predicate DirectDone(devices: seq<NetworkDeviceCensored>, ds: seq<NetworkDeviceCensored>, self: int,
                       scorer: string -> Score, j: int)
    requires 0 <= j < |devices| == |ds|
  {
    if NeedsForwarder(devices, self, scorer, j) then ds[j] == devices[j]
    else EndpointChosen(devices[j], ds[j], Pending(devices, self, j), scorer)
  }

  /** One turn of the first loop, for a device that is `pending` or not. */
  method ChooseDirectOne(d: NetworkDeviceCensored, pending: bool, scorer: string -> Score)
    returns (r: NetworkDeviceCensored, queued: bool, panicked: bool)
    ensures queued <==> pending && !AnySucceeded(Scores(d.endpoints, scorer))
    ensures panicked <==> pending && EndpointPanics(d, scorer)
    ensures queued ==> r == d
    ensures !queued && !panicked ==> EndpointChosen(d, r, pending, scorer)
  {
    if !pending {
      return d, false, false;
    }
    var err;
    r, err := ChooseEndpoint(d, scorer);
    if err == Some(AllEndpointsBad) {
      return d, true, false;
    } else if err.Some? {
      // A panic inside `ChooseEndpoint`.
      return r, false, true;
    }
    assert r.forwarderAndEndpointChosen;
    // The debug line's index is out of range.
    queued, panicked := false, !(0 <= d.endpointChosenIndex < |d.endpoints|);
  }

  /** The first loop of `chooseEndpoints`: every pending device gets the
      endpoint `ChooseEndpoint` picks, or is queued when none answers. */
  method ChooseDirect(devices: seq<NetworkDeviceCensored>, self: int, scorer: string -> Score)
    returns (ds: seq<NetworkDeviceCensored>, queue: seq<nat>, panicked: bool)
    ensures |ds| == |devices|
    ensures panicked <==> exists j :: 0 <= j < |devices| && Pending(devices, self, j) && EndpointPanics(devices[j], scorer)
    ensures !panicked ==> queue == Queued(devices, self, scorer)
    ensures !panicked ==> forall j :: 0 <= j < |devices| ==> DirectDone(devices, ds, self, scorer, j)
  {
    ds, queue, panicked := devices, [], false;
    for i := 0 to |devices|
      invariant |ds| == |devices|
      invariant queue == QueuedUpTo(devices, self, scorer, i)
      invariant forall j :: i <= j < |devices| ==> ds[j] == devices[j]
      invariant forall j :: 0 <= j < i && Pending(devices, self, j) ==> !EndpointPanics(devices[j], scorer)
      invariant forall j :: 0 <= j < i ==> DirectDone(devices, ds, self, scorer, j)
    {
      var d, queued, p := ChooseDirectOne(devices[i], Pending(devices, self, i), scorer);
      if p {
        return ds, queue, true;
      }
      if queued {
        queue := queue + [i];
      }
      ghost var prev := ds;
      ds := ds[i := d];
      assert DirectDone(devices, ds, self, scorer, i);
      forall j | 0 <= j < i ensures DirectDone(devices, ds, self, scorer, j) {
        assert DirectDone(devices, prev, self, scorer, j);
        assert ds[j] == prev[j];
      }
    }
  }

  /** The view of the current turn is the current state: the devices still
      queued have not been touched. */
  lemma TurnViewCurrent(before: seq<NetworkDeviceCensored>, cur: seq<NetworkDeviceCensored>, queue: seq<nat>, k: nat)
    requires |before| == |cur| && k <= |queue|
    requires forall m :: k <= m < |queue| && queue[m] < |cur| ==> cur[queue[m]] == before[queue[m]]
    ensures TurnView(before, cur, queue, k) == cur
  {
    var v := TurnView(before, cur, queue, k);
    forall j | 0 <= j < |cur| ensures v[j] == cur[j] {
      if j in queue[k..] {
        var m :| 0 <= m < |queue[k..]| && queue[k..][m] == j;
        assert queue[k + m] == j;
      }
    }
  }

  /** Choosing for a device later in the queue does not change an earlier
      device's turn. */
  lemma ForwarderChosenStable(before: seq<NetworkDeviceCensored>, cur: seq<NetworkDeviceCensored>, queue: seq<nat>,
                              m: nat, k: nat, x: NetworkDeviceCensored)
    requires |before| == |cur| && m < k < |queue| && queue[k] < |cur| && queue[m] < |cur|
    requires Increasing(queue)
    requires ForwarderChosen(before, cur, queue, m)
    ensures ForwarderChosen(before, cur[queue[k] := x], queue, m)
  {
    var i := queue[k];
    var next := cur[i := x];
    assert queue[k..][0] == i;
    assert i in queue[m..] by {
      assert queue[m..][k - m] == i;
    }
    assert TurnView(before, next, queue, m) == TurnView(before, cur, queue, m);
    assert next[queue[m]] == cur[queue[m]];
  }

  /** One turn of the second loop keeps what the loop has established:
      the earlier turns stand, the turn just taken is as `ForwarderChosen`
      says, and the devices still queued are untouched. */
  lemma ForwarderTurn(before: seq<NetworkDeviceCensored>, r: seq<NetworkDeviceCensored>, queue: seq<nat>, k: nat,
                      next: NetworkDeviceCensored, after: seq<NetworkDeviceCensored>)
    requires |before| == |r| && k < |queue| && Increasing(queue)
    requires forall m :: 0 <= m < |queue| ==> queue[m] < |r|
    requires forall m :: k <= m < |queue| ==> r[queue[m]] == before[queue[m]]
    requires forall m :: 0 <= m < k ==> ForwarderChosen(before, r, queue, m)
    requires var fs := ForwardersAmong(r, r[queue[k]].name);
             && ForwarderPicked(r[queue[k]], next, fs)
             && (fs != [] ==> 0 <= r[queue[k]].forwarderChosenIndex < |r[queue[k]].endpoints|)
    requires after == r[queue[k] := next]
    ensures forall m :: 0 <= m <= k ==> ForwarderChosen(before, after, queue, m)
    ensures forall m :: k < m < |queue| ==> after[queue[m]] == before[queue[m]]
  {
    var i := queue[k];
    var r' := after;
    forall m | 0 <= m < k ensures ForwarderChosen(before, r', queue, m) {
      ForwarderChosenStable(before, r, queue, m, k, next);
    }
    TurnViewCurrent(before, r, queue, k);
    assert TurnView(before, r', queue, k) == r by {
      forall j | 0 <= j < |r| ensures TurnView(before, r', queue, k)[j] == r[j] {
        if j == i {
          assert queue[k..][0] == i;
        }
      }
    }
    forall m | k < m < |queue| ensures r'[queue[m]] == before[queue[m]] {
      assert queue[m] != i;
    }
  }

  /** The debug line after the turn of queued device `i` reads out of
      range: the network as the turn finds it has a forwarder for the
      device, and the device's old `ForwarderChosenIndex` is not an index
      of its endpoints. */
  predicate DebugLineOutOfRange(before: seq<NetworkDeviceCensored>, view: seq<NetworkDeviceCensored>, i: int) {
    0 <= i < |before|
    && ForwardersAmong(view, before[i].name) != []
    && !(0 <= before[i].forwarderChosenIndex < |before[i].endpoints|)
  }

  /** The second loop of `chooseEndpoints`: each queued device, in order,
      gets a forwarder among the devices that can forward for it in the
      state reached so far. */
  method ChooseForwarders(before: seq<NetworkDeviceCensored>, ds: seq<NetworkDeviceCensored>, queue: seq<nat>)
    returns (r: seq<NetworkDeviceCensored>, panicked: bool)
    requires |before| == |ds|
    requires Increasing(queue)
    requires forall k :: 0 <= k < |queue| ==> queue[k] < |ds| && ds[queue[k]] == before[queue[k]]
    ensures |r| == |ds|
    ensures forall j :: 0 <= j < |ds| && j !in queue ==> r[j] == ds[j]
    ensures !panicked ==> forall k :: 0 <= k < |queue| ==> ForwarderChosen(before, r, queue, k)
    ensures (forall k :: 0 <= k < |queue| ==> 0 <= before[queue[k]].forwarderChosenIndex < |before[queue[k]].endpoints|)
            ==> !panicked
    ensures panicked ==>
              exists k :: 0 <= k < |queue| && DebugLineOutOfRange(before, TurnView(before, r, queue, k), queue[k])
  {
    r, panicked := ds, false;
    for k := 0 to |queue|
      invariant |r| == |ds|
      invariant forall j :: 0 <= j < |ds| && j !in queue ==> r[j] == ds[j]
      invariant forall m :: k <= m < |queue| ==> r[queue[m]] == before[queue[m]]
      invariant forall m :: 0 <= m < k ==> ForwarderChosen(before, r, queue, m)
    {
      var i := queue[k];
      var d := r[i];
      var forwarders := ForwardersAmong(r, d.name);
      var next: NetworkDeviceCensored;
      if |forwarders| == 0 {
        next := d.(forwarderAndEndpointChosen := false);
      } else {
        var j :| 0 <= j < |forwarders|;
        next := d.(forwarderChosenIndex := j, usesForwarder := true, forwarderAndEndpointChosen := true);
      }
      if |forwarders| != 0 && !(0 <= d.forwarderChosenIndex < |d.endpoints|) {
        // The debug line's index is out of range.
        var r' := r[i := next];
        TurnViewCurrent(before, r, queue, k);
        assert TurnView(before, r', queue, k) == r by {
          forall j | 0 <= j < |r| ensures TurnView(before, r', queue, k)[j] == r[j] {
            if j == i {
              assert queue[k..][0] == i;
            }
          }
        }
        assert DebugLineOutOfRange(before, TurnView(before, r', queue, k), i);
        return r', true;
      }
      ForwarderTurn(before, r, queue, k, next, r[i := next]);
      r := r[i := next];
    }
  }

  /** `chooseEndpoints`, on the caller's view `nc` of its network. A device
      missing from its own view is a panic. */
  method ChooseEndpoints(nc: NetworkCensored, device: string, scorer: string -> Score)
    returns (r: Result<NetworkCensored, ClientError>)
    ensures device !in Names(nc.devices, CensoredDeviceName) ==> r == Err(ClientPanic)
    ensures r.Err? ==> r.error == ClientPanic
    ensures r.Ok? ==>
              var self := GetCensoredDeviceIndex(nc, device).0;
              var queue := Queued(nc.devices, self, scorer);
              && |r.value.devices| == |nc.devices|
              && r.value == nc.(devices := r.value.devices)
              && (forall j :: 0 <= j < |nc.devices| && !NeedsForwarder(nc.devices, self, scorer, j) ==>
                    EndpointChosen(nc.devices[j], r.value.devices[j], Pending(nc.devices, self, j), scorer))
              && (forall k :: 0 <= k < |queue| ==> ForwarderChosen(nc.devices, r.value.devices, queue, k))
    ensures var self := GetCensoredDeviceIndex(nc, device).0;
            && device in Names(nc.devices, CensoredDeviceName)
            && (forall j :: 0 <= j < |nc.devices| && Pending(nc.devices, self, j) ==> !EndpointPanics(nc.devices[j], scorer))
            && (forall j :: 0 <= j < |nc.devices| && NeedsForwarder(nc.devices, self, scorer, j) ==>
                  0 <= nc.devices[j].forwarderChosenIndex < |nc.devices[j].endpoints|)
            ==> r.Ok?
    ensures var self := GetCensoredDeviceIndex(nc, device).0;
            r.Err? ==>
              || device !in Names(nc.devices, CensoredDeviceName)
              || (exists j :: 0 <= j < |nc.devices| && Pending(nc.devices, self, j) && EndpointPanics(nc.devices[j], scorer))
              || (exists j :: 0 <= j < |nc.devices| && NeedsForwarder(nc.devices, self, scorer, j) &&
                    !(0 <= nc.devices[j].forwarderChosenIndex < |nc.devices[j].endpoints|))
  {
    var (self, ok) := GetCensoredDeviceIndex(nc, device);
    if !ok {
      return Err(ClientPanic);
    }
    var ds, queue, panicked := ChooseDirect(nc.devices, self, scorer);
    if panicked {
      return Err(ClientPanic);
    }
    forall k | 0 <= k < |queue|
      ensures queue[k] < |ds| && ds[queue[k]] == nc.devices[queue[k]] && NeedsForwarder(nc.devices, self, scorer, queue[k])
    {
      QueuedUpToMembers(nc.devices, self, scorer, |nc.devices|, queue[k]);
      assert DirectDone(nc.devices, ds, self, scorer, queue[k]);
    }
    var devices, panicked2 := ChooseForwarders(nc.devices, ds, queue);
    if panicked2 {
      ghost var k :| 0 <= k < |queue| && DebugLineOutOfRange(nc.devices, TurnView(nc.devices, devices, queue, k), queue[k]);
      assert NeedsForwarder(nc.devices, self, scorer, queue[k]);
      return Err(ClientPanic);
    }
    forall j | 0 <= j < |nc.devices| && !NeedsForwarder(nc.devices, self, scorer, j)
      ensures EndpointChosen(nc.devices[j], devices[j], Pending(nc.devices, self, j), scorer)
    {
      QueuedUpToMembers(nc.devices, self, scorer, |nc.devices|, j);
      assert DirectDone(nc.devices, ds, self, scorer, j);
    }
    r := Ok(nc.(devices := devices));
  }

  // ---------------------------------------------------------------------
  // Two runs of chooseEndpoints on a three-device network: "a" is the
  // caller, "b" has an endpoint and forwards for "c", and "c" has no
  // endpoint that answers.

  /** A scorer under which no endpoint answers. */
  function NoneAnswer(endpoint: string): Score {
    Failed
  }

  /** The network, with `cEndpoints` as the endpoints of "c". */
  function ForwardingExample(cEndpoints: seq<string>): NetworkCensored {
    var key: Key := ZeroKey[0 := 1];
    NetworkCensored("n", [
      NetworkDeviceCensored("a", ["a:1"], false, false, 0, 0, [], 0, key, None, 0, []),
      NetworkDeviceCensored("b", ["b:1"], true, false, 0, 0, [], 0, key, None, 0, ["c"]),
      NetworkDeviceCensored("c", cEndpoints, false, false, 0, 0, [IPNet([10, 0, 0, 3], [255, 255, 255, 255])], 0, key, None, 0, [])
    ], "a")
  }

  /** In the example no endpoint of "c" answers, and "c" alone is
      pending, so it alone is queued and no device panics in the first
      loop. */
  lemma ForwardingExampleQueued(cEndpoints: seq<string>)
    ensures var before := ForwardingExample(cEndpoints).devices;
            && GetCensoredDeviceIndex(ForwardingExample(cEndpoints), "a").0 == 0
            && Queued(before, 0, NoneAnswer) == [2]
            && (forall j :: 0 <= j < 3 && Pending(before, 0, j) ==> j == 2 && !EndpointPanics(before[j], NoneAnswer))
            && (forall j :: 0 <= j < 3 && NeedsForwarder(before, 0, NoneAnswer, j) ==> j == 2)
  {
    var before := ForwardingExample(cEndpoints).devices;
    assert Names(before, CensoredDeviceName)[0] == "a";
    var rs := Scores(cEndpoints, NoneAnswer);
    assert !AnySucceeded(rs) by {
      forall j | 0 <= j < |rs| ensures rs[j] == Failed { }
    }
    assert QueuedUpTo(before, 0, NoneAnswer, 1) == [];
    assert QueuedUpTo(before, 0, NoneAnswer, 2) == [];
  }

  /** In the example only "b" can forward for "c", whatever "c" itself
      looks like as long as it forwards for nobody. */
  lemma ForwardingExampleForwarders(cEndpoints: seq<string>, devices: seq<NetworkDeviceCensored>)
    requires |devices| == 3
    requires devices[0] == ForwardingExample(cEndpoints).devices[0]
    requires devices[1] == ForwardingExample(cEndpoints).devices[1]
    requires devices[2].forwardsFor == []
    ensures ForwardersAmong(devices, "c") == ["b"]
  {
    assert devices[1..][1..] == devices[2..];
    assert ForwardersAmong(devices[2..], "c") == [] by {
      assert devices[2..][1..] == [];
    }
    assert ForwardersAmong(devices[1..], "c") == ["b"];
  }

  /** The turn of "c" sees the network as it was, as long as the first
      loop left "a" and "b" alone. */
  lemma ForwardingExampleView(cEndpoints: seq<string>, after: seq<NetworkDeviceCensored>)
    requires |after| == 3
    requires after[0] == ForwardingExample(cEndpoints).devices[0]
    requires after[1] == ForwardingExample(cEndpoints).devices[1]
    ensures TurnView(ForwardingExample(cEndpoints).devices, after, [2], 0) == ForwardingExample(cEndpoints).devices
  {
    var before := ForwardingExample(cEndpoints).devices;
    var view := TurnView(before, after, [2], 0);
    assert [2][0..] == [2];
    assert view[0] == before[0] && view[1] == before[1] && view[2] == before[2];
  }

  /** Where compiling routes the addresses of "c" once it chose "b" as
      the first and only forwarder in the list. */
  lemma ForwardingExampleRoutes(cEndpoints: seq<string>, after: seq<NetworkDeviceCensored>)
    requires |after| == 3
    requires after[0] == ForwardingExample(cEndpoints).devices[0]
    requires after[1] == ForwardingExample(cEndpoints).devices[1]
    requires ForwarderPicked(ForwardingExample(cEndpoints).devices[2], after[2], ["b"])
    ensures after[2].forwarderChosenIndex == 0
    ensures ForwardedAddresses(after, 1, 0, 0) == after[2].addresses
    ensures ForwardedAddresses(after, 0, 1, 0) == []
  {
    var before := ForwardingExample(cEndpoints).devices;
    assert !before[0].forwarderAndEndpointChosen && !before[1].usesForwarder;
    assert before[2].publicKey[0] == 1 != ZeroKey[0];
    assert InTable(after, 1, 2) && !InTable(after, 1, 0);
    assert ForwardedAddresses(after, 1, 0, 2) == after[2].addresses;
    assert ForwardedAddresses(after, 1, 0, 1) == after[2].addresses;
    assert ForwardedAddresses(after, 0, 1, 2) == [];
    assert ForwardedAddresses(after, 0, 1, 1) == [];
  }

  /** With no endpoints, "c" cannot take its forwarder without the debug
      line's read going out of range. */
  lemma NoEndpointNoForwarder(after: seq<NetworkDeviceCensored>)
    requires |after| == 3
    requires after[0] == ForwardingExample([]).devices[0]
    requires after[1] == ForwardingExample([]).devices[1]
    ensures !ForwarderChosen(ForwardingExample([]).devices, after, [2], 0)
  {
    var before := ForwardingExample([]).devices;
    ForwardingExampleView([], after);
    ForwardingExampleForwarders([], before);
  }

  /** The debug line after a forwarder is chosen reads the endpoint at
      `ForwarderChosenIndex` of the record as it was before: "c" has no
      endpoints, so that read is out of range and the choice panics. */
  method ForwarderLogPanics() returns (r: Result<NetworkCensored, ClientError>)
    ensures r == Err(ClientPanic)
  {
    var nc := ForwardingExample([]);
    ForwardingExampleQueued([]);
    ForwardingExampleForwarders([], nc.devices);
    r := ChooseEndpoints(nc, "a", NoneAnswer);
    if r.Ok? {
      assert !Pending(nc.devices, 0, 0) && !Pending(nc.devices, 0, 1);
      NoEndpointNoForwarder(r.value.devices);
    }
  }

  /** `chooseEndpoints` stores in `ForwarderChosenIndex` a position in the
      list of forwarder names, while compiling reads it as an index into
      the network's devices. Here "c" is forwarded by "b", at device index
      1, yet stores 0: compiled on "b", the addresses of "c" are routed to
      the peer "a", and compiled on "a", nothing is routed through "b". */
  method ForwarderIndexMisread() returns (r: Result<NetworkCensored, ClientError>)
    ensures r.Ok?
    ensures GetForwardersFor(r.value, "c") == ["b"]
    ensures |r.value.devices| == 3 && r.value.devices[1].name == "b"
    ensures r.value.devices[2].forwarderChosenIndex == 0
    ensures r.value.devices[2].addresses != []
    ensures ForwardedAddresses(r.value.devices, 1, 0, 0) == r.value.devices[2].addresses
    ensures ForwardedAddresses(r.value.devices, 0, 1, 0) == []
  {
    var nc := ForwardingExample(["c:1"]);
    ForwardingExampleQueued(["c:1"]);
    ForwardingExampleForwarders(["c:1"], nc.devices);
    r := ChooseEndpoints(nc, "a", NoneAnswer);
    var after := r.value.devices;
    assert !Pending(nc.devices, 0, 0) && !Pending(nc.devices, 0, 1);
    assert after[0] == nc.devices[0] && after[1] == nc.devices[1];
    ForwardingExampleView(["c:1"], after);
    assert ForwarderChosen(nc.devices, after, [2], 0);
    ForwardingExampleRoutes(["c:1"], after);
    ForwardingExampleForwarders(["c:1"], after);
  }

  // ---------------------------------------------------------------------
  // patchAccessible.

  /** The names, in device order, of the devices with a chosen endpoint or
      forwarder. */
  function ChosenNames(devices: seq<NetworkDeviceCensored>): (r: seq<string>)
    ensures |r| <= |devices|
    ensures forall n :: n in r <==>
      exists k :: 0 <= k < |devices| && devices[k].name == n && devices[k].forwarderAndEndpointChosen
  {
    if devices == [] then []
    else
      var rest := ChosenNames(devices[1..]);
      assert forall k :: 1 <= k < |devices| ==> devices[k] == devices[1..][k - 1];
      assert forall k :: 0 <= k < |devices| - 1 ==> devices[1..][k] == devices[k + 1];
      (if devices[0].forwarderAndEndpointChosen then [devices[0].name] else []) + rest
  }

  /** A patch request that sets only `accessible`. */
  function AccessiblePatch(names: seq<string>): PatchReifySpecRequest {
    PatchReifySpecRequest(0, false, ZeroKey, false, None, false, 0, false, names, true)
  }

  /** A patch request that sets only the public key. */
  function PublicKeyPatch(key: Key): PatchReifySpecRequest {
    PatchReifySpecRequest(0, false, key, true, None, false, 0, false, [], false)
  }

  /** `patchAccessible`: the patch it sends, if any. It is sent exactly
      when some device has a chosen endpoint or forwarder, and it sets the
      caller's `accessible` to those devices. */
  function AccessibleRequest(nc: NetworkCensored): (r: Option<PatchReifySpecRequest>)
    ensures r.Some? <==> exists k :: 0 <= k < |nc.devices| && nc.devices[k].forwarderAndEndpointChosen
    ensures r.Some? ==> r.value == AccessiblePatch(ChosenNames(nc.devices))
  {
    var names := ChosenNames(nc.devices);
    assert names == [] <==> forall k :: 0 <= k < |nc.devices| ==> !nc.devices[k].forwarderAndEndpointChosen by {
      if names != [] {
        assert names[0] in names;
      }
      if exists k :: 0 <= k < |nc.devices| && nc.devices[k].forwarderAndEndpointChosen {
        var k :| 0 <= k < |nc.devices| && nc.devices[k].forwarderAndEndpointChosen;
        assert nc.devices[k].name in names;
      }
    }
    if |names| != 0 then Some(AccessiblePatch(names)) else None
  }

  /** The patch `patchAccessible` sends is one the coordinator takes, as
      long as every device the caller sees is in the network. */
  lemma AccessiblePatchKnown(nc: NetworkCensored, sn: Network)
    requires forall k :: 0 <= k < |nc.devices| ==> nc.devices[k].name in Names(sn.devices, DeviceName)
    ensures AccessibleRequest(nc).Some? ==> AccessibleKnown(sn, AccessibleRequest(nc).value)
  {
    var names := ChosenNames(nc.devices);
    forall k | 0 <= k < |names| ensures names[k] in Names(sn.devices, DeviceName) {
      assert names[k] in names;
    }
  }

  class Client {
    /** The device's WireGuard private key; all zero until generated. */
    var privateKey: Key
    const network: string
    const device: string

    constructor (network: string, device: string, privateKey: Key)
      ensures this.network == network && this.device == device && this.privateKey == privateKey
    {
      this.network := network;
      this.device := device;
      this.privateKey := privateKey;
    }

    /** `updateMyKeys`: generate a private key if there is none (`generated`
        stands for the freshly generated one), and when the public key the
        view holds for the device differs from the one derived from the
        private key (`publicKeyOf`), patch it at the coordinator and, once
        that succeeds, in the view. */
    method UpdateMyKeys(nc: NetworkCensored, generated: Key, publicKeyOf: Key -> Key, patchFails: bool)
      returns (r: Result<NetworkCensored, ClientError>, sent: Option<PatchReifySpecRequest>)
      modifies this
      ensures device !in Names(nc.devices, CensoredDeviceName) ==>
                r == Err(ClientPanic) && sent == None && privateKey == old(privateKey)
      ensures device in Names(nc.devices, CensoredDeviceName) ==>
                var i := GetCensoredDeviceIndex(nc, device).0;
                var pub := publicKeyOf(privateKey);
                && privateKey == (if old(privateKey) == ZeroKey then generated else old(privateKey))
                && (nc.devices[i].publicKey == pub ==> sent == None && r == Ok(nc))
                && (nc.devices[i].publicKey != pub ==>
                      && sent == Some(PublicKeyPatch(pub))
                      && r == (if patchFails then Err(PatchFailed)
                               else Ok(nc.(devices := nc.devices[i := nc.devices[i].(publicKey := pub)]))))
    {
      var (i, ok) := GetCensoredDeviceIndex(nc, device);
      if !ok {
        return Err(ClientPanic), None;
      }
      if privateKey == ZeroKey {
        privateKey := generated;
      }
      var pub := publicKeyOf(privateKey);
      if nc.devices[i].publicKey != pub {
        sent := Some(PublicKeyPatch(pub));
        if patchFails {
          return Err(PatchFailed), sent;
        }
        r := Ok(nc.(devices := nc.devices[i := nc.devices[i].(publicKey := pub)]));
      } else {
        sent, r := None, Ok(nc);
      }
    }
  }

  /** After a successful `updateMyKeys` the view holds, for the device, the
      public key derived from its private key. */
  lemma UpdatedKeyMatches(nc: NetworkCensored, i: nat, pub: Key)
    requires i < |nc.devices|
    ensures var v := nc.(devices := nc.devices[i := nc.devices[i].(publicKey := pub)]);
            v.devices[i].publicKey == pub
            && forall j :: 0 <= j < |nc.devices| && j != i ==> v.devices[j] == nc.devices[j]
  {
  }

  // ---------------------------------------------------------------------
  // ContinousClient.

  class ContinuousClient {
    /** Whether the last answer said the device was up to date. */
    var latest: bool

    constructor ()
      ensures !latest
    {
      latest := false;
    }

    /** `Step`: when the device was up to date it only asks whether it
        still is (`getLatest` is that answer); otherwise it reifies the spec
        (`reifySpec` is that outcome). An error leaves the state as it was. */
    method Step(getLatest: Result<bool, string>, reifySpec: Result<bool, string>)
      returns (isLatest: bool, updated: bool, err: Option<string>)
      modifies this
      ensures updated == !old(latest)
      ensures var res := if old(latest) then getLatest else reifySpec;
              && (res.Err? ==> err == Some(res.error) && !isLatest && latest == old(latest))
              && (res.Ok? ==> err == None && isLatest == res.value && latest == res.value)
    {
      var res: Result<bool, string>;
      if latest {
        res, updated := getLatest, false;
      } else {
        res, updated := reifySpec, true;
      }
      isLatest, err := false, None;
      if res.Err? {
        err := Some(res.error);
        return;
      }
      isLatest := res.value;
      latest := res.value;
    }
  }
}
