/** The device-side DNS server (`dns/dns.go`): names under a configured
    suffix resolve to the addresses of a device of the spec. A parent with
    a network and a device serves exactly its suffix; a parent with neither
    serves `<device>.<network><suffix>`. */
module Dns {
  import opened Wrappers
  import opened Net
  import opened Goal
  import opened Specs
  import opened GoStrings

  // Response codes of section 4.1.1 of RFC 1035.
  const RcodeSuccess := 0
  const RcodeServerFailure := 2
  const RcodeNameError := 3

  // Query types of section 3.2.2 of RFC 1035 and section 2.1 of RFC 3596.
  const TypeA := 1
  const TypeAAAA := 28

  /** `net.CIDRMask(32, 32)` and `net.CIDRMask(128, 128)`. */
  const Mask32: seq<byte> := [255, 255, 255, 255]
  const Mask128: seq<byte> := [255, 255, 255, 255, 255, 255, 255, 255, 255, 255, 255, 255, 255, 255, 255, 255]

  /** A suffix served, and the network and device it stands for (both
      empty for a suffix under which the name spells them out). */
  datatype Parent = Parent(suffix: string, network: string, device: string)

  /** Why `NewServer` refuses a configuration; `i` is the parent's index. */
  datatype ConfigError =
    | NoParents
    | NoSuffix(i: nat)
    | TrailingPeriod(i: nat)
    | NetworkWithoutDevice(i: nat)
    | UnexpectedLeadingDot(i: nat)
    | MissingLeadingDot(i: nat)
    | DuplicateSuffixes(i: nat, j: nat)

  // ---------------------------------------------------------------------
  // NewServer.

  /** The checks `NewServer` makes on one parent, in order. */
  function ParentError(p: Parent, i: nat): (r: Option<ConfigError>)
    ensures r.None? <==> ParentValid(p)
    ensures r.Some? ==> r.value.NoSuffix? || r.value.TrailingPeriod? || r.value.NetworkWithoutDevice?
                        || r.value.UnexpectedLeadingDot? || r.value.MissingLeadingDot?
  {
    if p.suffix == "" then Some(NoSuffix(i))
    else if p.suffix[|p.suffix| - 1] == '.' then Some(TrailingPeriod(i))
    else if (p.network == "") != (p.device == "") then Some(NetworkWithoutDevice(i))
    else if p.network != "" && p.device != "" && p.suffix[0] == '.' then Some(UnexpectedLeadingDot(i))
    else if p.network == "" && p.device == "" && p.suffix[0] != '.' then Some(MissingLeadingDot(i))
    else None
  }

  /** A parent `NewServer` accepts on its own: a suffix that is not empty
      and does not end in a period, and either both a network and a device,
      with a suffix not starting with a dot, or neither, with a suffix
      starting with one. */
  predicate ParentValid(p: Parent) {
    && p.suffix != ""
    && p.suffix[|p.suffix| - 1] != '.'
    && (p.network == "") == (p.device == "")
    && (p.network != "" ==> p.suffix[0] != '.')
    && (p.network == "" ==> p.suffix[0] == '.')
  }

  /** No two parents share a suffix. */
  predicate DistinctSuffixes(parents: seq<Parent>) {
    forall k, l :: 0 <= k < l < |parents| ==> parents[k].suffix != parents[l].suffix
  }

  /** `e` is the error of the first parent that fails: the parents before
      it pass every check, and it fails its own checks, reported in their
      order, or else repeats an earlier suffix. */
  predicate FirstError(parents: seq<Parent>, e: ConfigError)
    requires !e.NoParents?
  {
    var i := e.i;
    && i < |parents|
    && (forall k :: 0 <= k < i ==> ParentValid(parents[k]))
    && DistinctSuffixes(parents[..i])
    && (if ParentValid(parents[i])
        then e.DuplicateSuffixes? && e.j < i && parents[e.j].suffix == parents[i].suffix
        else ParentError(parents[i], i) == Some(e))
  }

  /** The loop of `NewServer` over the first `n` parents: the first error,
      or the `suffixes` map it has built. */
  function CheckParents(parents: seq<Parent>, n: nat): Result<map<string, nat>, ConfigError>
    requires n <= |parents|
  {
    if n == 0 then Ok(map[])
    else
      match CheckParents(parents, n - 1)
      case Err(e) => Err(e)
      case Ok(suffixes) =>
        var p := parents[n - 1];
        var e := ParentError(p, n - 1);
        if e.Some? then Err(e.value)
        else if p.suffix in suffixes then Err(DuplicateSuffixes(n - 1, suffixes[p.suffix]))
        else Ok(suffixes[p.suffix := n - 1])
  }

  /** The loop gets through the first `n` parents exactly when each is
      valid and their suffixes are distinct, and then maps each of their
      suffixes to the index of the parent that has it. */
  lemma {:induction false} CheckParentsOk(parents: seq<Parent>, n: nat)
    requires n <= |parents|
    ensures var r := CheckParents(parents, n);
            r.Ok? <==> (forall k :: 0 <= k < n ==> ParentValid(parents[k])) && DistinctSuffixes(parents[..n])
    ensures var r := CheckParents(parents, n);
            r.Ok? ==> forall s :: s in r.value <==> exists k :: 0 <= k < n && parents[k].suffix == s
    ensures var r := CheckParents(parents, n);
            r.Ok? ==> forall s :: s in r.value ==> r.value[s] < n && parents[r.value[s]].suffix == s
  {
    if n > 0 {
      CheckParentsOk(parents, n - 1);
      DistinctSnoc(parents, n);
    }
  }

  /** The error the loop stops at is that of the first parent that fails. */
  lemma {:induction false} CheckParentsErr(parents: seq<Parent>, n: nat)
    requires n <= |parents|
    ensures var r := CheckParents(parents, n);
            r.Err? ==> !r.error.NoParents? && r.error.i < n && FirstError(parents, r.error)
  {
    if n > 0 {
      CheckParentsErr(parents, n - 1);
      CheckParentsOk(parents, n - 1);
    }
  }

  /** One more parent keeps the suffixes distinct when its suffix is new. */
  lemma DistinctSnoc(parents: seq<Parent>, n: nat)
    requires 0 < n <= |parents|
    ensures DistinctSuffixes(parents[..n]) <==>
              (DistinctSuffixes(parents[..n - 1]) && forall k :: 0 <= k < n - 1 ==> parents[k].suffix != parents[n - 1].suffix)
  {
    assert forall k :: 0 <= k < n ==> parents[..n][k] == parents[k];
    assert forall k :: 0 <= k < n - 1 ==> parents[..n - 1][k] == parents[k];
  }

  /** `NewServer`, on the parents alone: it accepts them exactly when there
      is at least one, each is valid, and their suffixes are distinct. */
  function NewServer(parents: seq<Parent>): (r: Result<seq<Parent>, ConfigError>)
    ensures parents == [] ==> r == Err(NoParents)
    ensures r.Ok? <==> parents != [] && (forall k :: 0 <= k < |parents| ==> ParentValid(parents[k])) && DistinctSuffixes(parents)
    ensures r.Ok? ==> r.value == parents
    ensures r.Err? && parents != [] ==> !r.error.NoParents? && FirstError(parents, r.error)
  {
    if parents == [] then Err(NoParents)
    else
      assert parents[..|parents|] == parents;
      CheckParentsOk(parents, |parents|);
      CheckParentsErr(parents, |parents|);
      match CheckParents(parents, |parents|)
      case Err(e) => Err(e)
      case Ok(_) => Ok(parents)
  }

  // ---------------------------------------------------------------------
  // handleParent: from a query name to a network and a device.

  /** `handleParent`'s parsing of the query name `qname` (with its trailing
      dot) under `parent`: the labels before the suffix, last first, after
      the parent's network and device; exactly two labels in all name a
      network and a device. */
  function ParseName(qname: string, parent: Parent): (r: Option<(string, string)>)
    requires |qname| >= 1
  {
    var split := Split(TrimSuffix(qname[..|qname| - 1], parent.suffix), '.');
    var labels := if |split| == 1 && split[0] == "" then [] else split;
    var withDevice := (if parent.device != "" then [parent.device] else []) + Reverse(labels);
    var parts := (if parent.network != "" then [parent.network] else []) + withDevice;
    if |parts| != 2 then None else Some((parts[0], parts[1]))
  }

  /** A parent with a network and a device answers for its suffix and for
      nothing else below it. */
  lemma ParseNameFixed(qname: string, parent: Parent)
    requires |qname| >= 1
    requires parent.network != "" && parent.device != ""
    ensures ParseName(qname, parent).Some? <==> TrimSuffix(qname[..|qname| - 1], parent.suffix) == ""
    ensures ParseName(qname, parent).Some? ==> ParseName(qname, parent).value == (parent.network, parent.device)
  {
    SplitParts(TrimSuffix(qname[..|qname| - 1], parent.suffix), '.');
  }

  /** Under a parent with neither a network nor a device, a name parses
      to `(network, device)` exactly when what precedes the suffix is
      `<device>.<network>`. */
  lemma ParseNameSpelled(qname: string, parent: Parent, network: string, device: string)
    requires |qname| >= 1
    requires parent.network == "" && parent.device == ""
    requires '.' !in network && '.' !in device
    ensures ParseName(qname, parent) == Some((network, device))
        <==> TrimSuffix(qname[..|qname| - 1], parent.suffix) == device + "." + network
  {
    var trimmed := TrimSuffix(qname[..|qname| - 1], parent.suffix);
    var split := Split(trimmed, '.');
    SplitParts(trimmed, '.');
    ReverseIndex(if |split| == 1 && split[0] == "" then [] else split);
    if ParseName(qname, parent) == Some((network, device)) {
      assert split == [device, network];
      assert Join(split, '.') == device + "." + network;
    }
    if trimmed == device + "." + network {
      SplitAfter(device, network, '.');
      NoSeparator(network, '.');
    }
  }

  /** The name a parent with neither network nor device gives a device
      parses back to that device. */
  lemma ParseNameRoundTrip(parent: Parent, network: string, device: string)
    requires parent.network == "" && parent.device == ""
    requires '.' !in network && '.' !in device
    ensures ParseName(device + "." + network + parent.suffix + ".", parent) == Some((network, device))
  {
    var qname := device + "." + network + parent.suffix + ".";
    assert qname[..|qname| - 1] == (device + "." + network) + parent.suffix;
    ParseNameSpelled(qname, parent, network, device);
  }

  /** The device `handleParent` looks up: the network named `network`
      (`GetNetwork`), then its device named `device` (`GetDevice`). A
      device is found exactly when the spec has the network and that
      network has the device, and it carries the name asked for. */
  function Resolve(spec: SpecCensored, network: string, device: string): (r: Option<NetworkDeviceCensored>)
    ensures r.Some? <==>
              && network in Names(spec.networks, CensoredNetworkName)
              && device in Names(GetCensoredNetwork(spec, network).value.devices, CensoredDeviceName)
    ensures r.Some? ==> r.value.name == device && r.value in GetCensoredNetwork(spec, network).value.devices
  {
    match GetCensoredNetwork(spec, network)
    case None => None
    case Some(nc) => GetCensoredDevice(nc, device)
  }

  // ---------------------------------------------------------------------
  // Replies.

  /** An answer record: the query name and an IPv4 or an IPv6 address. */
  datatype Record = A(name: string, ip: seq<byte>) | AAAA(name: string, ip: seq<byte>)

  /** The record `returnAddresses` gives for one address, if any. */
  function RecordFor(name: string, a: IPNet): (r: seq<Record>)
    ensures a.mask == Mask32 ==> r == [A(name, a.ip)]
    ensures a.mask != Mask32 && a.mask == Mask128 ==> r == [AAAA(name, a.ip)]
    ensures a.mask != Mask32 && a.mask != Mask128 ==> r == []
  {
    if a.mask == Mask32 then [A(name, a.ip)]
    else if a.mask == Mask128 then [AAAA(name, a.ip)]
    else []
  }

  /** The records `returnAddresses` appends for `addresses`, in order. */
  function Records(name: string, addresses: seq<IPNet>): (r: seq<Record>)
    ensures |r| <= |addresses|
  {
    if addresses == [] then []
    else Records(name, addresses[..|addresses| - 1]) + RecordFor(name, addresses[|addresses| - 1])
  }

  /** Records come in the order of their addresses. */
  lemma {:induction false} RecordsAppend(name: string, xs: seq<IPNet>, ys: seq<IPNet>)
    ensures Records(name, xs + ys) == Records(name, xs) + Records(name, ys)
  {
    if ys != [] {
      assert (xs + ys)[..|xs + ys| - 1] == xs + ys[..|ys| - 1];
      RecordsAppend(name, xs, ys[..|ys| - 1]);
    } else {
      assert xs + ys == xs;
    }
  }

  /** One more address adds its own records at the end. */
  lemma RecordsSnoc(name: string, addresses: seq<IPNet>, i: nat)
    requires i < |addresses|
    ensures Records(name, addresses[..i + 1]) == Records(name, addresses[..i]) + RecordFor(name, addresses[i])
  {
    assert addresses[..i + 1][..i] == addresses[..i];
  }

  /** The A records are exactly those of the addresses with a /32 mask. */
  lemma {:induction false} RecordsA(name: string, addresses: seq<IPNet>)
    ensures forall ip :: A(name, ip) in Records(name, addresses) <==>
              exists k :: 0 <= k < |addresses| && addresses[k].ip == ip && addresses[k].mask == Mask32
  {
    if addresses != [] {
      var init := addresses[..|addresses| - 1];
      RecordsA(name, init);
      assert forall k :: 0 <= k < |init| ==> init[k] == addresses[k];
    }
  }

  /** The AAAA records are exactly those of the addresses with a /128
      mask. */
  lemma {:induction false} RecordsAAAA(name: string, addresses: seq<IPNet>)
    ensures forall ip :: AAAA(name, ip) in Records(name, addresses) <==>
              exists k :: 0 <= k < |addresses| && addresses[k].ip == ip && addresses[k].mask == Mask128
  {
    if addresses != [] {
      var init := addresses[..|addresses| - 1];
      RecordsAAAA(name, init);
      assert forall k :: 0 <= k < |init| ==> init[k] == addresses[k];
      assert Mask32 != Mask128 by { assert |Mask32| != |Mask128|; }
    }
  }

  /** A reply message; only its answer section is modelled. */
  class Msg {
    var answer: seq<Record>

    constructor ()
      ensures answer == []
    {
      answer := [];
    }
  }

  /** A question of a query; names carry their trailing dot. */
  datatype Question = Question(name: string, qtype: int)

  /** The rcode and the records one call of `handleParent` gives. */
  datatype Outcome = Outcome(rcode: int, records: seq<Record>)

  /** What `handleParent` answers for `qname` under `parent`: a server
      failure without a spec, a name error for a name that does not parse
      or names no device, and the device's records otherwise. */
  function ParentOutcome(spec: Option<SpecCensored>, qname: string, parent: Parent): (o: Outcome)
    requires |qname| >= 1
    ensures o.rcode == RcodeSuccess || o.rcode == RcodeServerFailure || o.rcode == RcodeNameError
    ensures o.rcode != RcodeSuccess ==> o.records == []
  {
    if spec.None? then Outcome(RcodeServerFailure, [])
    else match ParseName(qname, parent)
      case None => Outcome(RcodeNameError, [])
      case Some((network, device)) =>
        match Resolve(spec.value, network, device)
        case None => Outcome(RcodeNameError, [])
        case Some(ndc) => Outcome(RcodeSuccess, Records(qname, ndc.addresses))
  }

  /** `handleParent` fails on the server exactly without a spec, and
      succeeds exactly when the name parses and names a device of the
      spec, whose records it then gives. */
  lemma ParentOutcomeCodes(spec: Option<SpecCensored>, qname: string, parent: Parent)
    requires |qname| >= 1
    ensures ParentOutcome(spec, qname, parent).rcode == RcodeServerFailure <==> spec.None?
    ensures var parsed := ParseName(qname, parent);
            ParentOutcome(spec, qname, parent).rcode == RcodeSuccess <==>
              (spec.Some? && parsed.Some? && Resolve(spec.value, parsed.value.0, parsed.value.1).Some?)
    ensures var parsed := ParseName(qname, parent);
            spec.Some? && parsed.Some? && Resolve(spec.value, parsed.value.0, parsed.value.1).Some? ==>
              ParentOutcome(spec, qname, parent).records
                == Records(qname, Resolve(spec.value, parsed.value.0, parsed.value.1).value.addresses)
  {
  }

  /** The index of the first parent whose suffix ends the name (without its
      trailing dot). */
  function FirstMatch(parents: seq<Parent>, name: string): (r: Option<nat>)
    ensures r.Some? ==> r.value < |parents| && HasSuffix(name, parents[r.value].suffix)
    ensures r.Some? ==> forall k :: 0 <= k < r.value ==> !HasSuffix(name, parents[k].suffix)
    ensures r.None? ==> forall k :: 0 <= k < |parents| ==> !HasSuffix(name, parents[k].suffix)
  {
    if parents == [] then None
    else if HasSuffix(name, parents[0].suffix) then Some(0)
    else match FirstMatch(parents[1..], name)
      case None => None
      case Some(k) => Some(k + 1)
  }

  /** What `handleQuery` does for one question: it answers type A
      questions under the first matching parent, and nothing else. */
  function QuestionOutcome(spec: Option<SpecCensored>, q: Question, parents: seq<Parent>): (o: Outcome)
    requires |q.name| >= 1
    ensures o.rcode != RcodeSuccess ==> o.records == []
    ensures q.qtype != TypeA ==> o == Outcome(RcodeSuccess, [])
    ensures FirstMatch(parents, q.name[..|q.name| - 1]).None? ==> o == Outcome(RcodeSuccess, [])
  {
    match FirstMatch(parents, q.name[..|q.name| - 1])
    case None => Outcome(RcodeSuccess, [])
    case Some(k) => if q.qtype == TypeA then ParentOutcome(spec, q.name, parents[k]) else Outcome(RcodeSuccess, [])
  }

  /** Questions whose names all carry a trailing dot. */
  predicate NamesDotted(questions: seq<Question>) {
    forall k :: 0 <= k < |questions| ==> |questions[k].name| >= 1
  }

  /** The outcomes of the questions, one by one. */
  function Outcomes(spec: Option<SpecCensored>, questions: seq<Question>, parents: seq<Parent>): (outs: seq<Outcome>)
    requires NamesDotted(questions)
    ensures |outs| == |questions|
  {
    if questions == [] then [] else [QuestionOutcome(spec, questions[0], parents)] + Outcomes(spec, questions[1..], parents)
  }

  /** Outcome `i` is that of question `i`. */
  lemma {:induction false} OutcomesAt(spec: Option<SpecCensored>, questions: seq<Question>, parents: seq<Parent>, i: nat)
    requires NamesDotted(questions) && i < |questions|
    ensures Outcomes(spec, questions, parents)[i] == QuestionOutcome(spec, questions[i], parents)
  {
    if i > 0 {
      OutcomesAt(spec, questions[1..], parents, i - 1);
    }
  }

  /** `outs` holds the outcome of each question. The quantifier is only
      used where the outcome of a particular question is already in view,
      which keeps the loops over the questions free of the definitions
      behind `QuestionOutcome`. */
  predicate OutcomesAre(spec: Option<SpecCensored>, questions: seq<Question>, parents: seq<Parent>, outs: seq<Outcome>)
    requires NamesDotted(questions)
  {
    && |outs| == |questions|
    && forall k {:trigger QuestionOutcome(spec, questions[k], parents)} ::
         0 <= k < |questions| ==> outs[k] == QuestionOutcome(spec, questions[k], parents)
  }

  /** `Outcomes` gives the outcome of each question. */
  lemma OutcomesAreOutcomes(spec: Option<SpecCensored>, questions: seq<Question>, parents: seq<Parent>)
    requires NamesDotted(questions)
    ensures OutcomesAre(spec, questions, parents, Outcomes(spec, questions, parents))
  {
    forall k | 0 <= k < |questions|
      ensures Outcomes(spec, questions, parents)[k] == QuestionOutcome(spec, questions[k], parents)
    {
      OutcomesAt(spec, questions, parents, k);
    }
  }

  /** The outcome of questions whose outcomes one by one are `outs`: the
      records of the questions up to the first that fails, and that
      failure's rcode, or success. */
  function Combine(outs: seq<Outcome>): (o: Outcome) {
    if outs == [] then Outcome(RcodeSuccess, [])
    else if outs[0].rcode != RcodeSuccess then Outcome(outs[0].rcode, [])
    else
      var rest := Combine(outs[1..]);
      Outcome(rest.rcode, outs[0].records + rest.records)
  }

  /** What `handleQuery` answers for the questions. */
  function QueryOutcome(spec: Option<SpecCensored>, questions: seq<Question>, parents: seq<Parent>): Outcome
    requires NamesDotted(questions)
  {
    Combine(Outcomes(spec, questions, parents))
  }

  /** The combined outcome fails exactly when one of the outcomes does,
      with the rcode of the first failure, and otherwise holds all their
      records in order. */
  lemma {:induction false} CombineFirstFailure(outs: seq<Outcome>, i: nat)
    requires i < |outs| && outs[i].rcode != RcodeSuccess
    requires forall k :: 0 <= k < i ==> outs[k].rcode == RcodeSuccess
    ensures Combine(outs).rcode == outs[i].rcode
  {
    if i > 0 {
      CombineFirstFailure(outs[1..], i - 1);
    }
  }

  /** When some outcome fails and every failure has the rcode `c`, the
      combination fails with `c`. */
  lemma {:induction false} CombineSomeFailure(outs: seq<Outcome>, k: nat, c: int)
    requires k < |outs| && outs[k].rcode != RcodeSuccess
    requires forall j :: 0 <= j < |outs| && outs[j].rcode != RcodeSuccess ==> outs[j].rcode == c
    ensures Combine(outs).rcode == c
  {
    if outs[0].rcode == RcodeSuccess {
      CombineSomeFailure(outs[1..], k - 1, c);
    }
  }

  /** Outcomes that all succeed combine to success with all their records,
      in order. */
  lemma {:induction false} CombineAllSucceed(outs: seq<Outcome>)
    requires forall k :: 0 <= k < |outs| ==> outs[k].rcode == RcodeSuccess
    ensures Combine(outs).rcode == RcodeSuccess
    ensures outs != [] ==> Combine(outs).records == Combine(outs[..|outs| - 1]).records + outs[|outs| - 1].records
  {
    if outs != [] {
      CombineAllSucceed(outs[1..]);
      if |outs| > 1 {
        assert outs[1..][..|outs| - 2] == outs[..|outs| - 1][1..];
      }
    }
  }

  /** After the first `i` outcomes, all successes that gave the records
      `done`, the combined outcome is that of the remaining ones with
      `done` in front. */
  predicate CombinedSoFar(outs: seq<Outcome>, i: nat, done: seq<Record>)
    requires i <= |outs|
  {
    var o := Combine(outs[i..]);
    Combine(outs) == Outcome(o.rcode, done + o.records)
  }

  /** Outcome `i` either ends the combination with its rcode or moves its
      records into `done`. */
  lemma CombineStep(outs: seq<Outcome>, i: nat, done: seq<Record>)
    requires i < |outs| && CombinedSoFar(outs, i, done)
    ensures outs[i].rcode != RcodeSuccess ==> Combine(outs) == Outcome(outs[i].rcode, done)
    ensures outs[i].rcode == RcodeSuccess ==> CombinedSoFar(outs, i + 1, done + outs[i].records)
  {
    assert outs[i..][0] == outs[i];
    assert outs[i..][1..] == outs[i + 1..];
  }

  /** Without a spec, a question either succeeds without records or, when
      it is of type A and has a matching parent, fails on the server. */
  lemma NoSpecQuestion(q: Question, parents: seq<Parent>)
    requires |q.name| >= 1
    ensures QuestionOutcome(None, q, parents).rcode == RcodeSuccess || QuestionOutcome(None, q, parents).rcode == RcodeServerFailure
    ensures q.qtype == TypeA && FirstMatch(parents, q.name[..|q.name| - 1]).Some? ==>
              QuestionOutcome(None, q, parents).rcode == RcodeServerFailure
  {
  }

  /** Without a spec, any type A question under a parent fails the query as
      a server failure. */
  lemma NoSpecFails(questions: seq<Question>, parents: seq<Parent>, k: nat)
    requires NamesDotted(questions) && k < |questions|
    requires questions[k].qtype == TypeA && FirstMatch(parents, questions[k].name[..|questions[k].name| - 1]).Some?
    ensures QueryOutcome(None, questions, parents).rcode == RcodeServerFailure
  {
    var outs := Outcomes(None, questions, parents);
    forall j | 0 <= j < |outs| && outs[j].rcode != RcodeSuccess ensures outs[j].rcode == RcodeServerFailure {
      OutcomesAt(None, questions, parents, j);
      NoSpecQuestion(questions[j], parents);
    }
    OutcomesAt(None, questions, parents, k);
    NoSpecQuestion(questions[k], parents);
    CombineSomeFailure(outs, k, RcodeServerFailure);
  }

  /** A type A question for a device's name under a parent with neither
      network nor device is answered with that device's records, as long
      as no parent before it also matches. */
  lemma AnswersDevice(spec: SpecCensored, parents: seq<Parent>, i: nat, network: string, device: string)
    requires i < |parents| && parents[i].network == "" && parents[i].device == ""
    requires '.' !in network && '.' !in device
    requires forall k :: 0 <= k < i ==> !HasSuffix(device + "." + network + parents[i].suffix, parents[k].suffix)
    requires network in Names(spec.networks, CensoredNetworkName)
    requires device in Names(GetCensoredNetwork(spec, network).value.devices, CensoredDeviceName)
    ensures Resolve(spec, network, device).Some?
    ensures var qname := device + "." + network + parents[i].suffix + ".";
            QuestionOutcome(Some(spec), Question(qname, TypeA), parents)
              == Outcome(RcodeSuccess, Records(qname, Resolve(spec, network, device).value.addresses))
  {
    var qname := device + "." + network + parents[i].suffix + ".";
    var name := device + "." + network + parents[i].suffix;
    assert qname[..|qname| - 1] == name;
    assert HasSuffix(name, parents[i].suffix) by {
      assert name[|name| - |parents[i].suffix|..] == parents[i].suffix;
    }
    assert FirstMatch(parents, name) == Some(i);
    ParseNameRoundTrip(parents[i], network, device);
  }

  /** The DNS server: its parents, accepted by `NewServer`, and the spec it
      was last given (none yet, until the device client sends one). */
  class Server {
    const parents: seq<Parent>
    var spec: Option<SpecCensored>

    constructor (parents: seq<Parent>, spec: Option<SpecCensored>)
      requires NewServer(parents).Ok?
      ensures this.parents == parents && this.spec == spec
    {
      this.parents := parents;
      this.spec := spec;
    }

    /** `returnAddresses`: append a record for each /32 and /128 address. */
    static method ReturnAddresses(m: Msg, name: string, addresses: seq<IPNet>)
      modifies m
      ensures m.answer == old(m.answer) + Records(name, addresses)
    {
      for i := 0 to |addresses|
        invariant m.answer == old(m.answer) + Records(name, addresses[..i])
      {
        var a := addresses[i];
        RecordsSnoc(name, addresses, i);
        if a.mask == Mask32 {
          m.answer := m.answer + [A(name, a.ip)];
        } else if a.mask == Mask128 {
          m.answer := m.answer + [AAAA(name, a.ip)];
        }
      }
      assert addresses[..|addresses|] == addresses;
    }

    /** `handleParent`. */
    method HandleParent(m: Msg, qname: string, parent: Parent) returns (rcode: int)
      requires |qname| >= 1
      modifies m
      ensures rcode == ParentOutcome(spec, qname, parent).rcode
      ensures m.answer == old(m.answer) + ParentOutcome(spec, qname, parent).records
    {
      if spec.None? {
        return RcodeServerFailure;
      }
      var parsed := ParseName(qname, parent);
      if parsed.None? {
        return RcodeNameError;
      }
      var (network, device) := parsed.value;
      var nc := GetCensoredNetwork(spec.value, network);
      if nc.None? {
        return RcodeNameError;
      }
      var ndc := GetCensoredDevice(nc.value, device);
      if ndc.None? {
        return RcodeNameError;
      }
      ReturnAddresses(m, qname, ndc.value.addresses);
      return RcodeSuccess;
    }

    /** The scan of `handleQuery`'s inner loop: the first parent whose
        suffix ends the name. */
    method FindParent(name: string) returns (r: Option<nat>)
      ensures r == FirstMatch(parents, name)
    {
      for j := 0 to |parents|
        invariant forall k :: 0 <= k < j ==> !HasSuffix(name, parents[k].suffix)
      {
        if HasSuffix(name, parents[j].suffix) {
          return Some(j);
        }
      }
      return None;
    }

    /** The body of `handleQuery`'s outer loop for one question: under the
        first parent whose suffix matches, a type A question is handed to
        `handleParent`, and any other type is passed over. */
    method HandleQuestion(m: Msg, q: Question) returns (rcode: int)
      requires |q.name| >= 1
      modifies m
      ensures rcode == QuestionOutcome(spec, q, parents).rcode
      ensures m.answer == old(m.answer) + QuestionOutcome(spec, q, parents).records
    {
      var j := FindParent(q.name[..|q.name| - 1]);
      if j.Some? && q.qtype == TypeA {
        rcode := HandleMatched(m, q, j.value);
      } else {
        rcode := RcodeSuccess;
        assert m.answer == old(m.answer) + [];
      }
    }

    /** A type A question whose first matching parent is parent `j`: it
        is answered as `handleParent` answers it under that parent. */
    method HandleMatched(m: Msg, q: Question, j: nat) returns (rcode: int)
      requires |q.name| >= 1 && q.qtype == TypeA && FirstMatch(parents, q.name[..|q.name| - 1]) == Some(j)
      modifies m
      ensures rcode == QuestionOutcome(spec, q, parents).rcode
      ensures m.answer == old(m.answer) + QuestionOutcome(spec, q, parents).records
    {
      rcode := HandleParent(m, q.name, parents[j]);
    }

    /** Question `i` of a query, one step of `handleQuery`'s outer loop: it
        either ends the query with its failure or adds its records to
        those of the questions before it. */
    method AnswerQuestion(m: Msg, questions: seq<Question>, i: nat, ghost outs: seq<Outcome>, ghost done: seq<Record>)
      returns (rcode: int)
      requires NamesDotted(questions) && i < |questions|
      requires OutcomesAre(spec, questions, parents, outs) && CombinedSoFar(outs, i, done)
      modifies m
      ensures rcode == outs[i].rcode
      ensures rcode != RcodeSuccess ==> m.answer == old(m.answer) && Combine(outs) == Outcome(rcode, done)
      ensures rcode == RcodeSuccess ==>
                m.answer == old(m.answer) + outs[i].records && CombinedSoFar(outs, i + 1, done + outs[i].records)
    {
      rcode := HandleQuestion(m, questions[i]);
      CombineStep(outs, i, done);
    }

    /** `handleQuery`'s loop over the questions, stopping at the first that
        fails, against the outcomes `outs` of the questions. */
    method AnswerQuestions(m: Msg, questions: seq<Question>, ghost outs: seq<Outcome>) returns (rcode: int)
      requires NamesDotted(questions) && OutcomesAre(spec, questions, parents, outs)
      modifies m
      ensures rcode == Combine(outs).rcode
      ensures m.answer == old(m.answer) + Combine(outs).records
    {
      ghost var done := [];
      assert outs[0..] == outs;
      for i := 0 to |questions|
        invariant m.answer == old(m.answer) + done
        invariant CombinedSoFar(outs, i, done)
      {
        var rcode2 := AnswerQuestion(m, questions, i, outs, done);
        if rcode2 != RcodeSuccess {
          return rcode2;
        }
        done := done + outs[i].records;
      }
      assert outs[|questions|..] == [];
      return RcodeSuccess;
    }

    /** `handleQuery`: the records of the questions up to the first that
        fails, and that failure's rcode, or success. */
    method HandleQuery(m: Msg, questions: seq<Question>) returns (rcode: int)
      requires NamesDotted(questions)
      modifies m
      ensures rcode == QueryOutcome(spec, questions, parents).rcode
      ensures m.answer == old(m.answer) + QueryOutcome(spec, questions, parents).records
    {
      OutcomesAreOutcomes(spec, questions, parents);
      rcode := AnswerQuestions(m, questions, Outcomes(spec, questions, parents));
    }
  }
}
