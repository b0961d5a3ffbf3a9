/** Choosing a device's endpoint by score (`spec/resolve.go`): every
    endpoint is scored, the successful endpoint with the highest score wins,
    the earliest one among equals. */
module SpecResolve {
  import opened Wrappers
  import opened Specs

  /** What a scorer answers for one endpoint: a score, or an error. */
  datatype Score = Scored(score: int) | Failed

  /** `ErrAllEndpointsBad`, and the panic reached when no successful score
      exceeds the argmax loop's starting maximum of -1. */
  datatype ChooseError = AllEndpointsBad | Panic

  /** The scorer's answer for each endpoint; slot `i` belongs to
      endpoint `i`. */
  function Scores(endpoints: seq<string>, scorer: string -> Score): seq<Score> {
    seq(|endpoints|, i requires 0 <= i < |endpoints| => scorer(endpoints[i]))
  }

  predicate AnySucceeded(rs: seq<Score>) {
    exists j :: 0 <= j < |rs| && rs[j].Scored?
  }

  /** Some successful score beats the loop's starting maximum of -1. */
  predicate AnyUsable(rs: seq<Score>) {
    exists j :: 0 <= j < |rs| && rs[j].Scored? && rs[j].score >= 0
  }

  /** Index `i` is the choice: a success scoring at least 0, no success
      scoring more, and every success before it scoring less. */
  predicate IsChoice(rs: seq<Score>, i: int) {
    && 0 <= i < |rs| && rs[i].Scored? && rs[i].score >= 0
    && (forall j :: 0 <= j < |rs| && rs[j].Scored? ==> rs[j].score <= rs[i].score)
    && (forall j :: 0 <= j < i && rs[j].Scored? ==> rs[j].score < rs[i].score)
  }

  /** There is at most one choice, so the rule decides the endpoint. */
  lemma ChoiceUnique(rs: seq<Score>, i: int, j: int)
    requires IsChoice(rs, i) && IsChoice(rs, j)
    ensures i == j
  {
  }

  /** `NetworkDeviceCensored.ChooseEndpoint`. The scorer runs once per
      endpoint, each answer stored in its own slot; without any success the
      record is left as it was and `ErrAllEndpointsBad` is reported; when
      every success scores below 0 the argmax finds nothing and panics;
      otherwise only the chosen index and the chosen flag change. */
  method ChooseEndpoint(ndc: NetworkDeviceCensored, scorer: string -> Score)
    returns (r: NetworkDeviceCensored, err: Option<ChooseError>)
    ensures var rs := Scores(ndc.endpoints, scorer);
            !AnySucceeded(rs) ==> err == Some(AllEndpointsBad) && r == ndc
    ensures var rs := Scores(ndc.endpoints, scorer);
            AnySucceeded(rs) && !AnyUsable(rs) ==> err == Some(Panic) && r == ndc
    ensures var rs := Scores(ndc.endpoints, scorer);
            AnyUsable(rs) ==>
              && err == None
              && IsChoice(rs, r.endpointChosenIndex)
              && r == ndc.(endpointChosenIndex := r.endpointChosenIndex, forwarderAndEndpointChosen := true)
  {
    ghost var rs := Scores(ndc.endpoints, scorer);
    var n := |ndc.endpoints|;
    var scores := new int[n];
    var errs := new bool[n];
    for i := 0 to n
      invariant forall j :: 0 <= j < i ==> errs[j] == rs[j].Failed? && (rs[j].Scored? ==> scores[j] == rs[j].score)
    {
      var s := scorer(ndc.endpoints[i]);
      if s.Scored? {
        scores[i], errs[i] := s.score, false;
      } else {
        scores[i], errs[i] := 0, true;
      }
    }

    var ok := false;
    for i := 0 to n
      invariant ok <==> exists j :: 0 <= j < i && rs[j].Scored?
    {
      if !errs[i] {
        ok := true;
      }
    }
    if !ok {
      return ndc, Some(AllEndpointsBad);
    }

    var maxI, maxScore := -1, -1;
    for i := 0 to n
      invariant -1 <= maxI < i
      invariant forall j :: 0 <= j < i && rs[j].Scored? ==> rs[j].score <= maxScore
      invariant maxI == -1 ==> maxScore == -1
      invariant maxI != -1 ==>
        && rs[maxI] == Scored(maxScore) && maxScore >= 0
        && forall j :: 0 <= j < maxI && rs[j].Scored? ==> rs[j].score < maxScore
    {
      if errs[i] {
        continue;
      }
      if scores[i] > maxScore {
        maxI, maxScore := i, scores[i];
      }
    }
    if maxI == -1 {
      return ndc, Some(Panic);
    }
    r := ndc.(endpointChosenIndex := maxI, forwarderAndEndpointChosen := true);
    err := None;
  }
}
