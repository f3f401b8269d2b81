/** Accounting of already classified intervals: which time was observed, which was a gap and
    which stays unknown (src/application/analytics/observed_time.py). */
module ObservedTime {
  import opened Basics
  import opened TemporalContinuity

  datatype ObservedSpan = ObservedSpan(startAt: int, endAt: int, observedSeconds: real)

  datatype Metadata = Metadata(
    observedSeconds: real, gapSeconds: real, indeterminateSeconds: real,
    continuousCount: nat, gapCount: nat, indeterminateCount: nat,
    assessedSeconds: real, assessmentCount: nat)

  datatype ObservedTimeResult = ObservedTimeResult(spans: seq<ObservedSpan>, metadata: Metadata)

  datatype ObservedTimeError = EndBeforeStart | NegativeDelta | DeltaMismatch

  function AssessmentError(a: Assessment): Option<ObservedTimeError> {
    if a.endAt < a.startAt then Some(EndBeforeStart)
    else if a.deltaSeconds < 0.0 then Some(NegativeDelta)
    else if !IsClose(a.deltaSeconds, Seconds(a.endAt - a.startAt)) then Some(DeltaMismatch)
    else None
  }

  predicate AllAccepted(assessments: seq<Assessment>) {
    forall i :: 0 <= i < |assessments| ==> AssessmentError(assessments[i]).None?
  }

  /** Seconds carried by the intervals of one status. */
  function SecondsWith(assessments: seq<Assessment>, status: ContinuityStatus): real {
    if assessments == [] then 0.0
    else
      var n := |assessments| - 1;
      SecondsWith(assessments[..n], status)
      + if assessments[n].status == status then MaxReal(assessments[n].deltaSeconds, 0.0) else 0.0
  }

  function CountWith(assessments: seq<Assessment>, status: ContinuityStatus): nat {
    if assessments == [] then 0
    else
      var n := |assessments| - 1;
      CountWith(assessments[..n], status) + if assessments[n].status == status then 1 else 0
  }

  /** The observed spans, one for each continuous interval of positive length, in order. */
  function SpansOf(assessments: seq<Assessment>): seq<ObservedSpan> {
    if assessments == [] then []
    else
      var n := |assessments| - 1;
      var a := assessments[n];
      SpansOf(assessments[..n])
      + if a.status == Continuous && a.deltaSeconds > 0.0
        then [ObservedSpan(a.startAt, a.endAt, a.deltaSeconds)] else []
  }

  function Accounting(assessments: seq<Assessment>): ObservedTimeResult {
    var o, g, u := SecondsWith(assessments, Continuous), SecondsWith(assessments, Gap),
                   SecondsWith(assessments, Indeterminate);
    ObservedTimeResult(
      SpansOf(assessments),
      Metadata(o, g, u, CountWith(assessments, Continuous), CountWith(assessments, Gap),
               CountWith(assessments, Indeterminate), o + g + u, |assessments|))
  }

  method CalculateObservedTime(assessments: seq<Assessment>)
    returns (r: Result<ObservedTimeResult, ObservedTimeError>)
    ensures AllAccepted(assessments) ==> r == Ok(Accounting(assessments))
    ensures !AllAccepted(assessments) ==>
              exists i :: 0 <= i < |assessments| && AllAccepted(assessments[..i])
                          && AssessmentError(assessments[i]).Some?
                          && r == Err(AssessmentError(assessments[i]).value)
  {
    var spans: seq<ObservedSpan> := [];
    var observed, gap, indeterminate := 0.0, 0.0, 0.0;
    var continuousCount: nat, gapCount: nat, indeterminateCount: nat := 0, 0, 0;
    for i := 0 to |assessments|
      invariant forall j :: 0 <= j < i ==> AssessmentError(assessments[j]).None?
      invariant Accounting(assessments[..i])
                == ObservedTimeResult(spans, Metadata(observed, gap, indeterminate, continuousCount, gapCount,
                                                      indeterminateCount, observed + gap + indeterminate, i))
    {
      var assessment := assessments[i];
      var error := AssessmentError(assessment);
      if error.Some? {
        return Err(error.value);
      }
      assert assessments[..i + 1] == assessments[..i] + [assessment];
      OneMoreAssessment(assessments[..i], assessment);
      var positive := MaxReal(assessment.deltaSeconds, 0.0);
      match assessment.status {
        case Continuous =>
          continuousCount := continuousCount + 1;
          observed := observed + positive;
          if positive > 0.0 {
            spans := spans + [ObservedSpan(assessment.startAt, assessment.endAt, positive)];
          }
        case Gap =>
          gapCount := gapCount + 1;
          gap := gap + positive;
        case Indeterminate =>
          indeterminateCount := indeterminateCount + 1;
          indeterminate := indeterminate + positive;
      }
    }
    assert assessments[..|assessments|] == assessments;
    return Ok(ObservedTimeResult(
                spans,
                Metadata(observed, gap, indeterminate, continuousCount, gapCount,
                         indeterminateCount, observed + gap + indeterminate, |assessments|)));
  }

  // ----- What the accounting means

  /** Total of the positive parts of all intervals, whatever their status. */
  function TotalSeconds(assessments: seq<Assessment>): real {
    if assessments == [] then 0.0
    else
      var n := |assessments| - 1;
      TotalSeconds(assessments[..n]) + MaxReal(assessments[n].deltaSeconds, 0.0)
  }

  /** Every second and every interval is booked under exactly one status. */
  lemma {:induction false} NothingIsLostOrBookedTwice(assessments: seq<Assessment>)
    ensures SecondsWith(assessments, Continuous) + SecondsWith(assessments, Gap)
            + SecondsWith(assessments, Indeterminate) == TotalSeconds(assessments)
    ensures CountWith(assessments, Continuous) + CountWith(assessments, Gap)
            + CountWith(assessments, Indeterminate) == |assessments|
  {
    if assessments != [] {
      NothingIsLostOrBookedTwice(assessments[..|assessments| - 1]);
    }
  }

  /** Sum of the lengths reported by the spans. */
  function SpanSeconds(spans: seq<ObservedSpan>): real {
    if spans == [] then 0.0
    else SpanSeconds(spans[..|spans| - 1]) + spans[|spans| - 1].observedSeconds
  }

  /** The spans carry exactly the observed seconds, and there is one per continuous interval
      unless an interval of zero length was called continuous. */
  lemma {:induction false} SpansCarryObservedTime(assessments: seq<Assessment>)
    ensures SpanSeconds(SpansOf(assessments)) == SecondsWith(assessments, Continuous)
    ensures |SpansOf(assessments)| <= CountWith(assessments, Continuous)
    ensures (forall i :: 0 <= i < |assessments| && assessments[i].status == Continuous ==>
               assessments[i].deltaSeconds > 0.0)
            ==> |SpansOf(assessments)| == CountWith(assessments, Continuous)
  {
    if assessments != [] {
      var n := |assessments| - 1;
      SpansCarryObservedTime(assessments[..n]);
      var before, all := SpansOf(assessments[..n]), SpansOf(assessments);
      if |all| > |before| {
        assert all[..|all| - 1] == before;
      } else {
        assert all == before;
      }
    }
  }

  // ----- Each status on its own

  function StatusesOf(assessments: seq<Assessment>): seq<ContinuityStatus> {
    seq(|assessments|, i requires 0 <= i < |assessments| => assessments[i].status)
  }

  /** One assessment more is booked under its own status, in count and in seconds, and nowhere else;
      only a continuous one adds a span, from its start to its end. */
  lemma OneMoreAssessment(assessments: seq<Assessment>, a: Assessment)
    ensures var before, after := Accounting(assessments), Accounting(assessments + [a]);
            var s := if a.deltaSeconds > 0.0 then a.deltaSeconds else 0.0;
            match a.status
            case Continuous =>
              after.metadata == before.metadata.(observedSeconds := before.metadata.observedSeconds + s,
                                                 continuousCount := before.metadata.continuousCount + 1,
                                                 assessedSeconds := before.metadata.assessedSeconds + s,
                                                 assessmentCount := before.metadata.assessmentCount + 1)
              && after.spans == before.spans + if s > 0.0 then [ObservedSpan(a.startAt, a.endAt, s)] else []
            case Gap =>
              after.metadata == before.metadata.(gapSeconds := before.metadata.gapSeconds + s,
                                                 gapCount := before.metadata.gapCount + 1,
                                                 assessedSeconds := before.metadata.assessedSeconds + s,
                                                 assessmentCount := before.metadata.assessmentCount + 1)
              && after.spans == before.spans
            case Indeterminate =>
              after.metadata == before.metadata.(indeterminateSeconds := before.metadata.indeterminateSeconds + s,
                                                 indeterminateCount := before.metadata.indeterminateCount + 1,
                                                 assessedSeconds := before.metadata.assessedSeconds + s,
                                                 assessmentCount := before.metadata.assessmentCount + 1)
              && after.spans == before.spans
    ensures Accounting([]) == ObservedTimeResult([], Metadata(0.0, 0.0, 0.0, 0, 0, 0, 0.0, 0))
  {
    assert (assessments + [a])[..|assessments|] == assessments;
  }

  /** The three counts are the numbers of times each status occurs. */
  lemma CountsAreOccurrences(assessments: seq<Assessment>)
    ensures var m, statuses := Accounting(assessments).metadata, multiset(StatusesOf(assessments));
            m.continuousCount == statuses[Continuous] && m.gapCount == statuses[Gap]
            && m.indeterminateCount == statuses[Indeterminate]
  {
    CountIsOccurrence(assessments, Continuous);
    CountIsOccurrence(assessments, Gap);
    CountIsOccurrence(assessments, Indeterminate);
  }

  lemma {:induction false} CountIsOccurrence(assessments: seq<Assessment>, status: ContinuityStatus)
    ensures CountWith(assessments, status) == multiset(StatusesOf(assessments))[status]
  {
    if assessments != [] {
      var n := |assessments| - 1;
      var init := StatusesOf(assessments[..n]);
      CountIsOccurrence(assessments[..n], status);
      assert StatusesOf(assessments) == init + [assessments[n].status];
      assert multiset(init + [assessments[n].status]) == multiset(init) + multiset{assessments[n].status};
    }
  }

  /** An assessment is accepted exactly if it does not run backwards and its seconds are its length
      within the tolerance. */
  lemma AcceptedExactly(a: Assessment)
    ensures AssessmentError(a).None?
            <==> a.startAt <= a.endAt && 0.0 <= a.deltaSeconds
                 && var length := (a.endAt - a.startAt) as real / 1000000.0;
                    var off := if a.deltaSeconds < length then length - a.deltaSeconds else a.deltaSeconds - length;
                    off <= 0.000001 || off * 1000000000.0 <= a.deltaSeconds || off * 1000000000.0 <= length
  {
  }
}
