/**
 The reporting tail shared by the four scenarios of tests/sample-test.py:
 on normal completion the scenario reports "passed" with its own reason; when
 the body raises, the exception text is normalised once, that one string is
 reported with "failed", and the same string is the message the scenario
 then fails with.
 */
module Scenario {
  import opened Strings
  import opened ErrorMessage
  import opened SessionStatus

  /** How a scenario's body ended: with a success reason, or by raising an
      exception whose text (`str(err)`) is given. */
  datatype Outcome = Completed(reason: string) | Raised(error: string)

  /** What the scenario hands on: the payload for the dashboard and, on the
      failure path, the message the test is failed with. */
  datatype Report = Report(payload: string, failure: Option<string>)

  /** The `mark_test_status` call after the body, or the `except` block. */
  function Conclude(o: Outcome): (rep: Report)
    ensures ParsePayload(rep.payload).Some?
    ensures o.Completed? <==> rep.failure.None?
    ensures o.Completed? ==> ParsePayload(rep.payload).value == StatusUpdate(Passed, o.reason)
    ensures o.Raised? ==> ParsePayload(rep.payload).value == StatusUpdate(Failed, rep.failure.value)
    ensures o.Raised? ==> rep.failure.value == Normalize(o.error)
  {
    match o
    case Completed(reason) =>
      ParsePayloadRoundTrip(Passed, reason);
      Report(Payload(Passed, reason), None)
    case Raised(err) =>
      var msg := Normalize(err);
      ParsePayloadRoundTrip(Failed, msg);
      Report(Payload(Failed, msg), Some(msg))
  }

  /** A failure reason that reaches the dashboard is one line, free of colons
      and single quotes, and never holds the call-log marker. */
  lemma FailureReasonClean(err: string)
    ensures var u := ParsePayload(Conclude(Raised(err)).payload).value;
            u.status == Failed && '\n' !in u.reason && ':' !in u.reason && '\'' !in u.reason
            && !Contains(u.reason, Marker)
  {
    NormalizeNoMarker(err);
  }

  /** Two exceptions whose texts agree up to and including the first call-log
      marker produce the same report. */
  lemma ConcludeIgnoresCallLog(err: string, other: string)
    requires Contains(err, Marker)
    requires err[..|Kept(err)| + |Marker|] <= other
    ensures Conclude(Raised(other)) == Conclude(Raised(err))
  {
    NormalizeIgnoresTrailer(err, other);
  }
}
