/**
 The command string that `mark_test_status` (tests/sample-test.py) hands to
 the browser so that the cloud session dashboard records a test's outcome:
 a fixed prefix and a JSON-like object into which the status and the reason
 are spliced verbatim, with no escaping.
 */
module SessionStatus {
  import opened Strings

  datatype Option<T> = None | Some(value: T)

  /** The two statuses the scenarios report. */
  datatype Status = Passed | Failed

  /** What the dashboard is told: a status and a free-text reason. */
  datatype StatusUpdate = StatusUpdate(status: Status, reason: string)

  /** The executor prefix the cloud platform looks for. */
  const ExecutorPrefix: string := "browserstack_executor: "

  /** The key/value pair naming the command. */
  const ActionField: string := "\"action\": \"setSessionStatus\""

  /** The fixed text before the status value. */
  const Head: string := ExecutorPrefix + "{" + ActionField + ", \"arguments\": {\"status\":\""

  /** The fixed text between the status value and the reason value. */
  const Mid: string := "\", \"reason\": \""

  /** The fixed text after the reason value. */
  const Tail: string := "\"}}"

  /** Both status words are six characters long. */
  const StatusWidth: nat := 6

  /** Where the reason starts inside every payload. */
  const ReasonStart: nat := |Head| + StatusWidth + |Mid|

  function StatusText(st: Status): (s: string)
    ensures |s| == StatusWidth
  {
    match st
    case Passed => "passed"
    case Failed => "failed"
  }

  /** Reads a status word back; anything but the two words is rejected. */
  function ParseStatus(s: string): (r: Option<Status>)
    ensures r.Some? ==> StatusText(r.value) == s
  {
    if s == "passed" then Some(Passed)
    else if s == "failed" then Some(Failed)
    else None
  }

  lemma ParseStatusText(st: Status)
    ensures ParseStatus(StatusText(st)) == Some(st)
  {
  }

  /** The f-string built by `mark_test_status`. */
  function Payload(st: Status, reason: string): (r: string)
    ensures ExecutorPrefix <= r
    ensures MatchAt(r, ActionField, |ExecutorPrefix| + 1)
    ensures |r| == ReasonStart + |reason| + |Tail|
    ensures r[|Head|..|Head| + StatusWidth] == StatusText(st)
    ensures r[ReasonStart..ReasonStart + |reason|] == reason
  {
    Head + StatusText(st) + Mid + reason + Tail
  }

  /** Reads a payload back into the status and reason it carries. The reason
      is everything between the fixed middle and the fixed tail, so a reason
      holding quotes or braces is still recovered exactly. */
  function ParsePayload(msg: string): (r: Option<StatusUpdate>)
  {
    if |msg| < ReasonStart + |Tail| then None
    else if msg[..|Head|] != Head
         || msg[|Head| + StatusWidth..ReasonStart] != Mid
         || msg[|msg| - |Tail|..] != Tail then None
    else match ParseStatus(msg[|Head|..|Head| + StatusWidth])
      case None => None
      case Some(st) => Some(StatusUpdate(st, msg[ReasonStart..|msg| - |Tail|]))
  }

  /** Every payload reads back as the status and reason it was built from. */
  lemma ParsePayloadRoundTrip(st: Status, reason: string)
    ensures ParsePayload(Payload(st, reason)) == Some(StatusUpdate(st, reason))
  {
    var msg := Payload(st, reason);
    assert msg[..|Head|] == Head;
    assert msg[|Head| + StatusWidth..ReasonStart] == Mid;
    assert msg[|msg| - |Tail|..] == Tail;
    ParseStatusText(st);
  }

  /** Conversely, whatever reads back as an update is that update's payload. */
  lemma PayloadOfParse(msg: string)
    requires ParsePayload(msg).Some?
    ensures Payload(ParsePayload(msg).value.status, ParsePayload(msg).value.reason) == msg
  {
    var u := ParsePayload(msg).value;
    assert msg == msg[..|Head|] + msg[|Head|..|Head| + StatusWidth]
                  + msg[|Head| + StatusWidth..ReasonStart]
                  + msg[ReasonStart..|msg| - |Tail|] + msg[|msg| - |Tail|..];
  }

  /** Different updates never produce the same payload. */
  lemma PayloadInjective(s1: Status, r1: string, s2: Status, r2: string)
    requires Payload(s1, r1) == Payload(s2, r2)
    ensures s1 == s2 && r1 == r2
  {
    ParsePayloadRoundTrip(s1, r1);
    ParsePayloadRoundTrip(s2, r2);
  }
}
