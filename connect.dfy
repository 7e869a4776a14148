/**
 * Connect-status classification (`on_connect`): the broker's CONNACK
 * return code decides between subscribing to the configured topic and
 * refusing the connection with a reason.
 */
module Connect {
  import opened Wrappers
  import opened Numerals

  datatype Reason =
    | IncorrectProtocolVersion
    | InvalidClientIdentifier
    | ServerUnavailable
    | BadCredentials
    | NotAuthorised
    | UnknownErrorCode

  datatype ConnectOutcome =
    | Subscribe(topic: string)
    | Refused(code: int, reason: Reason)

  /**
   * Code 0 subscribes to the configured topic and does nothing else;
   * codes 1 to 5 are refused with their own reason; every other code is
   * refused as unknown.
   */
  function OnConnect(rc: int, topic: string): (r: ConnectOutcome)
    ensures r.Subscribe? <==> rc == 0
    ensures r.Subscribe? ==> r.topic == topic
    ensures r.Refused? ==> r.code == rc
    ensures r.Refused? ==> (r.reason == UnknownErrorCode <==> !(1 <= rc <= 5))
  {
    if rc == 0 then Subscribe(topic)
    else if rc == 1 then Refused(rc, IncorrectProtocolVersion)
    else if rc == 2 then Refused(rc, InvalidClientIdentifier)
    else if rc == 3 then Refused(rc, ServerUnavailable)
    else if rc == 4 then Refused(rc, BadCredentials)
    else if rc == 5 then Refused(rc, NotAuthorised)
    else Refused(rc, UnknownErrorCode)
  }

  /**
   * The CONNACK return codes other than 0 ("connection accepted") that
   * section 3.2.2.3 of MQTT Version 3.1.1 assigns, with their meaning;
   * codes 6 to 255 are reserved there.
   */
  const ConnackRefusals: map<int, Reason> := map[
    1 := IncorrectProtocolVersion,  // unacceptable protocol version
    2 := InvalidClientIdentifier,   // identifier rejected
    3 := ServerUnavailable,         // server unavailable
    4 := BadCredentials,            // bad user name or password
    5 := NotAuthorised              // not authorized
  ]

  /** The classification agrees with the standard's table, and a code the
      table does not assign is unknown. */
  lemma AgreesWithConnackTable(rc: int, topic: string)
    requires rc != 0
    ensures rc in ConnackRefusals ==> OnConnect(rc, topic) == Refused(rc, ConnackRefusals[rc])
    ensures rc !in ConnackRefusals ==> OnConnect(rc, topic) == Refused(rc, UnknownErrorCode)
  {
  }

  /** Distinct assigned codes are refused for distinct reasons. */
  lemma {:induction false} DistinctReasons(a: int, b: int, topic: string)
    requires 1 <= a <= 5 && 1 <= b <= 5 && a != b
    ensures OnConnect(a, topic).reason != OnConnect(b, topic).reason
  {
  }

  /** The fixed text of each refusal reason. */
  function ReasonText(reason: Reason): string {
    match reason
    case IncorrectProtocolVersion => "incorrect protocol version"
    case InvalidClientIdentifier => "invalid client identifier"
    case ServerUnavailable => "server unavailable"
    case BadCredentials => "bad username or password"
    case NotAuthorised => "not authorised"
    case UnknownErrorCode => "unknown error code"
  }

  /** Python's `str` of an integer. */
  function IntString(i: int): (s: string)
    ensures |s| > 0
  {
    if i < 0 then "-" + DecimalString(-i) else DecimalString(i)
  }

  /** The message of the exception raised for a refusal. */
  function RefusalMessage(code: int, reason: Reason): (m: string)
    ensures |m| > 0
  {
    "Connection refused (Code " + IntString(code) + ") – " + ReasonText(reason)
  }

  /** Distinct reasons give distinct texts for the same code, so the
      message tells the reasons apart. */
  lemma RefusalMessagesDistinct(code: int, a: Reason, b: Reason)
    requires a != b
    ensures RefusalMessage(code, a) != RefusalMessage(code, b)
  {
    var p := "Connection refused (Code " + IntString(code) + ") – ";
    assert RefusalMessage(code, a) == p + ReasonText(a);
    assert RefusalMessage(code, b) == p + ReasonText(b);
    assert (p + ReasonText(a))[|p|..] == ReasonText(a);
    assert (p + ReasonText(b))[|p|..] == ReasonText(b);
  }

  /** The code quoted in a refusal message reads back as the code. */
  lemma IntStringRoundTrip(i: int)
    ensures i >= 0 ==> Parse(Dec, IntString(i)) == Some(i)
    ensures i < 0 ==> IntString(i)[0] == '-' && Parse(Dec, IntString(i)[1..]) == Some(-i)
  {
    if i < 0 {
      assert IntString(i)[1..] == DecimalString(-i);
    }
  }
}
