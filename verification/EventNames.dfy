/** The event types by name, and the recognition of a name. */
module EventNames {
  import opened Bytes
  import opened Members

  const CLONE: nat := 1

  /** `EVENT_NAMES`, in the order of the enumeration. */
  const EVENT_NAMES: seq<string> := [
    "CUSTOM", "CLONE", "CHANNEL_CREATE", "CHANNEL_DESTROY", "CHANNEL_STATE", "CHANNEL_CALLSTATE",
    "CHANNEL_ANSWER", "CHANNEL_HANGUP", "CHANNEL_HANGUP_COMPLETE", "CHANNEL_EXECUTE",
    "CHANNEL_EXECUTE_COMPLETE", "CHANNEL_HOLD", "CHANNEL_UNHOLD", "CHANNEL_BRIDGE", "CHANNEL_UNBRIDGE",
    "CHANNEL_PROGRESS", "CHANNEL_PROGRESS_MEDIA", "CHANNEL_OUTGOING", "CHANNEL_PARK", "CHANNEL_UNPARK",
    "CHANNEL_APPLICATION", "CHANNEL_ORIGINATE", "CHANNEL_UUID", "API", "LOG", "INBOUND_CHAN",
    "OUTBOUND_CHAN", "STARTUP", "SHUTDOWN", "PUBLISH", "UNPUBLISH", "TALK", "NOTALK", "SESSION_CRASH",
    "MODULE_LOAD", "MODULE_UNLOAD", "DTMF", "MESSAGE", "PRESENCE_IN", "NOTIFY_IN", "PRESENCE_OUT",
    "PRESENCE_PROBE", "MESSAGE_WAITING", "MESSAGE_QUERY", "ROSTER", "CODEC", "BACKGROUND_JOB",
    "DETECTED_SPEECH", "DETECTED_TONE", "PRIVATE_COMMAND", "HEARTBEAT", "TRAP", "ADD_SCHEDULE",
    "DEL_SCHEDULE", "EXE_SCHEDULE", "RE_SCHEDULE", "RELOADXML", "NOTIFY", "PHONE_FEATURE",
    "PHONE_FEATURE_SUBSCRIBE", "SEND_MESSAGE", "RECV_MESSAGE", "REQUEST_PARAMS", "CHANNEL_DATA", "GENERAL",
    "COMMAND", "SESSION_HEARTBEAT", "CLIENT_DISCONNECTED", "SERVER_DISCONNECTED", "SEND_INFO", "RECV_INFO",
    "RECV_RTCP_MESSAGE", "SEND_RTCP_MESSAGE", "CALL_SECURE", "NAT", "RECORD_START", "RECORD_STOP",
    "PLAYBACK_START", "PLAYBACK_STOP", "CALL_UPDATE", "FAILURE", "SOCKET_DATA", "MEDIA_BUG_START",
    "MEDIA_BUG_STOP", "CONFERENCE_DATA_QUERY", "CONFERENCE_DATA", "CALL_SETUP_REQ", "CALL_SETUP_RESULT",
    "CALL_DETAIL", "DEVICE_STATE", "TEXT", "SHUTDOWN_REQUESTED", "ALL"
  ]

  /** `strlen(name) > 13 && !strcasecmp(name + 13, ...) || !strcasecmp(name, ...)` */
  predicate NameMatches(name: cstr, x: nat)
    requires x < |EVENT_NAMES|
  {
    (|name| > 13 && CiEqualText(name[13..], EVENT_NAMES[x])) || CiEqualText(name, EVENT_NAMES[x])
  }

  /** A name matches when it is that of the type up to case, or that behind 13 characters of any kind. */
  lemma MatchesAloneOrPrefixed(name: cstr, x: nat)
    requires x < |EVENT_NAMES|
    ensures NameMatches(name, x) <==>
            || CiEqualText(name, EVENT_NAMES[x])
            || exists prefix: cstr, text: cstr ::
                 name == prefix + text && |prefix| == 13 && text != [] && CiEqualText(text, EVENT_NAMES[x])
  {
    hide CiEqualText, EVENT_NAMES;
    if |name| > 13 {
      assert name == name[..13] + name[13..];
      forall prefix: cstr, text: cstr | name == prefix + text && |prefix| == 13 ensures text == name[13..] {
      }
    }
  }

  function NameEventFrom(name: cstr, x: nat): (r: Option<nat>)
    requires x <= |EVENT_NAMES|
    ensures r.Some? ==> x <= r.value < |EVENT_NAMES| && NameMatches(name, r.value)
    ensures forall y :: x <= y < |EVENT_NAMES| && NameMatches(name, y) ==> r.Some? && r.value <= y
    decreases |EVENT_NAMES| - x
  {
    if x == |EVENT_NAMES| then None
    else if NameMatches(name, x) then Some(x)
    else NameEventFrom(name, x + 1)
  }

  /** `esl_name_event`: the first type whose name matches, also behind a prefix of 13 characters. */
  function NameEvent(name: cstr): Option<nat> {
    NameEventFrom(name, 0)
  }

  /** `esl_name_event` */
  method FindEventName(name: cstr) returns (r: Option<nat>)
    ensures r.Some? <==> exists x: nat :: x < |EVENT_NAMES| && NameMatches(name, x)
    ensures r.Some? ==> r.value < |EVENT_NAMES| && NameMatches(name, r.value)
    ensures r == NameEvent(name)
  {
    hide NameMatches;
    for x := 0 to |EVENT_NAMES|
      invariant forall y :: 0 <= y < x ==> !NameMatches(name, y)
    {
      if NameMatches(name, x) { return Some(x); }
    }
    return None;
  }
}
