/** Events as JSON: `esl_event_serialize_json` and `esl_event_create_json`. */
module EventJson {
  import opened Bytes
  import opened Members
  import opened EventHeaders
  import opened EventNames
  import Utf8
  import opened JsonValues
  import opened JsonText
  import JsonGrammar

  const MAX_JSON: nat := 16_777_216
  const MAX_HEADERS: nat := 4096
  const MAX_ITEMS: nat := 4096
  const MAX_NAME: nat := 1024

  const BODY: hname := [0x5F, 0x62, 0x6F, 0x64, 0x79]  // _body
  const CONTENT_LENGTH: hname :=                       // Content-Length
    [0x43, 0x6F, 0x6E, 0x74, 0x65, 0x6E, 0x74, 0x2D, 0x4C, 0x65, 0x6E, 0x67, 0x74, 0x68]
  const EVENT_NAME: hname :=                           // event-name
    [0x65, 0x76, 0x65, 0x6E, 0x74, 0x2D, 0x6E, 0x61, 0x6D, 0x65]

  /** How `cJSON_Print` prints: pretty, with escaped slashes unless that has been switched off. */
  function Printed(v: Json, slashes: bool): seq<byte>
    requires NumberFree(v)
  {
    ValueText(v, 0, Style(true, slashes))
  }

  // ----- event to JSON -----

  /** `json_value_init_string` refuses text that is not UTF-8. */
  ghost predicate Utf8Text(s: cstr) {
    Utf8.IsValidFrom(s, 0)
  }

  ghost predicate Serializable(h: Header) {
    && |h.name| <= MAX_NAME
    && if h.items != [] then forall i :: 0 <= i < |h.items| ==> |h.items[i]| <= MAX_JSON && Utf8Text(h.items[i])
       else |h.value| <= MAX_JSON && Utf8Text(h.value)
  }

  function ItemStrings(items: seq<cstr>): (vs: seq<Json>)
    ensures |vs| == |items| && forall i :: 0 <= i < |items| ==> vs[i] == Str(items[i])
  {
    seq(|items|, i requires 0 <= i < |items| => Str(items[i]))
  }

  lemma {:induction false} StringsAreShallow(vs: seq<Json>)
    requires forall i :: 0 <= i < |vs| ==> vs[i].Str?
    ensures HeightOfItems(vs) == 0
  {
    if vs != [] { StringsAreShallow(vs[1..]); }
  }

  lemma ItemsAreShallow(items: seq<cstr>)
    ensures HeightOfItems(ItemStrings(items)) == 0
  {
    StringsAreShallow(ItemStrings(items));
  }

  function HeaderJson(h: Header): (v: Json)
    ensures NumberFree(v) && WellFormed(v) && Height(v) <= 1
  {
    if h.items != [] then
      ItemsAreShallow(h.items);
      Arr(ItemStrings(h.items))
    else Str(h.value)
  }

  /** The header loop: each header is set under its name. */
  ghost function HeaderMembers(ms: seq<Member<Json>>, hs: seq<Header>): (r: Option<seq<Member<Json>>>)
    ensures r.Some? && NumberFree(Obj(ms)) ==> NumberFree(Obj(r.value))
    decreases |hs|
  {
    if hs == [] then Some(ms)
    else if !Serializable(hs[0]) then None
    else HeaderMembers(Put(ms, hs[0].name, HeaderJson(hs[0])), hs[1..])
  }

  ghost function BodyMembers(ms: seq<Member<Json>>, body: Option<cstr>): (r: Option<seq<Member<Json>>>)
    ensures r.Some? && NumberFree(Obj(ms)) ==> NumberFree(Obj(r.value))
  {
    if body.None? then Some(ms)
    else if |body.value| > MAX_BODY || !Utf8Text(body.value) then None
    else Some(Put(Put(ms, CONTENT_LENGTH, Str(Decimal(|body.value|))), BODY, Str(body.value)))
  }

  /** The JSON object of an event, or None when serialization fails. */
  ghost function EventMembers(e: Event): (r: Option<seq<Member<Json>>>)
    ensures r.Some? ==> NumberFree(Obj(r.value))
  {
    match HeaderMembers([], e.headers)
    case None => None
    case Some(ms) => BodyMembers(ms, e.body)
  }

  // ----- JSON to event -----

  /**
   A call ends with an event, with ESL_FAIL, or (for a text that is no JSON
   object) with status 0 but no event; texts with numbers or indexed names are
   not part of this model.
   */
  datatype Created = Created(event: Event) | Failed | NoEvent | IndexedName | NumberInText

  /** A JSON string as a C string: up to its first NUL. */
  function CText(s: seq<byte>): cstr {
    if s == [] || s[0] == 0 then [] else [s[0]] + CText(s[1..])
  }

  function FromResult(r: Result): Created {
    if r.ok then Created(r.event) else Failed
  }

  function AddText(e: Event, name: hname, text: cstr): Created {
    if |text| > MAX_JSON then Failed
    else if CiEqual(name, BODY) then FromResult(SetBody(e, text))
    else if CiEqual(name, EVENT_NAME) then
      match NameEvent(text)
      case None => Failed
      case Some(id) => FromResult(AddHeader(Delete(e, EVENT_NAME).(eventId := id), Bottom, name, text))
    else FromResult(AddHeader(e, Bottom, name, text))
  }

  function AddItems(e: Event, name: hname, items: seq<Json>): Created
    decreases |items|
  {
    if items == [] then Created(e)
    else if !items[0].Str? || |CText(items[0].chars)| > MAX_JSON then Failed
    else
      var r := AddHeader(e, Push, name, CText(items[0].chars));
      if r.ok then AddItems(r.event, name, items[1..]) else Failed
  }

  /** One member of the object. A name with an index is not part of this model. */
  function AddMember(e: Event, m: Member<Json>): Created {
    if |m.name| > MAX_NAME then Failed
    else if OPEN_BRACKET in m.name then IndexedName
    else
      match m.value
      case Str(chars) => AddText(e, m.name, CText(chars))
      case Arr(items) => if |items| > MAX_ITEMS then Failed else AddItems(e, m.name, items)
      case _ => Created(e)
  }

  function AddMembers(e: Event, ms: seq<Member<Json>>): Created
    decreases |ms|
  {
    if ms == [] then Created(e)
    else
      match AddMember(e, ms[0])
      case Created(e') => AddMembers(e', ms[1..])
      case failure => failure
  }

  const NEW_EVENT := Event([], None, false, 0)

  /** `esl_event_create_json`. */
  function CreateJson(text: cstr): Created {
    if |text| > MAX_JSON then Failed
    else
      var root := JsonGrammar.ParseText(text);
      if root.NumberMet? then NumberInText
      else if root.Rejected? || !root.value.Obj? then NoEvent
      else if |root.value.members| > MAX_HEADERS then Failed
      else AddMembers(NEW_EVENT, root.value.members)
  }
}
