/**
 Events to JSON and back, on the header list, the hash table and the buffers:
 the functions of EventJson as the program computes them.
 */
module EventJsonStore {
  import opened Bytes
  import opened Members
  import opened EventHeaders
  import opened EventStore
  import opened EventNames
  import opened EventJson
  import Utf8
  import opened JsonValues
  import opened JsonText
  import JsonGrammar
  import JsonParser
  import JsonSerializer
  import opened ObjectTable

  // ----- JSON to event -----

  /** What a caller learns of a `Created`. */
  datatype Status = Success | Failure | Nothing | Index | Number

  function StatusOf(c: Created): Status {
    match c
    case Created(_) => Success
    case Failed => Failure
    case NoEvent => Nothing
    case IndexedName => Index
    case NumberInText => Number
  }

  /** The event is `c`'s, if there is one. */
  ghost predicate Yields(event: EslEvent, status: Status, c: Created)
    reads event, event.spine
  {
    status == StatusOf(c) && (c.Created? ==> event.View() == c.event)
  }

  lemma {:induction false} CTextIsPrefix(chars: seq<byte>, n: nat)
    requires n <= |chars| && 0 !in chars[..n] && (n == |chars| || chars[n] == 0)
    ensures CText(chars) == chars[..n]
  {
    if n > 0 {
      assert chars[0] == chars[..n][0] && chars[1..][..n - 1] == chars[..n][1..];
      CTextIsPrefix(chars[1..], n - 1);
    }
  }

  /** A C string taken from a JSON string. */
  method CTextOf(chars: seq<byte>) returns (text: cstr)
    ensures text == CText(chars)
  {
    var n := 0;
    while n < |chars| && chars[n] != 0
      invariant n <= |chars| && 0 !in chars[..n]
    {
      n := n + 1;
    }
    CTextIsPrefix(chars, n);
    return chars[..n];
  }

  /** The event name: an earlier one is deleted, and the text must name an event type. */
  method AddEventName(event: EslEvent, name: hname, text: cstr) returns (status: Status)
    requires event.Valid() && CiEqual(name, EVENT_NAME) && !CiEqual(name, BODY) && |text| <= MAX_JSON
    modifies event.Repr()
    ensures event.Valid() && fresh(event.Repr() - old(event.Repr()))
    ensures Yields(event, status, AddText(old(event.View()), name, text))
  {
    hide EslEvent.Valid, AddHeader, NameEvent, CiEqual, DeleteVal, BODY, EVENT_NAME;
    event.DelHeaderVal(EVENT_NAME, []);
    var id := FindEventName(text);
    if id.None? { return Failure; }
    event.CopyFields(id.value, event.uniqueHeaders);
    var ok := event.AddHeaderString(Bottom, name, text);
    return if ok then Success else Failure;
  }

  method AddTextTo(event: EslEvent, name: hname, text: cstr) returns (status: Status)
    requires event.Valid()
    modifies event.Repr()
    ensures event.Valid() && fresh(event.Repr() - old(event.Repr()))
    ensures Yields(event, status, AddText(old(event.View()), name, text))
  {
    hide EslEvent.Valid, AddHeader, NameEvent, CiEqual, DeleteVal, BODY, EVENT_NAME;
    if |text| > MAX_JSON { return Failure; }
    var ok: bool;
    if CiEqual(name, BODY) {
      ok := event.SetBody(text);
    } else if CiEqual(name, EVENT_NAME) {
      status := AddEventName(event, name, text);
      return;
    } else {
      ok := event.AddHeaderString(Bottom, name, text);
    }
    return if ok then Success else Failure;
  }

  method AddItemsTo(event: EslEvent, name: hname, items: seq<Json>) returns (status: Status)
    requires event.Valid()
    modifies event.Repr()
    ensures event.Valid() && fresh(event.Repr() - old(event.Repr()))
    ensures Yields(event, status, AddItems(old(event.View()), name, items))
  {
    hide EslEvent.Valid, AddHeader;
    for j := 0 to |items|
      invariant event.Valid() && fresh(event.Repr() - old(event.Repr()))
      invariant AddItems(event.View(), name, items[j..]) == AddItems(old(event.View()), name, items)
    {
      assert items[j..][0] == items[j] && items[j..][1..] == items[j + 1..];
      if !items[j].Str? { return Failure; }
      var element := CTextOf(items[j].chars);
      if |element| > MAX_JSON { return Failure; }
      var ok := event.AddHeaderString(Push, name, element);
      if !ok { return Failure; }
    }
    return Success;
  }

  /** One turn of the member loop. */
  method AddMemberTo(event: EslEvent, m: Member<Json>) returns (status: Status)
    requires event.Valid()
    modifies event.Repr()
    ensures event.Valid() && fresh(event.Repr() - old(event.Repr()))
    ensures Yields(event, status, AddMember(old(event.View()), m))
  {
    hide EslEvent.Valid, AddText, AddItems;
    if |m.name| > MAX_NAME { return Failure; }
    if OPEN_BRACKET in m.name { return Index; }
    match m.value
    case Str(chars) =>
      var text := CTextOf(chars);
      status := AddTextTo(event, m.name, text);
    case Arr(items) =>
      if |items| > MAX_ITEMS { return Failure; }
      status := AddItemsTo(event, m.name, items);
    case _ =>
      status := Success;
  }

  method AddMembersTo(event: EslEvent, ms: seq<Member<Json>>) returns (status: Status)
    requires event.Valid()
    modifies event.Repr()
    ensures event.Valid() && fresh(event.Repr() - old(event.Repr()))
    ensures Yields(event, status, AddMembers(old(event.View()), ms))
  {
    hide EslEvent.Valid, AddMember;
    for i := 0 to |ms|
      invariant event.Valid() && fresh(event.Repr() - old(event.Repr()))
      invariant AddMembers(event.View(), ms[i..]) == AddMembers(old(event.View()), ms)
    {
      assert ms[i..][0] == ms[i] && ms[i..][1..] == ms[i + 1..];
      status := AddMemberTo(event, ms[i]);
      if status != Success { return; }
    }
    return Success;
  }

  /** `esl_event_create_json` */
  method CreateEventJson(json: cstr) returns (status: Status, event: EslEvent)
    ensures event.Valid() && fresh(event.Repr())
    ensures Yields(event, status, CreateJson(json))
  {
    hide EslEvent.Valid, AddMembers, JsonGrammar.ParseText;
    event := new EslEvent();
    if |json| > MAX_JSON { return Failure, event; }
    var root := JsonParser.ParseString(json);
    if root.NumberMet? { return Number, event; }
    if root.Rejected? || !root.value.Obj? { return Nothing, event; }
    if |root.value.members| > MAX_HEADERS { return Failure, event; }
    status := AddMembersTo(event, root.value.members);
  }

  // ----- event to JSON -----

  /** `json_array_append_string` for every item of a header. */
  method ItemsToJson(items: seq<cstr>) returns (r: Option<seq<Json>>)
    ensures r == if forall i :: 0 <= i < |items| ==> |items[i]| <= MAX_JSON && Utf8Text(items[i])
                 then Some(ItemStrings(items)) else None
  {
    var elements: seq<Json> := [];
    for i := 0 to |items|
      invariant elements == ItemStrings(items[..i])
      invariant forall k :: 0 <= k < i ==> |items[k]| <= MAX_JSON && Utf8Text(items[k])
    {
      var valid := Utf8.IsValidUtf8(items[i]);
      if |items[i]| > MAX_JSON || !valid { return None; }
      elements := elements + [Str(items[i])];
    }
    assert items[..|items|] == items;
    return Some(elements);
  }

  /** The JSON value of one header, unless the header is refused. */
  method HeaderToJson(hp: HeaderNode) returns (r: Option<Json>)
    ensures r == if Serializable(hp.View()) then Some(HeaderJson(hp.View())) else None
  {
    if |hp.name| > MAX_NAME { return None; }
    if hp.items != [] {
      var elements := ItemsToJson(hp.items);
      return if elements.None? then None else Some(Arr(elements.value));
    }
    var valid := Utf8.IsValidUtf8(hp.value);
    if |hp.value| > MAX_JSON || !valid { return None; }
    return Some(Str(hp.value));
  }

  /** One turn of the header loop. */
  method HeaderToMember(hp: HeaderNode, table: JsonObject<Json>, ghost members: seq<Member<Json>>) returns (ok: bool)
    requires Roomy(table, members) && |members| < MAX_MEMBERS && hp !in table.Repr()
    modifies table.Repr()
    ensures fresh(table.Repr() - old(table.Repr()))
    ensures ok <==> Serializable(hp.View())
    ensures var ms := Put(members, hp.name, HeaderJson(hp.View()));
            ok ==> Roomy(table, ms) && |ms| <= |members| + 1
  {
    hide Serializable, HeaderJson, Roomy;
    var value := HeaderToJson(hp);
    if value.None? { return false; }
    SetIn(table, members, hp.name, value.value);
    return true;
  }

  /** The same for the node at position `k`; the event stays as it is. */
  method MemberTurn(event: EslEvent, hp: HeaderNode, ghost k: nat, table: JsonObject<Json>,
                    ghost members: seq<Member<Json>>)
    returns (ok: bool, next: HeaderNode?)
    requires event.Valid() && hp == event.NodeAt(k)
    requires Roomy(table, members) && |members| < MAX_MEMBERS && event.Repr() !! table.Repr()
    modifies table.Repr()
    ensures fresh(table.Repr() - old(table.Repr())) && event.Repr() !! table.Repr()
    ensures event.Valid() && event.Headers() == old(event.Headers()) && k < |event.Headers()|
    ensures ok <==> Serializable(event.Headers()[k])
    ensures var h := event.Headers()[k];
            ok ==> Roomy(table, Put(members, h.name, HeaderJson(h)))
                   && |Put(members, h.name, HeaderJson(h))| <= |members| + 1
    ensures next == event.NodeAt(k + 1)
  {
    hide EslEvent.Valid, Serializable, HeaderJson, Roomy;
    event.NodeFacts(k);
    next := hp.next;
    ok := HeaderToMember(hp, table, members);
  }

  lemma NextMember(ms: seq<Member<Json>>, hs: seq<Header>, k: nat)
    requires k < |hs|
    ensures HeaderMembers(ms, hs[k..]) ==
            if Serializable(hs[k]) then HeaderMembers(Put(ms, hs[k].name, HeaderJson(hs[k])), hs[k + 1..]) else None
  {
    assert hs[k..][1..] == hs[k + 1..];
  }

  lemma NoMoreMembers(ms: seq<Member<Json>>, hs: seq<Header>)
    requires hs == []
    ensures HeaderMembers(ms, hs) == Some(ms)
  {
  }

  method FillTable(event: EslEvent, table: JsonObject<Json>) returns (ok: bool)
    requires event.Valid() && |event.spine| < MAX_MEMBERS && Roomy(table, []) && event.Repr() !! table.Repr()
    modifies table.Repr()
    ensures fresh(table.Repr() - old(table.Repr()))
    ensures event.Headers() == old(event.Headers()) && |event.spine| == old(|event.spine|)
    ensures var r := HeaderMembers([], event.Headers());
            ok == r.Some? && (ok ==> Roomy(table, r.value) && |r.value| <= |event.spine|)
  {
    hide EslEvent.Valid, EslEvent.NodeAt, EslEvent.Headers, Serializable, HeaderJson, Roomy, Put, HeaderMembers;
    event.NodeFacts(0);
    var hp := event.headers;
    ghost var k: nat, hs := 0, event.Headers();
    ghost var members: seq<Member<Json>> := [];
    assert hs[0..] == hs;
    while hp != null
      invariant event.Valid() && event.Headers() == hs && k <= |hs| && hp == event.NodeAt(k)
      invariant fresh(table.Repr() - old(table.Repr())) && event.Repr() !! table.Repr()
      invariant Roomy(table, members) && |members| <= k
      invariant HeaderMembers(members, hs[k..]) == HeaderMembers([], hs)
      decreases |hs| - k
    {
      event.NodeFacts(k);
      NextMember(members, hs, k);
      ok, hp := MemberTurn(event, hp, k, table, members);
      if !ok { return; }
      members, k := Put(members, hs[k].name, HeaderJson(hs[k])), k + 1;
    }
    event.NodeFacts(k);
    NoMoreMembers(members, hs[k..]);
    ok := true;
  }

  /** The new object and the header loop. */
  method HeadersToMembers(event: EslEvent) returns (ok: bool, table: JsonObject<Json>)
    requires event.Valid() && |event.spine| < MAX_MEMBERS
    ensures fresh(table.Repr())
    ensures var r := HeaderMembers([], event.Headers());
            ok == r.Some? && (ok ==> Roomy(table, r.value) && |r.value| <= |event.spine|)
  {
    hide EslEvent.Valid, Roomy;
    table := NewTable<Json>();
    ok := FillTable(event, table);
  }

  lemma PutGrowsByOne(ms: seq<Member<Json>>, name: cstr, value: Json)
    ensures |Put(ms, name, value)| <= |ms| + 1
  {
  }

  /** The two members for the body. */
  method BodyToMembers(body: Option<cstr>, table: JsonObject<Json>, ghost members: seq<Member<Json>>) returns (ok: bool)
    requires Roomy(table, members) && |members| + 1 < MAX_MEMBERS
    modifies table.Repr()
    ensures fresh(table.Repr() - old(table.Repr()))
    ensures var r := BodyMembers(members, body); ok == r.Some? && (ok ==> Roomy(table, r.value))
  {
    hide Roomy, Put;
    if body.None? { return true; }
    var blen := |body.value|;
    if blen > MAX_BODY { return false; }
    PutGrowsByOne(members, CONTENT_LENGTH, Str(Decimal(blen)));
    SetIn(table, members, CONTENT_LENGTH, Str(Decimal(blen)));
    var valid := Utf8.IsValidUtf8(body.value);
    if !valid { return false; }
    SetIn(table, Put(members, CONTENT_LENGTH, Str(Decimal(blen))), BODY, Str(body.value));
    return true;
  }

  /** The JSON object of the event, built in a hash table. */
  method EventToMembers(event: EslEvent) returns (ok: bool, ms: seq<Member<Json>>)
    requires event.Valid() && |event.spine| + 1 < MAX_MEMBERS
    ensures var r := EventMembers(event.View()); ok == r.Some? && (ok ==> ms == r.value)
  {
    hide EslEvent.Valid, Roomy, HeaderMembers, BodyMembers, NumberFree, JsonObject<Json>.Stores;
    ms := [];
    var table: JsonObject<Json>;
    ok, table := HeadersToMembers(event);
    if !ok { return; }
    ghost var members := HeaderMembers([], event.Headers()).value;
    ok := BodyToMembers(event.body, table, members);
    if !ok { return; }
    ghost var all := BodyMembers(members, event.body).value;
    ms := MembersIn(table, all);
  }

  /** `esl_event_serialize_json`, for output that fits in an `int`. */
  method SerializeEventJson(event: EslEvent, slashes: bool) returns (ok: bool, str: array<byte>)
    requires event.Valid() && |event.spine| + 1 < MAX_MEMBERS
    requires var r := EventMembers(event.View());
             r.Some? ==> |Printed(Obj(r.value), slashes)| <= INT_MAX
    ensures ok <==> EventMembers(event.View()).Some?
    ensures ok ==> str[..] == Printed(Obj(EventMembers(event.View()).value), slashes) + [0]
  {
    hide EslEvent.Valid, EventMembers, ValueText, NumberFree;
    var ms: seq<Member<Json>>;
    str := new byte[0];
    ok, ms := EventToMembers(event);
    if ok { str := JsonSerializer.SerializeToString(Obj(ms), Style(true, slashes)); }
  }
}
