/** The event JSON round trip: exactly which events come back as they were. */
module EventJsonRoundTrip {
  import opened Bytes
  import opened Members
  import opened ArrayText
  import opened EventHeaders
  import opened EventDup
  import opened EventNames
  import opened EventJson
  import opened JsonValues
  import opened JsonText
  import JsonGrammar
  import JsonRoundTrip
  import JsonStrings
  import Utf8

  /** Header `i` gets a JSON member of its own, one that is not taken for the body or its length. */
  ghost predicate OwnMember(hs: seq<Header>, i: nat, hasBody: bool)
    requires i < |hs|
  {
    && (forall j :: 0 <= j < i ==> hs[j].name != hs[i].name)
    && (hs[i].items == [] ==> !CiEqual(hs[i].name, BODY))
    && (hasBody ==> hs[i].name != CONTENT_LENGTH)
  }

  /** Header `i` can be read back: few items, and an event name that is known and the first one. */
  ghost predicate ReadsBack(hs: seq<Header>, i: nat)
    requires i < |hs|
  {
    && |hs[i].items| <= MAX_ITEMS
    && (hs[i].items == [] && CiEqual(hs[i].name, EVENT_NAME) ==>
          NameEvent(hs[i].value).Some? && !HasHeader(hs[..i], EVENT_NAME))
  }

  ghost function BodyTail(body: Option<cstr>): seq<Member<Json>> {
    if body.None? then []
    else [Member(CONTENT_LENGTH, Str(Decimal(|body.value|))), Member(BODY, Str(body.value))]
  }

  /** The events that survive: see `EventJsonRoundTrip`. */
  ghost predicate Portable(e: Event) {
    && |e.headers| + |BodyTail(e.body)| <= MAX_HEADERS
    && forall i :: 0 <= i < |e.headers| ==> OwnMember(e.headers, i, e.body.Some?) && ReadsBack(e.headers, i)
  }

  ghost function MemberOf(h: Header): Member<Json> {
    Member(h.name, HeaderJson(h))
  }

  ghost function MembersOf(hs: seq<Header>): (ms: seq<Member<Json>>)
    ensures |ms| == |hs| && forall i :: 0 <= i < |hs| ==> ms[i] == MemberOf(hs[i])
  {
    seq(|hs|, i requires 0 <= i < |hs| => MemberOf(hs[i]))
  }

  /** With distinct names every header becomes a member of its own. */
  lemma {:induction false} HeadersBecomeMembers(all: seq<Header>, i: nat, hasBody: bool)
    requires i <= |all| && forall k :: i <= k < |all| ==> OwnMember(all, k, hasBody)
    requires HeaderMembers(MembersOf(all[..i]), all[i..]).Some?
    ensures HeaderMembers(MembersOf(all[..i]), all[i..]) == Some(MembersOf(all))
    decreases |all| - i
  {
    hide Serializable, HeaderJson, CiEqual;
    if i == |all| {
      assert all[..i] == all;
    } else {
      var ms, h := MembersOf(all[..i]), all[i];
      assert all[i..][0] == h && all[i..][1..] == all[i + 1..];
      assert OwnMember(all, i, hasBody);
      assert forall k :: 0 <= k < i ==> ms[k].name == all[k].name;
      assert Put(ms, h.name, HeaderJson(h)) == ms + [MemberOf(h)];
      assert ms + [MemberOf(h)] == MembersOf(all[..i + 1]);
      HeadersBecomeMembers(all, i + 1, hasBody);
    }
  }

  lemma {:induction false} CTextOfCString(s: cstr)
    ensures CText(s) == s
  {
    if s != [] { CTextOfCString(s[1..]); }
  }

  lemma {:induction false} AddItemsIsAddPieces(e: Event, name: hname, items: seq<cstr>, limit: nat)
    requires forall i :: 0 <= i < |items| ==> |items[i]| < limit && |items[i]| <= MAX_JSON
    ensures AddItems(e, name, ItemStrings(items)) == FromResult(AddPieces(e, name, items, limit))
    decreases |items|
  {
    if items != [] {
      CTextOfCString(items[0]);
      assert ItemStrings(items)[1..] == ItemStrings(items[1..]);
      var r := AddHeader(e, Push, name, items[0]);
      if r.ok { AddItemsIsAddPieces(r.event, name, items[1..], limit); }
    }
  }

  lemma ItemsBecomeHeader(e: Event, h: Header)
    requires SoundHeader(h) && h.items != [] && Serializable(h) && !HasHeader(e.headers, h.name)
    ensures AddItems(e, h.name, ItemStrings(h.items)) == Created(e.(headers := e.headers + [h]))
  {
    var limit := LongestItem(h.items) + 1;
    PushedItemsRebuild(e, h.name, h.items, limit);
    AddItemsIsAddPieces(e, h.name, h.items, limit);
  }

  /** Reading the member of a header back appends the header. */
  lemma MemberBecomesHeader(e: Event, h: Header)
    requires SoundHeader(h) && Serializable(h) && |h.items| <= MAX_ITEMS && !e.uniqueHeaders
    requires h.items != [] ==> !HasHeader(e.headers, h.name)
    requires h.items == [] ==> !CiEqual(h.name, BODY)
    requires h.items == [] && CiEqual(h.name, EVENT_NAME) ==>
               NameEvent(h.value).Some? && !HasHeader(e.headers, EVENT_NAME)
    ensures AddMember(e, MemberOf(h)).Created?
    ensures var e' := AddMember(e, MemberOf(h)).event;
            e'.headers == e.headers + [h] && e'.body == e.body && !e'.uniqueHeaders
  {
    hide NameEvent;
    if h.items != [] {
      ItemsBecomeHeader(e, h);
    } else {
      CTextOfCString(h.value);
      if CiEqual(h.name, EVENT_NAME) { DeleteAbsent(e.headers, EVENT_NAME, []); }
    }
  }

  lemma FirstOfMembers(all: seq<Header>, i: nat, tail: seq<Member<Json>>)
    requires i < |all|
    ensures var ms := MembersOf(all[i..]) + tail;
            ms != [] && ms[0] == MemberOf(all[i]) && ms[1..] == MembersOf(all[i + 1..]) + tail
  {
    assert all[i..][0] == all[i];
  }

  lemma HeaderIsNew(all: seq<Header>, i: nat, hasBody: bool)
    requires i < |all| && ArraysFirst(all) && OwnMember(all, i, hasBody) && ReadsBack(all, i)
    ensures var h := all[i];
            && |h.items| <= MAX_ITEMS
            && (h.items != [] ==> !HasHeader(all[..i], h.name))
            && (h.items == [] ==> !CiEqual(h.name, BODY))
            && (h.items == [] && CiEqual(h.name, EVENT_NAME) ==>
                  NameEvent(h.value).Some? && !HasHeader(all[..i], EVENT_NAME))
  {
    forall k | 0 <= k < i && all[i].items != [] ensures !CiEqual(all[..i][k].name, all[i].name) {
    }
  }

  /** Reading back the members of the headers from `i` on. */
  lemma {:induction false} MembersBecomeHeaders(e: Event, all: seq<Header>, i: nat, hasBody: bool,
                                                tail: seq<Member<Json>>)
    returns (e': Event)
    requires i <= |all| && e.headers == all[..i] && !e.uniqueHeaders && ArraysFirst(all)
    requires forall k :: i <= k < |all| ==> OwnMember(all, k, hasBody) && ReadsBack(all, k)
    requires forall k :: i <= k < |all| ==> SoundHeader(all[k]) && Serializable(all[k])
    ensures e'.headers == all && e'.body == e.body && !e'.uniqueHeaders
    ensures AddMembers(e, MembersOf(all[i..]) + tail) == AddMembers(e', tail)
    decreases |all| - i
  {
    hide AddMember, MemberOf, SoundHeader, Serializable, OwnMember, ReadsBack, ArraysFirst, CiEqual, FindHeader;
    if i == |all| {
      e' := e;
      assert all[..i] == all;
      assert MembersOf(all[i..]) + tail == tail;
    } else {
      HeaderIsNew(all, i, hasBody);
      MemberBecomesHeader(e, all[i]);
      var next := AddMember(e, MemberOf(all[i])).event;
      assert next.headers == all[..i + 1];
      e' := MembersBecomeHeaders(next, all, i + 1, hasBody, tail);
      FirstOfMembers(all, i, tail);
    }
  }

  /** The header that stands for the length of a body. */
  function LengthHeader(body: cstr): Header {
    Header(CONTENT_LENGTH, Decimal(|body|), [])
  }

  function LengthHeaders(body: Option<cstr>): seq<Header> {
    if body.None? then [] else [LengthHeader(body.value)]
  }

  lemma AddTwo(e: Event, e1: Event, e2: Event, m1: Member<Json>, m2: Member<Json>)
    requires AddMember(e, m1) == Created(e1) && AddMember(e1, m2) == Created(e2)
    ensures AddMembers(e, [m1, m2]) == Created(e2)
  {
    hide AddMember;
    assert [m1, m2][1..] == [m2] && [m2][1..] == [];
    assert AddMembers(e1, [m2]) == Created(e2);
  }

  /** A text member with an ordinary name and a plain text becomes a header. */
  lemma PlainMember(e: Event, name: hname, text: cstr)
    requires !e.uniqueHeaders && Plain(text) && |text| <= MAX_JSON && |name| <= MAX_NAME
    requires name != Text(BODY_NAME) && !CiEqual(name, BODY) && !CiEqual(name, EVENT_NAME)
    ensures AddMember(e, Member(name, Str(text))) == Created(e.(headers := e.headers + [Header(name, text, [])]))
  {
    hide CiEqual, Plain, NameEvent, AddHeader, CText, Text;
    CTextOfCString(text);
    AddPlain(e, name, text);
  }

  lemma DigitsArePlain(d: cstr)
    requires d != [] && forall i :: 0 <= i < |d| ==> 0x30 <= d[i] <= 0x39
    ensures Plain(d)
  {
    NoMarkerWithoutItsFirst(d);
  }

  lemma {:induction false} DigitsAreFew(n: nat)
    ensures |Decimal(n)| <= Max(1, n)
  {
    if n >= 10 { DigitsAreFew(n / 10); }
  }

  lemma LengthIsPlain(n: nat)
    requires n <= MAX_BODY
    ensures Plain(Decimal(n)) && |Decimal(n)| <= MAX_JSON
  {
    hide Plain, Decimal;
    DigitsArePlain(Decimal(n));
    DigitsAreFew(n);
  }

  lemma BodyIsNoHeader()
    ensures !CiEqual(CONTENT_LENGTH, BODY) && !CiEqual(CONTENT_LENGTH, EVENT_NAME) && CiEqual(BODY, BODY)
    ensures CONTENT_LENGTH != Text(BODY_NAME) && |CONTENT_LENGTH| == 14 && |BODY| == 5
  {
    assert |CONTENT_LENGTH| == 14 && |BODY| == 5 && |EVENT_NAME| == 10 && |Text(BODY_NAME)| == 5;
  }

  lemma LengthBecomesHeader(e: Event, body: cstr)
    requires !e.uniqueHeaders && |body| <= MAX_BODY
    ensures AddMember(e, Member(CONTENT_LENGTH, Str(Decimal(|body|)))) ==
            Created(e.(headers := e.headers + [LengthHeader(body)]))
  {
    hide CiEqual, Plain, Decimal, AddMember, Text, CONTENT_LENGTH, BODY, EVENT_NAME;
    LengthIsPlain(|body|);
    BodyIsNoHeader();
    PlainMember(e, CONTENT_LENGTH, Decimal(|body|));
  }

  lemma BodyBecomesBody(e: Event, body: cstr)
    requires |body| <= MAX_BODY
    ensures AddMember(e, Member(BODY, Str(body))) == Created(e.(body := Some(body)))
  {
    CTextOfCString(body);
    BodyIsNoHeader();
  }

  /** The two members for the body bring the body back, and one header more. */
  lemma TailBecomesBody(e: Event, body: Option<cstr>)
    requires !e.uniqueHeaders && (body.Some? ==> |body.value| <= MAX_BODY)
    ensures AddMembers(e, BodyTail(body)).Created?
    ensures var e' := AddMembers(e, BodyTail(body)).event;
            e'.headers == e.headers + LengthHeaders(body) && e'.body == if body.None? then e.body else body
  {
    hide AddMember, HasHeader;
    if body.Some? {
      var e1 := e.(headers := e.headers + [LengthHeader(body.value)]);
      LengthBecomesHeader(e, body.value);
      BodyBecomesBody(e1, body.value);
      AddTwo(e, e1, e1.(body := body), BodyTail(body)[0], BodyTail(body)[1]);
    } else {
      assert e.headers + [] == e.headers;
    }
  }

  lemma {:induction false} ShallowMembers(ms: seq<Member<Json>>)
    requires forall i :: 0 <= i < |ms| ==> Height(ms[i].value) <= 1
    ensures HeightOfMembers(ms) <= 1
  {
    if ms != [] { ShallowMembers(ms[1..]); }
  }

  // ----- the object of an event -----

  /** What the members of an event's object have in common. */
  ghost predicate Fit(ms: seq<Member<Json>>) {
    Distinct(ms) && forall i :: 0 <= i < |ms| ==> WellFormed(ms[i].value) && Height(ms[i].value) <= 1
  }

  lemma PutKeepsFit(ms: seq<Member<Json>>, name: cstr, v: Json)
    requires Fit(ms) && WellFormed(v) && Height(v) <= 1
    ensures Fit(Put(ms, name, v))
  {
    PutIsMapUpdate(ms, name, v);
  }

  lemma {:induction false} HeaderMembersAreFit(ms: seq<Member<Json>>, hs: seq<Header>)
    requires Fit(ms) && HeaderMembers(ms, hs).Some?
    ensures Fit(HeaderMembers(ms, hs).value)
    ensures forall k :: 0 <= k < |hs| ==> Serializable(hs[k])
    decreases |hs|
  {
    hide Fit, Serializable, Put, HeaderJson;
    if hs != [] {
      PutKeepsFit(ms, hs[0].name, HeaderJson(hs[0]));
      HeaderMembersAreFit(Put(ms, hs[0].name, HeaderJson(hs[0])), hs[1..]);
    }
  }

  lemma EventMembersAreFit(e: Event)
    requires EventMembers(e).Some?
    ensures var v := Obj(EventMembers(e).value); WellFormed(v) && NumberFree(v) && Height(v) <= 2
    ensures forall k :: 0 <= k < |e.headers| ==> Serializable(e.headers[k])
    ensures e.body.Some? ==> |e.body.value| <= MAX_BODY
  {
    hide Serializable, Put, HeaderMembers;
    HeaderMembersAreFit([], e.headers);
    var ms := HeaderMembers([], e.headers).value;
    if e.body.Some? {
      PutKeepsFit(ms, CONTENT_LENGTH, Str(Decimal(|e.body.value|)));
      PutKeepsFit(Put(ms, CONTENT_LENGTH, Str(Decimal(|e.body.value|))), BODY, Str(e.body.value));
    }
    ShallowMembers(EventMembers(e).value);
  }

  lemma BodyNameIsBody()
    ensures BODY == Text(BODY_NAME)
  {
    assert |BODY| == |Text(BODY_NAME)| == 5;
  }

  lemma BodyMembersAreLast(e: Event)
    requires Sound(e) && (e.body.Some? ==> BodyMembers(MembersOf(e.headers), e.body).Some?)
    requires forall i :: 0 <= i < |e.headers| ==> OwnMember(e.headers, i, e.body.Some?)
    ensures BodyMembers(MembersOf(e.headers), e.body) == Some(MembersOf(e.headers) + BodyTail(e.body))
  {
    hide HeaderJson, CiEqual, Utf8Text, CONTENT_LENGTH, BODY, Decimal;
    var ms := MembersOf(e.headers);
    if e.body.Some? {
      BodyIsNoHeader();
      BodyNameIsBody();
      forall k | 0 <= k < |ms| ensures ms[k].name != CONTENT_LENGTH && ms[k].name != BODY {
        assert OwnMember(e.headers, k, true) && SoundHeader(e.headers[k]);
      }
      var one := ms + [BodyTail(e.body)[0]];
      assert Put(ms, CONTENT_LENGTH, Str(Decimal(|e.body.value|))) == one;
      assert Put(one, BODY, Str(e.body.value)) == one + [BodyTail(e.body)[1]];
      assert one + [BodyTail(e.body)[1]] == ms + BodyTail(e.body);
    } else {
      assert ms + [] == ms;
    }
  }

  /** The object of a portable event: one member for each header, then the body. */
  lemma EventBecomesMembers(e: Event)
    requires EventMembers(e).Some? && Sound(e)
    requires forall i :: 0 <= i < |e.headers| ==> OwnMember(e.headers, i, e.body.Some?)
    ensures EventMembers(e) == Some(MembersOf(e.headers) + BodyTail(e.body))
  {
    hide Serializable, HeaderJson, HeaderMembers, CiEqual;
    assert e.headers[..0] == [] && MembersOf([]) == [] && e.headers[0..] == e.headers;
    HeadersBecomeMembers(e.headers, 0, e.body.Some?);
    BodyMembersAreLast(e);
  }

  /** The created event has the headers of `e`, one more for the length of a body, and the body. */
  ghost predicate Returns(e: Event, c: Created) {
    c.Created? && c.event.headers == e.headers + LengthHeaders(e.body) && c.event.body == e.body
  }

  /** A portable event comes back. */
  lemma PortableReturns(e: Event)
    requires Sound(e) && Portable(e) && EventMembers(e).Some?
    ensures Returns(e, AddMembers(NEW_EVENT, EventMembers(e).value))
    ensures |EventMembers(e).value| <= MAX_HEADERS
  {
    hide HeaderJson, EventMembers, AddMembers, SoundHeader, OwnMember, ReadsBack, Serializable, ArraysFirst;
    EventBecomesMembers(e);
    EventMembersAreFit(e);
    assert e.headers[..0] == [] && e.headers[0..] == e.headers;
    var e' := MembersBecomeHeaders(NEW_EVENT, e.headers, 0, e.body.Some?, BodyTail(e.body));
    TailBecomesBody(e', e.body);
  }

  // ----- counting: every member makes at most one header -----

  lemma {:induction false} DeleteShrinks(hs: seq<Header>, name: hname)
    ensures |DeleteVal(hs, name, [])| <= |hs|
    ensures HasHeader(hs, name) ==> |DeleteVal(hs, name, [])| < |hs|
  {
    if hs != [] {
      DeleteShrinks(hs[1..], name);
      if !CiEqual(hs[0].name, name) && HasHeader(hs, name) {
        assert FindHeader(hs, name) == 1 + FindHeader(hs[1..], name);
      }
    }
  }

  /** The headers of an event apart from the first one called `name`. */
  function Others(e: Event, name: hname): nat {
    |e.headers| - if HasHeader(e.headers, name) then 1 else 0
  }

  lemma SameNamesSamePlace(hs: seq<Header>, ix: nat, h: Header, name: hname)
    requires ix < |hs| && h.name == hs[ix].name
    ensures FindHeader(hs[ix := h], name) == FindHeader(hs, name)
  {
    var a, b := FindHeader(hs, name), FindHeader(hs[ix := h], name);
    assert a < |hs| ==> hs[ix := h][a].name == hs[a].name;
    assert b < |hs| ==> hs[ix := h][b].name == hs[b].name;
  }

  lemma {:induction false} PushGrows(e: Event, name: hname, x: cstr)
    ensures Others(AddHeader(e, Push, name, x).event, name) <= Others(e, name)
    decreases |x|, 2, 0
  {
    hide DeleteVal, Contains, AddArray;
    var ix := FindHeader(e.headers, name);
    if name != Text(BODY_NAME) {
      if ix < |e.headers| {
        SameNamesSamePlace(e.headers, ix, Pushed(e.headers[ix], x), name);
      } else {
        DeleteAbsent(e.headers, name, []);
        if x != [] && Contains(x, MARKER) {
          ArrayGrows(e, name, x);
        } else if x != [] {
          FoundLast(e.headers, NewHeader(Push, name, x));
        }
      }
    }
  }

  lemma {:induction false} ArrayGrows(e: Event, name: hname, val: cstr)
    ensures Others(AddArray(e, name, val).event, name) <= Others(e, name)
    decreases |val|, 1, 0
  {
    hide Separators, Separate;
    if |val| >= 8 && Separators(val[7..]) < UINT_MAX {
      PiecesAreShorter(val);
      PiecesGrow(e, name, Separate(val[7..], Separators(val[7..]) + 1), |val|);
    }
  }

  lemma {:induction false} PiecesGrow(e: Event, name: hname, pieces: seq<cstr>, limit: nat)
    requires forall i :: 0 <= i < |pieces| ==> |pieces[i]| < limit
    ensures Others(AddPieces(e, name, pieces, limit).event, name) <= Others(e, name)
    decreases limit, 0, |pieces|
  {
    hide AddHeader, Others;
    if pieces != [] {
      PushGrows(e, name, pieces[0]);
      var r := AddHeader(e, Push, name, pieces[0]);
      if r.ok { PiecesGrow(r.event, name, pieces[1..], limit); }
    }
  }

  lemma AddGrowsByOne(e: Event, name: hname, data: cstr)
    ensures |AddHeader(e, Bottom, name, data).event.headers| <= |e.headers| + 1
  {
    hide DeleteVal, Contains, AddArray;
    DeleteShrinks(e.headers, name);
    var e' := if e.uniqueHeaders then Delete(e, name) else e;
    ArrayGrows(e', name, data);
  }

  /** A text member called `_body` makes none. */
  ghost function Weight(m: Member<Json>): nat {
    if m.value.Str? && CiEqual(m.name, BODY) then 0 else 1
  }

  ghost function Weights(ms: seq<Member<Json>>): (w: nat)
    ensures w <= |ms|
  {
    if ms == [] then 0 else Weight(ms[0]) + Weights(ms[1..])
  }

  lemma {:induction false} ItemsGrow(e: Event, name: hname, items: seq<Json>)
    requires AddItems(e, name, items).Created?
    ensures Others(AddItems(e, name, items).event, name) <= Others(e, name)
    decreases |items|
  {
    hide AddHeader, Others, CText;
    if items != [] {
      PushGrows(e, name, CText(items[0].chars));
      ItemsGrow(AddHeader(e, Push, name, CText(items[0].chars)).event, name, items[1..]);
    }
  }

  lemma TextGrows(e: Event, name: hname, text: cstr)
    requires AddText(e, name, text).Created?
    ensures var n := |AddText(e, name, text).event.headers|;
            && n <= |e.headers| + (if CiEqual(name, BODY) then 0 else 1)
            && (!CiEqual(name, BODY) && CiEqual(name, EVENT_NAME) && HasHeader(e.headers, EVENT_NAME) ==>
                  n <= |e.headers|)
  {
    hide AddHeader, NameEvent, CiEqual, FindHeader, DeleteVal;
    DeleteShrinks(e.headers, EVENT_NAME);
    if CiEqual(name, EVENT_NAME) && NameEvent(text).Some? {
      AddGrowsByOne(Delete(e, EVENT_NAME).(eventId := NameEvent(text).value), name, text);
    }
    AddGrowsByOne(e, name, text);
  }

  lemma MemberGrows(e: Event, m: Member<Json>)
    requires AddMember(e, m).Created?
    ensures |AddMember(e, m).event.headers| <= |e.headers| + Weight(m)
  {
    hide AddText, AddItems, CiEqual, CText;
    if m.value.Str? && |m.name| <= MAX_NAME && OPEN_BRACKET !in m.name {
      TextGrows(e, m.name, CText(m.value.chars));
    } else if m.value.Arr? && |m.name| <= MAX_NAME && OPEN_BRACKET !in m.name && |m.value.items| <= MAX_ITEMS {
      ItemsGrow(e, m.name, m.value.items);
    }
  }

  lemma {:induction false} MembersGrow(e: Event, ms: seq<Member<Json>>)
    requires AddMembers(e, ms).Created?
    ensures |AddMembers(e, ms).event.headers| <= |e.headers| + Weights(ms)
    decreases |ms|
  {
    hide AddMember, Weight;
    if ms != [] {
      MemberGrows(e, ms[0]);
      MembersGrow(AddMember(e, ms[0]).event, ms[1..]);
    }
  }

  // ----- counting: a header without a member of its own is missing in the end -----

  lemma {:induction false} WeightsAppend(ms: seq<Member<Json>>, more: seq<Member<Json>>)
    ensures Weights(ms + more) == Weights(ms) + Weights(more)
  {
    if ms == [] {
      assert [] + more == more;
    } else {
      assert (ms + more)[1..] == ms[1..] + more;
      WeightsAppend(ms[1..], more);
    }
  }

  lemma WeightsSplit(ms: seq<Member<Json>>, k: nat)
    requires k < |ms|
    ensures Weights(ms) == Weights(ms[..k]) + Weight(ms[k]) + Weights(ms[k + 1..])
  {
    hide Weight;
    WeightsAppend(ms[..k], ms[k..]);
    assert ms == ms[..k] + ms[k..] && ms[k..][0] == ms[k] && ms[k..][1..] == ms[k + 1..];
  }

  lemma PutWeighs(ms: seq<Member<Json>>, m: Member<Json>)
    ensures var ix := IndexOf(ms, m.name);
            Weights(Put(ms, m.name, m.value)) ==
            Weights(ms) + Weight(m) - if ix < |ms| then Weight(ms[ix]) else 0
  {
    hide Weight;
    var ix := IndexOf(ms, m.name);
    if ix < |ms| {
      WeightsSplit(ms, ix);
      var r := ms[ix := m];
      WeightsSplit(r, ix);
      assert r[..ix] == ms[..ix] && r[ix + 1..] == ms[ix + 1..];
    } else {
      WeightsAppend(ms, [m]);
      assert [m][1..] == [];
      assert Weights([m]) == Weight(m);
    }
  }

  /** So far: one member for each header, or fewer that count. */
  ghost predicate SoFar(all: seq<Header>, i: nat, ms: seq<Member<Json>>)
    requires i <= |all|
  {
    (ms == MembersOf(all[..i]) && forall k :: 0 <= k < i ==> OwnMember(all, k, false)) || Weights(ms) < i
  }

  lemma OwnMemberWeighs(all: seq<Header>, k: nat)
    requires k < |all| && OwnMember(all, k, false)
    ensures Weight(MemberOf(all[k])) == 1
  {
  }

  lemma NotOwnWeighsNothing(all: seq<Header>, i: nat, ms: seq<Member<Json>>)
    requires i < |all| && ms == MembersOf(all[..i]) && !Has(ms, all[i].name) && !OwnMember(all, i, false)
    ensures Weight(MemberOf(all[i])) == 0
  {
    assert forall j :: 0 <= j < i ==> ms[j].name == all[j].name;
  }

  lemma NextSoFar(all: seq<Header>, i: nat, ms: seq<Member<Json>>)
    requires i < |all| && SoFar(all, i, ms)
    ensures SoFar(all, i + 1, Put(ms, all[i].name, HeaderJson(all[i])))
  {
    hide HeaderJson, CiEqual, Weights;
    var h := all[i];
    var m := MemberOf(h);
    PutWeighs(ms, m);
    if Weights(ms) >= i {
      var ix := IndexOf(ms, h.name);
      if ix < i {
        assert OwnMember(all, ix, false) && ms[ix] == MemberOf(all[ix]);
        OwnMemberWeighs(all, ix);
      } else if OwnMember(all, i, false) {
        assert ms + [m] == MembersOf(all[..i + 1]);
      } else {
        NotOwnWeighsNothing(all, i, ms);
      }
    }
  }

  lemma {:induction false} HeadersWeigh(all: seq<Header>, i: nat, ms: seq<Member<Json>>)
    requires i <= |all| && SoFar(all, i, ms) && HeaderMembers(ms, all[i..]).Some?
    ensures SoFar(all, |all|, HeaderMembers(ms, all[i..]).value)
    decreases |all| - i
  {
    hide SoFar, Serializable, HeaderJson, Put;
    if i < |all| {
      assert all[i..][1..] == all[i + 1..];
      NextSoFar(all, i, ms);
      HeadersWeigh(all, i + 1, Put(ms, all[i].name, HeaderJson(all[i])));
    }
  }

  lemma MembersOfWeigh(ms: seq<Member<Json>>)
    ensures Weights(ms) <= |ms|
  {
  }

  lemma LengthWeighs(ms: seq<Member<Json>>)
    ensures Has(ms, CONTENT_LENGTH) ==> Weight(ms[IndexOf(ms, CONTENT_LENGTH)]) == 1
  {
    BodyIsNoHeader();
  }

  lemma BodyWeighs(ms: seq<Member<Json>>, body: cstr)
    requires BodyMembers(ms, Some(body)).Some?
    ensures var w := Weights(BodyMembers(ms, Some(body)).value);
            w <= Weights(ms) + if Has(ms, CONTENT_LENGTH) then 0 else 1
  {
    hide Weights, Utf8Text, IndexOf;
    BodyIsNoHeader();
    var length := Member(CONTENT_LENGTH, Str(Decimal(|body|)));
    PutWeighs(ms, length);
    LengthWeighs(ms);
    PutWeighs(Put(ms, length.name, length.value), Member(BODY, Str(body)));
  }

  /** An event with a header that has no member of its own loses a header. */
  lemma NotOwnLoses(e: Event, i: nat)
    requires EventMembers(e).Some? && i < |e.headers| && !OwnMember(e.headers, i, e.body.Some?)
    ensures Weights(EventMembers(e).value) < |e.headers| + |LengthHeaders(e.body)|
  {
    hide Serializable, HeaderJson, Weights, Put, CiEqual, HeaderMembers;
    var all := e.headers;
    assert all[..0] == [] && MembersOf([]) == [] && all[0..] == all;
    HeadersWeigh(all, 0, []);
    var ms := HeaderMembers([], all).value;
    assert all[..|all|] == all;
    if e.body.Some? {
      BodyWeighs(ms, e.body.value);
      if Weights(ms) >= |all| {
        assert OwnMember(all, i, false) && all[i].name == CONTENT_LENGTH && ms[i].name == CONTENT_LENGTH;
        MembersOfWeigh(ms);
        assert IndexOf(ms, CONTENT_LENGTH) <= i;
      }
    } else {
      assert SoFar(all, |all|, ms);
    }
  }

  // ----- what cannot be read back -----

  /** Reading the member of such a header fails, or adds nothing. */
  lemma NotReadBackAddsNothing(e: Event, all: seq<Header>, i: nat)
    requires i < |all| && e.headers == all[..i] && !ReadsBack(all, i) && OwnMember(all, i, false)
    requires AddMember(e, MemberOf(all[i])).Created?
    ensures |AddMember(e, MemberOf(all[i])).event.headers| <= i
  {
    hide AddHeader, NameEvent, CiEqual, FindHeader, AddItems, CText;
    var h := all[i];
    if h.items == [] {
      CTextOfCString(h.value);
      TextGrows(e, h.name, h.value);
    }
  }

  lemma OwnWithoutBody(all: seq<Header>, i: nat, hasBody: bool)
    requires i < |all| && OwnMember(all, i, hasBody)
    ensures OwnMember(all, i, false)
  {
  }

  lemma TailWeighs(body: Option<cstr>)
    ensures Weights(BodyTail(body)) <= |LengthHeaders(body)|
  {
    BodyIsNoHeader();
    if body.Some? {
      assert BodyTail(body)[1..] == [BodyTail(body)[1]] && [BodyTail(body)[1]][1..] == [];
    }
  }

  /** The headers in front of `i` are read back as they were. */
  lemma HeadersBefore(all: seq<Header>, i: nat, hasBody: bool, tail: seq<Member<Json>>) returns (e': Event)
    requires i <= |all| && ArraysFirst(all)
    requires forall k :: 0 <= k < i ==> ReadsBack(all, k)
    requires forall k :: 0 <= k < |all| ==> SoundHeader(all[k]) && OwnMember(all, k, hasBody) && Serializable(all[k])
    ensures e'.headers == all[..i]
    ensures AddMembers(NEW_EVENT, MembersOf(all) + tail) == AddMembers(e', MembersOf(all[i..]) + tail)
  {
    hide AddMembers, MemberOf, SoundHeader, Serializable, CiEqual, FindHeader, NameEvent;
    var front := all[..i];
    forall k | 0 <= k < i ensures OwnMember(front, k, hasBody) && ReadsBack(front, k) {
      assert front[..k] == all[..k];
      assert OwnMember(all, k, hasBody) && ReadsBack(all, k);
    }
    assert front[..0] == [] && front[0..] == front;
    e' := MembersBecomeHeaders(NEW_EVENT, front, 0, hasBody, MembersOf(all[i..]) + tail);
    assert MembersOf(front) + (MembersOf(all[i..]) + tail) == MembersOf(all) + tail;
  }

  /** The first header that cannot be read back makes the event shorter, or the call fail. */
  lemma NotReadBackLoses(e: Event, i: nat)
    requires Sound(e) && i < |e.headers| && !ReadsBack(e.headers, i)
    requires forall k :: 0 <= k < i ==> ReadsBack(e.headers, k)
    requires forall k :: 0 <= k < |e.headers| ==> OwnMember(e.headers, k, e.body.Some?) && Serializable(e.headers[k])
    ensures var c := AddMembers(NEW_EVENT, MembersOf(e.headers) + BodyTail(e.body));
            c.Created? ==> |c.event.headers| < |e.headers| + |LengthHeaders(e.body)|
  {
    hide AddMember, MemberOf, SoundHeader, Serializable, OwnMember, ReadsBack, ArraysFirst, Weight;
    var all, hasBody, tail := e.headers, e.body.Some?, BodyTail(e.body);
    var ms := MembersOf(all) + tail;
    var rest := MembersOf(all[i..]) + tail;
    var e' := HeadersBefore(all, i, hasBody, tail);
    assert AddMembers(NEW_EVENT, ms) == AddMembers(e', rest);
    FirstOfMembers(all, i, tail);
    if AddMembers(e', rest).Created? {
      OwnWithoutBody(all, i, hasBody);
      NotReadBackAddsNothing(e', all, i);
      MembersGrow(AddMember(e', MemberOf(all[i])).event, MembersOf(all[i + 1..]) + tail);
      WeightsAppend(MembersOf(all[i + 1..]), tail);
      TailWeighs(e.body);
    }
  }

  lemma {:induction false} FirstNotReadBack(hs: seq<Header>, n: nat) returns (i: nat)
    requires n <= |hs|
    ensures i <= n && (forall k :: 0 <= k < i ==> ReadsBack(hs, k)) && (i < n ==> !ReadsBack(hs, i))
  {
    hide ReadsBack;
    if n == 0 { return 0; }
    i := FirstNotReadBack(hs, n - 1);
    if i == n - 1 && ReadsBack(hs, i) { return n; }
  }

  /** An event that comes back is portable. */
  lemma ReturnsOnlyIfPortable(e: Event)
    requires Sound(e) && EventMembers(e).Some? && |EventMembers(e).value| <= MAX_HEADERS
    requires Returns(e, AddMembers(NEW_EVENT, EventMembers(e).value))
    ensures Portable(e)
  {
    hide EventMembers, AddMembers, OwnMember, ReadsBack, SoundHeader, Serializable, Weights, ArraysFirst;
    MembersGrow(NEW_EVENT, EventMembers(e).value);
    forall i | 0 <= i < |e.headers| ensures OwnMember(e.headers, i, e.body.Some?) {
      if !OwnMember(e.headers, i, e.body.Some?) { NotOwnLoses(e, i); }
    }
    EventBecomesMembers(e);
    EventMembersAreFit(e);
    var i := FirstNotReadBack(e.headers, |e.headers|);
    if i < |e.headers| { NotReadBackLoses(e, i); }
  }

  /**
   The round trip. Take a reachable event that can be serialized. Its JSON text
   creates an event with the same headers (scalars and arrays, in order) and the
   same body, with only a Content-Length header added for a body, exactly when
   the text is within the parser's limit and the event is portable: every header
   has a name of its own that does not stand for the body or its length, the
   event name is a known one and the first, and there are not too many headers
   or items.
   */
  lemma EventJsonRoundTrip(e: Event, slashes: bool)
    requires Sound(e) && EventMembers(e).Some?
    ensures var text := Printed(Obj(EventMembers(e).value), slashes);
            0 !in text && (Returns(e, CreateJson(text)) <==> Portable(e) && |text| <= MAX_JSON)
  {
    hide EventMembers, ValueText, WellFormed, NumberFree, AddMembers, Portable, Sound, Height;
    EventMembersAreFit(e);
    var ms := EventMembers(e).value;
    JsonRoundTrip.TextRoundTrip(Obj(ms), Style(true, slashes));
    var text := Printed(Obj(ms), slashes);
    if |text| <= MAX_JSON {
      assert CreateJson(text) == if |ms| > MAX_HEADERS then Failed else AddMembers(NEW_EVENT, ms);
      if Portable(e) { PortableReturns(e); }
      if Returns(e, CreateJson(text)) { ReturnsOnlyIfPortable(e); }
    }
  }

  // ----- which events have a JSON text -----

  /** A text that JSON takes: at most 16,777,216 bytes of UTF-8. */
  ghost predicate IsJsonText(text: cstr) {
    |text| <= 16_777_216 && Utf8.Utf8Octets(text)
  }

  ghost predicate HasJson(h: Header) {
    && |h.name| <= 1024
    && (h.items == [] ==> IsJsonText(h.value))
    && forall i :: 0 <= i < |h.items| ==> IsJsonText(h.items[i])
  }

  lemma TextIsJsonText(text: cstr)
    ensures IsJsonText(text) <==> |text| <= MAX_JSON && Utf8Text(text)
  {
    hide Utf8.IsValidFrom, Utf8.Utf8Octets;
    Utf8.ValidIsRfc3629(text, 0);
    assert text[0..] == text;
  }

  lemma HeaderHasJson(h: Header)
    ensures Serializable(h) <==> HasJson(h)
  {
    hide IsJsonText, Utf8Text;
    TextIsJsonText(h.value);
    forall i | 0 <= i < |h.items|
      ensures IsJsonText(h.items[i]) <==> |h.items[i]| <= MAX_JSON && Utf8Text(h.items[i])
    {
      TextIsJsonText(h.items[i]);
    }
  }

  lemma {:induction false} HeadersHaveJson(ms: seq<Member<Json>>, hs: seq<Header>)
    ensures HeaderMembers(ms, hs).Some? <==> forall i :: 0 <= i < |hs| ==> HasJson(hs[i])
    decreases |hs|
  {
    hide Serializable, HasJson, HeaderJson, Put, NumberFree;
    if hs != [] {
      HeaderHasJson(hs[0]);
      HeadersHaveJson(Put(ms, hs[0].name, HeaderJson(hs[0])), hs[1..]);
      assert forall i :: 0 <= i < |hs[1..]| ==> hs[1..][i] == hs[i + 1];
      assert HasJson(hs[0]) && (forall i :: 0 <= i < |hs[1..]| ==> HasJson(hs[1..][i])) <==>
             forall i :: 0 <= i < |hs| ==> HasJson(hs[i]) by {
        forall i | 0 < i < |hs| ensures HasJson(hs[i]) <==> HasJson(hs[1..][i - 1]) { }
      }
    }
  }

  /** Serialization is refused exactly for a name that is too long, or a text that is too long or not UTF-8. */
  lemma SerializesIffTextsFit(e: Event)
    ensures EventMembers(e).Some? <==>
            (forall i :: 0 <= i < |e.headers| ==> HasJson(e.headers[i])) && (e.body.Some? ==> IsJsonText(e.body.value))
  {
    hide HeaderMembers, HasJson, IsJsonText, Utf8Text;
    HeadersHaveJson([], e.headers);
    if e.body.Some? { TextIsJsonText(e.body.value); }
  }

  // ----- two headers of one name -----

  const X: cstr := [0x78]

  /** `x` twice, with value `x`. */
  function TwiceX(): seq<Action> {
    [ActAdd(Bottom, X, X), ActAdd(Bottom, X, X)]
  }

  lemma XIsUtf8()
    ensures Utf8Text(X)
  {
    assert Utf8.VerifySequence(X, 0) == Some(Utf8.Decoded(0x78, 1));
  }

  lemma TwiceXEvent()
    ensures Reached(TwiceX()) == Event([Header(X, X, []), Header(X, X, [])], None, false, 0)
    ensures EventMembers(Reached(TwiceX())) == Some([Member(X, Str(X))])
  {
    hide Reached, AddHeader, Contains;
    NoMarkerWithoutItsFirst(X);
    assert |X| != |Text(BODY_NAME)|;
    TwoScalars(X, X, X);
    var hs := [Header(X, X, []), Header(X, X, [])];
    XIsUtf8();
    var ms := [Member(X, Str(X))];
    assert hs[1..] == [hs[0]] && hs[1..][1..] == [];
    assert Put([], X, Str(X)) == ms;
    assert Put(ms, X, Str(X)) == ms;
    assert HeaderMembers(ms, hs[1..]) == HeaderMembers(ms, hs[1..][1..]);
    assert HeaderMembers([], hs) == HeaderMembers(ms, hs[1..]);
  }

  /** Two headers of one name come back as one. */
  lemma RepeatedNameDoesNotReturn(slashes: bool)
    ensures var e := Reached(TwiceX());
            && EventMembers(e).Some?
            && var text := Printed(Obj(EventMembers(e).value), slashes);
               0 !in text && !Returns(e, CreateJson(text))
  {
    hide Reached, TwiceX, Printed, EventMembers, Returns, CreateJson, NumberFree, Sound;
    TwiceXEvent();
    var e := Reached(TwiceX());
    ReachableIsSound(TwiceX());
    assert e.headers[0].name == e.headers[1].name && !OwnMember(e.headers, 1, e.body.Some?);
    assert !Portable(e);
    EventJsonRoundTrip(e, slashes);
  }

  // ----- a body of the largest size -----

  function FullBody(): seq<Action> {
    [ActSetBody(Letters(MAX_BODY))]
  }

  lemma {:induction false} LettersAreUtf8(n: nat, i: nat)
    requires i <= n
    ensures Utf8.IsValidFrom(Letters(n), i)
    decreases n - i
  {
    if i < n {
      assert Utf8.VerifySequence(Letters(n), i) == Some(Utf8.Decoded(LETTER, 1));
      LettersAreUtf8(n, i + 1);
    }
  }

  lemma FullBodyEvent()
    ensures var e := Reached(FullBody());
            && e == Event([], Some(Letters(MAX_BODY)), false, 0) && Portable(e)
            && EventMembers(e) == Some(BodyTail(e.body))
  {
    hide Letters, Utf8.IsValidFrom, Decimal, OwnMember, ReadsBack;
    ReachedNothing();
    ReachedStep([], FullBody()[0]);
    assert [] + FullBody() == FullBody();
    LettersAreUtf8(MAX_BODY, 0);
    var length := Member(CONTENT_LENGTH, Str(Decimal(MAX_BODY)));
    assert Put([], CONTENT_LENGTH, length.value) == [length];
    assert Put([length], BODY, Str(Letters(MAX_BODY))) == BodyTail(Some(Letters(MAX_BODY)));
  }

  lemma {:induction false} EscapedIsNotShorter(t: seq<byte>, slashes: bool)
    ensures |JsonStrings.EscapeAll(t, slashes)| >= |t|
  {
    hide JsonStrings.EscapeByte;
    if t != [] { EscapedIsNotShorter(t[1..], slashes); }
  }

  /** The second member of an object is printed in full. */
  lemma SecondMemberIsPrinted(ms: seq<Member<Json>>, t: seq<byte>, slashes: bool)
    requires |ms| == 2 && NumberFree(Obj(ms)) && ms[1].value == Str(t)
    ensures |Printed(Obj(ms), slashes)| > |t|
  {
    hide JsonStrings.EscapeAll;
    var style := Style(true, slashes);
    EscapedIsNotShorter(t, slashes);
    assert |MemberText(ms[1], 0, style, false)| > |t|;
    var rest := ms[1..];
    assert rest[0] == ms[1] && rest[1..] == [];
    assert MembersText(rest, 0, style) == MemberText(ms[1], 0, style, false) + MembersText(rest[1..], 0, style);
    assert MembersText(ms, 0, style) == MemberText(ms[0], 0, style, true) + MembersText(rest, 0, style);
  }

  /** A body of the largest size is accepted and serialized, to a text that is refused. */
  lemma FullBodyDoesNotReturn(slashes: bool)
    ensures var e := Reached(FullBody());
            && Portable(e) && EventMembers(e).Some?
            && var text := Printed(Obj(EventMembers(e).value), slashes);
               0 !in text && CreateJson(text) == Failed && !Returns(e, CreateJson(text))
  {
    hide Reached, FullBody, Letters, Printed, EventMembers, Returns, NumberFree, Sound, Portable, Decimal;
    FullBodyEvent();
    ReachableIsSound(FullBody());
    var e := Reached(FullBody());
    SecondMemberIsPrinted(EventMembers(e).value, Letters(MAX_BODY), slashes);
    EventJsonRoundTrip(e, slashes);
  }

  // ----- members that make nothing, and members that are refused -----

  lemma {:induction false} MembersInTwoParts(e: Event, a: seq<Member<Json>>, b: seq<Member<Json>>)
    ensures AddMembers(e, a + b) == match AddMembers(e, a) case Created(e') => AddMembers(e', b) case failure => failure
    decreases |a|
  {
    hide AddMember;
    if a == [] {
      assert a + b == b;
    } else {
      assert (a + b)[0] == a[0] && (a + b)[1..] == a[1..] + b;
      match AddMember(e, a[0])
      case Created(e') => MembersInTwoParts(e', a[1..], b);
      case _ =>
    }
  }

  lemma IgnoredAlone(e: Event, m: Member<Json>)
    requires !m.value.Str? && !m.value.Arr? && |m.name| <= MAX_NAME && OPEN_BRACKET !in m.name
    ensures AddMembers(e, [m]) == Created(e)
  {
    assert [m][0] == m && [m][1..] == [];
  }

  /** A member that is neither a text nor an array leaves no trace. */
  lemma OtherMembersAreIgnored(e: Event, a: seq<Member<Json>>, m: Member<Json>, b: seq<Member<Json>>)
    requires !m.value.Str? && !m.value.Arr? && |m.name| <= MAX_NAME && OPEN_BRACKET !in m.name
    ensures AddMembers(e, a + [m] + b) == AddMembers(e, a + b)
  {
    hide AddMember;
    MembersInTwoParts(e, a + [m], b);
    MembersInTwoParts(e, a, [m]);
    MembersInTwoParts(e, a, b);
    forall e': Event ensures AddMembers(e', [m]) == Created(e') { IgnoredAlone(e', m); }
  }

  /** A member that an event can be created with. */
  ghost predicate Acceptable(m: Member<Json>) {
    && |m.name| <= 1024 && OPEN_BRACKET !in m.name
    && (m.value.Str? ==> |CText(m.value.chars)| <= 16_777_216)
    && (m.value.Str? && CiEqual(m.name, EVENT_NAME) ==> NameEvent(CText(m.value.chars)).Some?)
    && (m.value.Arr? ==> |m.value.items| <= 4096)
    && (m.value.Arr? ==> forall i :: 0 <= i < |m.value.items| ==>
                           m.value.items[i].Str? && |CText(m.value.items[i].chars)| <= 16_777_216)
  }

  lemma {:induction false} CreatedItemsAreTexts(e: Event, name: hname, items: seq<Json>)
    requires AddItems(e, name, items).Created?
    ensures forall i :: 0 <= i < |items| ==> items[i].Str? && |CText(items[i].chars)| <= MAX_JSON
    decreases |items|
  {
    hide AddHeader, CText;
    if items != [] {
      CreatedItemsAreTexts(AddHeader(e, Push, name, CText(items[0].chars)).event, name, items[1..]);
      forall i | 0 <= i < |items| ensures items[i].Str? && |CText(items[i].chars)| <= MAX_JSON {
        if i > 0 { assert items[i] == items[1..][i - 1]; }
      }
    }
  }

  lemma EventNameIsNoBody(name: cstr)
    ensures !(CiEqual(name, EVENT_NAME) && CiEqual(name, BODY))
  {
  }

  lemma CreatedMemberIsAcceptable(e: Event, m: Member<Json>)
    requires AddMember(e, m).Created?
    ensures Acceptable(m)
  {
    hide AddHeader, CText, NameEvent, DeleteVal, CiEqual, AddItems;
    EventNameIsNoBody(m.name);
    if m.value.Arr? { CreatedItemsAreTexts(e, m.name, m.value.items); }
  }

  /** Nothing is created from an object with any other member. */
  lemma {:induction false} CreatedMembersAreAcceptable(e: Event, ms: seq<Member<Json>>)
    requires AddMembers(e, ms).Created?
    ensures forall i :: 0 <= i < |ms| ==> Acceptable(ms[i])
    decreases |ms|
  {
    hide AddMember, Acceptable;
    if ms != [] {
      CreatedMemberIsAcceptable(e, ms[0]);
      CreatedMembersAreAcceptable(AddMember(e, ms[0]).event, ms[1..]);
      forall i | 0 <= i < |ms| ensures Acceptable(ms[i]) {
        if i > 0 { assert ms[i] == ms[1..][i - 1]; }
      }
    }
  }

  // ----- what creation yields -----

  /** A member that sets the event's type. */
  ghost predicate NamesEvent(m: Member<Json>) {
    m.value.Str? && CiEqual(m.name, EVENT_NAME)
  }

  lemma {:induction false} ItemsKeepId(e: Event, name: hname, items: seq<Json>)
    requires AddItems(e, name, items).Created?
    ensures AddItems(e, name, items).event.eventId == e.eventId
    decreases |items|
  {
    hide AddHeader, CText, Others;
    if items != [] {
      AddLeavesOthers(e, Push, name, CText(items[0].chars));
      ItemsKeepId(AddHeader(e, Push, name, CText(items[0].chars)).event, name, items[1..]);
    }
  }

  lemma MemberSetsId(e: Event, m: Member<Json>)
    requires AddMember(e, m).Created?
    ensures if NamesEvent(m) then NameEvent(CText(m.value.chars)) == Some(AddMember(e, m).event.eventId)
            else AddMember(e, m).event.eventId == e.eventId
  {
    hide AddHeader, CText, Others, NameEvent, DeleteVal, CiEqual, AddItems;
    match m.value
    case Str(chars) =>
      var text := CText(chars);
      EventNameIsNoBody(m.name);
      AddLeavesOthers(e, Bottom, m.name, text);
      if NamesEvent(m) && NameEvent(text).Some? {
        AddLeavesOthers(Delete(e, EVENT_NAME).(eventId := NameEvent(text).value), Bottom, m.name, text);
      }
    case Arr(items) => ItemsKeepId(e, m.name, items);
    case _ =>
  }

  /** The text of the last member that names a type. */
  ghost function TypeText(ms: seq<Member<Json>>): Option<cstr> {
    if ms == [] then None
    else if TypeText(ms[1..]).Some? then TypeText(ms[1..])
    else if NamesEvent(ms[0]) then Some(CText(ms[0].value.chars))
    else None
  }

  /** The type of a created event is the one that the last such member names. */
  lemma {:induction false} CreatedIdIsNamed(e: Event, ms: seq<Member<Json>>)
    requires AddMembers(e, ms).Created?
    ensures var id := AddMembers(e, ms).event.eventId;
            if TypeText(ms).Some? then NameEvent(TypeText(ms).value) == Some(id) else id == e.eventId
    decreases |ms|
  {
    hide AddMember, NameEvent, CText;
    if ms != [] {
      MemberSetsId(e, ms[0]);
      CreatedIdIsNamed(AddMember(e, ms[0]).event, ms[1..]);
    }
  }

  lemma {:induction false} ItemsKeepSound(e: Event, name: hname, items: seq<Json>)
    requires Sound(e) && AddItems(e, name, items).Created?
    ensures Sound(AddItems(e, name, items).event)
    decreases |items|
  {
    hide AddHeader, Sound, CText;
    if items != [] {
      AddKeepsSound(e, Push, name, CText(items[0].chars));
      ItemsKeepSound(AddHeader(e, Push, name, CText(items[0].chars)).event, name, items[1..]);
    }
  }

  lemma TextKeepsSound(e: Event, name: hname, text: cstr)
    requires Sound(e) && AddText(e, name, text).Created?
    ensures Sound(AddText(e, name, text).event)
  {
    hide AddHeader, Sound, NameEvent, CiEqual, DeleteVal, BODY, EVENT_NAME;
    SameHeadersSameSoundness(e, SetBody(e, text).event);
    AddKeepsSound(e, Bottom, name, text);
    if CiEqual(name, EVENT_NAME) && NameEvent(text).Some? {
      DeleteValKeepsSound(e, EVENT_NAME, []);
      var e' := Delete(e, EVENT_NAME).(eventId := NameEvent(text).value);
      SameHeadersSameSoundness(Delete(e, EVENT_NAME), e');
      AddKeepsSound(e', Bottom, name, text);
    }
  }

  lemma {:induction false} MembersKeepSound(e: Event, ms: seq<Member<Json>>)
    requires Sound(e) && AddMembers(e, ms).Created?
    ensures Sound(AddMembers(e, ms).event)
    decreases |ms|
  {
    hide AddText, AddItems, Sound, CText;
    if ms != [] {
      var m := ms[0];
      if m.value.Str? { TextKeepsSound(e, m.name, CText(m.value.chars)); }
      if m.value.Arr? { ItemsKeepSound(e, m.name, m.value.items); }
      MembersKeepSound(AddMember(e, m).event, ms[1..]);
    }
  }

  /** Whatever the text, a created event satisfies the header invariant. */
  lemma CreatedIsSound(json: cstr)
    requires CreateJson(json).Created?
    ensures Sound(CreateJson(json).event)
  {
    hide AddMembers, Sound, JsonGrammar.ParseText;
    NewEventIsSound();
    MembersKeepSound(NEW_EVENT, JsonGrammar.ParseText(json).value.members);
  }
}
