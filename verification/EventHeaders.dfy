/**
 The header list of an event and what adding and deleting headers does to it,
 for unindexed names and the stack values ESL_STACK_BOTTOM and ESL_STACK_PUSH.
 */
module EventHeaders {
  import opened Bytes
  import opened Members
  import opened ArrayText

  const BODY_NAME: string := "_body"
  const MAX_BODY: nat := 16_777_216
  const UINT_MAX: nat := 0xFFFF_FFFF
  const OPEN_BRACKET: byte := 0x5B

  /** A header name without an index: `Name[i]` is not part of this model. */
  type hname = s: seq<byte> | 0 !in s && OPEN_BRACKET !in s witness []

  /** A header: scalar when the array is empty, else an array whose value is its rendering. */
  datatype Header = Header(name: hname, value: cstr, items: seq<cstr>)

  datatype Stack = Bottom | Push

  /** The fields of `struct esl_event` that these functions use. */
  datatype Event = Event(headers: seq<Header>, body: Option<cstr>, uniqueHeaders: bool, eventId: nat)

  /** A call's status and the event it leaves; a failed call may have done part of its work. */
  datatype Result = Result(ok: bool, event: Event)

  // ----- names -----

  function HashFrom(hash: nat, name: seq<byte>): nat
    decreases |name|
  {
    if name == [] then hash else HashFrom((hash * 33 + Lower(name[0])) % 0x1_0000_0000, name[1..])
  }

  /** `esl_ci_hashfunc_default`: 32 bits, upper and lower case alike. */
  function CiHash(name: cstr): nat {
    HashFrom(0, name)
  }

  /** The number with the lower-case letters of the name as base-33 digits, however large. */
  ghost function Numeral(name: seq<byte>): nat {
    if name == [] then 0 else 33 * Numeral(name[..|name| - 1]) + Lower(name[|name| - 1])
  }

  lemma {:induction false} HashOfAppended(hash: nat, name: seq<byte>, c: byte)
    ensures HashFrom(hash, name + [c]) == (HashFrom(hash, name) * 33 + Lower(c)) % 0x1_0000_0000
    decreases |name|
  {
    var t := name + [c];
    if name == [] {
      assert t[0] == c && t[1..] == [];
    } else {
      assert t[0] == name[0] && t[1..] == name[1..] + [c];
      HashOfAppended((hash * 33 + Lower(name[0])) % 0x1_0000_0000, name[1..], c);
    }
  }

  lemma LastDigitInModulus(n: nat, c: nat)
    ensures (n % 0x1_0000_0000 * 33 + c) % 0x1_0000_0000 == (33 * n + c) % 0x1_0000_0000
  {
    var q, r := n / 0x1_0000_0000, n % 0x1_0000_0000;
    assert 33 * n + c == 33 * r + c + 33 * q * 0x1_0000_0000;
  }

  /** The hash is that number in 32 bits. */
  lemma {:induction false} HashIsNumeral(name: cstr)
    ensures CiHash(name) == Numeral(name) % 0x1_0000_0000
  {
    hide Lower;
    if name != [] {
      var front, c := name[..|name| - 1], name[|name| - 1];
      assert name == front + [c];
      HashIsNumeral(front);
      HashOfAppended(0, front, c);
      LastDigitInModulus(Numeral(front), Lower(c));
    }
  }

  /** Equal names have equal hashes, so the hash test never hides a match. */
  lemma {:induction false} EqualNamesEqualHashes(hash: nat, a: seq<byte>, b: seq<byte>)
    requires CiEqual(a, b)
    ensures HashFrom(hash, a) == HashFrom(hash, b)
    decreases |a|
  {
    if a != [] { EqualNamesEqualHashes((hash * 33 + Lower(a[0])) % 0x1_0000_0000, a[1..], b[1..]); }
  }

  /** `esl_event_get_header_ptr`: the first header of that name, or the length when there is none. */
  function FindHeader(hs: seq<Header>, name: hname): (ix: nat)
    ensures ix <= |hs|
    ensures ix < |hs| ==> CiEqual(hs[ix].name, name)
    ensures forall k :: 0 <= k < ix ==> !CiEqual(hs[k].name, name)
  {
    if hs == [] then 0
    else if CiEqual(hs[0].name, name) then 0
    else 1 + FindHeader(hs[1..], name)
  }

  predicate HasHeader(hs: seq<Header>, name: hname) {
    FindHeader(hs, name) < |hs|
  }

  // ----- deleting -----

  /** The test of `esl_event_del_header_val`: an empty `val` matches every value. */
  predicate Matches(h: Header, name: hname, val: cstr) {
    CiEqual(name, h.name) && (val == [] || h.value == val)
  }

  function DeleteVal(hs: seq<Header>, name: hname, val: cstr): seq<Header> {
    if hs == [] then []
    else if Matches(hs[0], name, val) then DeleteVal(hs[1..], name, val)
    else [hs[0]] + DeleteVal(hs[1..], name, val)
  }

  function Delete(e: Event, name: hname): Event {
    e.(headers := DeleteVal(e.headers, name, []))
  }

  /** The headers that are not called `name`, in order. */
  function Others(hs: seq<Header>, name: hname): seq<Header> {
    if hs == [] then []
    else (if CiEqual(hs[0].name, name) then [] else [hs[0]]) + Others(hs[1..], name)
  }

  /** Deleting looks at each header alone: it goes if it is called `name` and has the value asked for, if one is. */
  lemma {:induction false} DeletesOneByOne(a: seq<Header>, h: Header, b: seq<Header>, name: hname, val: cstr)
    ensures DeleteVal(a + [h] + b, name, val) ==
            DeleteVal(a, name, val)
            + (if CiEqual(h.name, name) && (val == [] || h.value == val) then [] else [h])
            + DeleteVal(b, name, val)
  {
    var all := a + [h] + b;
    if a == [] {
      assert all[0] == h && all[1..] == b;
    } else {
      assert all[0] == a[0] && all[1..] == a[1..] + [h] + b;
      DeletesOneByOne(a[1..], h, b, name, val);
    }
  }

  lemma {:induction false} DeleteLeavesOthers(hs: seq<Header>, name: hname, val: cstr)
    ensures DeleteVal(hs, name, []) == Others(hs, name) && Others(DeleteVal(hs, name, val), name) == Others(hs, name)
  {
    if hs != [] {
      DeleteLeavesOthers(hs[1..], name, val);
      var rest := DeleteVal(hs[1..], name, val);
      assert ([hs[0]] + rest)[1..] == rest;
    }
  }

  // ----- adding -----

  function SetBody(e: Event, body: cstr): Result {
    if |body| <= MAX_BODY then Result(true, e.(body := Some(body))) else Result(false, e)
  }

  /** The items of a header that is about to be pushed to: a scalar becomes the first item. */
  function ItemsOf(h: Header): seq<cstr> {
    if h.items == [] then [h.value] else h.items
  }

  function Pushed(h: Header, data: cstr): Header {
    var items := ItemsOf(h) + [data];
    Header(h.name, Render(items), items)
  }

  /** A new header; pushed, it is an array of one item from the start. */
  function NewHeader(stack: Stack, name: hname, data: cstr): Header {
    if stack == Push then Header(name, Render([data]), [data]) else Header(name, data, [])
  }

  /** `esl_event_base_add_header`. */
  function AddHeader(e: Event, stack: Stack, name: hname, data: cstr): Result
    decreases |data|, 2, 0
  {
    var ix := FindHeader(e.headers, name);
    if name == Text(BODY_NAME) then SetBody(e, data)
    else if stack == Push && ix < |e.headers| then
      if |ItemsOf(e.headers[ix])| >= INT_MAX then Result(false, e)
      else Result(true, e.(headers := e.headers[ix := Pushed(e.headers[ix], data)]))
    else if data == [] then Result(true, Delete(e, name))
    else
      var e' := if e.uniqueHeaders then Delete(e, name) else e;
      if Contains(data, MARKER) then AddArray(e', name, data)
      else Result(true, e'.(headers := e'.headers + [NewHeader(stack, name, data)]))
  }

  /** `esl_event_add_array`: seven characters are skipped, the rest is cut at `|:` and pushed piece by piece. */
  function AddArray(e: Event, name: hname, val: cstr): Result
    decreases |val|, 1, 0
  {
    if |val| < 8 || Separators(val[7..]) >= UINT_MAX then Result(false, e)
    else AddPieces(e, name, Separate(val[7..], Separators(val[7..]) + 1), |val|)
  }

  function AddPieces(e: Event, name: hname, pieces: seq<cstr>, limit: nat): Result
    requires forall i :: 0 <= i < |pieces| ==> |pieces[i]| < limit
    decreases limit, 0, |pieces|
  {
    if pieces == [] then Result(true, e)
    else
      var r := AddHeader(e, Push, name, pieces[0]);
      if r.ok then AddPieces(r.event, name, pieces[1..], limit) else r
  }

  // ----- the header invariant -----

  /** A text that can start a header: not empty and without the array marker. */
  predicate Plain(value: cstr) {
    value != [] && !Contains(value, MARKER)
  }

  ghost predicate SoundHeader(h: Header) {
    && h.name != Text(BODY_NAME)
    && if h.items == [] then Plain(h.value)
       else Plain(h.items[0]) && h.value == Render(h.items) && |h.items| <= INT_MAX
  }

  /** Only the first header of a name can be an array. */
  ghost predicate ArraysFirst(hs: seq<Header>) {
    forall i, j :: 0 <= i < j < |hs| && hs[j].items != [] ==> !CiEqual(hs[i].name, hs[j].name)
  }

  ghost predicate Sound(e: Event) {
    && (forall i :: 0 <= i < |e.headers| ==> SoundHeader(e.headers[i]))
    && ArraysFirst(e.headers)
  }

  /** Deleting keeps a subsequence of the headers. */
  lemma {:induction false} DeleteKeepsSound(hs: seq<Header>, name: hname, val: cstr)
    requires ArraysFirst(hs)
    ensures ArraysFirst(DeleteVal(hs, name, val))
    ensures forall h :: h in DeleteVal(hs, name, val) <==> h in hs && !Matches(h, name, val)
  {
    if hs != [] {
      var rest := hs[1..];
      assert forall i :: 0 <= i < |rest| ==> rest[i] == hs[i + 1];
      assert ArraysFirst(rest);
      DeleteKeepsSound(rest, name, val);
      forall h ensures h in DeleteVal(hs, name, val) <==> h in hs && !Matches(h, name, val) {
        assert h in hs <==> h == hs[0] || h in rest;
      }
      if !Matches(hs[0], name, val) {
        var kept := DeleteVal(rest, name, val);
        forall j | 0 <= j < |kept| && kept[j].items != []
          ensures !CiEqual(hs[0].name, kept[j].name)
        {
          assert kept[j] in rest;
        }
      }
    }
  }

  lemma DeletedIsAbsent(e: Event, name: hname)
    requires Sound(e)
    ensures Sound(Delete(e, name)) && !HasHeader(Delete(e, name).headers, name)
  {
    DeleteKeepsSound(e.headers, name, []);
    forall h | h in Delete(e, name).headers ensures SoundHeader(h) && !CiEqual(h.name, name) {
      assert h in e.headers;
    }
    var hs := Delete(e, name).headers;
    forall k | 0 <= k < |hs| ensures !CiEqual(hs[k].name, name) { assert hs[k] in hs; }
  }

  lemma PushedKeepsSound(e: Event, ix: nat, data: cstr)
    requires Sound(e) && ix < |e.headers| && FindHeader(e.headers, e.headers[ix].name) == ix
    requires |ItemsOf(e.headers[ix])| < INT_MAX
    ensures Sound(e.(headers := e.headers[ix := Pushed(e.headers[ix], data)]))
  {
  }

  lemma AppendKeepsSound(e: Event, h: Header)
    requires Sound(e) && SoundHeader(h) && (h.items != [] ==> !HasHeader(e.headers, h.name))
    ensures Sound(e.(headers := e.headers + [h]))
  {
  }

  lemma NewHeaderIsSound(stack: Stack, name: hname, data: cstr)
    requires name != Text(BODY_NAME) && data != [] && !Contains(data, MARKER)
    ensures SoundHeader(NewHeader(stack, name, data))
  {
  }

  lemma SameNameFoundSame(hs: seq<Header>, name: hname)
    requires HasHeader(hs, name)
    ensures FindHeader(hs, hs[FindHeader(hs, name)].name) == FindHeader(hs, name)
  {
    var ix := FindHeader(hs, name);
    assert CiEqual(hs[ix].name, hs[ix].name);
    assert forall k :: 0 <= k < ix ==> !CiEqual(hs[k].name, name) && !CiEqual(hs[k].name, hs[ix].name);
  }

  /** Every add keeps the invariant, whether it succeeds or not. */
  lemma {:induction false} AddKeepsSound(e: Event, stack: Stack, name: hname, data: cstr)
    requires Sound(e)
    ensures Sound(AddHeader(e, stack, name, data).event)
    decreases |data|, 2, 0
  {
    hide Contains, DeleteVal, ArraysFirst, Render, SoundHeader, Plain;
    var ix := FindHeader(e.headers, name);
    if name == Text(BODY_NAME) {
    } else if stack == Push && ix < |e.headers| {
      SameNameFoundSame(e.headers, name);
      if |ItemsOf(e.headers[ix])| < INT_MAX { PushedKeepsSound(e, ix, data); }
    } else {
      DeletedIsAbsent(e, name);
      var e' := if e.uniqueHeaders then Delete(e, name) else e;
      if data != [] && Contains(data, MARKER) {
        AddArrayKeepsSound(e', name, data);
      } else if data != [] {
        NewHeaderIsSound(stack, name, data);
        AppendKeepsSound(e', NewHeader(stack, name, data));
      }
    }
  }

  lemma {:induction false} AddArrayKeepsSound(e: Event, name: hname, val: cstr)
    requires Sound(e)
    ensures Sound(AddArray(e, name, val).event)
    decreases |val|, 1, 0
  {
    if |val| >= 8 && Separators(val[7..]) < UINT_MAX {
      AddPiecesKeepsSound(e, name, Separate(val[7..], Separators(val[7..]) + 1), |val|);
    }
  }

  lemma {:induction false} AddPiecesKeepsSound(e: Event, name: hname, pieces: seq<cstr>, limit: nat)
    requires Sound(e) && forall i :: 0 <= i < |pieces| ==> |pieces[i]| < limit
    ensures Sound(AddPieces(e, name, pieces, limit).event)
    decreases limit, 0, |pieces|
  {
    if pieces != [] {
      AddKeepsSound(e, Push, name, pieces[0]);
      var r := AddHeader(e, Push, name, pieces[0]);
      if r.ok { AddPiecesKeepsSound(r.event, name, pieces[1..], limit); }
    }
  }

  // ----- what an add does -----

  /** The first header called `name`, up to case, stands at `ix`. */
  ghost predicate IsFirstNamed(hs: seq<Header>, name: hname, ix: nat) {
    ix < |hs| && CiEqual(hs[ix].name, name) && forall j :: 0 <= j < ix ==> !CiEqual(hs[j].name, name)
  }

  lemma {:induction false} FindsFirstNamed(hs: seq<Header>, name: hname, ix: nat)
    requires IsFirstNamed(hs, name, ix)
    ensures FindHeader(hs, name) == ix
    decreases ix
  {
    if ix > 0 {
      assert !CiEqual(hs[0].name, name);
      FindsFirstNamed(hs[1..], name, ix - 1);
    }
  }

  lemma RenderOne(data: cstr)
    ensures Render([data]) == data
  {
    JoinOne(data);
    assert [] + data == data;
  }

  lemma PushedIs(h: Header, b: cstr)
    requires SoundHeader(h)
    ensures var value := (if |h.items| > 1 then h.value else MARKER + h.value) + SEPARATOR + b;
            var items := if h.items == [] then [h.value, b] else h.items + [b];
            Pushed(h, b) == Header(h.name, value, items)
  {
    hide Join, Contains;
    if h.items == [] {
      JoinFirst(h.value, [b]);
      JoinOne(b);
      assert [h.value] + [b] == [h.value, b];
      assert MARKER + (h.value + SEPARATOR + b) == MARKER + h.value + SEPARATOR + b;
    } else {
      JoinAppend(h.items, b);
      if |h.items| == 1 { RenderOne(h.items[0]); }
      var joined := Join(h.items);
      assert MARKER + (joined + SEPARATOR + b) == MARKER + joined + SEPARATOR + b;
      if |h.items| == 1 { assert [h.items[0]] == h.items; }
    }
  }

  /**
   A push to a name that is there changes its first header alone. A scalar `a`
   becomes the array of `a` and `b`; an array gets `b` behind its items; the
   value shows all of them.
   */
  lemma PushExtends(e: Event, name: hname, ix: nat, b: cstr)
    requires name != Text(BODY_NAME) && IsFirstNamed(e.headers, name, ix)
    requires SoundHeader(e.headers[ix]) && |e.headers[ix].items| < INT_MAX
    ensures var h := e.headers[ix];
            var value := (if |h.items| > 1 then h.value else MARKER + h.value) + SEPARATOR + b;
            var items := if h.items == [] then [h.value, b] else h.items + [b];
            AddHeader(e, Push, name, b) == Result(true, e.(headers := e.headers[ix := Header(h.name, value, items)]))
  {
    hide FindHeader, Contains, Pushed, SoundHeader;
    FindsFirstNamed(e.headers, name, ix);
    PushedIs(e.headers[ix], b);
  }

  /** A plain text that is not pushed to a header goes behind all others; the unique flag removes the old ones. */
  lemma AddAppends(e: Event, stack: Stack, name: hname, data: cstr)
    requires name != Text(BODY_NAME) && Plain(data) && (stack == Push ==> !HasHeader(e.headers, name))
    ensures var kept := if e.uniqueHeaders then Others(e.headers, name) else e.headers;
            AddHeader(e, stack, name, data) ==
            Result(true, e.(headers := kept + [Header(name, data, if stack == Push then [data] else [])]))
  {
    hide Render, Contains, DeleteVal, Others;
    DeleteLeavesOthers(e.headers, name, []);
    RenderOne(data);
  }

  /** An empty text that is not pushed to a header deletes the headers of that name. */
  lemma AddEmptyDeletes(e: Event, stack: Stack, name: hname)
    requires name != Text(BODY_NAME) && (stack == Push ==> !HasHeader(e.headers, name))
    ensures AddHeader(e, stack, name, []) == Result(true, e.(headers := Others(e.headers, name)))
  {
    DeleteLeavesOthers(e.headers, name, []);
  }

  /** A text with the array marker is added as an array; the unique flag removes the old headers first. */
  lemma AddMarkedIsArray(e: Event, stack: Stack, name: hname, data: cstr)
    requires name != Text(BODY_NAME) && Contains(data, MARKER) && (stack == Push ==> !HasHeader(e.headers, name))
    ensures var kept := if e.uniqueHeaders then Others(e.headers, name) else e.headers;
            AddHeader(e, stack, name, data) == AddArray(e.(headers := kept), name, data)
  {
    hide AddArray;
    DeleteLeavesOthers(e.headers, name, []);
    assert data != [];
  }

  /** The name `_body` stands for the body, which has a limit; no header changes. */
  lemma AddBodySetsBody(e: Event, stack: Stack, data: cstr)
    ensures AddHeader(e, stack, Text(BODY_NAME), data) ==
            Result(|data| <= MAX_BODY, if |data| <= MAX_BODY then e.(body := Some(data)) else e)
  {
  }

  lemma {:induction false} OthersAppended(hs: seq<Header>, h: Header, name: hname)
    requires CiEqual(h.name, name)
    ensures Others(hs + [h], name) == Others(hs, name)
  {
    if hs == [] {
      assert hs + [h] == [h];
    } else {
      assert (hs + [h])[0] == hs[0] && (hs + [h])[1..] == hs[1..] + [h];
      OthersAppended(hs[1..], h, name);
    }
  }

  lemma {:induction false} OthersReplaced(hs: seq<Header>, ix: nat, h: Header, name: hname)
    requires ix < |hs| && CiEqual(hs[ix].name, name) && CiEqual(h.name, name)
    ensures Others(hs[ix := h], name) == Others(hs, name)
    decreases ix
  {
    if ix > 0 {
      assert hs[ix := h][0] == hs[0] && hs[ix := h][1..] == hs[1..][ix - 1 := h];
      OthersReplaced(hs[1..], ix - 1, h, name);
    } else {
      assert hs[ix := h][1..] == hs[1..];
    }
  }

  /** No add, array texts included, touches a header of another name, the event id or the flag. */
  lemma {:induction false} AddLeavesOthers(e: Event, stack: Stack, name: hname, data: cstr)
    ensures Others(AddHeader(e, stack, name, data).event.headers, name) == Others(e.headers, name)
    ensures var e' := AddHeader(e, stack, name, data).event;
            e'.eventId == e.eventId && e'.uniqueHeaders == e.uniqueHeaders
    decreases |data|, 2, 0
  {
    hide Contains, AddArray, Others, DeleteVal;
    var ix := FindHeader(e.headers, name);
    DeleteLeavesOthers(e.headers, name, []);
    if stack == Push && ix < |e.headers| {
      OthersReplaced(e.headers, ix, Pushed(e.headers[ix], data), name);
    } else if data != [] {
      var e' := if e.uniqueHeaders then Delete(e, name) else e;
      if Contains(data, MARKER) { AddArrayLeavesOthers(e', name, data); }
      OthersAppended(e'.headers, NewHeader(stack, name, data), name);
    }
  }

  lemma {:induction false} AddArrayLeavesOthers(e: Event, name: hname, val: cstr)
    ensures Others(AddArray(e, name, val).event.headers, name) == Others(e.headers, name)
    ensures var e' := AddArray(e, name, val).event; e'.eventId == e.eventId && e'.uniqueHeaders == e.uniqueHeaders
    decreases |val|, 1, 0
  {
    if |val| >= 8 && Separators(val[7..]) < UINT_MAX {
      PiecesLeaveOthers(e, name, Separate(val[7..], Separators(val[7..]) + 1), |val|);
    }
  }

  lemma {:induction false} PiecesLeaveOthers(e: Event, name: hname, pieces: seq<cstr>, limit: nat)
    requires forall i :: 0 <= i < |pieces| ==> |pieces[i]| < limit
    ensures Others(AddPieces(e, name, pieces, limit).event.headers, name) == Others(e.headers, name)
    ensures var e' := AddPieces(e, name, pieces, limit).event;
            e'.eventId == e.eventId && e'.uniqueHeaders == e.uniqueHeaders
    decreases limit, 0, |pieces|
  {
    hide AddHeader, Others;
    if pieces != [] {
      AddLeavesOthers(e, Push, name, pieces[0]);
      var r := AddHeader(e, Push, name, pieces[0]);
      if r.ok { PiecesLeaveOthers(r.event, name, pieces[1..], limit); }
    }
  }

  // ----- runs -----

  /** The actions that change an event. */
  datatype Action =
    | ActAdd(stack: Stack, name: hname, data: cstr)
    | ActAddArray(name: hname, val: cstr)
    | ActDelete(name: hname, val: cstr)
    | ActSetBody(text: cstr)
    | ActSetUnique(flag: bool)

  function AfterAction(e: Event, a: Action): Event {
    match a
    case ActAdd(stack, name, data) => AddHeader(e, stack, name, data).event
    case ActAddArray(name, val) => AddArray(e, name, val).event
    case ActDelete(name, val) => e.(headers := DeleteVal(e.headers, name, val))
    case ActSetBody(text) => SetBody(e, text).event
    case ActSetUnique(flag) => e.(uniqueHeaders := flag)
  }

  /** The event after some actions on a new one. */
  function Reached(actions: seq<Action>): Event {
    if actions == [] then Event([], None, false, 0)
    else AfterAction(Reached(actions[..|actions| - 1]), actions[|actions| - 1])
  }

  /** One action more. */
  lemma ReachedStep(actions: seq<Action>, a: Action)
    ensures Reached(actions + [a]) == AfterAction(Reached(actions), a)
  {
    assert (actions + [a])[..|actions|] == actions;
  }

  lemma DeleteValKeepsSound(e: Event, name: hname, val: cstr)
    requires Sound(e)
    ensures Sound(e.(headers := DeleteVal(e.headers, name, val)))
  {
    DeleteKeepsSound(e.headers, name, val);
    forall h | h in DeleteVal(e.headers, name, val) ensures SoundHeader(h) {
      assert h in e.headers;
    }
  }

  lemma SameHeadersSameSoundness(e: Event, e': Event)
    requires Sound(e) && e'.headers == e.headers
    ensures Sound(e')
  {
  }

  lemma NewEventIsSound()
    ensures Sound(Event([], None, false, 0))
  {
  }

  /** Every reachable event satisfies the header invariant. */
  lemma {:induction false} ReachableIsSound(actions: seq<Action>)
    ensures Sound(Reached(actions))
  {
    if actions != [] {
      hide Sound, AddHeader, AddArray;
      var e, c := Reached(actions[..|actions| - 1]), actions[|actions| - 1];
      ReachableIsSound(actions[..|actions| - 1]);
      match c
      case ActAdd(stack, name, data) => AddKeepsSound(e, stack, name, data);
      case ActAddArray(name, val) => AddArrayKeepsSound(e, name, val);
      case ActDelete(name, val) => DeleteValKeepsSound(e, name, val);
      case ActSetBody(text) => SameHeadersSameSoundness(e, SetBody(e, text).event);
      case ActSetUnique(flag) => SameHeadersSameSoundness(e, e.(uniqueHeaders := flag));
    } else {
      NewEventIsSound();
    }
  }

  /** No event gets a body past the limit. */
  ghost predicate BodyFits(e: Event) {
    e.body.Some? ==> |e.body.value| <= MAX_BODY
  }

  lemma PiecesAreShorter(val: cstr)
    requires |val| >= 8
    ensures var pieces := Separate(val[7..], Separators(val[7..]) + 1);
            forall i :: 0 <= i < |pieces| ==> |pieces[i]| < |val|
  {
  }

  lemma {:induction false} AddKeepsBodyFit(e: Event, stack: Stack, name: hname, data: cstr)
    requires BodyFits(e)
    ensures BodyFits(AddHeader(e, stack, name, data).event)
    decreases |data|, 2, 0
  {
    hide Contains, DeleteVal, FindHeader, AddArray;
    var e' := if e.uniqueHeaders then Delete(e, name) else e;
    AddArrayKeepsBodyFit(e', name, data);
  }

  lemma {:induction false} AddArrayKeepsBodyFit(e: Event, name: hname, val: cstr)
    requires BodyFits(e)
    ensures BodyFits(AddArray(e, name, val).event)
    decreases |val|, 1, 0
  {
    hide Separators, Separate, AddPieces;
    if |val| >= 8 && Separators(val[7..]) < UINT_MAX {
      PiecesAreShorter(val);
      AddPiecesKeepsBodyFit(e, name, Separate(val[7..], Separators(val[7..]) + 1), |val|);
    }
  }

  lemma {:induction false} AddPiecesKeepsBodyFit(e: Event, name: hname, pieces: seq<cstr>, limit: nat)
    requires BodyFits(e) && forall i :: 0 <= i < |pieces| ==> |pieces[i]| < limit
    ensures BodyFits(AddPieces(e, name, pieces, limit).event)
    decreases limit, 0, |pieces|
  {
    hide AddHeader, BodyFits;
    if pieces != [] {
      AddKeepsBodyFit(e, Push, name, pieces[0]);
      var r := AddHeader(e, Push, name, pieces[0]);
      if r.ok { AddPiecesKeepsBodyFit(r.event, name, pieces[1..], limit); }
    }
  }

  lemma {:induction false} ReachableBodyFits(actions: seq<Action>)
    ensures BodyFits(Reached(actions))
  {
    if actions != [] {
      hide AddHeader, AddArray, DeleteVal;
      var e, c := Reached(actions[..|actions| - 1]), actions[|actions| - 1];
      ReachableBodyFits(actions[..|actions| - 1]);
      match c
      case ActAdd(stack, name, data) => AddKeepsBodyFit(e, stack, name, data);
      case ActAddArray(name, val) => AddArrayKeepsBodyFit(e, name, val);
      case _ =>
    }
  }

  // ----- adding a rendered array again -----

  /** A push behind the last header, which is the first of its name. */
  lemma PushToLast(e: Event, h: Header, data: cstr)
    requires h.name != Text(BODY_NAME) && !HasHeader(e.headers, h.name) && |ItemsOf(h)| < INT_MAX
    ensures AddHeader(e.(headers := e.headers + [h]), Push, h.name, data) ==
            Result(true, e.(headers := e.headers + [Pushed(h, data)]))
  {
    var hs := e.headers + [h];
    var ix := FindHeader(hs, h.name);
    assert CiEqual(hs[|e.headers|].name, h.name);
    assert ix == |e.headers|;
    assert hs[ix := Pushed(h, data)] == e.headers + [Pushed(h, data)];
  }

  /** Without a header of that name there is nothing to delete. */
  lemma {:induction false} DeleteAbsent(hs: seq<Header>, name: hname, val: cstr)
    requires !HasHeader(hs, name)
    ensures DeleteVal(hs, name, val) == hs
  {
    if hs != [] {
      assert !CiEqual(hs[0].name, name);
      assert !HasHeader(hs[1..], name) by {
        assert FindHeader(hs, name) == 1 + FindHeader(hs[1..], name);
      }
      DeleteAbsent(hs[1..], name, val);
    }
  }

  /** A plain value at the bottom becomes a header of its own. */
  lemma AddPlain(e: Event, name: hname, data: cstr)
    requires name != Text(BODY_NAME) && !e.uniqueHeaders && Plain(data)
    ensures AddHeader(e, Bottom, name, data) == Result(true, e.(headers := e.headers + [Header(name, data, [])]))
  {
  }

  /** Two plain values added under one name stay two headers. */
  lemma TwoScalars(name: hname, v: cstr, w: cstr)
    requires name != Text(BODY_NAME) && Plain(v) && Plain(w)
    ensures Reached([ActAdd(Bottom, name, v), ActAdd(Bottom, name, w)]) ==
            Event([Header(name, v, []), Header(name, w, [])], None, false, 0)
  {
    hide AddHeader, Plain;
    var start := Event([], None, false, 0);
    var one, two := ActAdd(Bottom, name, v), ActAdd(Bottom, name, w);
    ReachedStep([], one);
    ReachedStep([one], two);
    assert [] + [one] == [one] && [one] + [two] == [one, two];
    AddPlain(start, name, v);
    AddPlain(Reached([one]), name, w);
  }

  /** The first item, pushed to an event without that header, makes a header of its own. */
  lemma PushFirst(e: Event, name: hname, first: cstr)
    requires name != Text(BODY_NAME) && !HasHeader(e.headers, name) && Plain(first)
    ensures AddHeader(e, Push, name, first) ==
            Result(true, e.(headers := e.headers + [Header(name, Render([first]), [first])]))
  {
    DeleteAbsent(e.headers, name, []);
  }

  /** Pushing the items `k..` behind the first `k` of them. */
  lemma {:induction false} PushAll(e: Event, name: hname, items: seq<cstr>, k: nat, limit: nat)
    requires name != Text(BODY_NAME) && !HasHeader(e.headers, name)
    requires 1 <= k <= |items| <= INT_MAX && forall i :: 0 <= i < |items| ==> |items[i]| < limit
    ensures AddPieces(e.(headers := e.headers + [Header(name, Render(items[..k]), items[..k])]),
                      name, items[k..], limit) ==
            Result(true, e.(headers := e.headers + [Header(name, Render(items), items)]))
    decreases |items| - k
  {
    hide Render, HasHeader;
    var h := Header(name, Render(items[..k]), items[..k]);
    if k == |items| {
      assert items[..k] == items;
    } else {
      assert items[..k + 1] == items[..k] + [items[k]];
      assert items[k..][1..] == items[k + 1..];
      PushToLast(e, h, items[k]);
      assert Pushed(h, items[k]) == Header(name, Render(items[..k + 1]), items[..k + 1]);
      PushAll(e, name, items, k + 1, limit);
    }
  }

  /** Pushing all items of a sound array rebuilds its header. */
  lemma PushedItemsRebuild(e: Event, name: hname, items: seq<cstr>, limit: nat)
    requires name != Text(BODY_NAME) && !HasHeader(e.headers, name)
    requires 1 <= |items| <= INT_MAX && Plain(items[0]) && forall i :: 0 <= i < |items| ==> |items[i]| < limit
    ensures AddPieces(e, name, items, limit) ==
            Result(true, e.(headers := e.headers + [Header(name, Render(items), items)]))
  {
    PushFirst(e, name, items[0]);
    assert items[..1] == [items[0]];
    PushAll(e, name, items, 1, limit);
  }

  /** Added to `e`: nothing, or one array of separator-free items with a plain first one. */
  ghost predicate Built(e: Event, e': Event, name: hname) {
    e' == e ||
    (|e'.headers| > 0 &&
     var h := e'.headers[|e'.headers| - 1];
     && e' == e.(headers := e.headers + [h])
     && h.name == name && h.items != [] && Plain(h.items[0])
     && forall i :: 0 <= i < |h.items| ==> !Contains(h.items[i], SEPARATOR))
  }

  lemma FoundLast(hs: seq<Header>, h: Header)
    requires !HasHeader(hs, h.name)
    ensures FindHeader(hs + [h], h.name) == |hs|
  {
    var all := hs + [h];
    assert forall k :: 0 <= k < |hs| ==> !CiEqual(hs[k].name, h.name) && all[k] == hs[k];
    assert CiEqual(all[|hs|].name, h.name);
  }

  lemma {:induction false} PushBuilds(e: Event, e1: Event, name: hname, x: cstr)
    requires name != Text(BODY_NAME) && !HasHeader(e.headers, name)
    requires Built(e, e1, name) && !Contains(x, SEPARATOR)
    ensures Built(e, AddHeader(e1, Push, name, x).event, name)
    decreases |x|, 2, 0
  {
    hide Contains, DeleteVal, FindHeader, Render;
    if e1 == e {
      DeleteAbsent(e.headers, name, []);
      if x != [] && Contains(x, MARKER) { AddArrayBuilds(e, name, x); }
    } else {
      var h := e1.headers[|e1.headers| - 1];
      if |ItemsOf(h)| < INT_MAX {
        PushToLast(e, h, x);
        assert Pushed(h, x).items == h.items + [x];
      } else {
        FoundLast(e.headers, h);
      }
    }
  }

  lemma {:induction false} AddArrayBuilds(e: Event, name: hname, val: cstr)
    requires name != Text(BODY_NAME) && !HasHeader(e.headers, name)
    ensures Built(e, AddArray(e, name, val).event, name)
    decreases |val|, 1, 0
  {
    hide Contains, Separators, Separate, Split;
    if |val| >= 8 && Separators(val[7..]) < UINT_MAX {
      SeparateIsSplit(val[7..]);
      SplitLeavesNoSeparator(val[7..]);
      PiecesBuild(e, e, name, Split(val[7..]), |val|);
    }
  }

  lemma {:induction false} PiecesBuild(e: Event, e1: Event, name: hname, pieces: seq<cstr>, limit: nat)
    requires name != Text(BODY_NAME) && !HasHeader(e.headers, name) && Built(e, e1, name)
    requires forall i :: 0 <= i < |pieces| ==> |pieces[i]| < limit && !Contains(pieces[i], SEPARATOR)
    ensures Built(e, AddPieces(e1, name, pieces, limit).event, name)
    decreases limit, 0, |pieces|
  {
    hide Built, AddHeader, Contains;
    if pieces != [] {
      PushBuilds(e, e1, name, pieces[0]);
      var r := AddHeader(e1, Push, name, pieces[0]);
      if r.ok { PiecesBuild(e, r.event, name, pieces[1..], limit); }
    }
  }

  lemma NotBuilt(e: Event, name: hname, items: seq<cstr>)
    requires items != []
    requires !(Plain(items[0]) && forall i :: 0 <= i < |items| ==> !Contains(items[i], SEPARATOR))
    ensures !Built(e, e.(headers := e.headers + [Header(name, Render(items), items)]), name)
  {
    var hs := e.headers + [Header(name, Render(items), items)];
    assert |hs| == |e.headers| + 1 && hs[|hs| - 1].items == items;
  }

  lemma AddArrayRebuilds(e: Event, name: hname, items: seq<cstr>)
    requires name != Text(BODY_NAME) && !HasHeader(e.headers, name) && 2 <= |items| <= INT_MAX
    requires Plain(items[0]) && forall i :: 0 <= i < |items| ==> !Contains(items[i], SEPARATOR)
    ensures AddArray(e, name, Render(items)) ==
            Result(true, e.(headers := e.headers + [Header(name, Render(items), items)]))
  {
    hide Contains, FindHeader, Separate, Separators, Split, DeleteVal;
    var val := Render(items);
    assert val[7..] == Join(items);
    SplitJoin(items);
    SeparateIsSplit(Join(items));
    PiecesAreShorter(val);
    PushedItemsRebuild(e, name, items, |val|);
  }

  /**
   The rendered value of an array of two or more items, added to an event
   without that header, rebuilds the array exactly when no item holds the
   separator and the first item can start a header.
   */
  lemma RenderedArrayRoundTrip(e: Event, stack: Stack, name: hname, items: seq<cstr>)
    requires name != Text(BODY_NAME) && !HasHeader(e.headers, name) && 2 <= |items| <= INT_MAX
    ensures AddHeader(e, stack, name, Render(items)) ==
            Result(true, e.(headers := e.headers + [Header(name, Render(items), items)])) <==>
            Plain(items[0]) && forall i :: 0 <= i < |items| ==> !Contains(items[i], SEPARATOR)
  {
    hide Contains, FindHeader, Separate, Separators, Split, DeleteVal, Join, AddArray, Plain;
    var val := Render(items);
    assert val == MARKER + Join(items);
    assert val[7..] == Join(items);
    MarkerIsFound(Join(items));
    DeleteAbsent(e.headers, name, []);
    assert AddHeader(e, stack, name, val) == AddArray(e, name, val);
    if Plain(items[0]) && forall i :: 0 <= i < |items| ==> !Contains(items[i], SEPARATOR) {
      AddArrayRebuilds(e, name, items);
    } else {
      AddArrayBuilds(e, name, val);
      NotBuilt(e, name, items);
    }
  }

  /** A text added at the bottom, and another one pushed to its name. */
  lemma AddThenPush(name: hname, a: cstr, b: cstr)
    requires name != Text(BODY_NAME) && Plain(a)
    ensures Reached([ActAdd(Bottom, name, a), ActAdd(Push, name, b)]) ==
            Event([Header(name, MARKER + a + SEPARATOR + b, [a, b])], None, false, 0)
  {
    hide AddHeader, Plain, Contains;
    var start := Event([], None, false, 0);
    var one, two := ActAdd(Bottom, name, a), ActAdd(Push, name, b);
    ReachedStep([], one);
    ReachedStep([one], two);
    assert [] + [one] == [one] && [one] + [two] == [one, two];
    AddAppends(start, Bottom, name, a);
    assert [] + [Header(name, a, [])] == [Header(name, a, [])];
    PushExtends(Reached([one]), name, 0, b);
  }

  lemma TwoPushes(name: hname, x: cstr, y: cstr)
    requires name != Text(BODY_NAME) && Plain(x)
    ensures Reached([ActAdd(Push, name, x), ActAdd(Push, name, y)]) ==
            Event([Header(name, Render([x, y]), [x, y])], None, false, 0)
  {
    hide AddHeader, Plain, Render;
    var start := Event([], None, false, 0);
    var one, two := ActAdd(Push, name, x), ActAdd(Push, name, y);
    ReachedStep([], one);
    ReachedStep([one], two);
    assert [] + [one] == [one] && [one] + [two] == [one, two];
    PushFirst(start, name, x);
    PushToLast(start, Header(name, Render([x]), [x]), y);
    assert [x] + [y] == [x, y];
    assert forall h: Header :: [] + [h] == [h];
  }

  lemma ReachedNothing()
    ensures Reached([]) == Event([], None, false, 0)
  {
  }

  /** An array with an item `|:` does not come back from its rendered value. */
  lemma SeparatorItemIsLost(name: hname, x: cstr)
    requires name != Text(BODY_NAME) && Plain(x)
    ensures var e := Reached([ActAdd(Push, name, x), ActAdd(Push, name, SEPARATOR)]);
            && |e.headers| == 1 && e.headers[0].items == [x, SEPARATOR]
            && AddHeader(Reached([]), Bottom, name, e.headers[0].value) != Result(true, e)
  {
    hide AddHeader, Plain, Render, Contains, Reached;
    TwoPushes(name, x, SEPARATOR);
    var items := [x, SEPARATOR];
    assert Contains(SEPARATOR, SEPARATOR) by { SeparatorIsFound(); }
    assert Contains(items[1], SEPARATOR);
    var start := Event([], None, false, 0);
    assert Reached([]) == start by { ReachedNothing(); }
    RenderedArrayRoundTrip(start, Bottom, name, items);
    assert [] + [Header(name, Render(items), items)] == [Header(name, Render(items), items)];
  }
}
