/** `esl_event_serialize` without encoding: two growing buffers and the text they end up with. */
module EventSerialize {
  import opened Bytes
  import opened Members
  import opened ArrayText
  import opened EventHeaders
  import opened EventStore

  const BLOCK_SIZE: nat := 512
  const FIRST_ENCODE_LEN: nat := 1536
  const UNDEFINED: cstr := [0x5F, 0x75, 0x6E, 0x64, 0x65, 0x66, 0x5F]  // _undef_
  const LENGTH_PREFIX: cstr :=                                         // "Content-Length: "
    [0x43, 0x6F, 0x6E, 0x74, 0x65, 0x6E, 0x74, 0x2D, 0x4C, 0x65, 0x6E, 0x67, 0x74, 0x68, 0x3A, 0x20]

  // ----- what the text should be -----

  function Line(name: cstr, value: cstr): cstr {
    name + [0x3A, 0x20] + (if value == [] then UNDEFINED else value) + [0x0A]
  }

  function LinesOf(hs: seq<Header>): cstr {
    if hs == [] then [] else Line(hs[0].name, hs[0].value) + LinesOf(hs[1..])
  }

  function BodyBlock(body: Option<cstr>): cstr {
    if body.None? || body.value == [] then [0x0A]
    else LENGTH_PREFIX + Decimal(|body.value|) + [0x0A, 0x0A] + body.value
  }

  // ----- reading the text -----

  const LF: byte := 0x0A
  const COLON: byte := 0x3A
  const CONTENT_LENGTH: cstr :=  // Content-Length
    [0x43, 0x6F, 0x6E, 0x74, 0x65, 0x6E, 0x74, 0x2D, 0x4C, 0x65, 0x6E, 0x67, 0x74, 0x68]

  /** How many bytes stand in front of the first `b`. */
  function Before(t: cstr, b: byte): (n: nat)
    ensures n <= |t|
  {
    if t == [] || t[0] == b then 0 else 1 + Before(t[1..], b)
  }

  lemma {:induction false} BeforeFirst(x: cstr, b: byte, rest: cstr)
    requires b !in x && b != 0
    ensures Before(x + [b] + rest, b) == |x|
  {
    var t := x + [b] + rest;
    if x != [] {
      assert t[0] == x[0] && t[1..] == x[1..] + [b] + rest;
      BeforeFirst(x[1..], b, rest);
    }
  }

  datatype Field = Field(name: cstr, value: cstr)

  datatype Reading = Reading(fields: seq<Field>, rest: cstr)

  /** Reads lines of a name, a colon, a space and a value up to an empty line. */
  function Read(t: cstr): Reading
    decreases |t|
  {
    var n := Before(t, LF);
    if n == |t| then Reading([], t)
    else if n == 0 then Reading([], t[1..])
    else
      var k, r := Before(t[..n], COLON), Read(t[n + 1..]);
      if k + 2 > n then Reading([], t) else Reading([Field(t[..k], t[k + 2..n])] + r.fields, r.rest)
  }

  function FieldsOf(hs: seq<Header>): (fields: seq<Field>)
    ensures |fields| == |hs|
  {
    if hs == [] then []
    else [Field(hs[0].name, if hs[0].value == [] then UNDEFINED else hs[0].value)] + FieldsOf(hs[1..])
  }

  /** Where the parts of a line are found. */
  lemma PartsOfLine(name: cstr, shown: cstr, rest: cstr)
    requires LF !in name && COLON !in name && LF !in shown
    ensures var line := name + [COLON, 0x20] + shown;
            var t := line + [LF] + rest;
            && Before(t, LF) == |line| && Before(t[..|line|], COLON) == |name|
            && t[..|name|] == name && t[|name| + 2..|line|] == shown && t[|line| + 1..] == rest
  {
    var line := name + [COLON, 0x20] + shown;
    var t := line + [LF] + rest;
    BeforeFirst(line, LF, rest);
    assert t[..|line|] == line == name + [COLON] + ([0x20] + shown);
    BeforeFirst(name, COLON, [0x20] + shown);
  }

  lemma ReadsLine(name: cstr, value: cstr, rest: cstr)
    requires LF !in name && COLON !in name && LF !in value
    ensures var shown := if value == [] then UNDEFINED else value;
            Read(Line(name, value) + rest) == Reading([Field(name, shown)] + Read(rest).fields, Read(rest).rest)
  {
    hide Before;
    var shown := if value == [] then UNDEFINED else value;
    PartsOfLine(name, shown, rest);
  }

  lemma EmptyLineEndsReading(rest: cstr)
    ensures Read([LF] + rest) == Reading([], rest)
  {
    assert ([LF] + rest)[1..] == rest;
  }

  lemma BlockRegroups(prefix: cstr, name: cstr, digits: cstr, body: cstr)
    requires prefix == name + [COLON, 0x20]
    ensures prefix + digits + [LF, LF] + body == name + [COLON, 0x20] + digits + [LF] + ([LF] + body)
  {
  }

  lemma DigitsAreNoLines(n: nat)
    ensures LF !in Decimal(n) && Decimal(n) != []
  {
  }

  lemma PrefixIsName()
    ensures LENGTH_PREFIX == CONTENT_LENGTH + [COLON, 0x20] && LF !in CONTENT_LENGTH && COLON !in CONTENT_LENGTH
  {
  }

  lemma BlockIs(body: cstr)
    requires body != []
    ensures BodyBlock(Some(body)) == LENGTH_PREFIX + Decimal(|body|) + [LF, LF] + body
  {
    hide Decimal, LENGTH_PREFIX;
  }

  lemma LineIs(name: cstr, value: cstr)
    requires value != []
    ensures Line(name, value) == name + [COLON, 0x20] + value + [LF]
  {
  }

  lemma BlockIsLineAndBody(body: cstr)
    requires body != []
    ensures BodyBlock(Some(body)) == Line(CONTENT_LENGTH, Decimal(|body|)) + ([LF] + body)
    ensures LF !in Decimal(|body|) && LF !in CONTENT_LENGTH && COLON !in CONTENT_LENGTH
  {
    hide Decimal, LENGTH_PREFIX, CONTENT_LENGTH, BodyBlock, Line, LF, COLON;
    DigitsAreNoLines(|body|);
    PrefixIsName();
    BlockIs(body);
    LineIs(CONTENT_LENGTH, Decimal(|body|));
    BlockRegroups(LENGTH_PREFIX, CONTENT_LENGTH, Decimal(|body|), body);
  }

  lemma BlockReadsBack(body: Option<cstr>)
    ensures var hasBody := body.Some? && body.value != [];
            Read(BodyBlock(body)) ==
            Reading(if hasBody then [Field(CONTENT_LENGTH, Decimal(|body.value|))] else [],
                    if hasBody then body.value else [])
  {
    hide Line, Read, Decimal;
    if body.Some? && body.value != [] {
      BlockIsLineAndBody(body.value);
      EmptyLineEndsReading(body.value);
      ReadsLine(CONTENT_LENGTH, Decimal(|body.value|), [LF] + body.value);
    } else {
      EmptyLineEndsReading([]);
      assert [LF] + [] == [0x0A];
    }
  }

  /** The text of an event reads as its headers, with one for the length of a body, and the body. */
  lemma {:induction false} TextReadsBack(hs: seq<Header>, body: Option<cstr>)
    requires forall i :: 0 <= i < |hs| ==> LF !in hs[i].name && COLON !in hs[i].name && LF !in hs[i].value
    ensures var hasBody := body.Some? && body.value != [];
            Read(LinesOf(hs) + BodyBlock(body)) ==
            Reading(FieldsOf(hs) + (if hasBody then [Field(CONTENT_LENGTH, Decimal(|body.value|))] else []),
                    if hasBody then body.value else [])
    decreases |hs|
  {
    hide Line, Read, Decimal, BodyBlock;
    var block := BodyBlock(body);
    if hs != [] {
      assert LinesOf(hs) + block == Line(hs[0].name, hs[0].value) + (LinesOf(hs[1..]) + block);
      ReadsLine(hs[0].name, hs[0].value, LinesOf(hs[1..]) + block);
      TextReadsBack(hs[1..], body);
    } else {
      assert [] + block == block;
      BlockReadsBack(body);
    }
  }

  // ----- what the buffers make of it -----

  /** What `snprintf` leaves of a text in `size` bytes. */
  function Fitted(text: cstr, size: nat): (r: cstr)
    requires size > 0
    ensures |r| < size && (r == text <==> |text| < size)
  {
    if |text| < size then text else text[..size - 1]
  }

  /** The text so far, the size of its buffer and the size of the buffer for one value. */
  datatype Output = Output(text: cstr, dlen: nat, encodeLen: nat)

  const START := Output([], BLOCK_SIZE * 2, FIRST_ENCODE_LEN)

  function RoomForItems(items: seq<cstr>): nat {
    if items == [] then 0 else RoomForItems(items[..|items| - 1]) + 3 * |items[|items| - 1]| + 1
  }

  /** The size that the buffer of one value gets: three bytes for each character, and one. */
  function Room(h: Header): nat {
    if h.items != [] then RoomForItems(h.items) else 3 * |h.value| + 1
  }

  /** The growth rule of the text buffer. */
  function Grown(dlen: nat, len: nat, llen: nat): (r: nat)
    ensures r >= dlen && r >= len + llen
  {
    if len + llen > dlen then dlen + BLOCK_SIZE + len + llen else dlen
  }

  function AddLine(s: Output, h: Header): (r: Output)
    requires |s.text| < s.dlen && s.encodeLen >= FIRST_ENCODE_LEN
    ensures |r.text| < r.dlen && r.encodeLen >= FIRST_ENCODE_LEN
  {
    var encodeLen := Max(s.encodeLen, Room(h));
    var value := Fitted(h.value, encodeLen);
    var dlen := Grown(s.dlen, |s.text|, |h.name| + |value| + 8);
    Output(s.text + Fitted(Line(h.name, value), dlen - |s.text|), dlen, encodeLen)
  }

  function AddLines(s: Output, hs: seq<Header>): (r: Output)
    requires |s.text| < s.dlen && s.encodeLen >= FIRST_ENCODE_LEN
    ensures |r.text| < r.dlen && r.encodeLen >= FIRST_ENCODE_LEN
    decreases |hs|
  {
    if hs == [] then s else AddLines(AddLine(s, hs[0]), hs[1..])
  }

  /** Room for the body block; without a body only the line end is written, into what is left. */
  function AddBody(s: Output, body: Option<cstr>): cstr
    requires |s.text| < s.dlen
  {
    if body.None? then s.text + Fitted(BodyBlock(body), s.dlen - |s.text|)
    else
      var llen := |body.value| + if body.value == [] then 5 else 25;
      var dlen := Grown(s.dlen, |s.text|, llen);
      s.text + Fitted(BodyBlock(body), dlen - |s.text|)
  }

  function Serialized(hs: seq<Header>, body: Option<cstr>): cstr {
    AddBody(AddLines(START, hs), body)
  }

  // ----- when nothing is cut -----

  /** An empty value is printed as `_undef_`, for which the growth rule counts no room: three bytes may be missing. */
  predicate UndefinedIsTight(dlen: nat, len: nat, h: Header) {
    h.value == [] && len + |h.name| + 8 <= dlen < len + |h.name| + 11
  }

  /** One line is complete exactly when the value fits into its buffer and `_undef_`, if need be, into what is left. */
  lemma LineIsComplete(s: Output, h: Header)
    requires |s.text| < s.dlen && s.encodeLen >= FIRST_ENCODE_LEN
    ensures var r := AddLine(s, h);
            && r.encodeLen == Max(s.encodeLen, Room(h))
            && if |h.value| < r.encodeLen && !UndefinedIsTight(s.dlen, |s.text|, h)
               then r.text == s.text + Line(h.name, h.value) &&
                    r.dlen == Grown(s.dlen, |s.text|, |h.name| + |h.value| + 8)
               else |r.text| < |s.text| + |Line(h.name, h.value)|
  {
    var value := Fitted(h.value, Max(s.encodeLen, Room(h)));
    assert |Line(h.name, value)| == |h.name| + 3 + if value == [] then 7 else |value|;
    assert |Line(h.name, h.value)| == |h.name| + 3 + if h.value == [] then 7 else |h.value|;
  }

  function PowerOfTen(k: nat): nat {
    if k == 0 then 1 else 10 * PowerOfTen(k - 1)
  }

  lemma {:induction false} DigitsUpTo(n: nat, k: nat)
    requires k > 0 && n < PowerOfTen(k)
    ensures |Decimal(n)| <= k
  {
    if n >= 10 { DigitsUpTo(n / 10, k - 1); }
  }

  lemma DecimalIsShort(n: nat)
    requires n <= SIZE_MAX
    ensures |Decimal(n)| <= 20 && (n < 1_000_000 ==> |Decimal(n)| <= 6)
  {
    assert PowerOfTen(20) == 100_000_000_000_000_000_000 && PowerOfTen(6) == 1_000_000;
    DigitsUpTo(n, 20);
    if n < 1_000_000 { DigitsUpTo(n, 6); }
  }

  /**
   The growth rule just misses the last block: without a body it counts nothing
   for the line end, and with one it counts 25 bytes for the length header, which
   is too little when the length has seven digits or more.
   */
  predicate BlockIsTight(dlen: nat, len: nat, body: Option<cstr>) {
    match body
    case None => dlen == len + 1
    case Some(text) => text != [] && len + |text| + 25 <= dlen < len + |text| + 19 + |Decimal(|text|)|
  }

  /** From any state of the buffers the block behind the lines is complete exactly when it is not just missed. */
  lemma BodyIsComplete(s: Output, body: Option<cstr>)
    requires |s.text| < s.dlen && (body.Some? ==> |body.value| <= SIZE_MAX)
    ensures |AddBody(s, body)| <= |s.text| + |BodyBlock(body)|
    ensures AddBody(s, body) == s.text + BodyBlock(body) <==> !BlockIsTight(s.dlen, |s.text|, body)
  {
    if body.Some? && body.value != [] {
      var block := BodyBlock(body);
      assert |block| == 18 + |Decimal(|body.value|)| + |body.value|;
      var dlen := Grown(s.dlen, |s.text|, |body.value| + 25);
      assert AddBody(s, body) == s.text + Fitted(block, dlen - |s.text|);
      DecimalIsShort(|body.value|);
      if AddBody(s, body) == s.text + block {
        assert (s.text + Fitted(block, dlen - |s.text|))[|s.text|..] == Fitted(block, dlen - |s.text|);
        assert Fitted(block, dlen - |s.text|) == (s.text + block)[|s.text|..] == block;
      }
    }
  }

  /** Every value is shorter than the buffer for values, which starts with `encodeLen` bytes. */
  predicate ValuesFit(encodeLen: nat, hs: seq<Header>)
    decreases |hs|
  {
    hs == [] || (var next := Max(encodeLen, Room(hs[0])); |hs[0].value| < next && ValuesFit(next, hs[1..]))
  }

  /** The size of the text buffer behind a complete line, from `dlen` bytes holding `len` characters. */
  function RoomBehind(dlen: nat, len: nat, h: Header): nat {
    Grown(dlen, len, |h.name| + |h.value| + 8)
  }

  /** The same behind complete lines. */
  function TextRoom(dlen: nat, len: nat, hs: seq<Header>): nat
    decreases |hs|
  {
    if hs == [] then dlen
    else TextRoom(RoomBehind(dlen, len, hs[0]), len + |Line(hs[0].name, hs[0].value)|, hs[1..])
  }

  /** No `_undef_` is just missed. */
  predicate UndefinedFits(dlen: nat, len: nat, hs: seq<Header>)
    decreases |hs|
  {
    hs == [] ||
    (!UndefinedIsTight(dlen, len, hs[0]) &&
     UndefinedFits(RoomBehind(dlen, len, hs[0]), len + |Line(hs[0].name, hs[0].value)|, hs[1..]))
  }

  lemma {:induction false} LinesAreComplete(s: Output, hs: seq<Header>)
    requires |s.text| < s.dlen && s.encodeLen >= FIRST_ENCODE_LEN
    ensures |AddLines(s, hs).text| <= |s.text + LinesOf(hs)|
    ensures if ValuesFit(s.encodeLen, hs) && UndefinedFits(s.dlen, |s.text|, hs)
            then AddLines(s, hs).text == s.text + LinesOf(hs) && AddLines(s, hs).dlen == TextRoom(s.dlen, |s.text|, hs)
            else |AddLines(s, hs).text| < |s.text + LinesOf(hs)|
    decreases |hs|
  {
    hide Line, Room, AddLine, UndefinedIsTight, Grown;
    if hs == [] {
      assert s.text + [] == s.text;
    } else {
      LineIsComplete(s, hs[0]);
      LinesAreComplete(AddLine(s, hs[0]), hs[1..]);
      assert s.text + Line(hs[0].name, hs[0].value) + LinesOf(hs[1..]) ==
             s.text + (Line(hs[0].name, hs[0].value) + LinesOf(hs[1..]));
    }
  }

  /** The block behind complete lines is just missed. */
  predicate BodyIsTight(hs: seq<Header>, body: Option<cstr>) {
    BlockIsTight(TextRoom(START.dlen, 0, hs), |LinesOf(hs)|, body)
  }

  /**
   The text is the concatenation of the lines and the body block exactly when
   every value fits into the buffer for values and the text buffer just misses
   neither an `_undef_` nor the body block.
   */
  lemma SerializedIsComplete(hs: seq<Header>, body: Option<cstr>)
    requires body.Some? ==> |body.value| <= SIZE_MAX
    ensures Serialized(hs, body) == LinesOf(hs) + BodyBlock(body) <==>
            ValuesFit(FIRST_ENCODE_LEN, hs) && UndefinedFits(START.dlen, 0, hs) && !BodyIsTight(hs, body)
  {
    hide BodyBlock, AddLines, AddBody, LinesOf, ValuesFit, TextRoom, UndefinedFits, BlockIsTight;
    LinesAreComplete(START, hs);
    var lines, s := LinesOf(hs), AddLines(START, hs);
    assert START.text + lines == lines;
    BodyIsComplete(s, body);
    if !(ValuesFit(FIRST_ENCODE_LEN, hs) && UndefinedFits(START.dlen, 0, hs)) {
      assert |Serialized(hs, body)| < |lines + BodyBlock(body)|;
    }
  }

  /** Behind lines with values there is room to spare. */
  lemma {:induction false} ValuesLeaveRoom(dlen: nat, len: nat, hs: seq<Header>)
    requires len + 5 <= dlen && forall i :: 0 <= i < |hs| ==> hs[i].value != []
    ensures UndefinedFits(dlen, len, hs) && TextRoom(dlen, len, hs) >= len + |LinesOf(hs)| + 5
    decreases |hs|
  {
    if hs != [] {
      ValuesLeaveRoom(RoomBehind(dlen, len, hs[0]), len + |Line(hs[0].name, hs[0].value)|, hs[1..]);
    }
  }

  /** Behind them a body below a million bytes is never missed. */
  lemma ShortBodyIsNotTight(hs: seq<Header>, body: Option<cstr>)
    requires forall i :: 0 <= i < |hs| ==> hs[i].value != []
    requires body.Some? ==> |body.value| < 1_000_000
    ensures !BodyIsTight(hs, body)
  {
    ValuesLeaveRoom(START.dlen, 0, hs);
    if body.Some? { DecimalIsShort(|body.value|); }
  }

  function TotalLength(items: seq<cstr>): nat {
    if items == [] then 0 else |items[0]| + TotalLength(items[1..])
  }

  lemma {:induction false} TotalOfAppended(items: seq<cstr>, last: cstr)
    ensures TotalLength(items + [last]) == TotalLength(items) + |last|
  {
    if items == [] {
      assert ([last] + [])[1..] == [] && [] + [last] == [last];
    } else {
      assert (items + [last])[1..] == items[1..] + [last];
      TotalOfAppended(items[1..], last);
    }
  }

  lemma {:induction false} RoomInTotal(items: seq<cstr>)
    ensures RoomForItems(items) == 3 * TotalLength(items) + |items|
    decreases |items|
  {
    if items != [] {
      var front, last := items[..|items| - 1], items[|items| - 1];
      RoomInTotal(front);
      assert items == front + [last];
      TotalOfAppended(front, last);
    }
  }

  /** The sizes of a rendered array and of the room for it. */
  lemma {:induction false} RenderedSize(items: seq<cstr>)
    requires items != []
    ensures |Join(items)| == TotalLength(items) + 2 * (|items| - 1)
    ensures RoomForItems(items) == 3 * TotalLength(items) + |items|
    decreases |items|
  {
    RoomInTotal(items);
    if |items| > 1 { RenderedSize(items[1..]); }
  }

  /**
   A rendered array fits into the first buffer unless it is long and made of
   short items: two bytes for every separator outgrow the room for them.
   */
  lemma ArrayFits(name: hname, items: seq<cstr>, encodeLen: nat)
    requires items != [] && encodeLen >= FIRST_ENCODE_LEN
    ensures var shown := (if |items| > 1 then 7 else 0) + TotalLength(items) + 2 * (|items| - 1);
            ValuesFit(encodeLen, [Header(name, Render(items), items)]) <==>
            shown < encodeLen || 2 * TotalLength(items) + 2 > |items| + if |items| > 1 then 7 else 0
  {
    RenderedSize(items);
    var h := Header(name, Render(items), items);
    assert [h][1..] == [];
  }

  lemma {:induction false} NonEmptyItemsTotal(items: seq<cstr>)
    requires forall i :: 0 <= i < |items| ==> items[i] != []
    ensures TotalLength(items) >= |items|
  {
    if items != [] { NonEmptyItemsTotal(items[1..]); }
  }

  /** In a reachable event whose array items are not empty every value fits. */
  lemma {:induction false} NonEmptyItemsFit(hs: seq<Header>, encodeLen: nat)
    requires encodeLen >= FIRST_ENCODE_LEN
    requires forall i :: 0 <= i < |hs| ==>
               SoundHeader(hs[i]) && forall k :: 0 <= k < |hs[i].items| ==> hs[i].items[k] != []
    ensures ValuesFit(encodeLen, hs)
    decreases |hs|
  {
    if hs != [] {
      var h := hs[0];
      if h.items != [] {
        NonEmptyItemsTotal(h.items);
        ArrayFits(h.name, h.items, encodeLen);
        assert h == Header(h.name, Render(h.items), h.items);
      }
      NonEmptyItemsFit(hs[1..], Max(encodeLen, Room(h)));
    }
  }

  lemma {:induction false} EmptyTotal(items: seq<cstr>)
    requires forall i :: 0 <= i < |items| ==> items[i] == []
    ensures TotalLength(items) == 0
  {
    if items != [] { EmptyTotal(items[1..]); }
  }

  /** Nothing of the event is cut. */
  ghost predicate Complete(e: Event) {
    Serialized(e.headers, e.body) == LinesOf(e.headers) + BodyBlock(e.body)
  }

  lemma SoundValuesAreNotEmpty(e: Event)
    requires Sound(e)
    ensures forall i :: 0 <= i < |e.headers| ==> e.headers[i].value != []
  {
    forall i | 0 <= i < |e.headers| ensures e.headers[i].value != [] {
      assert SoundHeader(e.headers[i]);
    }
  }

  /** After every run the serialization is complete exactly when values and body fit. */
  lemma ReachableIsComplete(actions: seq<Action>)
    ensures var e := Reached(actions);
            Complete(e) <==> ValuesFit(FIRST_ENCODE_LEN, e.headers) && !BodyIsTight(e.headers, e.body)
  {
    hide Reached, Serialized, LinesOf, BodyBlock, ValuesFit, UndefinedFits, BodyIsTight, Sound;
    ReachableIsSound(actions);
    ReachableBodyFits(actions);
    SoundValuesAreNotEmpty(Reached(actions));
    ValuesLeaveRoom(START.dlen, 0, Reached(actions).headers);
    SerializedIsComplete(Reached(actions).headers, Reached(actions).body);
  }

  /** The serialization of a reachable event with non-empty items and a body below a million bytes. */
  lemma ReachableIsSerializedCompletely(e: Event)
    requires Sound(e) && (e.body.Some? ==> |e.body.value| < 1_000_000)
    requires forall i, k :: 0 <= i < |e.headers| && 0 <= k < |e.headers[i].items| ==> e.headers[i].items[k] != []
    ensures Complete(e)
  {
    hide Serialized, LinesOf, BodyBlock, ValuesFit, UndefinedFits, BodyIsTight;
    SoundValuesAreNotEmpty(e);
    ValuesLeaveRoom(START.dlen, 0, e.headers);
    NonEmptyItemsFit(e.headers, FIRST_ENCODE_LEN);
    ShortBodyIsNotTight(e.headers, e.body);
    SerializedIsComplete(e.headers, e.body);
  }

  // ----- two events that are cut -----

  lemma LettersArePlain(n: nat)
    requires n > 0
    ensures Plain(Letters(n))
  {
    NoMarkerWithoutItsFirst(Letters(n));
  }

  /** One `x`, then `n` empty items pushed to the same header. */
  function EmptyPushes(name: hname, n: nat): seq<Action> {
    if n == 0 then [ActAdd(Push, name, [LETTER])] else EmptyPushes(name, n - 1) + [ActAdd(Push, name, [])]
  }

  function OneAndEmpty(n: nat): (items: seq<cstr>)
    ensures |items| == n + 1 && items[0] == [LETTER] && forall i :: 0 < i <= n ==> items[i] == []
  {
    [[LETTER]] + seq(n, _ => [])
  }

  lemma {:induction false} EmptyPushesBuild(name: hname, n: nat)
    requires name != Text(BODY_NAME) && n < INT_MAX
    ensures var items := OneAndEmpty(n);
            Reached(EmptyPushes(name, n)) == Event([Header(name, Render(items), items)], None, false, 0)
  {
    hide AddHeader, Render, OneAndEmpty;
    var start := Event([], None, false, 0);
    if n == 0 {
      LettersArePlain(1);
      assert Letters(1) == [LETTER] && OneAndEmpty(0) == [[LETTER]];
      ReachedStep([], ActAdd(Push, name, [LETTER]));
      assert [] + [ActAdd(Push, name, [LETTER])] == EmptyPushes(name, 0);
      PushFirst(start, name, [LETTER]);
    } else {
      EmptyPushesBuild(name, n - 1);
      var items := OneAndEmpty(n - 1);
      assert items + [[]] == OneAndEmpty(n);
      ReachedStep(EmptyPushes(name, n - 1), ActAdd(Push, name, []));
      PushToLast(start, Header(name, Render(items), items), []);
      assert [] + [Header(name, Render(items), items)] == [Header(name, Render(items), items)];
    }
  }

  /** With many empty items it goes wrong: one `x` and 800 empty pushes are cut. */
  lemma EmptyItemsAreCut(name: hname)
    requires name != Text(BODY_NAME)
    ensures !Complete(Reached(EmptyPushes(name, 800)))
  {
    hide Serialized, LinesOf, BodyBlock, ValuesFit, Reached, EmptyPushes, OneAndEmpty, BodyIsTight, Join;
    var items := OneAndEmpty(800);
    var h := Header(name, Render(items), items);
    EmptyPushesBuild(name, 800);
    EmptyTotal(items[1..]);
    ArrayFits(name, items, FIRST_ENCODE_LEN);
    RenderedSize(items);
    assert Render(items) != [];
    SerializedIsComplete([h], None);
  }

  /** Two headers and a long body. */
  function LongBody(): seq<Action> {
    [ActAdd(Bottom, [LETTER], Letters(1_000_000)), ActAdd(Bottom, [LETTER], Letters(2_000)),
     ActSetBody(Letters(1_002_037))]
  }

  lemma LongBodyEvent()
    ensures Reached(LongBody()) ==
            Event([Header([LETTER], Letters(1_000_000), []), Header([LETTER], Letters(2_000), [])],
                  Some(Letters(1_002_037)), false, 0)
  {
    hide AddHeader, Letters, Plain, Reached;
    var name: hname := [LETTER];
    var two := [ActAdd(Bottom, name, Letters(1_000_000)), ActAdd(Bottom, name, Letters(2_000))];
    ReachedStep(two, ActSetBody(Letters(1_002_037)));
    assert two + [ActSetBody(Letters(1_002_037))] == LongBody();
    LettersArePlain(1_000_000);
    LettersArePlain(2_000);
    assert |name| != |Text(BODY_NAME)|;
    TwoScalars(name, Letters(1_000_000), Letters(2_000));
  }

  lemma {:induction false} DigitsFrom(n: nat, k: nat)
    requires n >= PowerOfTen(k)
    ensures |Decimal(n)| > k
  {
    if k > 0 { DigitsFrom(n / 10, k - 1); }
  }

  /** Two lines and the room behind them. */
  lemma TwoLines(hs: seq<Header>)
    requires |hs| == 2 && hs[0].value != [] && hs[1].value != []
    ensures var size0, size1 := |hs[0].name| + |hs[0].value| + 3, |hs[1].name| + |hs[1].value| + 3;
            && |LinesOf(hs)| == size0 + size1
            && TextRoom(START.dlen, 0, hs) == Grown(Grown(START.dlen, 0, size0 + 5), size0, size1 + 5)
  {
    var rest := hs[1..];
    assert rest == [hs[1]] && rest[1..] == [];
    assert LinesOf(rest) == Line(hs[1].name, hs[1].value) + LinesOf(rest[1..]);
    var len := |hs[0].name| + |hs[0].value| + 3;
    var dlen := Grown(START.dlen, 0, len + 5);
    assert TextRoom(START.dlen, 0, hs) == TextRoom(dlen, len, rest);
  }

  /** A body of 1,002,037 bytes behind values of 1,000,000 and 2,000 bytes loses its end. */
  lemma LongBodyIsCut()
    ensures !Complete(Reached(LongBody()))
  {
    hide Serialized, BodyBlock, LinesOf, TextRoom, ValuesFit, Decimal, Reached, LongBody, Letters;
    LongBodyEvent();
    var e := Reached(LongBody());
    TwoLines(e.headers);
    assert PowerOfTen(6) == 1_000_000;
    DigitsFrom(1_002_037, 6);
    SerializedIsComplete(e.headers, e.body);
  }

  // ----- the serializer itself -----

  /** `snprintf` into the buffer from `at` on. */
  method Print(buf: array<byte>, at: nat, text: cstr)
    requires at < buf.Length
    modifies buf
    ensures IsString(buf[..], at, Fitted(text, buf.Length - at))
    ensures buf[..at] == old(buf[..at])
  {
    var n := Min(|text|, buf.Length - at - 1);
    forall i | 0 <= i < n {
      buf[at + i] := text[i];
    }
    buf[at + n] := 0;
    assert buf[..][at..at + n] == Fitted(text, buf.Length - at);
  }

  /** `realloc` to a larger size. */
  method Realloc(buf: array<byte>, size: nat) returns (m: array<byte>)
    requires buf.Length <= size
    ensures fresh(m) && m.Length == size && m[..buf.Length] == buf[..]
  {
    m := new byte[size];
    forall i | 0 <= i < buf.Length {
      m[i] := buf[i];
    }
  }

  lemma StringBehind(s: seq<byte>, a: cstr, b: cstr)
    requires |a| <= |s| && s[..|a|] == a && IsString(s, |a|, b)
    ensures IsString(s, 0, a + b)
  {
    assert s[0..|a + b|] == s[..|a|] + s[|a|..|a| + |b|];
  }

  /** Prints `more` behind the text in the buffer, which first grows when `llen` bytes seem to be missing. */
  method Extend(buf: array<byte>, ghost text: cstr, len: nat, llen: nat, more: cstr) returns (m: array<byte>)
    requires IsString(buf[..], 0, text) && len == |text|
    modifies buf
    ensures m == buf || fresh(m)
    ensures len < m.Length == Grown(buf.Length, len, llen)
    ensures IsString(m[..], 0, text + Fitted(more, m.Length - len))
  {
    m := buf;
    if len + llen > buf.Length {
      m := Realloc(buf, buf.Length + BLOCK_SIZE + len + llen);
    }
    assert m[..len] == text by {
      assert m[..len] == m[..buf.Length][..len];
      assert text == buf[..][0..len];
    }
    Print(m, len, more);
    StringBehind(m[..], text, Fitted(more, m.Length - len));
  }

  /** The sum of the rooms for the items, or the room for a scalar. */
  method RoomOf(hp: HeaderNode) returns (newLen: nat)
    ensures newLen == Room(hp.View())
  {
    if hp.items == [] { return 3 * |hp.value| + 1; }
    newLen := 0;
    for i := 0 to |hp.items|
      invariant newLen == RoomForItems(hp.items[..i])
    {
      assert hp.items[..i + 1][..i] == hp.items[..i];
      newLen := newLen + 3 * |hp.items[i]| + 1;
    }
    assert hp.items[..|hp.items|] == hp.items;
  }

  /** One turn of the header loop. */
  method WriteHeader(hp: HeaderNode, buf: array<byte>, ghost text: cstr, len: nat, encodeBuf: array<byte>)
    returns (buf': array<byte>, len': nat, encodeBuf': array<byte>)
    requires IsString(buf[..], 0, text) && len == |text| && encodeBuf.Length >= FIRST_ENCODE_LEN
    requires len < buf.Length && buf != encodeBuf
    modifies buf, encodeBuf
    ensures (buf' == buf || fresh(buf')) && (encodeBuf' == encodeBuf || fresh(encodeBuf')) && buf' != encodeBuf'
    ensures var r := AddLine(Output(text, buf.Length, encodeBuf.Length), hp.View());
            && IsString(buf'[..], 0, r.text) && len' == |r.text|
            && buf'.Length == r.dlen && encodeBuf'.Length == r.encodeLen
  {
    hide IsString, Line, Room, Fitted, Grown;
    encodeBuf' := encodeBuf;
    var newLen := RoomOf(hp);
    if encodeBuf.Length < newLen {
      encodeBuf' := Realloc(encodeBuf, newLen);
    }
    ghost var before := buf[..];
    Print(encodeBuf', 0, hp.value);
    assert buf[..] == before;
    var value := ReadString(encodeBuf', 0, Fitted(hp.value, encodeBuf'.Length));
    ghost var r := AddLine(Output(text, buf.Length, encodeBuf.Length), hp.View());
    buf' := Extend(buf, text, len, |hp.name| + |value| + 8, Line(hp.name, value));
    len' := StringLength(buf', 0, r.text);
  }

  lemma NextLine(s: Output, hs: seq<Header>, k: nat)
    requires |s.text| < s.dlen && s.encodeLen >= FIRST_ENCODE_LEN && k < |hs|
    ensures AddLines(s, hs[k..]) == AddLines(AddLine(s, hs[k]), hs[k + 1..])
  {
    assert hs[k..][1..] == hs[k + 1..];
  }

  lemma NoMoreLines(s: Output, hs: seq<Header>)
    requires |s.text| < s.dlen && s.encodeLen >= FIRST_ENCODE_LEN && hs == []
    ensures AddLines(s, hs) == s
  {
  }

  lemma EmptyString(s: seq<byte>)
    requires |s| > 0 && s[0] == 0
    ensures IsString(s, 0, [])
  {
  }

  method WriteBody(buf: array<byte>, ghost s: Output, len: nat, body: Option<cstr>) returns (str: cstr)
    requires |s.text| < s.dlen && IsString(buf[..], 0, s.text) && buf.Length == s.dlen && len == |s.text|
    modifies buf
    ensures str == AddBody(s, body)
  {
    hide IsString, Fitted, Decimal;
    var m: array<byte>;
    if body.Some? {
      var blen := |body.value|;
      var llen := blen + if blen > 0 then 25 else 5;
      m := Extend(buf, s.text, len, llen, BodyBlock(body));
    } else {
      m := Extend(buf, s.text, len, 0, BodyBlock(None));
    }
    str := ReadString(m, 0, AddBody(s, body));
  }

  /** `esl_event_serialize(event, str, false)` */
  method Serialize(event: EslEvent) returns (str: cstr)
    requires event.Valid()
    ensures str == Serialized(event.Headers(), event.body)
  {
    hide IsString, AddLine, AddLines, AddBody, EslEvent.Valid, EslEvent.NodeAt;
    var buf := new byte[BLOCK_SIZE * 2](_ => 0);
    var encodeBuf := new byte[FIRST_ENCODE_LEN](_ => 0);
    var len := 0;
    ghost var s, k: nat := START, 0;
    EmptyString(buf[..]);
    event.NodeFacts(0);
    var hp := event.headers;
    ghost var hs := event.Headers();
    while hp != null
      invariant event.Valid() && event.Headers() == hs && k <= |hs| && hp == event.NodeAt(k)
      invariant fresh(buf) && fresh(encodeBuf) && buf != encodeBuf
      invariant |s.text| < s.dlen && s.encodeLen >= FIRST_ENCODE_LEN
      invariant IsString(buf[..], 0, s.text) && s == Output(s.text, buf.Length, encodeBuf.Length) && len == |s.text|
      invariant AddLines(s, hs[k..]) == AddLines(START, hs)
      decreases |hs| - k
    {
      event.NodeFacts(k);
      NextLine(s, hs, k);
      ghost var next := AddLine(s, hp.View());
      buf, len, encodeBuf := WriteHeader(hp, buf, s.text, len, encodeBuf);
      s, hp, k := next, hp.next, k + 1;
    }
    event.NodeFacts(k);
    NoMoreLines(s, hs[k..]);
    str := WriteBody(buf, s, len, event.body);
  }
}
