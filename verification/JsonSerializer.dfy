/**
 Serialization in two passes over the same code: without a buffer it only
 counts, with a buffer it writes. Both yield `ValueText`.
 */
module JsonSerializer {
  import opened Bytes
  import opened Members
  import opened JsonStrings
  import opened JsonValues
  import opened JsonText

  /** `serialization_buffer`: a write position (or none) and the count of characters. */
  class SerializationBuffer {
    const data: array?<byte>
    var cursor: nat
    var writtenTotal: int
    ghost const before: seq<byte>  // what stands in front of the output
    ghost const target: seq<byte>  // the whole output
    ghost var text: seq<byte>      // the output so far

    /** `rest` is missing from the output, and the count and the buffer agree with that. */
    ghost predicate StillToWrite(rest: seq<byte>)
      reads this, data
    {
      && text + rest == target
      && (|target| <= INT_MAX ==> writtenTotal == |text|)
      && (data != null ==>
            && |target| <= INT_MAX && |before| + |target| < data.Length
            && cursor == |before| + |text| && data[..cursor] == before + text)
    }

    constructor (data: array?<byte>, start: nat, ghost target: seq<byte>)
      requires data != null ==> start + |target| < data.Length && |target| <= INT_MAX
      ensures this.data == data && this.target == target && StillToWrite(target)
      ensures data != null ==> before == data[..start]
    {
      this.data, cursor, writtenTotal := data, start, 0;
      this.target, text := target, [];
      before := if data == null then [] else data[..start];
      new;
      assert [] + target == target;
      assert data != null ==> before + [] == before;
    }

    ghost predicate Terminated()
      reads this, data
    {
      data != null && cursor < data.Length ==> data[cursor] == 0
    }

    method CheckedAdd(add: nat) returns (ok: bool)
      modifies this`writtenTotal
      ensures ok <==> 0 <= old(writtenTotal) && old(writtenTotal) + add <= INT_MAX
      ensures writtenTotal == if ok then old(writtenTotal) + add else old(writtenTotal)
    {
      if writtenTotal < 0 { return false; }
      if add > INT_MAX - writtenTotal { return false; }
      writtenTotal := writtenTotal + add;
      return true;
    }

    method AppendLiteral(literal: seq<byte>, ghost rest: seq<byte>)
      requires StillToWrite(literal + rest)
      modifies this, data
      ensures StillToWrite(rest) && Terminated()
    {
      assert text + (literal + rest) == text + literal + rest;
      text := text + literal;
      if writtenTotal < 0 { return; }
      if data != null {
        forall k | 0 <= k < |literal| {
          data[cursor + k] := literal[k];
        }
        data[cursor + |literal|] := 0;
        cursor := cursor + |literal|;
        assert data[..cursor] == before + text;
      }
      var ok := CheckedAdd(|literal|);
      if !ok { writtenTotal := -1; }
    }

    method AppendChar(c: byte, ghost rest: seq<byte>) returns (ok: bool)
      requires StillToWrite([c] + rest)
      modifies this, data
      ensures StillToWrite(rest)
      ensures |target| <= INT_MAX ==> ok
    {
      assert text + ([c] + rest) == text + [c] + rest;
      text := text + [c];
      if data != null {
        data[cursor] := c;
        cursor := cursor + 1;
        assert data[..cursor] == before + text;
      }
      ok := CheckedAdd(1);
    }

    method AppendIf(cond: bool, literal: seq<byte>, ghost rest: seq<byte>)
      requires StillToWrite((if cond then literal else []) + rest)
      modifies this, data
      ensures StillToWrite(rest)
    {
      if cond { AppendLiteral(literal, rest); } else { assert [] + rest == rest; }
    }

    method AppendIndent(level: nat, ghost rest: seq<byte>)
      requires StillToWrite(Indent(level) + rest)
      modifies this, data
      ensures StillToWrite(rest)
    {
      for i := 0 to level
        invariant StillToWrite(Indent(level - i) + rest)
      {
        assert INDENT + Indent(level - i - 1) + rest == INDENT + (Indent(level - i - 1) + rest);
        AppendLiteral(INDENT, Indent(level - i - 1) + rest);
      }
      assert [] + rest == rest;
    }

    method AppendIndentIf(cond: bool, level: nat, ghost rest: seq<byte>)
      requires StillToWrite((if cond then Indent(level) else []) + rest)
      modifies this, data
      ensures StillToWrite(rest)
    {
      if cond { AppendIndent(level, rest); } else { assert [] + rest == rest; }
    }

    /** A nested call has written `piece` at the cursor and returned `written`. */
    ghost predicate NestedWrote(piece: seq<byte>, rest: seq<byte>, written: int)
      reads this, data
    {
      && text + (piece + rest) == target
      && (|target| <= INT_MAX ==> writtenTotal == |text| && written == |piece|)
      && (data != null ==>
            && |target| <= INT_MAX && |before| + |target| < data.Length
            && cursor == |before| + |text| && data[..cursor + |piece|] == before + text + piece)
    }

    /** Moves past the output of a nested call. Only member values are added without a check. */
    method Advance(written: nat, checked: bool, ghost piece: seq<byte>, ghost rest: seq<byte>) returns (ok: bool)
      requires NestedWrote(piece, rest, written)
      modifies this
      ensures StillToWrite(rest)
      ensures |target| <= INT_MAX ==> ok
    {
      assert text + (piece + rest) == text + piece + rest;
      assert before + text + piece == before + (text + piece);
      text := text + piece;
      if data != null { cursor := cursor + written; }
      if checked {
        ok := CheckedAdd(written);
      } else {
        writtenTotal, ok := writtenTotal + written, true;
      }
    }

    /** When nothing is left to write, the count and the buffer hold the whole output. */
    lemma Finished()
      requires StillToWrite([]) && Terminated()
      ensures |target| <= INT_MAX ==> writtenTotal == |target|
      ensures data != null ==>
                && |target| <= INT_MAX && |before| + |target| < data.Length
                && data[..|before| + |target|] == before + target && data[|before| + |target|] == 0
    {
      assert text + [] == text;
    }

    lemma RestFits(piece: seq<byte>, rest: seq<byte>)
      requires StillToWrite(piece + rest)
      ensures |piece| <= |target|
      ensures data != null ==> cursor + |piece| < data.Length && |target| <= INT_MAX
    {
      assert |target| == |text| + |piece| + |rest|;
    }
  }

  /** The loop body of `json_serialize_string`: a plain character is appended alone, others as literals. */
  method SerializeChar(out: SerializationBuffer, c: byte, slashes: bool, ghost rest: seq<byte>) returns (ok: bool)
    requires out.StillToWrite(EscapeByte(c, slashes) + rest)
    modifies out, out.data
    ensures ok ==> out.StillToWrite(rest)
    ensures |out.target| <= INT_MAX ==> ok
  {
    hide SerializationBuffer.StillToWrite;
    if EscapeByte(c, slashes) == [c] && c != SLASH {
      ok := out.AppendChar(c, rest);
    } else {
      out.AppendLiteral(EscapeByte(c, slashes), rest);
      ok := true;
    }
  }

  lemma EscapedFirst(t: seq<byte>, i: nat, slashes: bool)
    requires i < |t|
    ensures EscapeAll(t[i..], slashes) + [QUOTE] ==
            EscapeByte(t[i], slashes) + (EscapeAll(t[i + 1..], slashes) + [QUOTE])
  {
    assert t[i..][1..] == t[i + 1..];
  }

  lemma NothingEscaped(t: seq<byte>, slashes: bool)
    requires t == []
    ensures EscapeAll(t, slashes) + [QUOTE] == [QUOTE] + []
  {
  }

  /** `json_serialize_string`. */
  method SerializeString(t: seq<byte>, slashes: bool, buf: array?<byte>, start: nat) returns (written: int)
    requires buf != null ==> start + |StringText(t, slashes)| < buf.Length && |StringText(t, slashes)| <= INT_MAX
    modifies buf
    ensures |StringText(t, slashes)| <= INT_MAX ==> written == |StringText(t, slashes)|
    ensures buf != null ==>
              && buf[..start + written] == old(buf[..start]) + StringText(t, slashes)
              && buf[start + written] == 0
  {
    hide EscapeAll, SerializationBuffer.StillToWrite, SerializationBuffer.Terminated;
    var out := new SerializationBuffer(buf, start, StringText(t, slashes));
    assert t[0..] == t;
    assert StringText(t, slashes) == [QUOTE] + (EscapeAll(t, slashes) + [QUOTE]);
    out.AppendLiteral([QUOTE], EscapeAll(t, slashes) + [QUOTE]);
    for i := 0 to |t|
      invariant fresh(out) && out.StillToWrite(EscapeAll(t[i..], slashes) + [QUOTE])
    {
      EscapedFirst(t, i, slashes);
      var ok := SerializeChar(out, t[i], slashes, EscapeAll(t[i + 1..], slashes) + [QUOTE]);
      if !ok { return -1; }
    }
    NothingEscaped(t[|t|..], slashes);
    out.AppendLiteral([QUOTE], []);
    out.Finished();
    return out.writtenTotal;
  }

  method SerializeLiteral(literal: seq<byte>, buf: array?<byte>, start: nat) returns (written: int)
    requires buf != null ==> start + |literal| < buf.Length && |literal| <= INT_MAX
    modifies buf
    ensures |literal| <= INT_MAX ==> written == |literal|
    ensures buf != null ==> buf[..start + written] == old(buf[..start]) + literal && buf[start + written] == 0
  {
    hide SerializationBuffer.StillToWrite, SerializationBuffer.Terminated;
    var out := new SerializationBuffer(buf, start, literal);
    assert literal == literal + [];
    out.AppendLiteral(literal, []);
    out.Finished();
    return out.writtenTotal;
  }

  // ----- the texts of containers, as the loops write them -----

  ghost function ItemsEnd(items: seq<Json>, level: nat, style: Style, end: seq<byte>): seq<byte>
    requires forall i :: 0 <= i < |items| ==> NumberFree(items[i])
  {
    ItemsText(items, level, style) + end
  }

  /** What stands behind the last item: a line start (if there are items) and the bracket. */
  ghost function End(count: nat, level: nat, style: Style, bracket: byte): seq<byte> {
    (if count > 0 && style.pretty then Indent(level) else []) + [bracket]
  }

  ghost function MembersEnd(members: seq<Member<Json>>, level: nat, style: Style, end: seq<byte>): seq<byte>
    requires forall i :: 0 <= i < |members| ==> NumberFree(members[i].value)
  {
    MembersText(members, level, style) + end
  }

  ghost function Opening(count: nat, style: Style): seq<byte> {
    if count > 0 && style.pretty then [NEWLINE] else []
  }

  lemma ContainerParts(v: Json, level: nat, style: Style)
    requires NumberFree(v)
    ensures v.Arr? ==>
              ValueText(v, level, style) == [LBRACKET] + (Opening(|v.items|, style)
              + ItemsEnd(v.items, level, style, End(|v.items|, level, style, RBRACKET)))
    ensures v.Obj? ==>
              ValueText(v, level, style) == [LBRACE] + (Opening(|v.members|, style)
              + MembersEnd(v.members, level, style, End(|v.members|, level, style, RBRACE)))
  {
  }

  method OpenContainer(out: SerializationBuffer, count: nat, style: Style, bracket: byte, ghost rest: seq<byte>)
    requires out.StillToWrite([bracket] + (Opening(count, style) + rest))
    modifies out, out.data
    ensures out.StillToWrite(rest)
  {
    hide SerializationBuffer.StillToWrite;
    out.AppendLiteral([bracket], Opening(count, style) + rest);
    out.AppendIf(count > 0 && style.pretty, [NEWLINE], rest);
  }

  method CloseContainer(out: SerializationBuffer, count: nat, level: nat, style: Style, bracket: byte)
    requires out.StillToWrite(End(count, level, style, bracket))
    modifies out, out.data
    ensures out.StillToWrite([]) && out.Terminated()
  {
    hide SerializationBuffer.StillToWrite, SerializationBuffer.Terminated, Indent;
    out.AppendIndentIf(count > 0 && style.pretty, level, [bracket]);
    assert [bracket] + [] == [bracket];
    out.AppendLiteral([bracket], []);
  }

  lemma ItemParts(items: seq<Json>, level: nat, style: Style, end: seq<byte>)
    requires items != [] && forall i :: 0 <= i < |items| ==> NumberFree(items[i])
    ensures ItemsEnd(items, level, style, end) ==
            Pad(level + 1, style) + (ValueText(items[0], level + 1, style)
            + (Comma(|items| > 1) + (Break(style) + ItemsEnd(items[1..], level, style, end))))
  {
    hide Pad, ValueText, Comma, Break, Indent;
    var a, b, c, d := Pad(level + 1, style), ValueText(items[0], level + 1, style), Comma(|items| > 1), Break(style);
    var e := ItemsText(items[1..], level, style);
    assert ItemText(items[0], level, style, |items| > 1) == a + b + c + d;
    assert ItemsText(items, level, style) == ItemText(items[0], level, style, |items| > 1) + e;
    assert a + b + c + d + e + end == a + (b + (c + (d + (e + end))));
  }

  lemma NothingLeft(level: nat, style: Style, end: seq<byte>)
    ensures ItemsEnd([], level, style, end) == end && MembersEnd([], level, style, end) == end
  {
  }

  /** A nested call for a name, and the move past its output. */
  method AppendString(out: SerializationBuffer, name: seq<byte>, style: Style, ghost rest: seq<byte>)
    returns (ok: bool)
    requires out.StillToWrite(StringText(name, style.slashes) + rest)
    modifies out, out.data
    ensures ok ==> out.StillToWrite(rest)
    ensures |out.target| <= INT_MAX ==> ok
  {
    hide StringText;
    out.RestFits(StringText(name, style.slashes), rest);
    var n := SerializeString(name, style.slashes, out.data, out.cursor);
    if n < 0 { return false; }
    ok := out.Advance(n, true, StringText(name, style.slashes), rest);
  }

  lemma SevenParts(a: seq<byte>, b: seq<byte>, c1: seq<byte>, c2: seq<byte>, d: seq<byte>, e: seq<byte>, f: seq<byte>,
                   rest: seq<byte>)
    ensures a + b + (c1 + c2) + d + e + f + rest == a + (b + (c1 + (c2 + (d + (e + (f + rest))))))
  {
    var t := d + (e + (f + rest));
    assert a + b + (c1 + c2) + d + e + f + rest == a + b + (c1 + c2) + t;
    assert b + (c1 + (c2 + t)) == b + (c1 + c2) + t;
    assert a + (b + (c1 + c2) + t) == a + b + (c1 + c2) + t;
  }

  lemma MemberParts(members: seq<Member<Json>>, level: nat, style: Style, end: seq<byte>)
    requires members != [] && forall i :: 0 <= i < |members| ==> NumberFree(members[i].value)
    ensures MembersEnd(members, level, style, end) ==
            Pad(level + 1, style) + (StringText(members[0].name, style.slashes)
            + ([COLON] + ((if style.pretty then [SPACE] else []) + (ValueText(members[0].value, level + 1, style)
            + (Comma(|members| > 1) + (Break(style) + MembersEnd(members[1..], level, style, end)))))))
  {
    hide Pad, ValueText, Comma, Break, Indent, StringText;
    var m, blank := members[0], if style.pretty then [SPACE] else [];
    var a, b, c := Pad(level + 1, style), StringText(m.name, style.slashes), Colon(style);
    var d, e, f := ValueText(m.value, level + 1, style), Comma(|members| > 1), Break(style);
    var g := MembersText(members[1..], level, style);
    assert MembersText(members, level, style) == a + b + c + d + e + f + g;
    assert c == [COLON] + blank;
    SevenParts(a, b, [COLON], blank, d, e, f, g + end);
    assert a + b + c + d + e + f + g + end == a + b + c + d + e + f + (g + end);
  }

  /** `json_serialize_to_buffer_r`. */
  method SerializeToBufferR(v: Json, buf: array?<byte>, start: nat, level: nat, style: Style) returns (written: int)
    requires NumberFree(v)
    requires buf != null ==>
               start + |ValueText(v, level, style)| < buf.Length && |ValueText(v, level, style)| <= INT_MAX
    modifies buf
    ensures |ValueText(v, level, style)| <= INT_MAX ==> written == |ValueText(v, level, style)|
    ensures buf != null ==>
              && buf[..start + written] == old(buf[..start]) + ValueText(v, level, style)
              && buf[start + written] == 0
    decreases v, 2
  {
    match v
    case Arr(items) => written := SerializeArray(v, buf, start, level, style);
    case Obj(members) => written := SerializeObject(v, buf, start, level, style);
    case Str(chars) => written := SerializeString(chars, style.slashes, buf, start);
    case Bool(flag) => written := SerializeLiteral(if flag then TRUE_TOKEN else FALSE_TOKEN, buf, start);
    case Null => written := SerializeLiteral(NULL_TOKEN, buf, start);
  }

  method SerializeArray(v: Json, buf: array?<byte>, start: nat, level: nat, style: Style) returns (written: int)
    requires v.Arr? && NumberFree(v) && forall i :: 0 <= i < |v.items| ==> NumberFree(v.items[i])
    requires buf != null ==>
               start + |ValueText(v, level, style)| < buf.Length && |ValueText(v, level, style)| <= INT_MAX
    modifies buf
    ensures |ValueText(v, level, style)| <= INT_MAX ==> written == |ValueText(v, level, style)|
    ensures buf != null ==>
              && buf[..start + written] == old(buf[..start]) + ValueText(v, level, style)
              && buf[start + written] == 0
    decreases v, 1
  {
    hide ValueText, ItemsText, ItemsEnd, End, Indent, NumberFree, SerializationBuffer.StillToWrite,
         SerializationBuffer.Terminated;
    ghost var end := End(|v.items|, level, style, RBRACKET);
    var out := new SerializationBuffer(buf, start, ValueText(v, level, style));
    ContainerParts(v, level, style);
    OpenContainer(out, |v.items|, style, LBRACKET, ItemsEnd(v.items, level, style, end));
    var ok := SerializeItems(out, v, level, style, end);
    if !ok { return -1; }
    CloseContainer(out, |v.items|, level, style, RBRACKET);
    out.Finished();
    return out.writtenTotal;
  }

  /** The item loop. */
  method SerializeItems(out: SerializationBuffer, v: Json, level: nat, style: Style, ghost end: seq<byte>)
    returns (ok: bool)
    requires v.Arr? && forall i :: 0 <= i < |v.items| ==> NumberFree(v.items[i])
    requires out.StillToWrite(ItemsEnd(v.items, level, style, end))
    modifies out, out.data
    ensures ok ==> out.StillToWrite(end)
    ensures |out.target| <= INT_MAX ==> ok
    decreases v, 0
  {
    hide ValueText, ItemsText, ItemsEnd, Indent, NumberFree, Pad, Break, Comma,
         SerializationBuffer.StillToWrite;
    var items, count := v.items, |v.items|;
    assert items[0..] == items;
    for i := 0 to count
      invariant out.StillToWrite(ItemsEnd(items[i..], level, style, end))
    {
      ItemParts(items[i..], level, style, end);
      assert items[i..][1..] == items[i + 1..];
      ok := SerializeItem(out, items[i], i < count - 1, level, style, ItemsEnd(items[i + 1..], level, style, end));
      if !ok { return; }
    }
    NothingLeft(level, style, end);
    assert items[count..] == [];
    ok := true;
  }

  /** A nested call for a value, and the move past its output. */
  method AppendValue(out: SerializationBuffer, v: Json, level: nat, style: Style, checked: bool, ghost rest: seq<byte>)
    returns (ok: bool)
    requires NumberFree(v) && out.StillToWrite(ValueText(v, level, style) + rest)
    modifies out, out.data
    ensures ok ==> out.StillToWrite(rest)
    ensures |out.target| <= INT_MAX ==> ok
    decreases v, 3
  {
    hide ValueText;
    out.RestFits(ValueText(v, level, style), rest);
    var n := SerializeToBufferR(v, out.data, out.cursor, level, style);
    if n < 0 { return false; }
    ok := out.Advance(n, checked, ValueText(v, level, style), rest);
  }

  /** The body of the item loop. */
  method SerializeItem(out: SerializationBuffer, item: Json, more: bool, level: nat, style: Style,
                       ghost rest: seq<byte>) returns (ok: bool)
    requires NumberFree(item)
    requires out.StillToWrite(Pad(level + 1, style) + (ValueText(item, level + 1, style)
                              + (Comma(more) + (Break(style) + rest))))
    modifies out, out.data
    ensures ok ==> out.StillToWrite(rest)
    ensures |out.target| <= INT_MAX ==> ok
    decreases item, 4
  {
    hide ValueText, Indent, SerializationBuffer.StillToWrite;
    ghost var text, after := ValueText(item, level + 1, style), Comma(more) + (Break(style) + rest);
    out.AppendIndentIf(style.pretty, level + 1, text + after);
    ok := AppendValue(out, item, level + 1, style, true, after);
    if !ok { return false; }
    out.AppendIf(more, [COMMA], Break(style) + rest);
    out.AppendIf(style.pretty, [NEWLINE], rest);
  }

  /** The body of the member loop; the count of the value's characters is added without a check. */
  method SerializeMember(out: SerializationBuffer, m: Member<Json>, more: bool, level: nat, style: Style,
                         ghost rest: seq<byte>) returns (ok: bool)
    requires NumberFree(m.value)
    requires out.StillToWrite(
               Pad(level + 1, style) + (StringText(m.name, style.slashes)
               + ([COLON] + ((if style.pretty then [SPACE] else []) + (ValueText(m.value, level + 1, style)
               + (Comma(more) + (Break(style) + rest)))))))
    modifies out, out.data
    ensures ok ==> out.StillToWrite(rest)
    ensures |out.target| <= INT_MAX ==> ok
    decreases m, 4
  {
    hide ValueText, Indent, StringText, SerializationBuffer.StillToWrite;
    ghost var name, text := StringText(m.name, style.slashes), ValueText(m.value, level + 1, style);
    ghost var after := Comma(more) + (Break(style) + rest);
    ghost var value := (if style.pretty then [SPACE] else []) + (text + after);
    out.AppendIndentIf(style.pretty, level + 1, name + ([COLON] + value));
    ok := AppendString(out, m.name, style, [COLON] + value);
    if !ok { return false; }
    out.AppendLiteral([COLON], value);
    out.AppendIf(style.pretty, [SPACE], text + after);
    ok := AppendValue(out, m.value, level + 1, style, false, after);
    if !ok { return false; }
    out.AppendIf(more, [COMMA], Break(style) + rest);
    out.AppendIf(style.pretty, [NEWLINE], rest);
  }

  method SerializeObject(v: Json, buf: array?<byte>, start: nat, level: nat, style: Style) returns (written: int)
    requires v.Obj? && NumberFree(v) && forall i :: 0 <= i < |v.members| ==> NumberFree(v.members[i].value)
    requires buf != null ==>
               start + |ValueText(v, level, style)| < buf.Length && |ValueText(v, level, style)| <= INT_MAX
    modifies buf
    ensures |ValueText(v, level, style)| <= INT_MAX ==> written == |ValueText(v, level, style)|
    ensures buf != null ==>
              && buf[..start + written] == old(buf[..start]) + ValueText(v, level, style)
              && buf[start + written] == 0
    decreases v, 1
  {
    hide ValueText, MembersText, MembersEnd, End, Indent, NumberFree, SerializationBuffer.StillToWrite,
         SerializationBuffer.Terminated;
    ghost var end := End(|v.members|, level, style, RBRACE);
    var out := new SerializationBuffer(buf, start, ValueText(v, level, style));
    ContainerParts(v, level, style);
    OpenContainer(out, |v.members|, style, LBRACE, MembersEnd(v.members, level, style, end));
    var ok := SerializeMembers(out, v, level, style, end);
    if !ok { return -1; }
    CloseContainer(out, |v.members|, level, style, RBRACE);
    out.Finished();
    return out.writtenTotal;
  }

  /** The member loop. */
  method SerializeMembers(out: SerializationBuffer, v: Json, level: nat, style: Style, ghost end: seq<byte>)
    returns (ok: bool)
    requires v.Obj? && forall i :: 0 <= i < |v.members| ==> NumberFree(v.members[i].value)
    requires out.StillToWrite(MembersEnd(v.members, level, style, end))
    modifies out, out.data
    ensures ok ==> out.StillToWrite(end)
    ensures |out.target| <= INT_MAX ==> ok
    decreases v, 0
  {
    hide ValueText, MembersText, MembersEnd, Indent, NumberFree, Pad, Break, Comma, StringText,
         SerializationBuffer.StillToWrite;
    var members, count := v.members, |v.members|;
    assert members[0..] == members;
    for i := 0 to count
      invariant out.StillToWrite(MembersEnd(members[i..], level, style, end))
    {
      MemberParts(members[i..], level, style, end);
      assert members[i..][1..] == members[i + 1..];
      ok := SerializeMember(out, members[i], i < count - 1, level, style,
                            MembersEnd(members[i + 1..], level, style, end));
      if !ok { return; }
    }
    NothingLeft(level, style, end);
    assert members[count..] == [];
    ok := true;
  }

  // ----- sizes, and the calls of a user -----

  /** `json_serialization_size` and its pretty twin: the size of the text and its terminator. */
  method SerializationSize(v: Json, style: Style) returns (size: nat)
    requires NumberFree(v)
    ensures |ValueText(v, 0, style)| <= INT_MAX ==> size == |ValueText(v, 0, style)| + 1
  {
    var res := SerializeToBufferR(v, null, 0, 0, style);
    size := if res < 0 then 0 else res + 1;
  }

  /** `json_serialize_to_buffer` and its pretty twin. */
  method SerializeToBuffer(v: Json, buf: array<byte>, style: Style) returns (ok: bool)
    requires NumberFree(v) && |ValueText(v, 0, style)| <= INT_MAX
    modifies buf
    ensures ok <==> |ValueText(v, 0, style)| < buf.Length
    ensures ok ==> buf[..|ValueText(v, 0, style)|] == ValueText(v, 0, style) && buf[|ValueText(v, 0, style)|] == 0
    ensures !ok ==> buf[..] == old(buf[..])
  {
    hide ValueText;
    var needed := SerializationSize(v, style);
    if needed == 0 || buf.Length < needed { return false; }
    var written := SerializeToBufferR(v, buf, 0, 0, style);
    return written >= 0;
  }

  /**
   `json_serialize_to_string` and its pretty twin: the buffer holds exactly the
   text and its terminator.
   */
  method SerializeToString(v: Json, style: Style) returns (buf: array<byte>)
    requires NumberFree(v) && |ValueText(v, 0, style)| <= INT_MAX
    ensures buf[..] == ValueText(v, 0, style) + [0]
  {
    hide ValueText;
    var size := SerializationSize(v, style);
    buf := new byte[size];
    var ok := SerializeToBuffer(v, buf, style);
    assert buf[..] == buf[..size - 1] + [buf[size - 1]];
  }
}
