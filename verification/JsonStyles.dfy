/** How the four printing styles differ, as transformations of the printed text. */
module JsonStyles {
  import opened Bytes
  import opened Members
  import opened Utf8
  import opened JsonStrings
  import opened JsonValues
  import opened JsonText
  import opened JsonGrammar
  import JsonRoundTrip

  // ----- escaped slashes -----

  /** What one byte is written as: itself, a short escape or six bytes. */
  lemma EscapedSizes(c: byte, slashes: bool)
    ensures EscapeByte(c, slashes) == [c] <==>
            c >= 0x20 && c != QUOTE && c != BACKSLASH && (c == SLASH ==> !slashes)
    ensures |EscapeByte(c, slashes)| == 6 <==> c < 0x20 && c !in {0x08, 0x09, 0x0A, 0x0C, 0x0D}
    ensures |EscapeByte(c, slashes)| == 6 ==>
              EscapeByte(c, slashes) ==
              [BACKSLASH, LOWER_U, 0x30, 0x30, LOWER_DIGITS[c / 16], LOWER_DIGITS[c % 16]]
    ensures EscapeByte(c, slashes) != [c] ==>
              |EscapeByte(c, slashes)| in {2, 6} && EscapeByte(c, slashes)[0] == BACKSLASH
  {
  }

  /** A backslash in front of every slash. */
  function WithSlashes(t: seq<byte>): seq<byte> {
    if t == [] then []
    else (if t[0] == SLASH then [BACKSLASH, SLASH] else [t[0]]) + WithSlashes(t[1..])
  }

  lemma {:induction false} SlashesJoin(a: seq<byte>, b: seq<byte>)
    ensures WithSlashes(a + b) == WithSlashes(a) + WithSlashes(b)
  {
    if a == [] {
      assert a + b == b;
    } else {
      assert (a + b)[0] == a[0] && (a + b)[1..] == a[1..] + b;
      SlashesJoin(a[1..], b);
    }
  }

  lemma {:induction false} NoSlashes(t: seq<byte>)
    requires SLASH !in t
    ensures WithSlashes(t) == t
  {
    if t != [] { NoSlashes(t[1..]); }
  }

  lemma SlashOfByte(c: byte)
    ensures EscapeByte(c, true) == WithSlashes(EscapeByte(c, false))
  {
    if c == SLASH {
      assert [SLASH][1..] == [] && WithSlashes([SLASH]) == [BACKSLASH, SLASH];
    } else {
      assert c < 0x20 ==> HexChar(c / 16) != SLASH && HexChar(c % 16) != SLASH;
      NoSlashes(EscapeByte(c, false));
    }
  }

  lemma {:induction false} SlashesOfString(t: seq<byte>)
    ensures EscapeAll(t, true) == WithSlashes(EscapeAll(t, false))
  {
    hide EscapeByte;
    if t != [] {
      SlashOfByte(t[0]);
      SlashesOfString(t[1..]);
      SlashesJoin(EscapeByte(t[0], false), EscapeAll(t[1..], false));
    }
  }

  lemma SlashesOfText(t: seq<byte>)
    ensures StringText(t, true) == WithSlashes(StringText(t, false))
  {
    SlashesOfString(t);
    var e := EscapeAll(t, false);
    NoSlashes([QUOTE]);
    SlashesJoin([QUOTE] + e, [QUOTE]);
    SlashesJoin([QUOTE], e);
  }

  lemma {:induction false} NoSlashInIndent(level: nat)
    ensures SLASH !in Indent(level)
  {
    if level > 0 { NoSlashInIndent(level - 1); }
  }

  lemma LayoutHasNoSlashes(level: nat, pretty: bool, slashes: bool, more: bool)
    ensures var s := Style(pretty, slashes);
            && WithSlashes(Pad(level, s)) == Pad(level, s) && WithSlashes(Break(s)) == Break(s)
            && WithSlashes(Comma(more)) == Comma(more) && WithSlashes(Colon(s)) == Colon(s)
            && forall b: byte :: b != SLASH ==> WithSlashes([b]) == [b]
  {
    var s := Style(pretty, slashes);
    NoSlashInIndent(level);
    NoSlashes(Pad(level, s));
    NoSlashes(Break(s));
    NoSlashes(Comma(more));
    NoSlashes(Colon(s));
    forall b: byte | b != SLASH ensures WithSlashes([b]) == [b] { NoSlashes([b]); }
  }

  /** Whether slashes are escaped makes no difference to the layout. */
  lemma SameLayout(level: nat, pretty: bool)
    ensures var s, s' := Style(pretty, false), Style(pretty, true);
            Pad(level, s) == Pad(level, s') && Break(s) == Break(s') && Colon(s) == Colon(s')
  {
  }

  lemma SlashesJoin5(a: seq<byte>, b: seq<byte>, c: seq<byte>, d: seq<byte>, e: seq<byte>)
    ensures WithSlashes(a + b + c + d + e) ==
            WithSlashes(a) + WithSlashes(b) + WithSlashes(c) + WithSlashes(d) + WithSlashes(e)
  {
    hide WithSlashes;
    SlashesJoin(a + b + c + d, e);
    SlashesJoin(a + b + c, d);
    SlashesJoin(a + b, c);
    SlashesJoin(a, b);
  }

  /** Escaped slashes are the only difference: a backslash in front of each slash. */
  lemma {:induction false} SlashesAreEscaped(v: Json, level: nat, pretty: bool)
    requires NumberFree(v)
    ensures ValueText(v, level, Style(pretty, true)) == WithSlashes(ValueText(v, level, Style(pretty, false)))
    decreases v, 1
  {
    hide WithSlashes, Pad, Break, StringText;
    var s := Style(pretty, false);
    LayoutHasNoSlashes(level, pretty, false, false);
    LayoutHasNoSlashes(level, pretty, true, false);
    SameLayout(level, pretty);
    match v
    case Null => NoSlashes(NULL_TOKEN);
    case Bool(flag) => NoSlashes(if flag then TRUE_TOKEN else FALSE_TOKEN);
    case Str(chars) => SlashesOfText(chars);
    case Arr(items) =>
      if items == [] { NoSlashes([LBRACKET, RBRACKET]); }
      else {
        SlashesOfItems(items, level, pretty);
        SlashesJoin5([LBRACKET], Break(s), ItemsText(items, level, s), Pad(level, s), [RBRACKET]);
      }
    case Obj(members) =>
      if members == [] { NoSlashes([LBRACE, RBRACE]); }
      else {
        SlashesOfMembers(members, level, pretty);
        SlashesJoin5([LBRACE], Break(s), MembersText(members, level, s), Pad(level, s), [RBRACE]);
      }
  }

  lemma {:induction false} SlashesOfItems(items: seq<Json>, level: nat, pretty: bool)
    requires forall i :: 0 <= i < |items| ==> NumberFree(items[i])
    ensures ItemsText(items, level, Style(pretty, true)) == WithSlashes(ItemsText(items, level, Style(pretty, false)))
    decreases items, 0
  {
    hide ValueText, Pad, Break, Comma, NumberFree;
    if items != [] {
      var s, more := Style(pretty, false), |items| > 1;
      LayoutHasNoSlashes(level + 1, pretty, false, more);
      SlashesAreEscaped(items[0], level + 1, pretty);
      SlashesOfItems(items[1..], level, pretty);
      var text, tail := ValueText(items[0], level + 1, s), ItemsText(items[1..], level, s);
      SlashesJoin5(Pad(level + 1, s), text, Comma(more), Break(s), tail);
      assert ItemsText(items, level, s) == Pad(level + 1, s) + text + Comma(more) + Break(s) + tail;
      SameLayout(level + 1, pretty);
    }
  }

  lemma {:induction false} SlashesOfMembers(members: seq<Member<Json>>, level: nat, pretty: bool)
    requires forall i :: 0 <= i < |members| ==> NumberFree(members[i].value)
    ensures MembersText(members, level, Style(pretty, true)) ==
            WithSlashes(MembersText(members, level, Style(pretty, false)))
    decreases members, 0
  {
    hide ValueText, Pad, Break, Comma, Colon, StringText, NumberFree;
    if members != [] {
      var s, more, m := Style(pretty, false), |members| > 1, members[0];
      LayoutHasNoSlashes(level + 1, pretty, false, more);
      SlashesAreEscaped(m.value, level + 1, pretty);
      SlashesOfText(m.name);
      SlashesOfMembers(members[1..], level, pretty);
      var a, b, c, d := Pad(level + 1, s), StringText(m.name, false), Colon(s), ValueText(m.value, level + 1, s);
      var tail := MembersText(members[1..], level, s);
      SlashesJoin5(a + b + c, d, Comma(more), Break(s), tail);
      SlashesJoin(a + b, c);
      SlashesJoin(a, b);
      assert MembersText(members, level, s) == a + b + c + d + Comma(more) + Break(s) + tail;
      SameLayout(level + 1, pretty);
    }
  }

  // ----- reading a text token by token -----

  /** How many bytes there are up to the quote that ends the string, that quote included. */
  function QuoteSize(t: seq<byte>): (n: nat)
    ensures n <= |t|
  {
    if t == [] then 0
    else if t[0] == QUOTE then 1
    else if t[0] == BACKSLASH && |t| > 1 then 2 + QuoteSize(t[2..])
    else 1 + QuoteSize(t[1..])
  }

  lemma {:induction false} QuoteBehindPlain(a: seq<byte>, rest: seq<byte>)
    requires QUOTE !in a && BACKSLASH !in a
    ensures QuoteSize(a + rest) == |a| + QuoteSize(rest)
  {
    if a == [] {
      assert a + rest == rest;
    } else {
      assert (a + rest)[0] == a[0] && (a + rest)[1..] == a[1..] + rest;
      QuoteBehindPlain(a[1..], rest);
    }
  }

  lemma QuoteBehindEscape(c: byte, a: seq<byte>, rest: seq<byte>)
    requires QUOTE !in a && BACKSLASH !in a
    ensures QuoteSize([BACKSLASH, c] + a + rest) == 2 + |a| + QuoteSize(rest)
  {
    assert ([BACKSLASH, c] + a + rest)[2..] == a + rest;
    QuoteBehindPlain(a, rest);
  }

  lemma QuoteBehindByte(c: byte, slashes: bool, rest: seq<byte>)
    ensures QuoteSize(EscapeByte(c, slashes) + rest) == |EscapeByte(c, slashes)| + QuoteSize(rest)
  {
    hide QuoteSize;
    var e := EscapeByte(c, slashes);
    if |e| == 1 {
      QuoteBehindPlain(e, rest);
    } else {
      assert c < 0x20 ==> HexChar(c / 16) !in {QUOTE, BACKSLASH} && HexChar(c % 16) !in {QUOTE, BACKSLASH};
      assert e == [BACKSLASH, e[1]] + e[2..];
      QuoteBehindEscape(e[1], e[2..], rest);
    }
  }

  lemma {:induction false} QuoteBehindText(t: seq<byte>, slashes: bool, rest: seq<byte>)
    ensures QuoteSize(EscapeAll(t, slashes) + [QUOTE] + rest) == |EscapeAll(t, slashes)| + 1
  {
    hide EscapeByte;
    var all := EscapeAll(t, slashes) + [QUOTE] + rest;
    if t == [] {
      assert all[0] == QUOTE;
    } else {
      var e, f := EscapeByte(t[0], slashes), EscapeAll(t[1..], slashes);
      assert all == e + (f + [QUOTE] + rest);
      QuoteBehindByte(t[0], slashes, f + [QUOTE] + rest);
      QuoteBehindText(t[1..], slashes, rest);
    }
  }

  /** The first string of a text that starts with one. */
  lemma StringIsFirst(t: seq<byte>, slashes: bool, rest: seq<byte>)
    ensures var text := StringText(t, slashes);
            && (text + rest)[0] == QUOTE && 1 + QuoteSize((text + rest)[1..]) == |text|
            && (text + rest)[..|text|] == text && (text + rest)[|text|..] == rest
  {
    QuoteBehindText(t, slashes, rest);
    var text := StringText(t, slashes);
    assert (text + rest)[1..] == EscapeAll(t, slashes) + [QUOTE] + rest;
  }

  // ----- white space outside strings -----

  /** The text without the white space outside its strings. */
  function Stripped(t: seq<byte>): seq<byte>
    decreases |t|
  {
    if t == [] then []
    else if t[0] == QUOTE then
      var n := 1 + QuoteSize(t[1..]);
      t[..n] + Stripped(t[n..])
    else (if IsSpace(t[0]) then [] else [t[0]]) + Stripped(t[1..])
  }

  lemma {:induction false} StripBlank(a: seq<byte>, rest: seq<byte>)
    requires forall i :: 0 <= i < |a| ==> IsSpace(a[i])
    ensures Stripped(a + rest) == Stripped(rest)
  {
    if a == [] {
      assert a + rest == rest;
    } else {
      assert (a + rest)[0] == a[0] && (a + rest)[1..] == a[1..] + rest;
      StripBlank(a[1..], rest);
    }
  }

  lemma {:induction false} StripSolid(a: seq<byte>, rest: seq<byte>)
    requires forall i :: 0 <= i < |a| ==> !IsSpace(a[i]) && a[i] != QUOTE
    ensures Stripped(a + rest) == a + Stripped(rest)
  {
    if a == [] {
      assert a + rest == rest;
    } else {
      assert (a + rest)[0] == a[0] && (a + rest)[1..] == a[1..] + rest;
      StripSolid(a[1..], rest);
      assert [a[0]] + (a[1..] + Stripped(rest)) == a + Stripped(rest);
    }
  }

  lemma StripString(t: seq<byte>, slashes: bool, rest: seq<byte>)
    ensures Stripped(StringText(t, slashes) + rest) == StringText(t, slashes) + Stripped(rest)
  {
    hide StringText;
    StringIsFirst(t, slashes, rest);
  }

  lemma {:induction false} IndentIsSpace(level: nat)
    ensures forall i :: 0 <= i < |Indent(level)| ==> IsSpace(Indent(level)[i])
  {
    if level > 0 { IndentIsSpace(level - 1); }
  }

  lemma StripPad(level: nat, style: Style, rest: seq<byte>)
    ensures Stripped(Pad(level, style) + rest) == Stripped(rest)
  {
    hide Stripped;
    IndentIsSpace(level);
    StripBlank(Pad(level, style), rest);
  }

  lemma StripBreak(style: Style, rest: seq<byte>)
    ensures Stripped(Break(style) + rest) == Stripped(rest)
  {
    hide Stripped;
    StripBlank(Break(style), rest);
  }

  lemma StripComma(more: bool, rest: seq<byte>)
    ensures Stripped(Comma(more) + rest) == Comma(more) + Stripped(rest)
  {
    hide Stripped;
    StripSolid(Comma(more), rest);
  }

  lemma StripColon(style: Style, rest: seq<byte>)
    ensures Stripped(Colon(style) + rest) == [COLON] + Stripped(rest)
  {
    hide Stripped;
    if style.pretty {
      assert Colon(style) + rest == [COLON] + ([SPACE] + rest);
      StripBlank([SPACE], rest);
      StripSolid([COLON], [SPACE] + rest);
    } else {
      StripSolid([COLON], rest);
    }
  }

  lemma StripBracket(b: byte, rest: seq<byte>)
    requires b in {LBRACKET, RBRACKET, LBRACE, RBRACE}
    ensures Stripped([b] + rest) == [b] + Stripped(rest)
  {
    hide Stripped;
    StripSolid([b], rest);
  }

  // ----- the texts of containers, piece by piece -----

  lemma Spread5(a: seq<byte>, b: seq<byte>, c: seq<byte>, d: seq<byte>, e: seq<byte>, f: seq<byte>)
    ensures a + b + c + d + e + f == a + (b + (c + (d + (e + f))))
  {
  }

  lemma ItemsSpread(items: seq<Json>, level: nat, style: Style, rest: seq<byte>)
    requires items != [] && forall i :: 0 <= i < |items| ==> NumberFree(items[i])
    ensures ItemsText(items, level, style) + rest ==
            Pad(level + 1, style) + (ValueText(items[0], level + 1, style) + (Comma(|items| > 1)
            + (Break(style) + (ItemsText(items[1..], level, style) + rest))))
  {
    hide Pad, ValueText, Comma, Break, NumberFree;
    var a, b, c, d := Pad(level + 1, style), ValueText(items[0], level + 1, style), Comma(|items| > 1), Break(style);
    var e := ItemsText(items[1..], level, style);
    assert ItemsText(items, level, style) == a + b + c + d + e;
    Spread5(a, b, c, d, e, rest);
  }

  lemma MembersSpread(members: seq<Member<Json>>, level: nat, style: Style, rest: seq<byte>)
    requires members != [] && forall i :: 0 <= i < |members| ==> NumberFree(members[i].value)
    ensures var m := members[0];
            MembersText(members, level, style) + rest ==
            Pad(level + 1, style) + (StringText(m.name, style.slashes) + (Colon(style)
            + (ValueText(m.value, level + 1, style) + (Comma(|members| > 1)
            + (Break(style) + (MembersText(members[1..], level, style) + rest))))))
  {
    hide Pad, ValueText, Comma, Break, Colon, StringText, NumberFree;
    var m := members[0];
    var a, b, c := Pad(level + 1, style), StringText(m.name, style.slashes), Colon(style);
    var d, e, f := ValueText(m.value, level + 1, style), Comma(|members| > 1), Break(style);
    var g := MembersText(members[1..], level, style);
    assert MembersText(members, level, style) == a + b + c + d + e + f + g;
    Spread5(a + b + c, d, e, f, g, rest);
    Associative(a + b, c, d + (e + (f + (g + rest))));
    Associative(a, b, c + (d + (e + (f + (g + rest)))));
  }

  lemma CompactLayout(level: nat, slashes: bool)
    ensures var c := Style(false, slashes); Pad(level, c) == [] && Break(c) == [] && Colon(c) == [COLON]
  {
  }

  /** In compact text nothing stands between the pieces. */
  lemma CompactItems(items: seq<Json>, level: nat, slashes: bool, rest: seq<byte>)
    requires items != [] && forall i :: 0 <= i < |items| ==> NumberFree(items[i])
    ensures var c := Style(false, slashes);
            ItemsText(items, level, c) + rest ==
            ValueText(items[0], level + 1, c) + (Comma(|items| > 1) + (ItemsText(items[1..], level, c) + rest))
  {
    hide ValueText, Comma, ItemsText, NumberFree;
    ItemsSpread(items, level, Style(false, slashes), rest);
    CompactLayout(level + 1, slashes);
  }

  lemma CompactMembers(members: seq<Member<Json>>, level: nat, slashes: bool, rest: seq<byte>)
    requires members != [] && forall i :: 0 <= i < |members| ==> NumberFree(members[i].value)
    ensures var c, m := Style(false, slashes), members[0];
            MembersText(members, level, c) + rest ==
            StringText(m.name, slashes) + ([COLON] + (ValueText(m.value, level + 1, c) + (Comma(|members| > 1)
            + (MembersText(members[1..], level, c) + rest))))
  {
    hide ValueText, Comma, MembersText, NumberFree, StringText;
    MembersSpread(members, level, Style(false, slashes), rest);
    CompactLayout(level + 1, slashes);
  }

  lemma NothingToSpread(level: nat, style: Style, rest: seq<byte>)
    ensures ItemsText([], level, style) + rest == rest && MembersText([], level, style) + rest == rest
  {
  }

  lemma StripContainer(open: byte, inner: seq<byte>, compact: seq<byte>, close: byte, level: nat, style: Style,
                       rest: seq<byte>)
    requires open in {LBRACKET, LBRACE} && close in {RBRACKET, RBRACE}
    requires var tail := Pad(level, style) + ([close] + rest); Stripped(inner + tail) == compact + Stripped(tail)
    ensures var c := Style(false, style.slashes);
            Stripped([open] + Break(style) + inner + Pad(level, style) + [close] + rest) ==
            [open] + Break(c) + compact + Pad(level, c) + [close] + Stripped(rest)
  {
    hide Stripped, Pad, Break;
    var pad, brk := Pad(level, style), Break(style);
    var tail := pad + ([close] + rest);
    CompactLayout(level, style.slashes);
    assert [open] + brk + inner + pad + [close] + rest == [open] + (brk + (inner + tail));
    StripBracket(open, brk + (inner + tail));
    StripBreak(style, inner + tail);
    StripPad(level, style, [close] + rest);
    StripBracket(close, rest);
    assert [open] + (compact + ([close] + Stripped(rest))) == [open] + [] + compact + [] + [close] + Stripped(rest);
  }

  /** The compact text has no white space outside strings, and the pretty one differs from it by white space alone. */
  lemma {:induction false} PrettyIsCompactAndSpaces(v: Json, level: nat, style: Style, rest: seq<byte>)
    requires NumberFree(v)
    ensures Stripped(ValueText(v, level, style) + rest) ==
            ValueText(v, level, Style(false, style.slashes)) + Stripped(rest)
    decreases v, 1
  {
    hide Stripped, Pad, Break, StringText;
    var c := Style(false, style.slashes);
    match v
    case Null => StripSolid(NULL_TOKEN, rest);
    case Bool(flag) => StripSolid(if flag then TRUE_TOKEN else FALSE_TOKEN, rest);
    case Str(chars) => StripString(chars, style.slashes, rest);
    case Arr(items) =>
      if items == [] { StripSolid([LBRACKET, RBRACKET], rest); }
      else {
        StripItems(items, level, style, Pad(level, style) + ([RBRACKET] + rest));
        StripContainer(LBRACKET, ItemsText(items, level, style), ItemsText(items, level, c), RBRACKET,
                       level, style, rest);
      }
    case Obj(members) =>
      if members == [] { StripSolid([LBRACE, RBRACE], rest); }
      else {
        StripMembers(members, level, style, Pad(level, style) + ([RBRACE] + rest));
        StripContainer(LBRACE, MembersText(members, level, style), MembersText(members, level, c), RBRACE,
                       level, style, rest);
      }
  }

  lemma {:induction false} StripItems(items: seq<Json>, level: nat, style: Style, rest: seq<byte>)
    requires forall i :: 0 <= i < |items| ==> NumberFree(items[i])
    ensures Stripped(ItemsText(items, level, style) + rest) ==
            ItemsText(items, level, Style(false, style.slashes)) + Stripped(rest)
    decreases items, 0
  {
    hide ItemsText, Stripped, Pad, Break, Comma, ValueText, NumberFree;
    var c := Style(false, style.slashes);
    if items == [] {
      NothingToSpread(level, style, rest);
      NothingToSpread(level, c, Stripped(rest));
    } else {
      var more, behind := |items| > 1, ItemsText(items[1..], level, style) + rest;
      var text, brk := ValueText(items[0], level + 1, style), Break(style);
      ItemsSpread(items, level, style, rest);
      StripPad(level + 1, style, text + (Comma(more) + (brk + behind)));
      PrettyIsCompactAndSpaces(items[0], level + 1, style, Comma(more) + (brk + behind));
      StripComma(more, brk + behind);
      StripBreak(style, behind);
      StripItems(items[1..], level, style, rest);
      CompactItems(items, level, style.slashes, Stripped(rest));
    }
  }

  lemma {:induction false} StripMembers(members: seq<Member<Json>>, level: nat, style: Style, rest: seq<byte>)
    requires forall i :: 0 <= i < |members| ==> NumberFree(members[i].value)
    ensures Stripped(MembersText(members, level, style) + rest) ==
            MembersText(members, level, Style(false, style.slashes)) + Stripped(rest)
    decreases members, 0
  {
    hide MembersText, Stripped, Pad, Break, Comma, Colon, ValueText, StringText, NumberFree;
    var c := Style(false, style.slashes);
    if members == [] {
      NothingToSpread(level, style, rest);
      NothingToSpread(level, c, Stripped(rest));
    } else {
      var m, more, last := members[0], |members| > 1, MembersText(members[1..], level, style) + rest;
      var name, text, brk := StringText(m.name, style.slashes), ValueText(m.value, level + 1, style), Break(style);
      var behind := text + (Comma(more) + (brk + last));
      MembersSpread(members, level, style, rest);
      StripPad(level + 1, style, name + (Colon(style) + behind));
      StripString(m.name, style.slashes, Colon(style) + behind);
      StripColon(style, behind);
      PrettyIsCompactAndSpaces(m.value, level + 1, style, Comma(more) + (brk + last));
      StripComma(more, brk + last);
      StripBreak(style, last);
      StripMembers(members[1..], level, style, rest);
      CompactMembers(members, level, style.slashes, Stripped(rest));
    }
  }

  // ----- line ends and indentation -----

  predicate Opens(b: byte) {
    b == LBRACKET || b == LBRACE
  }

  predicate ClosesOne(b: byte) {
    b == RBRACKET || b == RBRACE
  }

  /**
   A compact text laid out over lines, within `level` brackets: an opening bracket
   and a comma end a line, a closing bracket starts one (unless it closes an empty
   container), each line is indented by the brackets around it, and a space
   follows a colon.
   */
  function LaidOut(t: seq<byte>, level: nat): seq<byte>
    decreases |t|
  {
    if t == [] then []
    else if t[0] == QUOTE then
      var n := 1 + QuoteSize(t[1..]);
      t[..n] + LaidOut(t[n..], level)
    else if Opens(t[0]) then
      if |t| > 1 && ClosesOne(t[1]) then t[..2] + LaidOut(t[2..], level)
      else [t[0], NEWLINE] + Indent(level + 1) + LaidOut(t[1..], level + 1)
    else if ClosesOne(t[0]) && level > 0 then [NEWLINE] + Indent(level - 1) + [t[0]] + LaidOut(t[1..], level - 1)
    else if t[0] == COMMA then [COMMA, NEWLINE] + Indent(level) + LaidOut(t[1..], level)
    else if t[0] == COLON then [COLON, SPACE] + LaidOut(t[1..], level)
    else [t[0]] + LaidOut(t[1..], level)
  }

  lemma {:induction false} LaySolid(a: seq<byte>, rest: seq<byte>, level: nat)
    requires forall i :: 0 <= i < |a| ==> a[i] !in {QUOTE, COMMA, COLON} && !Opens(a[i]) && !ClosesOne(a[i])
    ensures LaidOut(a + rest, level) == a + LaidOut(rest, level)
  {
    if a == [] {
      assert a + rest == rest;
    } else {
      assert (a + rest)[0] == a[0] && (a + rest)[1..] == a[1..] + rest;
      LaySolid(a[1..], rest, level);
      assert [a[0]] + (a[1..] + LaidOut(rest, level)) == a + LaidOut(rest, level);
    }
  }

  lemma LayString(t: seq<byte>, slashes: bool, rest: seq<byte>, level: nat)
    ensures LaidOut(StringText(t, slashes) + rest, level) == StringText(t, slashes) + LaidOut(rest, level)
  {
    hide StringText;
    StringIsFirst(t, slashes, rest);
  }

  lemma LayEmpty(open: byte, close: byte, rest: seq<byte>, level: nat)
    requires Opens(open) && ClosesOne(close)
    ensures LaidOut([open, close] + rest, level) == [open, close] + LaidOut(rest, level)
  {
    var t := [open, close] + rest;
    assert t[..2] == [open, close] && t[2..] == rest;
  }

  lemma TwoAndMore(a: byte, b: byte, c: seq<byte>, d: seq<byte>)
    ensures [a, b] + c + d == [a] + ([b] + (c + d))
  {
  }

  lemma LayOpen(open: byte, rest: seq<byte>, level: nat)
    requires Opens(open) && rest != [] && !ClosesOne(rest[0])
    ensures LaidOut([open] + rest, level) == [open] + ([NEWLINE] + (Indent(level + 1) + LaidOut(rest, level + 1)))
  {
    hide Indent, QuoteSize;
    var t := [open] + rest;
    assert t[0] == open && t[1] == rest[0] && t[1..] == rest;
    TwoAndMore(open, NEWLINE, Indent(level + 1), LaidOut(rest, level + 1));
  }

  lemma LayClose(close: byte, rest: seq<byte>, level: nat)
    requires ClosesOne(close)
    ensures LaidOut([close] + rest, level + 1) == [NEWLINE] + (Indent(level) + ([close] + LaidOut(rest, level)))
  {
    hide Indent, QuoteSize;
    var t, line := [close] + rest, Indent(level);
    assert t[0] == close && t[1..] == rest;
    Associative([NEWLINE] + line, [close], LaidOut(rest, level));
    Associative([NEWLINE], line, [close] + LaidOut(rest, level));
  }

  lemma LayComma(rest: seq<byte>, level: nat)
    ensures LaidOut([COMMA] + rest, level) == [COMMA] + ([NEWLINE] + (Indent(level) + LaidOut(rest, level)))
  {
    hide Indent, QuoteSize;
    var t := [COMMA] + rest;
    assert t[0] == COMMA && t[1..] == rest;
    TwoAndMore(COMMA, NEWLINE, Indent(level), LaidOut(rest, level));
  }

  lemma LayColon(rest: seq<byte>, level: nat)
    ensures LaidOut([COLON] + rest, level) == [COLON, SPACE] + LaidOut(rest, level)
  {
    assert ([COLON] + rest)[1..] == rest;
  }

  lemma PrettyLayout(level: nat, slashes: bool)
    ensures var p := Style(true, slashes);
            Pad(level, p) == Indent(level) && Break(p) == [NEWLINE] && Colon(p) == [COLON, SPACE]
    ensures Comma(true) == [COMMA] && Comma(false) == []
  {
  }

  lemma ContainerSpread(open: byte, brk: seq<byte>, inner: seq<byte>, pad: seq<byte>, close: byte, rest: seq<byte>)
    ensures [open] + brk + inner + pad + [close] + rest == [open] + (brk + (inner + (pad + ([close] + rest))))
  {
    Spread5([open], brk, inner, pad, [close], rest);
  }

  /** A container that is not empty, given how its elements are laid out. */
  lemma LayContainer(open: byte, compact: seq<byte>, pretty: seq<byte>, close: byte, level: nat, slashes: bool,
                     rest: seq<byte>)
    requires Opens(open) && ClosesOne(close) && compact != [] && !ClosesOne(compact[0])
    requires Indent(level + 1) + LaidOut(compact + ([close] + rest), level + 1) ==
             pretty + (Indent(level) + ([close] + LaidOut(rest, level)))
    ensures var c, p := Style(false, slashes), Style(true, slashes);
            LaidOut([open] + Break(c) + compact + Pad(level, c) + [close] + rest, level) ==
            [open] + Break(p) + pretty + Pad(level, p) + [close] + LaidOut(rest, level)
  {
    hide LaidOut, Indent;
    CompactLayout(level, slashes);
    PrettyLayout(level, slashes);
    ContainerSpread(open, [], compact, [], close, rest);
    assert [] + (compact + ([] + ([close] + rest))) == compact + ([close] + rest);
    LayOpen(open, compact + ([close] + rest), level);
    ContainerSpread(open, [NEWLINE], pretty, Indent(level), close, LaidOut(rest, level));
  }

  lemma ItemsStart(items: seq<Json>, level: nat, slashes: bool)
    requires items != [] && forall i :: 0 <= i < |items| ==> NumberFree(items[i])
    ensures var t := ItemsText(items, level, Style(false, slashes)); t != [] && !ClosesOne(t[0])
  {
    hide ValueText, ItemsText, Comma;
    JsonRoundTrip.ValueTextStarts(items[0], level + 1, Style(false, slashes));
    CompactItems(items, level, slashes, []);
    var t := ItemsText(items, level, Style(false, slashes));
    assert t + [] == t;
  }

  lemma MembersStart(members: seq<Member<Json>>, level: nat, slashes: bool)
    requires members != [] && forall i :: 0 <= i < |members| ==> NumberFree(members[i].value)
    ensures var t := MembersText(members, level, Style(false, slashes)); t != [] && !ClosesOne(t[0])
  {
    hide ValueText, MembersText, Comma;
    CompactMembers(members, level, slashes, []);
    var t := MembersText(members, level, Style(false, slashes));
    assert t + [] == t;
  }

  /** The pretty text is the compact one laid out over lines. */
  lemma {:induction false} PrettyIsLaidOut(v: Json, level: nat, slashes: bool, rest: seq<byte>)
    requires NumberFree(v)
    ensures LaidOut(ValueText(v, level, Style(false, slashes)) + rest, level) ==
            ValueText(v, level, Style(true, slashes)) + LaidOut(rest, level)
    decreases v, 1
  {
    hide LaidOut, Pad, Break, StringText, ItemsText, MembersText;
    var c, p := Style(false, slashes), Style(true, slashes);
    match v
    case Null => LaySolid(NULL_TOKEN, rest, level);
    case Bool(flag) => LaySolid(if flag then TRUE_TOKEN else FALSE_TOKEN, rest, level);
    case Str(chars) => LayString(chars, slashes, rest, level);
    case Arr(items) =>
      if items == [] { LayEmpty(LBRACKET, RBRACKET, rest, level); }
      else {
        LayItems(items, level, slashes, rest);
        LayContainer(LBRACKET, ItemsText(items, level, c), ItemsText(items, level, p), RBRACKET, level, slashes, rest);
      }
    case Obj(members) =>
      if members == [] { LayEmpty(LBRACE, RBRACE, rest, level); }
      else {
        LayMembers(members, level, slashes, rest);
        LayContainer(LBRACE, MembersText(members, level, c), MembersText(members, level, p), RBRACE,
                     level, slashes, rest);
      }
  }

  /** The items, each on a line of its own, and the closing bracket. */
  lemma {:induction false} LayItems(items: seq<Json>, level: nat, slashes: bool, rest: seq<byte>)
    requires items != [] && forall i :: 0 <= i < |items| ==> NumberFree(items[i])
    ensures var c, p := Style(false, slashes), Style(true, slashes);
            && Indent(level + 1) + LaidOut(ItemsText(items, level, c) + ([RBRACKET] + rest), level + 1) ==
               ItemsText(items, level, p) + (Indent(level) + ([RBRACKET] + LaidOut(rest, level)))
            && ItemsText(items, level, c) != [] && !ClosesOne(ItemsText(items, level, c)[0])
    decreases items, 0
  {
    hide LaidOut, Indent, Comma, ValueText, NumberFree, ItemsText;
    var c, p, more := Style(false, slashes), Style(true, slashes), |items| > 1;
    ItemsStart(items, level, slashes);
    PrettyLayout(level + 1, slashes);
    CompactItems(items, level, slashes, [RBRACKET] + rest);
    var end := Indent(level) + ([RBRACKET] + LaidOut(rest, level));
    ItemsSpread(items, level, p, end);
    if more {
      var behind := ItemsText(items[1..], level, c) + ([RBRACKET] + rest);
      PrettyIsLaidOut(items[0], level + 1, slashes, [COMMA] + behind);
      LayComma(behind, level + 1);
      LayItems(items[1..], level, slashes, rest);
    } else {
      assert items[1..] == [];
      NothingToSpread(level, c, [RBRACKET] + rest);
      NothingToSpread(level, p, end);
      assert [] + ([RBRACKET] + rest) == [RBRACKET] + rest && [] + ([NEWLINE] + end) == [NEWLINE] + end;
      PrettyIsLaidOut(items[0], level + 1, slashes, [RBRACKET] + rest);
      LayClose(RBRACKET, rest, level);
    }
  }

  lemma {:induction false} LayMembers(members: seq<Member<Json>>, level: nat, slashes: bool, rest: seq<byte>)
    requires members != [] && forall i :: 0 <= i < |members| ==> NumberFree(members[i].value)
    ensures var c, p := Style(false, slashes), Style(true, slashes);
            && Indent(level + 1) + LaidOut(MembersText(members, level, c) + ([RBRACE] + rest), level + 1) ==
               MembersText(members, level, p) + (Indent(level) + ([RBRACE] + LaidOut(rest, level)))
            && MembersText(members, level, c) != [] && !ClosesOne(MembersText(members, level, c)[0])
    decreases members, 0
  {
    hide LaidOut, Indent, Comma, ValueText, NumberFree, MembersText, StringText;
    var c, p, more, m := Style(false, slashes), Style(true, slashes), |members| > 1, members[0];
    MembersStart(members, level, slashes);
    PrettyLayout(level + 1, slashes);
    CompactMembers(members, level, slashes, [RBRACE] + rest);
    var end := Indent(level) + ([RBRACE] + LaidOut(rest, level));
    MembersSpread(members, level, p, end);
    var last := MembersText(members[1..], level, c) + ([RBRACE] + rest);
    var behind := Comma(more) + last;
    LayString(m.name, slashes, [COLON] + (ValueText(m.value, level + 1, c) + behind), level + 1);
    LayColon(ValueText(m.value, level + 1, c) + behind, level + 1);
    PrettyIsLaidOut(m.value, level + 1, slashes, behind);
    if more {
      LayComma(last, level + 1);
      LayMembers(members[1..], level, slashes, rest);
    } else {
      assert members[1..] == [];
      NothingToSpread(level, c, [RBRACE] + rest);
      NothingToSpread(level, p, end);
      assert [] + ([RBRACE] + rest) == [RBRACE] + rest && [] + ([NEWLINE] + end) == [NEWLINE] + end;
      LayClose(RBRACE, rest, level);
    }
  }

  /**
   The styles of a whole text: escaping slashes puts a backslash in front of each,
   the compact text is the pretty one without the white space outside strings, and
   the pretty text is the compact one laid out over lines.
   */
  lemma StylesOfText(v: Json, pretty: bool, slashes: bool)
    requires NumberFree(v)
    ensures ValueText(v, 0, Style(pretty, true)) == WithSlashes(ValueText(v, 0, Style(pretty, false)))
    ensures Stripped(ValueText(v, 0, Style(pretty, slashes))) == ValueText(v, 0, Style(false, slashes))
    ensures ValueText(v, 0, Style(true, slashes)) == LaidOut(ValueText(v, 0, Style(false, slashes)), 0)
  {
    hide ValueText, WithSlashes;
    SlashesAreEscaped(v, 0, pretty);
    PrettyIsCompactAndSpaces(v, 0, Style(pretty, slashes), []);
    PrettyIsLaidOut(v, 0, slashes, []);
    assert forall t: seq<byte> :: t + [] == t;
  }
}
