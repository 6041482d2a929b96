/** Parsing what was serialized gives the value back, up to the nesting limit. */
module JsonRoundTrip {
  import opened Bytes
  import opened Members
  import opened JsonStrings
  import opened JsonValues
  import opened JsonText
  import opened JsonGrammar

  // ----- blanks -----

  ghost predicate Blank(w: seq<byte>) {
    forall d :: 0 <= d < |w| ==> IsSpace(w[d])
  }

  lemma {:induction false} SkipBlank(s: cstr, p: nat, w: seq<byte>)
    requires Occurs(s, p, w) && Blank(w)
    ensures SkipSpaces(s, p) == SkipSpaces(s, p + |w|)
    decreases |w|
  {
    if w != [] {
      OccursAt(s, p, w, 0);
      OccursSplit(s, p, [w[0]], w[1..]);
      assert [w[0]] + w[1..] == w;
      SkipBlank(s, p + 1, w[1..]);
    }
  }

  lemma {:induction false} IndentBlank(level: nat)
    ensures Blank(Indent(level))
  {
    if level > 0 { IndentBlank(level - 1); }
  }

  lemma PadAndBreakBlank(level: nat, style: Style)
    ensures Blank(Pad(level, style)) && Blank(Break(style))
  {
    IndentBlank(level);
  }

  /** No value text starts with white space, a separator or a closing bracket. */
  predicate StartsValue(b: byte) {
    !IsSpace(b) && b !in {0, COMMA, COLON, RBRACE, RBRACKET} && b < 0x80
  }

  lemma ValueTextStarts(v: Json, level: nat, style: Style)
    requires NumberFree(v)
    ensures var t := ValueText(v, level, style); t != [] && StartsValue(t[0])
  {
  }

  // ----- how container texts are laid out -----

  function ItemsTail(items: seq<Json>, level: nat, style: Style): seq<byte>
    requires forall i :: 0 <= i < |items| ==> NumberFree(items[i])
  {
    ItemsText(items, level, style) + Pad(level, style) + [RBRACKET]
  }

  function MembersTail(members: seq<Member<Json>>, level: nat, style: Style): seq<byte>
    requires forall i :: 0 <= i < |members| ==> NumberFree(members[i].value)
  {
    MembersText(members, level, style) + Pad(level, style) + [RBRACE]
  }

  lemma ItemsLayout(items: seq<Json>, level: nat, style: Style)
    requires items != [] && forall i :: 0 <= i < |items| ==> NumberFree(items[i])
    ensures ItemsTail(items, level, style) ==
            Pad(level + 1, style) + (ValueText(items[0], level + 1, style)
            + (Comma(|items| > 1) + (Break(style) + ItemsTail(items[1..], level, style))))
  {
    hide Pad, ValueText, Comma, Break, Indent;
    var a, b, c, d := Pad(level + 1, style), ValueText(items[0], level + 1, style), Comma(|items| > 1), Break(style);
    var e, f, g := ItemsText(items[1..], level, style), Pad(level, style), [RBRACKET];
    assert ItemText(items[0], level, style, |items| > 1) == a + b + c + d;
    assert ItemsText(items, level, style) == ItemText(items[0], level, style, |items| > 1) + e;
    assert a + b + c + d + e + f + g == a + (b + (c + (d + (e + f + g))));
  }

  lemma MembersLayout(members: seq<Member<Json>>, level: nat, style: Style)
    requires members != [] && forall i :: 0 <= i < |members| ==> NumberFree(members[i].value)
    ensures MembersTail(members, level, style) ==
            Pad(level + 1, style) + (StringText(members[0].name, style.slashes)
            + (Colon(style) + (ValueText(members[0].value, level + 1, style)
            + (Comma(|members| > 1) + (Break(style) + MembersTail(members[1..], level, style))))))
  {
    hide Pad, ValueText, Comma, Break, Colon, StringText, Indent;
    var m := members[0];
    var a, b, c := Pad(level + 1, style), StringText(m.name, style.slashes), Colon(style);
    var d, e, f := ValueText(m.value, level + 1, style), Comma(|members| > 1), Break(style);
    var g, h, i := MembersText(members[1..], level, style), Pad(level, style), [RBRACE];
    assert MemberText(m, level, style, |members| > 1) == a + b + c + d + e + f;
    assert MembersText(members, level, style) == MemberText(m, level, style, |members| > 1) + g;
    assert a + b + c + d + e + f + g + h + i == a + (b + (c + (d + (e + (f + (g + h + i))))));
  }

  /** The end of a container: what follows its last value. */
  lemma ClosingLayout(s: cstr, p: nat, level: nat, style: Style, bracket: byte)
    requires Occurs(s, p, Pad(level, style) + [bracket]) && !IsSpace(bracket)
    ensures SkipSpaces(s, p) == p + |Pad(level, style)| && At(s, SkipSpaces(s, p)) == bracket
  {
    OccursSplit(s, p, Pad(level, style), [bracket]);
    OccursAt(s, p + |Pad(level, style)|, [bracket], 0);
    PadAndBreakBlank(level, style);
    SkipBlank(s, p, Pad(level, style));
  }

  // ----- the theorem -----

  lemma ScalarRoundTrip(s: cstr, p: nat, v: Json, level: nat, style: Style, nesting: nat)
    requires NumberFree(v) && !v.Arr? && !v.Obj? && nesting <= MAX_NESTING
    requires Occurs(s, p, ValueText(v, level, style))
    ensures ParseValue(s, p, nesting) == Parsed(v, p + |ValueText(v, level, style)|)
  {
    hide QuotedString, EscapeAll, ParseArray, ParseObject, Height;
    var text := ValueText(v, level, style);
    OccursAt(s, p, text, 0);
    if v.Bool? { OccursAt(s, p, text, 1); OccursAt(s, p, text, 0); }
    if v.Str? { StringRoundTrip(s, p, v.chars, style.slashes); }
  }

  lemma NoSpaceToSkip(s: cstr, p: nat)
    requires !IsSpace(At(s, p))
    ensures SkipSpaces(s, p) == p
  {
  }

  lemma NoItemsTail(level: nat, style: Style)
    ensures ItemsTail([], level, style) == Pad(level, style) + [RBRACKET]
    ensures MembersTail([], level, style) == Pad(level, style) + [RBRACE]
  {
  }

  lemma NotYetThere(done: seq<Member<Json>>, members: seq<Member<Json>>)
    requires members != [] && Distinct(done + members)
    ensures !Has(done, members[0].name)
  {
    assert (done + members)[|done|] == members[0];
    assert forall i :: 0 <= i < |done| ==> (done + members)[i] == done[i];
  }

  lemma StringTextStarts(s: cstr, p: nat, t: seq<byte>, slashes: bool)
    requires Occurs(s, p, StringText(t, slashes))
    ensures At(s, p) == QUOTE
  {
    OccursAt(s, p, StringText(t, slashes), 0);
  }

  lemma ColonLayout(s: cstr, c: nat, style: Style)
    requires Occurs(s, c, Colon(style))
    ensures At(s, c) == COLON
  {
    OccursAt(s, c, Colon(style), 0);
  }

  /** Behind the colon the parser finds the value, skipping the blank of the pretty form. */
  lemma SpaceInFront(s: cstr, p: nat, nesting: nat)
    requires p < |s| && s[p] == SPACE
    ensures ParseValue(s, p, nesting) == ParseValue(s, p + 1, nesting)
  {
    hide ParseArray, ParseObject, ParseString, ParseBoolean, ParseNull;
    assert SkipSpaces(s, p) == SkipSpaces(s, p + 1);
  }

  /** Where the parts of the first item stand, and what the parser skips in front of them. */
  lemma FirstItemParts(s: cstr, p: nat, items: seq<Json>, level: nat, style: Style)
    requires items != [] && forall i :: 0 <= i < |items| ==> NumberFree(items[i])
    requires Occurs(s, p, ItemsTail(items, level, style))
    ensures var q := p + |Pad(level + 1, style)|;
            var n := q + |ValueText(items[0], level + 1, style)|;
            var rest := n + |Comma(|items| > 1)|;
            var next := rest + |Break(style)|;
            && SkipSpaces(s, p) == q && At(s, q) !in {0, RBRACKET}
            && Occurs(s, q, ValueText(items[0], level + 1, style))
            && Occurs(s, n, Comma(|items| > 1))
            && SkipSpaces(s, rest) == SkipSpaces(s, next)
            && Occurs(s, next, ItemsTail(items[1..], level, style))
            && next + |ItemsTail(items[1..], level, style)| == p + |ItemsTail(items, level, style)|
  {
    hide SkipSpaces, Pad, ValueText, Break, Comma, ItemsText, ItemsTail, Occurs, NumberFree, Blank;
    var pad, text := Pad(level + 1, style), ValueText(items[0], level + 1, style);
    var comma, brk, tail := Comma(|items| > 1), Break(style), ItemsTail(items[1..], level, style);
    var q := p + |pad|;
    var n := q + |text|;
    ItemsLayout(items, level, style);
    OccursParts(s, p, pad, text, comma, brk, tail);
    PadAndBreakBlank(level + 1, style);
    SkipBlank(s, p, pad);
    SkipBlank(s, n + |comma|, brk);
    ValueTextStarts(items[0], level + 1, style);
    OccursAt(s, q, text, 0);
    NoSpaceToSkip(s, q);
  }

  lemma CommaGoesOn(s: cstr, n: nat)
    requires Occurs(s, n, Comma(true)) && At(s, SkipSpaces(s, n + 1)) != RBRACKET
    ensures AfterElement(s, n, RBRACKET) == Separator(true, SkipSpaces(s, n + 1))
  {
    OccursAt(s, n, Comma(true), 0);
    NoSpaceToSkip(s, n);
  }

  lemma LastItemCloses(s: cstr, n: nat, done: seq<Json>, level: nat, style: Style)
    requires SkipSpaces(s, n) == SkipSpaces(s, n + |Break(style)|)
    requires Occurs(s, n + |Break(style)|, ItemsTail([], level, style))
    ensures var sep := AfterElement(s, n, RBRACKET);
            && !sep.more
            && CloseArray(s, sep.next, done) ==
               Parsed(Arr(done), n + |Break(style)| + |ItemsTail([], level, style)|)
  {
    hide SkipSpaces, Pad, Break, ItemsTail, Occurs;
    NoItemsTail(level, style);
    ClosingLayout(s, n + |Break(style)|, level, style, RBRACKET);
    NoSpaceToSkip(s, SkipSpaces(s, n));
  }

  lemma {:induction false} ValueRoundTrip(s: cstr, p: nat, v: Json, level: nat, style: Style, nesting: nat)
    requires WellFormed(v) && NumberFree(v)
    requires Occurs(s, p, ValueText(v, level, style))
    ensures ParseValue(s, p, nesting) ==
            if nesting + Height(v) <= MAX_NESTING then Parsed(v, p + |ValueText(v, level, style)|) else Rejected
    decreases v, 1
  {
    if nesting <= MAX_NESTING {
      match v
      case Arr(items) => ArrayRoundTrip(s, p, v, level, style, nesting);
      case Obj(members) => ObjectRoundTrip(s, p, v, level, style, nesting);
      case _ => ScalarRoundTrip(s, p, v, level, style, nesting);
    }
  }

  lemma {:induction false} ArrayRoundTrip(s: cstr, p: nat, v: Json, level: nat, style: Style, nesting: nat)
    requires WellFormed(v) && NumberFree(v) && v.Arr? && nesting <= MAX_NESTING
    requires Occurs(s, p, ValueText(v, level, style))
    ensures ParseValue(s, p, nesting) ==
            if nesting + Height(v) <= MAX_NESTING then Parsed(v, p + |ValueText(v, level, style)|) else Rejected
    decreases v, 0
  {
    hide ParseItems, ParseObject, ItemsText, Pad, Break, SkipSpaces, Occurs, HeightOfItems;
    var text := ValueText(v, level, style);
    OccursAt(s, p, text, 0);
    NoSpaceToSkip(s, p);
    if v.items == [] {
      OccursAt(s, p, text, 1);
      NoSpaceToSkip(s, p + 1);
    } else {
      var tail := ItemsTail(v.items, level, style);
      assert text == [LBRACKET] + (Break(style) + tail);
      OccursSplit(s, p, [LBRACKET], Break(style) + tail);
      OccursSplit(s, p + 1, Break(style), tail);
      PadAndBreakBlank(level, style);
      SkipBlank(s, p + 1, Break(style));
      ItemsRoundTrip(s, p + 1 + |Break(style)|, v.items, [], level, style, nesting + 1);
      assert [] + v.items == v.items;
    }
  }

  lemma {:induction false} ItemsRoundTrip(s: cstr, p: nat, items: seq<Json>, done: seq<Json>,
                                          level: nat, style: Style, nesting: nat)
    requires items != []
    requires forall i :: 0 <= i < |items| ==> WellFormed(items[i]) && NumberFree(items[i])
    requires Occurs(s, p, ItemsTail(items, level, style))
    ensures var start := SkipSpaces(s, p);
            && At(s, start) != RBRACKET
            && ParseItems(s, start, nesting, done) ==
               if nesting + HeightOfItems(items) <= MAX_NESTING
               then Parsed(Arr(done + items), p + |ItemsTail(items, level, style)|)
               else Rejected
    decreases items, 0
  {
    hide SkipSpaces, Pad, ValueText, Break, ItemsText, ItemsTail, Occurs, ParseValue, WellFormed, NumberFree, Height,
         AfterElement, CloseArray, IsSpace;
    var q := p + |Pad(level + 1, style)|;
    var n := q + |ValueText(items[0], level + 1, style)|;
    FirstItemParts(s, p, items, level, style);
    ValueRoundTrip(s, q, items[0], level + 1, style, nesting);
    var done' := done + [items[0]];
    assert done' + items[1..] == done + items;
    if |items| > 1 {
      ItemsRoundTrip(s, n + 1 + |Break(style)|, items[1..], done', level, style, nesting);
      CommaGoesOn(s, n);
    } else {
      assert items[1..] == [] && done + items == done' && HeightOfItems(items[1..]) == 0;
      LastItemCloses(s, n, done', level, style);
    }
  }

  lemma {:induction false} ObjectRoundTrip(s: cstr, p: nat, v: Json, level: nat, style: Style, nesting: nat)
    requires WellFormed(v) && NumberFree(v) && v.Obj? && nesting <= MAX_NESTING
    requires Occurs(s, p, ValueText(v, level, style))
    ensures ParseValue(s, p, nesting) ==
            if nesting + Height(v) <= MAX_NESTING then Parsed(v, p + |ValueText(v, level, style)|) else Rejected
    decreases v, 0
  {
    hide ParseMembers, ParseArray, MembersText, Pad, Break, SkipSpaces, Distinct, Occurs, HeightOfMembers;
    var text := ValueText(v, level, style);
    OccursAt(s, p, text, 0);
    NoSpaceToSkip(s, p);
    if v.members == [] {
      OccursAt(s, p, text, 1);
      NoSpaceToSkip(s, p + 1);
    } else {
      var tail := MembersTail(v.members, level, style);
      assert text == [LBRACE] + (Break(style) + tail);
      OccursSplit(s, p, [LBRACE], Break(style) + tail);
      OccursSplit(s, p + 1, Break(style), tail);
      PadAndBreakBlank(level, style);
      SkipBlank(s, p + 1, Break(style));
      assert [] + v.members == v.members;
      MembersRoundTrip(s, p + 1 + |Break(style)|, v.members, [], level, style, nesting + 1);
    }
  }

  lemma {:induction false} MembersRoundTrip(s: cstr, p: nat, members: seq<Member<Json>>, done: seq<Member<Json>>,
                                            level: nat, style: Style, nesting: nat)
    requires members != [] && Distinct(done + members)
    requires forall i :: 0 <= i < |members| ==> WellFormed(members[i].value) && NumberFree(members[i].value)
    requires Occurs(s, p, MembersTail(members, level, style))
    ensures var start := SkipSpaces(s, p);
            && At(s, start) != RBRACE
            && ParseMembers(s, start, nesting, done) ==
               if nesting + HeightOfMembers(members) <= MAX_NESTING
               then Parsed(Obj(done + members), p + |MembersTail(members, level, style)|)
               else Rejected
    decreases members, 1
  {
    hide SkipSpaces, Pad, ValueText, Break, MembersText, MembersTail, Occurs, ParseMember, StringText,
         Distinct, IndexOf, Colon, WellFormed, NumberFree, Height, Blank;
    var m, brk := members[0], Break(style);
    var n := MemberPieces(s, p, members, level, style, nesting);
    var done' := done + [m];
    assert done' + members[1..] == done + members;
    NotYetThere(done, members);
    if |members| > 1 {
      NoSpaceToSkip(s, n);
      MembersRoundTrip(s, n + 1 + |brk|, members[1..], done', level, style, nesting);
    } else {
      assert members[1..] == [] && done + members == done' && HeightOfMembers(members[1..]) == 0;
      NoItemsTail(level, style);
      ClosingLayout(s, n + |brk|, level, style, RBRACE);
      NoSpaceToSkip(s, SkipSpaces(s, n));
    }
  }

  /** What the parser sees of one member; `n` is the end of its value. */
  lemma {:induction false} MemberPieces(s: cstr, p: nat, members: seq<Member<Json>>, level: nat, style: Style,
                                        nesting: nat) returns (n: nat)
    requires members != []
    requires forall i :: 0 <= i < |members| ==> WellFormed(members[i].value) && NumberFree(members[i].value)
    requires Occurs(s, p, MembersTail(members, level, style))
    ensures At(s, SkipSpaces(s, p)) == QUOTE
    ensures ParseMember(s, SkipSpaces(s, p), nesting) ==
            if nesting + Height(members[0].value) <= MAX_NESTING then GotMember(members[0], n)
            else NoMember(Rejected)
    ensures |members| > 1 ==> At(s, n) == COMMA
    ensures var next := n + |Comma(|members| > 1)|;
            && SkipSpaces(s, next) == SkipSpaces(s, next + |Break(style)|)
            && Occurs(s, next + |Break(style)|, MembersTail(members[1..], level, style))
            && next + |Break(style)| + |MembersTail(members[1..], level, style)| ==
               p + |MembersTail(members, level, style)|
    decreases members, 0
  {
    hide SkipSpaces, Pad, ValueText, Break, MembersText, MembersTail, Occurs, ParseValue, QuotedString, StringText,
         Distinct, IndexOf, Colon, WellFormed, NumberFree, Height, Blank;
    var m := members[0];
    var pad, name := Pad(level + 1, style), StringText(m.name, style.slashes);
    var colon, text := Colon(style), ValueText(m.value, level + 1, style);
    var comma, brk, tail := Comma(|members| > 1), Break(style), MembersTail(members[1..], level, style);
    var k := p + |pad|;
    var c := k + |name|;
    n := c + |colon| + |text|;
    MembersLayout(members, level, style);
    OccursParts(s, p, pad, name, colon, text, comma + (brk + tail));
    OccursSplit(s, n, comma, brk + tail);
    OccursSplit(s, n + |comma|, brk, tail);
    PadAndBreakBlank(level + 1, style);
    SkipBlank(s, p, pad);
    SkipBlank(s, n + |comma|, brk);
    StringRoundTrip(s, k, m.name, style.slashes);
    StringTextStarts(s, k, m.name, style.slashes);
    NoSpaceToSkip(s, k);
    ColonLayout(s, c, style);
    NoSpaceToSkip(s, c);
    ColonThenValue(s, c, m.value, level + 1, style, nesting);
    if |members| > 1 { OccursAt(s, n, comma, 0); }
  }

  lemma {:induction false} ColonThenValue(s: cstr, c: nat, v: Json, level: nat, style: Style, nesting: nat)
    requires WellFormed(v) && NumberFree(v)
    requires Occurs(s, c, Colon(style)) && Occurs(s, c + |Colon(style)|, ValueText(v, level, style))
    ensures ParseValue(s, c + 1, nesting) ==
            if nesting + Height(v) <= MAX_NESTING
            then Parsed(v, c + |Colon(style)| + |ValueText(v, level, style)|) else Rejected
    decreases v, 2
  {
    hide ValueText, ParseValue, Occurs, WellFormed, NumberFree, Height;
    ValueRoundTrip(s, c + |Colon(style)|, v, level, style, nesting);
    if style.pretty {
      OccursAt(s, c, Colon(style), 1);
      SpaceInFront(s, c + 1, nesting);
    }
  }

  // ----- whole texts -----

  lemma {:induction false} NoNulInIndent(level: nat)
    ensures 0 !in Indent(level)
  {
    if level > 0 { NoNulInIndent(level - 1); }
  }

  lemma {:induction false} NoNulInValue(v: Json, level: nat, style: Style)
    requires NumberFree(v)
    ensures 0 !in ValueText(v, level, style)
    decreases v, 1
  {
    NoNulInIndent(level);
    match v
    case Arr(items) => NoNulInItems(items, level, style);
    case Obj(members) => NoNulInMembers(members, level, style);
    case _ =>
  }

  lemma {:induction false} NoNulInItems(items: seq<Json>, level: nat, style: Style)
    requires forall i :: 0 <= i < |items| ==> NumberFree(items[i])
    ensures 0 !in ItemsText(items, level, style)
    decreases items, 0
  {
    if items != [] {
      NoNulInIndent(level + 1);
      NoNulInValue(items[0], level + 1, style);
      assert 0 !in ItemText(items[0], level, style, |items| > 1);
      NoNulInItems(items[1..], level, style);
    }
  }

  lemma {:induction false} NoNulInMembers(members: seq<Member<Json>>, level: nat, style: Style)
    requires forall i :: 0 <= i < |members| ==> NumberFree(members[i].value)
    ensures 0 !in MembersText(members, level, style)
    decreases members, 0
  {
    if members != [] {
      NoNulInIndent(level + 1);
      NoNulInValue(members[0].value, level + 1, style);
      assert 0 !in MemberText(members[0], level, style, |members| > 1);
      NoNulInMembers(members[1..], level, style);
    }
  }

  /**
   Serialized text is a C string; parsing it gives the value back and consumes
   all of it, exactly when the value is nested at most 2048 levels deep.
   */
  lemma TextRoundTrip(v: Json, style: Style)
    requires WellFormed(v) && NumberFree(v)
    ensures 0 !in ValueText(v, 0, style)
    ensures ParseText(ValueText(v, 0, style)) ==
            if Height(v) <= MAX_NESTING then Parsed(v, |ValueText(v, 0, style)|) else Rejected
  {
    hide ParseValue, ValueText;
    var text := ValueText(v, 0, style);
    NoNulInValue(v, 0, style);
    ValueTextStarts(v, 0, style);
    assert text[0..0 + |text|] == text;
    ValueRoundTrip(text, 0, v, 0, style, 0);
  }

  // ----- whatever is parsed can be serialized and parsed again -----

  lemma {:induction false} HeightOfAppend(items: seq<Json>, v: Json)
    ensures HeightOfItems(items + [v]) == Max(HeightOfItems(items), Height(v))
  {
    if items == [] {
      assert items + [v] == [v] && HeightOfItems([v][1..]) == 0;
    } else {
      assert (items + [v])[1..] == items[1..] + [v];
      HeightOfAppend(items[1..], v);
    }
  }

  lemma {:induction false} HeightOfAppendMember(members: seq<Member<Json>>, m: Member<Json>)
    ensures HeightOfMembers(members + [m]) == Max(HeightOfMembers(members), Height(m.value))
  {
    if members == [] {
      assert members + [m] == [m] && HeightOfMembers([m][1..]) == 0;
    } else {
      assert (members + [m])[1..] == members[1..] + [m];
      HeightOfAppendMember(members[1..], m);
    }
  }

  ghost predicate Printable(v: Json, nesting: nat) {
    WellFormed(v) && NumberFree(v) && nesting + Height(v) <= MAX_NESTING
  }

  ghost predicate PrintableItems(items: seq<Json>, nesting: nat) {
    && (forall i :: 0 <= i < |items| ==> WellFormed(items[i]) && NumberFree(items[i]))
    && (items != [] ==> nesting + HeightOfItems(items) <= MAX_NESTING)
  }

  ghost predicate PrintableMembers(members: seq<Member<Json>>, nesting: nat) {
    && Distinct(members)
    && (forall i :: 0 <= i < |members| ==> WellFormed(members[i].value) && NumberFree(members[i].value))
    && (members != [] ==> nesting + HeightOfMembers(members) <= MAX_NESTING)
  }

  lemma {:induction false} ParsedIsPrintable(s: cstr, p: nat, nesting: nat)
    requires ParseValue(s, p, nesting).Parsed?
    ensures Printable(ParseValue(s, p, nesting).value, nesting)
    decreases |s| - p, 2
  {
    hide ParseItems, ParseMembers, SkipSpaces;
    var q := SkipSpaces(s, p);
    var start := SkipSpaces(s, q + 1);
    if At(s, q) == LBRACKET && At(s, start) != RBRACKET {
      ParsedItemsArePrintable(s, start, nesting + 1, []);
    } else if At(s, q) == LBRACE && At(s, start) != RBRACE {
      ParsedMembersArePrintable(s, start, nesting + 1, []);
    }
  }

  lemma {:induction false} ParsedItemsArePrintable(s: cstr, p: nat, nesting: nat, items: seq<Json>)
    requires PrintableItems(items, nesting) && ParseItems(s, p, nesting, items).Parsed?
    ensures var v := ParseItems(s, p, nesting, items).value; v.Arr? && PrintableItems(v.items, nesting)
    decreases |s| - p, 3
  {
    if At(s, p) != 0 {
      ParsedIsPrintable(s, p, nesting);
      var Parsed(value, next) := ParseValue(s, p, nesting);
      HeightOfAppend(items, value);
      var items' := items + [value];
      var sep := AfterElement(s, next, RBRACKET);
      if sep.more { ParsedItemsArePrintable(s, sep.next, nesting, items'); }
    }
  }

  lemma {:induction false} ParsedMemberIsPrintable(s: cstr, p: nat, nesting: nat)
    requires ParseMember(s, p, nesting).GotMember?
    ensures Printable(ParseMember(s, p, nesting).member.value, nesting)
    decreases |s| - p, 3
  {
    var key := QuotedString(s, p).value;
    var colon := SkipSpaces(s, key.next);
    ParsedIsPrintable(s, colon + 1, nesting);
  }

  lemma {:induction false} ParsedMembersArePrintable(s: cstr, p: nat, nesting: nat, members: seq<Member<Json>>)
    requires PrintableMembers(members, nesting) && ParseMembers(s, p, nesting, members).Parsed?
    ensures var v := ParseMembers(s, p, nesting, members).value; v.Obj? && PrintableMembers(v.members, nesting)
    decreases |s| - p, 4
  {
    hide ParseMember, SkipSpaces, Height, WellFormed, NumberFree;
    if At(s, p) != 0 {
      ParsedMemberIsPrintable(s, p, nesting);
      var GotMember(m, next) := ParseMember(s, p, nesting);
      HeightOfAppendMember(members, m);
      var members' := members + [m];
      assert forall i :: 0 <= i < |members| ==> members[i].name != m.name;
      var sep := AfterElement(s, next, RBRACE);
      if sep.more { ParsedMembersArePrintable(s, sep.next, nesting, members'); }
    }
  }

  /**
   Serialization after parsing is a normal form: the printed value of any
   accepted text parses to the same value, in either style.
   */
  lemma ReprintedTextParsesSame(s: cstr, style: Style)
    requires ParseText(s).Parsed?
    ensures NumberFree(ParseText(s).value)
    ensures var text := ValueText(ParseText(s).value, 0, style);
            0 !in text && ParseText(text) == Parsed(ParseText(s).value, |text|)
  {
    hide ParseValue, ValueText, WellFormed, NumberFree, Height;
    if At(s, 0) == 0xEF && At(s, 1) == 0xBB && At(s, 2) == 0xBF {
      ParsedIsPrintable(s, 3, 0);
    } else {
      ParsedIsPrintable(s, 0, 0);
    }
    TextRoundTrip(ParseText(s).value, style);
  }

  // ----- values nested too deep -----

  /** An empty array inside `n` arrays. */
  function Nested(n: nat): Json {
    if n == 0 then Arr([]) else Arr([Nested(n - 1)])
  }

  lemma {:induction false} NestedHeight(n: nat)
    ensures WellFormed(Nested(n)) && NumberFree(Nested(n)) && Height(Nested(n)) == n
  {
    if n > 0 {
      NestedHeight(n - 1);
      var items := [Nested(n - 1)];
      assert items[1..] == [];
      assert HeightOfItems(items) == Max(Height(items[0]), HeightOfItems(items[1..]));
    }
  }

  /** Arrays within arrays can be printed at any depth, and read back up to 2048 levels. */
  lemma DeepArraysAreRefused(n: nat, style: Style)
    ensures NumberFree(Nested(n))
    ensures var text := ValueText(Nested(n), 0, style);
            0 !in text && (ParseText(text) == Rejected <==> n > 2048)
  {
    hide ValueText, ParseText, Nested, Height, WellFormed, NumberFree;
    NestedHeight(n);
    TextRoundTrip(Nested(n), style);
  }
}
