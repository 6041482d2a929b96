/**
 Which texts the parser accepts, said without it: a relation between a stretch
 of text and the value it spells.
 */
module JsonLayout {
  import opened Bytes
  import opened Members
  import opened Utf8
  import opened JsonStrings
  import opened JsonValues
  import opened JsonText
  import opened JsonGrammar
  import JsonRoundTrip

  // ----- quoted strings -----

  const ESCAPE_NAMES: seq<byte> := [0x22, 0x5C, 0x2F, 0x62, 0x66, 0x6E, 0x72, 0x74]  // " \ / b f n r t
  const ESCAPE_BYTES: seq<byte> := [0x22, 0x5C, 0x2F, 0x08, 0x0C, 0x0A, 0x0D, 0x09]

  /** The text from `p` to `n` is one character of a string and stands for the bytes `piece`. */
  ghost predicate SpellsUnit(s: cstr, p: nat, n: nat, piece: seq<byte>) {
    || (n == p + 1 && At(s, p) >= 0x20 && At(s, p) != QUOTE && At(s, p) != BACKSLASH && piece == [At(s, p)])
    || (n == p + 2 && At(s, p) == BACKSLASH
        && exists k :: 0 <= k < |ESCAPE_NAMES| && At(s, p + 1) == ESCAPE_NAMES[k] && piece == [ESCAPE_BYTES[k]])
    || (At(s, p) == BACKSLASH && At(s, p + 1) == LOWER_U
        && exists cp: nat :: Denotes(s, p + 1, cp) && n == p + (if cp < 0x1_0000 then 6 else 12)
                             && VerifySequence(piece, 0) == Some(Decoded(cp, |piece|)))
  }

  /** The text from `p` to `q` stands for `chars`, character by character. */
  ghost predicate Spells(s: cstr, p: nat, q: nat, chars: seq<byte>)
    decreases q - p
  {
    if p >= q then p == q && chars == []
    else exists n, k ::
      p < n <= q && 0 <= k <= |chars| && SpellsUnit(s, p, n, chars[..k]) && Spells(s, n, q, chars[k..])
  }

  /** A quoted string stands from `p` to `q`. */
  ghost predicate IsString(s: cstr, p: nat, q: nat, chars: seq<byte>) {
    At(s, p) == QUOTE && p + 2 <= q && At(s, q - 1) == QUOTE && Spells(s, p + 1, q - 1, chars)
  }

  lemma TailIsSixBits(b: byte)
    requires IsContinuation(b)
    ensures b == b % 0x40 + 0x80
  {
  }

  lemma LeadBytes(c: byte)
    ensures NumBytes(c) == 1 ==> c < 0x80
    ensures NumBytes(c) == 2 ==> c == c % 0x20 + 0xC0
    ensures NumBytes(c) == 3 ==> c == c % 0x10 + 0xE0
    ensures NumBytes(c) == 4 ==> c == c % 8 + 0xF0
  {
  }

  lemma SixBitsBehind(n: nat, high: nat, low: nat)
    requires low < 0x40 && n == high * 0x40 + low
    ensures n / 0x40 == high && n % 0x40 == low
  {
  }

  lemma TwoBytesBack(a: seq<byte>)
    requires |a| == 2 && NumBytes(a[0]) == 2 && IsContinuation(a[1])
    ensures RawCodePoint(a, 0).Some? && RawCodePoint(a, 0).value < 0x800 && a == Encode2(RawCodePoint(a, 0).value)
  {
    hide NumBytes, IsContinuation;
    assert At(a, 0) == a[0] && At(a, 1) == a[1];
    LeadBytes(a[0]);
    TailIsSixBits(a[1]);
    var high: nat, low: nat := a[0] % 0x20, a[1] % 0x40;
    SixBitsBehind(high * 0x40 + low, high, low);
  }

  lemma ThreeBytesBack(a: seq<byte>)
    requires |a| == 3 && NumBytes(a[0]) == 3 && IsContinuation(a[1]) && IsContinuation(a[2])
    ensures RawCodePoint(a, 0).Some? && RawCodePoint(a, 0).value < 0x1_0000 && a == Encode3(RawCodePoint(a, 0).value)
  {
    hide NumBytes, IsContinuation;
    assert At(a, 0) == a[0] && At(a, 1) == a[1];
    LeadBytes(a[0]);
    TailIsSixBits(a[1]);
    TailIsSixBits(a[2]);
    var b: nat, c: nat, d: nat := a[0] % 0x10, a[1] % 0x40, a[2] % 0x40;
    var q := b * 0x40 + c;
    var cp := q * 0x40 + d;
    SixBitsBehind(q, b, c);
    SixBitsBehind(cp, q, d);
    TwelveBits(cp);
  }

  lemma FourBytesBack(a: seq<byte>)
    requires |a| == 4 && NumBytes(a[0]) == 4 && IsContinuation(a[1]) && IsContinuation(a[2]) && IsContinuation(a[3])
    ensures RawCodePoint(a, 0).Some? && a == Encode4(RawCodePoint(a, 0).value)
  {
    hide NumBytes, IsContinuation;
    assert At(a, 0) == a[0] && At(a, 1) == a[1];
    LeadBytes(a[0]);
    TailIsSixBits(a[1]);
    TailIsSixBits(a[2]);
    TailIsSixBits(a[3]);
    var b: nat, c: nat, d: nat, e: nat := a[0] % 8, a[1] % 0x40, a[2] % 0x40, a[3] % 0x40;
    var p := b * 0x40 + c;
    var q := p * 0x40 + d;
    var cp := q * 0x40 + e;
    SixBitsBehind(p, b, c);
    SixBitsBehind(q, p, d);
    SixBitsBehind(cp, q, e);
    TwelveBits(cp);
    EighteenBits(cp);
  }

  /** The bytes of a scalar value in UTF-8. */
  function Encoded(cp: nat): seq<byte> {
    if cp < 0x80 then [cp] else if cp < 0x800 then Encode2(cp) else if cp < 0x1_0000 then Encode3(cp) else Encode4(cp)
  }

  lemma LeadGivesLength(c: byte)
    ensures NumBytes(c) <= 4
  {
  }

  lemma DecodedIsEncoded(a: seq<byte>, cp: nat)
    requires VerifySequence(a, 0) == Some(Decoded(cp, |a|))
    ensures a == Encoded(cp)
  {
    hide NumBytes, IsContinuation, Encode2, Encode3, Encode4;
    LeadGivesLength(At(a, 0));
    LeadBytes(At(a, 0));
    if |a| == 2 { TwoBytesBack(a); }
    if |a| == 3 { ThreeBytesBack(a); }
    if |a| == 4 { FourBytesBack(a); }
  }

  lemma EscapeIsUnit(s: cstr, p: nat, n: nat, piece: seq<byte>)
    requires At(s, p) == BACKSLASH && At(s, p + 1) == LOWER_U
    ensures Step(s, p) == Some(Piece(piece, n)) <==> SpellsUnit(s, p, n, piece)
  {
    hide VerifySequence, Denotes, ParseUtf16, Utf8Char, Encoded;
    var i := p + 1;
    EscapeEncodesScalar(s, i, 0);
    forall d: nat
      ensures Denotes(s, i, d) ==> ParseUtf16(s, i).Some? && ParseUtf16(s, i).value.bytes == Encoded(d)
                                   && ParseUtf16(s, i).value.last == i + if d < 0x1_0000 then 4 else 10
    {
      EscapeEncodesScalar(s, i, d);
      if Denotes(s, i, d) { DecodedIsEncoded(ParseUtf16(s, i).value.bytes, d); }
    }
    if Step(s, p) == Some(Piece(piece, n)) {
      var cp: nat :| Denotes(s, i, cp);
      EscapeEncodesScalar(s, i, cp);
    } else if SpellsUnit(s, p, n, piece) {
      var cp: nat :| Denotes(s, i, cp) && n == p + (if cp < 0x1_0000 then 6 else 12)
                     && VerifySequence(piece, 0) == Some(Decoded(cp, |piece|));
      DecodedIsEncoded(piece, cp);
    }
  }

  lemma NamesOfEscapes(c: byte, k: nat)
    requires k < |ESCAPE_NAMES| && c == ESCAPE_NAMES[k]
    ensures c == if k == 0 then 0x22 else if k == 1 then 0x5C else if k == 2 then 0x2F
                 else if k == 3 then 0x62 else if k == 4 then 0x66 else if k == 5 then 0x6E
                 else if k == 6 then 0x72 else 0x74
    ensures ESCAPE_BYTES[k] == if k == 0 then 0x22 else if k == 1 then 0x5C else if k == 2 then 0x2F
                               else if k == 3 then 8 else if k == 4 then 12 else if k == 5 then 10
                               else if k == 6 then 13 else 9
  {
  }

  lemma ShortEscapeIsUnit(s: cstr, p: nat, n: nat, piece: seq<byte>)
    requires At(s, p) == BACKSLASH && At(s, p + 1) != LOWER_U
    ensures Step(s, p) == Some(Piece(piece, n)) <==> SpellsUnit(s, p, n, piece)
  {
    var c := At(s, p + 1);
    if k :| 0 <= k < |ESCAPE_NAMES| && c == ESCAPE_NAMES[k] {
      NamesOfEscapes(c, k);
      forall j | 0 <= j < |ESCAPE_NAMES| && c == ESCAPE_NAMES[j] ensures j == k { NamesOfEscapes(c, j); }
    } else {
      assert c != ESCAPE_NAMES[0] && c != ESCAPE_NAMES[1] && c != ESCAPE_NAMES[2] && c != ESCAPE_NAMES[3];
      assert c != ESCAPE_NAMES[4] && c != ESCAPE_NAMES[5] && c != ESCAPE_NAMES[6] && c != ESCAPE_NAMES[7];
    }
  }

  /** One turn of the unescaper reads one character. */
  lemma StepIsUnit(s: cstr, p: nat, n: nat, piece: seq<byte>)
    requires At(s, p) != QUOTE
    ensures Step(s, p) == Some(Piece(piece, n)) <==> SpellsUnit(s, p, n, piece)
  {
    hide VerifySequence, Denotes, ParseUtf16;
    if At(s, p) == BACKSLASH {
      if At(s, p + 1) == LOWER_U { EscapeIsUnit(s, p, n, piece); } else { ShortEscapeIsUnit(s, p, n, piece); }
    }
  }

  lemma UnitIsNoQuote(s: cstr, p: nat, n: nat, piece: seq<byte>)
    requires SpellsUnit(s, p, n, piece)
    ensures At(s, p) != QUOTE && At(s, p) != 0 && p < n
  {
  }

  lemma QuoteComes(s: cstr, p: nat, q: nat)
    requires ClosingQuote(s, p) == Some(q) && p < q
    ensures At(s, p) != QUOTE && At(s, p) != 0
  {
  }

  /** What the unescaper makes of the text up to the closing quote is what it spells. */
  lemma {:induction false} UnescapedIsSpelled(s: cstr, p: nat, q: nat, chars: seq<byte>)
    requires ClosingQuote(s, p) == Some(q) && Unescape(s, p, q) == Some(Piece(chars, q))
    ensures Spells(s, p, q, chars)
    decreases q - p
  {
    hide Step, SpellsUnit, ClosingQuote;
    if p < q {
      QuoteComes(s, p, q);
      var Piece(bytes, n) := Step(s, p).value;
      StepStaysInside(s, p, q);
      StepIsUnit(s, p, n, bytes);
      var rest := Unescape(s, n, q).value;
      assert chars == bytes + rest.bytes && rest.next == q;
      UnescapedIsSpelled(s, n, q, rest.bytes);
      assert chars[..|bytes|] == bytes && chars[|bytes|..] == rest.bytes;
    }
  }

  lemma {:induction false} SpelledIsUnescaped(s: cstr, p: nat, q: nat, chars: seq<byte>)
    requires Spells(s, p, q, chars) && At(s, q) == QUOTE
    ensures ClosingQuote(s, p) == Some(q) && Unescape(s, p, q) == Some(Piece(chars, q))
    decreases q - p
  {
    hide Step, SpellsUnit;
    if p < q {
      var n, k :|
        p < n <= q && 0 <= k <= |chars| && SpellsUnit(s, p, n, chars[..k]) && Spells(s, n, q, chars[k..]);
      UnitIsNoQuote(s, p, n, chars[..k]);
      StepIsUnit(s, p, n, chars[..k]);
      SpelledIsUnescaped(s, n, q, chars[k..]);
      StepAgreesWithScan(s, p);
      assert chars[..k] + chars[k..] == chars;
    }
  }

  /** The strings read are exactly the quoted strings. */
  lemma QuotedIsString(s: cstr, p: nat, q: nat, chars: seq<byte>)
    ensures QuotedString(s, p) == Some(Piece(chars, q)) <==> IsString(s, p, q, chars)
  {
    hide Spells, ClosingQuote, Unescape;
    if QuotedString(s, p) == Some(Piece(chars, q)) {
      UnescapeEndsOnQuote(s, p + 1, q - 1);
      UnescapedIsSpelled(s, p + 1, q - 1, chars);
    } else if IsString(s, p, q, chars) {
      SpelledIsUnescaped(s, p + 1, q - 1, chars);
    }
  }

  // ----- values -----

  /** Nothing but white space stands from `p` to `q`. */
  ghost predicate Spaces(s: cstr, p: nat, q: nat) {
    p <= q <= |s| && forall d :: p <= d < q ==> s[d] in {0x20, 0x09, 0x0A, 0x0B, 0x0C, 0x0D}
  }

  /** The closing bracket, with or without white space in front, ends at `q`. */
  ghost predicate Closes(s: cstr, p: nat, q: nat, bracket: byte) {
    q > 0 && Spaces(s, p, q - 1) && At(s, q - 1) == bracket
  }

  /** What follows the last element: the closing bracket, with or without a comma in front. */
  ghost predicate Ends(s: cstr, p: nat, q: nat, bracket: byte) {
    Closes(s, p, q, bracket) || exists c: nat :: Spaces(s, p, c) && At(s, c) == COMMA && Closes(s, c + 1, q, bracket)
  }

  /** The text from `p` to `q` is a layout of `v`, with or without white space in front. */
  ghost predicate Lies(s: cstr, p: nat, q: nat, v: Json)
    decreases v, 1
  {
    exists b: nat :: Spaces(s, p, b) && LiesAt(s, b, q, v)
  }

  ghost predicate LiesAt(s: cstr, p: nat, q: nat, v: Json)
    decreases v, 0
  {
    match v
    case Null => Occurs(s, p, NULL_TOKEN) && q == p + |NULL_TOKEN|
    case Bool(flag) => var token := if flag then TRUE_TOKEN else FALSE_TOKEN; Occurs(s, p, token) && q == p + |token|
    case Num(_) => false
    case Str(chars) => IsString(s, p, q, chars)
    case Arr(items) =>
      At(s, p) == LBRACKET && if items == [] then Closes(s, p + 1, q, RBRACKET) else ItemsLie(s, p + 1, q, items)
    case Obj(members) =>
      At(s, p) == LBRACE && if members == [] then Closes(s, p + 1, q, RBRACE) else MembersLie(s, p + 1, q, members)
  }

  ghost predicate ItemsLie(s: cstr, p: nat, q: nat, items: seq<Json>)
    requires items != []
    decreases items, 0
  {
    exists m: nat :: Lies(s, p, m, items[0]) &&
      if |items| == 1 then Ends(s, m, q, RBRACKET)
      else exists c: nat :: Spaces(s, m, c) && At(s, c) == COMMA && ItemsLie(s, c + 1, q, items[1..])
  }

  /** The name, the colon and the value of a member, each with or without white space in front. */
  ghost predicate MemberLies(s: cstr, p: nat, q: nat, m: Member<Json>)
    decreases m, 0
  {
    exists b: nat, n: nat, c: nat ::
      Spaces(s, p, b) && IsString(s, b, n, m.name) && Spaces(s, n, c) && At(s, c) == COLON && Lies(s, c + 1, q, m.value)
  }

  ghost predicate MembersLie(s: cstr, p: nat, q: nat, members: seq<Member<Json>>)
    requires members != []
    decreases members, 0
  {
    exists m: nat :: MemberLies(s, p, m, members[0]) &&
      if |members| == 1 then Ends(s, m, q, RBRACE)
      else exists c: nat :: Spaces(s, m, c) && At(s, c) == COMMA && MembersLie(s, c + 1, q, members[1..])
  }

  // ----- what the parser skips -----

  lemma {:induction false} SkippedIsSpaces(s: cstr, p: nat)
    requires p <= |s|
    ensures Spaces(s, p, SkipSpaces(s, p))
    decreases |s| - p
  {
    if IsSpace(At(s, p)) { SkippedIsSpaces(s, p + 1); }
  }

  lemma {:induction false} SpacesAreSkipped(s: cstr, p: nat, q: nat)
    requires Spaces(s, p, q)
    ensures SkipSpaces(s, p) == SkipSpaces(s, q)
    decreases q - p
  {
    if p < q {
      assert IsSpace(At(s, p));
      SpacesAreSkipped(s, p + 1, q);
    }
  }

  lemma SkippedStops(s: cstr, p: nat, q: nat)
    requires Spaces(s, p, q) && !IsSpace(At(s, q))
    ensures SkipSpaces(s, p) == q
  {
    SpacesAreSkipped(s, p, q);
  }

  lemma SpacesJoin(s: cstr, p: nat, q: nat, r: nat)
    requires Spaces(s, p, q) && Spaces(s, q, r)
    ensures Spaces(s, p, r)
  {
  }

  lemma LiesBehindSpaces(s: cstr, p: nat, b: nat, q: nat, v: Json)
    requires Spaces(s, p, b) && Lies(s, b, q, v)
    ensures Lies(s, p, q, v)
  {
    hide Spaces, LiesAt;
    var c: nat :| Spaces(s, b, c) && LiesAt(s, c, q, v);
    SpacesJoin(s, p, b, c);
  }

  lemma ItemsBehindSpaces(s: cstr, p: nat, b: nat, q: nat, items: seq<Json>)
    requires items != [] && Spaces(s, p, b) && ItemsLie(s, b, q, items)
    ensures ItemsLie(s, p, q, items)
  {
    hide Lies, Spaces, Ends;
    var m: nat :| Lies(s, b, m, items[0]) &&
      if |items| == 1 then Ends(s, m, q, RBRACKET)
      else exists c: nat :: Spaces(s, m, c) && At(s, c) == COMMA && ItemsLie(s, c + 1, q, items[1..]);
    LiesBehindSpaces(s, p, b, m, items[0]);
  }

  lemma MembersBehindSpaces(s: cstr, p: nat, b: nat, q: nat, members: seq<Member<Json>>)
    requires members != [] && Spaces(s, p, b) && MembersLie(s, b, q, members)
    ensures MembersLie(s, p, q, members)
  {
    hide Lies, Spaces, Ends, IsString;
    var m: nat :| MemberLies(s, b, m, members[0]) &&
      if |members| == 1 then Ends(s, m, q, RBRACE)
      else exists c: nat :: Spaces(s, m, c) && At(s, c) == COMMA && MembersLie(s, c + 1, q, members[1..]);
    var x: nat, n: nat, c: nat :|
      Spaces(s, b, x) && IsString(s, x, n, members[0].name) && Spaces(s, n, c) && At(s, c) == COLON
      && Lies(s, c + 1, m, members[0].value);
    SpacesJoin(s, p, b, x);
    assert MemberLies(s, p, m, members[0]);
  }

  // ----- what is parsed is a layout -----

  /** Behind an element the parser goes on behind a comma, or the text ends as it may. */
  lemma SeparatorLies(s: cstr, p: nat, bracket: byte)
    requires p <= |s| && bracket != COMMA && bracket != 0
    ensures var sep := AfterElement(s, p, bracket);
            if sep.more
            then exists c: nat :: Spaces(s, p, c) && At(s, c) == COMMA && Spaces(s, c + 1, sep.next)
            else At(s, sep.next) == bracket ==> Ends(s, p, sep.next + 1, bracket)
    ensures var sep := AfterElement(s, p, bracket); !sep.more ==> SkipSpaces(s, sep.next) == sep.next
  {
    hide Spaces;
    var q := SkipSpaces(s, p);
    SkippedIsSpaces(s, p);
    if At(s, q) == COMMA { SkippedIsSpaces(s, q + 1); }
  }

  lemma ScalarParsedLies(s: cstr, p: nat, nesting: nat)
    requires ParseValue(s, p, nesting).Parsed? && At(s, p) !in {LBRACKET, LBRACE} && !IsSpace(At(s, p))
    ensures var Parsed(v, q) := ParseValue(s, p, nesting); LiesAt(s, p, q, v)
  {
    hide QuotedString, IsString;
    if At(s, p) == QUOTE {
      var Piece(chars, q) := QuotedString(s, p).value;
      QuotedIsString(s, p, q, chars);
    }
  }

  lemma {:induction false} ParsedLies(s: cstr, p: nat, nesting: nat)
    requires ParseValue(s, p, nesting).Parsed?
    ensures var Parsed(v, q) := ParseValue(s, p, nesting); Lies(s, p, q, v)
    decreases |s| - p, 2
  {
    hide Spaces, SkipSpaces, ParseArray, ParseObject, ParseString, ParseBoolean, ParseNull;
    var q := SkipSpaces(s, p);
    SkippedIsSpaces(s, p);
    JsonRoundTrip.NoSpaceToSkip(s, q);
    assert ParseValue(s, q, nesting) == ParseValue(s, p, nesting);
    if At(s, q) == LBRACKET {
      ParsedArrayLies(s, q, nesting + 1);
    } else if At(s, q) == LBRACE {
      ParsedObjectLies(s, q, nesting + 1);
    } else {
      ScalarParsedLies(s, q, nesting);
    }
  }

  lemma {:induction false} ParsedArrayLies(s: cstr, p: nat, nesting: nat)
    requires ParseArray(s, p, nesting).Parsed?
    ensures var Parsed(v, q) := ParseArray(s, p, nesting); LiesAt(s, p, q, v)
    decreases |s| - p, 1
  {
    hide Spaces, ParseItems, ItemsLie;
    var start := SkipSpaces(s, p + 1);
    SkippedIsSpaces(s, p + 1);
    if At(s, start) != RBRACKET {
      ParsedItemsLie(s, start, nesting, []);
      var Parsed(v, q) := ParseArray(s, p, nesting);
      assert v.items[0..] == v.items;
      ItemsBehindSpaces(s, p + 1, start, q, v.items);
    }
  }

  lemma {:induction false} ParsedItemsLie(s: cstr, p: nat, nesting: nat, done: seq<Json>)
    requires ParseItems(s, p, nesting, done).Parsed?
    ensures var Parsed(v, q) := ParseItems(s, p, nesting, done);
            v.Arr? && |done| < |v.items| && v.items[..|done|] == done && ItemsLie(s, p, q, v.items[|done|..])
    decreases |s| - p, 3
  {
    hide Spaces, Lies, Ends, ParseValue, AfterElement;
    if At(s, p) == 0 { JsonRoundTrip.NoSpaceToSkip(s, p); }
    else {
      var Parsed(item, next) := ParseValue(s, p, nesting);
      var done' := done + [item];
      ParsedLies(s, p, nesting);
      SeparatorLies(s, next, RBRACKET);
      var sep := AfterElement(s, next, RBRACKET);
      var Parsed(v, q) := ParseItems(s, p, nesting, done);
      if sep.more {
        ParsedItemsLie(s, sep.next, nesting, done');
        var rest := v.items[|done'|..];
        var c: nat :| Spaces(s, next, c) && At(s, c) == COMMA && Spaces(s, c + 1, sep.next);
        ItemsBehindSpaces(s, c + 1, sep.next, q, rest);
        assert v.items[|done|..][0] == v.items[..|done'|][|done|] == item && v.items[|done|..][1..] == rest;
        assert v.items[..|done|] == v.items[..|done'|][..|done|] == done;
      } else {
        assert v.items == done' && v.items[|done|..] == [item];
      }
    }
  }

  lemma {:induction false} ParsedObjectLies(s: cstr, p: nat, nesting: nat)
    requires ParseObject(s, p, nesting).Parsed?
    ensures var Parsed(v, q) := ParseObject(s, p, nesting); LiesAt(s, p, q, v)
    decreases |s| - p, 1
  {
    hide Spaces, ParseMembers, MembersLie;
    var start := SkipSpaces(s, p + 1);
    SkippedIsSpaces(s, p + 1);
    if At(s, start) != RBRACE {
      ParsedMembersLie(s, start, nesting, []);
      var Parsed(v, q) := ParseObject(s, p, nesting);
      assert v.members[0..] == v.members;
      MembersBehindSpaces(s, p + 1, start, q, v.members);
    }
  }

  lemma {:induction false} ParsedMemberLies(s: cstr, p: nat, nesting: nat)
    requires ParseMember(s, p, nesting).GotMember?
    ensures var GotMember(m, q) := ParseMember(s, p, nesting); MemberLies(s, p, q, m)
    decreases |s| - p, 3
  {
    hide Lies, IsString, ParseValue, QuotedString, SkipSpaces;
    var Piece(name, n) := QuotedString(s, p).value;
    QuotedIsString(s, p, n, name);
    assert Spaces(s, p, p);
    SkippedIsSpaces(s, n);
    ParsedLies(s, SkipSpaces(s, n) + 1, nesting);
  }

  lemma {:induction false} ParsedMembersLie(s: cstr, p: nat, nesting: nat, done: seq<Member<Json>>)
    requires ParseMembers(s, p, nesting, done).Parsed?
    ensures var Parsed(v, q) := ParseMembers(s, p, nesting, done);
            v.Obj? && |done| < |v.members| && v.members[..|done|] == done && MembersLie(s, p, q, v.members[|done|..])
    decreases |s| - p, 4
  {
    hide Spaces, MemberLies, Ends, ParseMember, AfterElement, Has;
    if At(s, p) == 0 { JsonRoundTrip.NoSpaceToSkip(s, p); }
    else {
      var GotMember(m, next) := ParseMember(s, p, nesting);
      var done' := done + [m];
      ParsedMemberLies(s, p, nesting);
      SeparatorLies(s, next, RBRACE);
      var sep := AfterElement(s, next, RBRACE);
      var Parsed(v, q) := ParseMembers(s, p, nesting, done);
      if sep.more {
        ParsedMembersLie(s, sep.next, nesting, done');
        var rest := v.members[|done'|..];
        var c: nat :| Spaces(s, next, c) && At(s, c) == COMMA && Spaces(s, c + 1, sep.next);
        MembersBehindSpaces(s, c + 1, sep.next, q, rest);
        assert v.members[|done|..][0] == v.members[..|done'|][|done|] == m && v.members[|done|..][1..] == rest;
        assert v.members[..|done|] == v.members[..|done'|][..|done|] == done;
      } else {
        assert v.members == done' && v.members[|done|..] == [m];
      }
    }
  }

  // ----- every layout is parsed -----

  /** A value starts with none of the bytes that could be skipped, separate or close. */
  lemma ValueStarts(s: cstr, p: nat, q: nat, v: Json)
    requires LiesAt(s, p, q, v)
    ensures JsonRoundTrip.StartsValue(At(s, p))
  {
    hide Spells, Spaces, ItemsLie, MembersLie, Closes;
    match v
    case Null => OccursAt(s, p, NULL_TOKEN, 0);
    case Bool(flag) => OccursAt(s, p, if flag then TRUE_TOKEN else FALSE_TOKEN, 0);
    case _ =>
  }

  lemma ClosesAt(s: cstr, p: nat, q: nat, bracket: byte)
    requires Closes(s, p, q, bracket) && !IsSpace(bracket)
    ensures q > 0 && SkipSpaces(s, p) == q - 1 && At(s, q - 1) == bracket
  {
    SkippedStops(s, p, q - 1);
  }

  lemma EndsAt(s: cstr, p: nat, q: nat, bracket: byte)
    requires Ends(s, p, q, bracket) && !IsSpace(bracket) && bracket != COMMA
    ensures q > 0 && AfterElement(s, p, bracket) == Separator(false, q - 1) && At(s, q - 1) == bracket
    ensures SkipSpaces(s, q - 1) == q - 1
  {
    hide Spaces, Closes;
    if Closes(s, p, q, bracket) {
      ClosesAt(s, p, q, bracket);
    } else {
      var c: nat :| Spaces(s, p, c) && At(s, c) == COMMA && Closes(s, c + 1, q, bracket);
      SkippedStops(s, p, c);
      ClosesAt(s, c + 1, q, bracket);
    }
  }

  lemma ScalarLiesParses(s: cstr, p: nat, q: nat, v: Json, nesting: nat)
    requires LiesAt(s, p, q, v) && !v.Arr? && !v.Obj? && nesting <= MAX_NESTING
    ensures ParseValue(s, p, nesting) == Parsed(v, q)
  {
    hide QuotedString, Spells;
    ValueStarts(s, p, q, v);
    match v
    case Str(chars) => QuotedIsString(s, p, q, chars);
    case Null => OccursAt(s, p, NULL_TOKEN, 0);
    case Bool(flag) =>
      OccursAt(s, p, if flag then TRUE_TOKEN else FALSE_TOKEN, 0);
      if !flag { OccursAt(s, p, FALSE_TOKEN, 1); }
    case _ =>
  }

  lemma SkipAgain(s: cstr, p: nat, nesting: nat)
    ensures ParseValue(s, SkipSpaces(s, p), nesting) == ParseValue(s, p, nesting)
  {
    hide ParseArray, ParseObject, ParseString, ParseBoolean, ParseNull;
    JsonRoundTrip.NoSpaceToSkip(s, SkipSpaces(s, p));
  }

  lemma CommaAt(s: cstr, p: nat, c: nat, bracket: byte)
    requires Spaces(s, p, c) && At(s, c) == COMMA && At(s, SkipSpaces(s, c + 1)) != bracket
    ensures AfterElement(s, p, bracket) == Separator(true, SkipSpaces(s, c + 1))
  {
    SkippedStops(s, p, c);
  }

  lemma {:induction false} LiesParses(s: cstr, p: nat, q: nat, v: Json, nesting: nat)
    requires Lies(s, p, q, v) && WellFormed(v) && nesting + Height(v) <= MAX_NESTING
    ensures ParseValue(s, p, nesting) == Parsed(v, q) && At(s, SkipSpaces(s, p)) !in {0, RBRACKET, RBRACE}
    decreases v, 1
  {
    hide Spaces, SkipSpaces, LiesAt, WellFormed, Height, ParseArray, ParseObject, ParseString, ParseBoolean, ParseNull;
    var b: nat :| Spaces(s, p, b) && LiesAt(s, b, q, v);
    ValueStarts(s, b, q, v);
    SkippedStops(s, p, b);
    JsonRoundTrip.NoSpaceToSkip(s, b);
    assert ParseValue(s, p, nesting) == ParseValue(s, b, nesting);
    match v
    case Arr(_) => ArrayParses(s, b, q, v, nesting);
    case Obj(_) => ObjectParses(s, b, q, v, nesting);
    case _ => ScalarLiesParses(s, b, q, v, nesting);
  }

  lemma {:induction false} ArrayParses(s: cstr, p: nat, q: nat, v: Json, nesting: nat)
    requires v.Arr? && LiesAt(s, p, q, v) && WellFormed(v) && nesting + Height(v) <= MAX_NESTING
    ensures ParseValue(s, p, nesting) == Parsed(v, q)
    decreases v, 0
  {
    hide Spaces, ItemsLie, ParseItems, HeightOfItems, SkipSpaces, ParseObject;
    JsonRoundTrip.NoSpaceToSkip(s, p);
    if v.items == [] {
      ClosesAt(s, p + 1, q, RBRACKET);
    } else {
      ItemsParse(s, p + 1, q, v.items, [], nesting + 1);
      assert [] + v.items == v.items;
    }
  }

  lemma {:induction false} ItemsParse(s: cstr, p: nat, q: nat, items: seq<Json>, done: seq<Json>, nesting: nat)
    requires items != [] && ItemsLie(s, p, q, items)
    requires (forall i :: 0 <= i < |items| ==> WellFormed(items[i])) && nesting + HeightOfItems(items) <= MAX_NESTING
    ensures At(s, SkipSpaces(s, p)) != RBRACKET
    ensures ParseItems(s, SkipSpaces(s, p), nesting, done) == Parsed(Arr(done + items), q)
    decreases items, 0
  {
    hide Spaces, SkipSpaces, Lies, Ends, ParseValue, AfterElement, WellFormed, Height;
    var m: nat :| Lies(s, p, m, items[0]) &&
      if |items| == 1 then Ends(s, m, q, RBRACKET)
      else exists c: nat :: Spaces(s, m, c) && At(s, c) == COMMA && ItemsLie(s, c + 1, q, items[1..]);
    LiesParses(s, p, m, items[0], nesting);
    SkipAgain(s, p, nesting);
    var done' := done + [items[0]];
    assert done + items == done' + items[1..];
    if |items| == 1 {
      EndsAt(s, m, q, RBRACKET);
      assert done' + items[1..] == done';
    } else {
      var c: nat :| Spaces(s, m, c) && At(s, c) == COMMA && ItemsLie(s, c + 1, q, items[1..]);
      ItemsParse(s, c + 1, q, items[1..], done', nesting);
      CommaAt(s, m, c, RBRACKET);
    }
  }

  lemma {:induction false} ObjectParses(s: cstr, p: nat, q: nat, v: Json, nesting: nat)
    requires v.Obj? && LiesAt(s, p, q, v) && WellFormed(v) && nesting + Height(v) <= MAX_NESTING
    ensures ParseValue(s, p, nesting) == Parsed(v, q)
    decreases v, 0
  {
    hide Spaces, MembersLie, ParseMembers, HeightOfMembers, SkipSpaces, ParseArray, Distinct;
    JsonRoundTrip.NoSpaceToSkip(s, p);
    if v.members == [] {
      ClosesAt(s, p + 1, q, RBRACE);
    } else {
      assert [] + v.members == v.members;
      MembersParse(s, p + 1, q, v.members, [], nesting + 1);
    }
  }

  lemma {:induction false} MemberParses(s: cstr, p: nat, q: nat, m: Member<Json>, nesting: nat)
    requires MemberLies(s, p, q, m) && WellFormed(m.value) && nesting + Height(m.value) <= MAX_NESTING
    ensures ParseMember(s, SkipSpaces(s, p), nesting) == GotMember(m, q) && At(s, SkipSpaces(s, p)) == QUOTE
    decreases m, 0
  {
    hide Spaces, Lies, Spells, QuotedString, ParseValue, WellFormed, Height, SkipSpaces;
    var b: nat, n: nat, c: nat :|
      Spaces(s, p, b) && IsString(s, b, n, m.name) && Spaces(s, n, c) && At(s, c) == COLON
      && Lies(s, c + 1, q, m.value);
    SkippedStops(s, p, b);
    SkippedStops(s, n, c);
    QuotedIsString(s, b, n, m.name);
    LiesParses(s, c + 1, q, m.value, nesting);
  }

  lemma {:induction false} MembersParse(s: cstr, p: nat, q: nat, members: seq<Member<Json>>, done: seq<Member<Json>>,
                                        nesting: nat)
    requires members != [] && MembersLie(s, p, q, members) && Distinct(done + members)
    requires forall i :: 0 <= i < |members| ==> WellFormed(members[i].value)
    requires nesting + HeightOfMembers(members) <= MAX_NESTING
    ensures At(s, SkipSpaces(s, p)) == QUOTE
    ensures ParseMembers(s, SkipSpaces(s, p), nesting, done) == Parsed(Obj(done + members), q)
    decreases members, 0
  {
    hide Spaces, SkipSpaces, MemberLies, Ends, ParseMember, AfterElement, WellFormed, Height, Distinct, Has;
    var m: nat :| MemberLies(s, p, m, members[0]) &&
      if |members| == 1 then Ends(s, m, q, RBRACE)
      else exists c: nat :: Spaces(s, m, c) && At(s, c) == COMMA && MembersLie(s, c + 1, q, members[1..]);
    MemberParses(s, p, m, members[0], nesting);
    JsonRoundTrip.NotYetThere(done, members);
    var done' := done + [members[0]];
    assert done + members == done' + members[1..];
    if |members| == 1 {
      EndsAt(s, m, q, RBRACE);
      assert done' + members[1..] == done';
    } else {
      var c: nat :| Spaces(s, m, c) && At(s, c) == COMMA && MembersLie(s, c + 1, q, members[1..]);
      MembersParse(s, c + 1, q, members[1..], done', nesting);
      CommaAt(s, m, c, RBRACE);
    }
  }

  // ----- the one outcome that is not modelled further -----

  /** A sign or a digit, which can start a number. */
  ghost predicate HasNumberFrom(s: cstr, p: nat) {
    exists d :: p <= d < |s| && (s[d] == 0x2D || 0x30 <= s[d] <= 0x39)
  }

  lemma NumberLater(s: cstr, p: nat, q: nat)
    requires p <= q && HasNumberFrom(s, q)
    ensures HasNumberFrom(s, p)
  {
  }

  /** A number is only met where there is a byte that starts one. */
  lemma {:induction false} MeetsOnlyNumbers(s: cstr, p: nat, nesting: nat)
    requires ParseValue(s, p, nesting).NumberMet?
    ensures HasNumberFrom(s, p)
    decreases |s| - p, 2
  {
    hide SkipSpaces, ParseItems, ParseMembers;
    var q := SkipSpaces(s, p);
    var start := SkipSpaces(s, q + 1);
    if At(s, q) == LBRACKET {
      ItemsMeetOnlyNumbers(s, start, nesting + 1, []);
      NumberLater(s, p, start);
    } else if At(s, q) == LBRACE {
      MembersMeetOnlyNumbers(s, start, nesting + 1, []);
      NumberLater(s, p, start);
    } else {
      assert s[q] == At(s, q);
    }
  }

  lemma {:induction false} ItemsMeetOnlyNumbers(s: cstr, p: nat, nesting: nat, done: seq<Json>)
    requires ParseItems(s, p, nesting, done).NumberMet?
    ensures HasNumberFrom(s, p)
    decreases |s| - p, 3
  {
    hide ParseValue, HasNumberFrom, AfterElement;
    if ParseValue(s, p, nesting).NumberMet? {
      MeetsOnlyNumbers(s, p, nesting);
    } else {
      var Parsed(item, next) := ParseValue(s, p, nesting);
      var sep := AfterElement(s, next, RBRACKET);
      ItemsMeetOnlyNumbers(s, sep.next, nesting, done + [item]);
      NumberLater(s, p, sep.next);
    }
  }

  lemma {:induction false} MembersMeetOnlyNumbers(s: cstr, p: nat, nesting: nat, done: seq<Member<Json>>)
    requires ParseMembers(s, p, nesting, done).NumberMet?
    ensures HasNumberFrom(s, p)
    decreases |s| - p, 4
  {
    hide ParseValue, HasNumberFrom, AfterElement, QuotedString, SkipSpaces, Has;
    match ParseMember(s, p, nesting)
    case NoMember(_) =>
      var colon := SkipSpaces(s, QuotedString(s, p).value.next);
      MeetsOnlyNumbers(s, colon + 1, nesting);
      NumberLater(s, p, colon + 1);
    case GotMember(member, next) =>
      var sep := AfterElement(s, next, RBRACE);
      MembersMeetOnlyNumbers(s, sep.next, nesting, done + [member]);
      NumberLater(s, p, sep.next);
  }

  // ----- the theorem -----

  /** A value is parsed exactly from its layouts, and only where they end. */
  lemma ParsesExactlyLayouts(s: cstr, p: nat, nesting: nat, v: Json, q: nat)
    ensures ParseValue(s, p, nesting) == Parsed(v, q) <==>
            Lies(s, p, q, v) && WellFormed(v) && nesting + Height(v) <= MAX_NESTING
  {
    hide Lies, ParseValue, WellFormed, Height, NumberFree;
    if ParseValue(s, p, nesting) == Parsed(v, q) {
      ParsedLies(s, p, nesting);
      JsonRoundTrip.ParsedIsPrintable(s, p, nesting);
    } else if Lies(s, p, q, v) && WellFormed(v) && nesting + Height(v) <= MAX_NESTING {
      LiesParses(s, p, q, v, nesting);
    }
  }

  /** The same for whole texts, which may start with a byte order mark. */
  lemma TextParsesExactlyLayouts(s: cstr, v: Json, q: nat)
    ensures ParseText(s) == Parsed(v, q) <==>
            Lies(s, if [0xEF, 0xBB, 0xBF] <= s then 3 else 0, q, v) && WellFormed(v) && Height(v) <= MAX_NESTING
  {
    hide Lies, ParseValue, WellFormed, Height;
    ParsesExactlyLayouts(s, if [0xEF, 0xBB, 0xBF] <= s then 3 else 0, 0, v, q);
  }
}
