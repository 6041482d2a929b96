/** Quoted strings: the quote scanner, the unescaper and the escaper. */
module JsonStrings {
  import opened Bytes
  import opened Members
  import opened Utf8

  const QUOTE: byte := 0x22
  const SLASH: byte := 0x2F
  const LOWER_B: byte := 0x62
  const LOWER_F: byte := 0x66
  const LOWER_N: byte := 0x6E
  const LOWER_R: byte := 0x72
  const LOWER_T: byte := 0x74
  const DIGIT_0: byte := 0x30

  // ----- skip_quotes -----

  /** The position of the quote that closes a string whose text starts at `p`. */
  function ClosingQuote(s: cstr, p: nat): (q: Option<nat>)
    ensures q.Some? ==> p <= q.value < |s| && s[q.value] == QUOTE
    decreases |s| - p
  {
    if At(s, p) == QUOTE then Some(p)
    else if At(s, p) == 0 then None
    else if At(s, p) != BACKSLASH then ClosingQuote(s, p + 1)
    else if At(s, p + 1) == 0 then None
    else ClosingQuote(s, p + 2)
  }

  method SkipQuotes(s: cstr, start: nat) returns (ok: bool, pos: nat)
    ensures ok <==> At(s, start) == QUOTE && ClosingQuote(s, start + 1).Some?
    ensures ok ==> pos == ClosingQuote(s, start + 1).value + 1
  {
    pos := start;
    if At(s, pos) != QUOTE { return false, pos; }
    pos := pos + 1;
    while At(s, pos) != QUOTE
      invariant ClosingQuote(s, pos) == ClosingQuote(s, start + 1)
      decreases |s| - pos
    {
      if At(s, pos) == 0 {
        return false, pos;
      } else if At(s, pos) == BACKSLASH {
        pos := pos + 1;
        if At(s, pos) == 0 { return false, pos; }
      }
      pos := pos + 1;
    }
    pos := pos + 1;
    ok := true;
  }

  // ----- process_string -----

  datatype Piece = Piece(bytes: seq<byte>, next: nat)

  /** What one turn of the loop of `process_string` reads at `p` and writes. */
  function Step(s: cstr, p: nat): (r: Option<Piece>)
    ensures r.Some? ==> p < r.value.next && 1 <= |r.value.bytes| <= r.value.next - p
  {
    if At(s, p) == BACKSLASH then
      var c := At(s, p + 1);
      if c == QUOTE || c == BACKSLASH || c == SLASH then Some(Piece([c], p + 2))
      else if c == LOWER_B then Some(Piece([8], p + 2))
      else if c == LOWER_F then Some(Piece([12], p + 2))
      else if c == LOWER_N then Some(Piece([10], p + 2))
      else if c == LOWER_R then Some(Piece([13], p + 2))
      else if c == LOWER_T then Some(Piece([9], p + 2))
      else if c == LOWER_U then
        match ParseUtf16(s, p + 1)
        case None => None
        case Some(e) => Some(Piece(e.bytes, e.last + 1))
      else None
    else if At(s, p) < 0x20 then None
    else Some(Piece([At(s, p)], p + 1))
  }

  function Then(bytes: seq<byte>, rest: Option<Piece>): Option<Piece> {
    match rest
    case None => None
    case Some(r) => Some(Piece(bytes + r.bytes, r.next))
  }

  /** `process_string` on the text from `p` up to `q`, with the place where it stopped reading. */
  function Unescape(s: cstr, p: nat, q: nat): Option<Piece>
    decreases q - p
  {
    if p >= q || At(s, p) == 0 then Some(Piece([], p))
    else
      match Step(s, p)
      case None => None
      case Some(piece) => Then(piece.bytes, Unescape(s, piece.next, q))
  }

  lemma ThenNothing(rest: Option<Piece>)
    ensures Then([], rest) == rest
    ensures forall text, p :: Then(text, Some(Piece([], p))) == Some(Piece(text, p))
  {
    if rest.Some? { assert [] + rest.value.bytes == rest.value.bytes; }
    assert forall text: seq<byte> :: text + [] == text;
  }

  lemma ThenThen(a: seq<byte>, b: seq<byte>, rest: Option<Piece>)
    ensures Then(a, Then(b, rest)) == Then(a + b, rest)
  {
    if rest.Some? { assert a + (b + rest.value.bytes) == a + b + rest.value.bytes; }
  }

  ghost predicate PlainAt(s: cstr, p: nat, n: nat) {
    forall d :: p <= d < p + n ==> At(s, d) != QUOTE && At(s, d) != BACKSLASH && At(s, d) != 0
  }

  /** Characters that mean nothing to the scanner leave its answer unchanged. */
  lemma {:induction false} ScanOverPlain(s: cstr, p: nat, n: nat)
    requires PlainAt(s, p, n)
    ensures ClosingQuote(s, p) == ClosingQuote(s, p + n)
    decreases n
  {
    if n > 0 { ScanOverPlain(s, p + 1, n - 1); }
  }

  lemma ScanUnfolds(s: cstr, p: nat)
    requires At(s, p) != QUOTE && At(s, p) != 0
    ensures ClosingQuote(s, p) ==
            if At(s, p) != BACKSLASH then ClosingQuote(s, p + 1)
            else if At(s, p + 1) == 0 then None
            else ClosingQuote(s, p + 2)
  {
  }

  /** How far a turn of the unescaper goes, and over what. */
  lemma StepNext(s: cstr, p: nat)
    requires Step(s, p).Some?
    ensures At(s, p) != 0
    ensures At(s, p) != BACKSLASH ==> Step(s, p).value.next == p + 1
    ensures At(s, p) == BACKSLASH && At(s, p + 1) != LOWER_U ==> Step(s, p).value.next == p + 2 && At(s, p + 1) != 0
    ensures At(s, p) == BACKSLASH && At(s, p + 1) == LOWER_U ==>
              PlainAt(s, p + 2, 4) && (Step(s, p).value.next == p + 6 || Step(s, p).value.next == p + 12)
    ensures At(s, p) == BACKSLASH && At(s, p + 1) == LOWER_U && Step(s, p).value.next == p + 12 ==>
              At(s, p + 6) == BACKSLASH && At(s, p + 7) == LOWER_U && PlainAt(s, p + 8, 4)
  {
    hide ClosingQuote;
  }

  /** One turn of the unescaper stays in step with the scanner. */
  lemma StepAgreesWithScan(s: cstr, p: nat)
    requires At(s, p) != QUOTE && Step(s, p).Some?
    ensures ClosingQuote(s, Step(s, p).value.next) == ClosingQuote(s, p)
  {
    hide Step, ClosingQuote;
    StepNext(s, p);
    ScanUnfolds(s, p);
    if At(s, p) == BACKSLASH && At(s, p + 1) == LOWER_U {
      ScanOverPlain(s, p + 2, 4);
      if Step(s, p).value.next == p + 12 {
        ScanUnfolds(s, p + 6);
        ScanOverPlain(s, p + 8, 4);
      }
    }
  }

  /**
   The unescaper stops exactly on the quote the scanner found, and has written
   no more bytes than it has read.
   */
  lemma {:induction false} UnescapeEndsOnQuote(s: cstr, p: nat, q: nat)
    requires ClosingQuote(s, p) == Some(q)
    requires Unescape(s, p, q).Some?
    ensures Unescape(s, p, q).value.next == q
    ensures |Unescape(s, p, q).value.bytes| <= q - p
    decreases q - p
  {
    if p < q {
      StepAgreesWithScan(s, p);
      UnescapeEndsOnQuote(s, Step(s, p).value.next, q);
    }
  }

  lemma StepStaysInside(s: cstr, p: nat, q: nat)
    requires ClosingQuote(s, p) == Some(q) && p < q && Step(s, p).Some?
    ensures Step(s, p).value.next <= q && ClosingQuote(s, Step(s, p).value.next) == Some(q)
  {
    StepAgreesWithScan(s, p);
  }

  method CopyInto(output: array<byte>, at: nat, bytes: seq<byte>)
    requires at + |bytes| <= output.Length
    modifies output
    ensures output[..at + |bytes|] == old(output[..at]) + bytes
  {
    forall d | 0 <= d < |bytes| {
      output[at + d] := bytes[d];
    }
  }

  lemma UnescapeUnfolds(s: cstr, p: nat, q: nat)
    ensures Unescape(s, p, q) ==
            if p >= q || At(s, p) == 0 then Some(Piece([], p))
            else if Step(s, p).None? then None
            else Then(Step(s, p).value.bytes, Unescape(s, Step(s, p).value.next, q))
  {
  }

  lemma ThenOfNone(bytes: seq<byte>)
    ensures Then(bytes, None) == None
  {
  }

  method ProcessString(s: cstr, start: nat, len: nat) returns (r: Option<seq<byte>>)
    requires ClosingQuote(s, start) == Some(start + len)
    ensures r.Some? <==> Unescape(s, start, start + len).Some?
    ensures r.Some? ==> r.value == Unescape(s, start, start + len).value.bytes
  {
    hide Step, ClosingQuote, Then, Unescape;
    var q := start + len;
    var output := new byte[len + 1];
    var p: nat, o: nat := start, 0;
    ThenNothing(Unescape(s, start, q));
    assert output[..o] == [];
    while At(s, p) != 0 && p < q
      invariant start <= p <= q && ClosingQuote(s, p) == Some(q)
      invariant o <= p - start
      invariant Unescape(s, start, q) == Then(output[..o], Unescape(s, p, q))
      decreases q - p
    {
      UnescapeUnfolds(s, p, q);
      var piece := Step(s, p);
      if piece.None? { ThenOfNone(output[..o]); return None; }
      StepStaysInside(s, p, q);
      var Piece(bytes, next) := piece.value;
      ThenThen(output[..o], bytes, Unescape(s, next, q));
      CopyInto(output, o, bytes);
      p, o := next, o + |bytes|;
    }
    UnescapeUnfolds(s, p, q);
    ghost var text := output[..o];
    output[o] := 0;
    assert Then(text, Some(Piece([], p))) == Some(Piece(text, p)) by { ThenNothing(None); }
    return Some(output[..o]);
  }

  /** `get_quoted_string`: the unescaped text and the position after the closing quote. */
  function QuotedString(s: cstr, p: nat): (r: Option<Piece>)
    ensures r.Some? ==> p < r.value.next <= |s|
  {
    if At(s, p) != QUOTE then None
    else
      match ClosingQuote(s, p + 1)
      case None => None
      case Some(q) =>
        match Unescape(s, p + 1, q)
        case None => None
        case Some(text) => Some(Piece(text.bytes, q + 1))
  }

  method GetQuotedString(s: cstr, start: nat) returns (r: Option<seq<byte>>, pos: nat)
    ensures r.Some? <==> QuotedString(s, start).Some?
    ensures r.Some? ==> QuotedString(s, start) == Some(Piece(r.value, pos))
  {
    var ok;
    ok, pos := SkipQuotes(s, start);
    if !ok { return None, pos; }
    r := ProcessString(s, start + 1, pos - start - 2);
  }

  // ----- json_serialize_string -----

  function HexChar(n: nat): (c: byte)
    requires n < 16
    ensures HexDigit(c) == Some(n)
  {
    if n < 10 then 0x30 + n else 0x61 + n - 10
  }

  /** The text written for one character; `slashes` is `parson_escape_slashes`. */
  function EscapeByte(c: byte, slashes: bool): (e: seq<byte>)
    ensures |e| >= 1 && 0 !in e
  {
    if c == QUOTE || c == BACKSLASH || (c == SLASH && slashes) then [BACKSLASH, c]
    else if c == 8 then [BACKSLASH, LOWER_B]
    else if c == 12 then [BACKSLASH, LOWER_F]
    else if c == 10 then [BACKSLASH, LOWER_N]
    else if c == 13 then [BACKSLASH, LOWER_R]
    else if c == 9 then [BACKSLASH, LOWER_T]
    else if c < 0x20 then [BACKSLASH, LOWER_U, DIGIT_0, DIGIT_0, HexChar(c / 16), HexChar(c % 16)]
    else [c]
  }

  function EscapeAll(t: seq<byte>, slashes: bool): (e: seq<byte>)
    ensures 0 !in e
  {
    if t == [] then [] else EscapeByte(t[0], slashes) + EscapeAll(t[1..], slashes)
  }

  function StringText(t: seq<byte>, slashes: bool): (e: seq<byte>)
    ensures 0 !in e
  {
    [QUOTE] + EscapeAll(t, slashes) + [QUOTE]
  }

  /** A control character written with four hex digits. */
  lemma HexStep(s: cstr, p: nat, c: byte)
    requires c < 0x20 && At(s, p) == BACKSLASH && At(s, p + 1) == LOWER_U
    requires At(s, p + 2) == At(s, p + 3) == DIGIT_0
    requires At(s, p + 4) == HexChar(c / 16) && At(s, p + 5) == HexChar(c % 16)
    ensures Step(s, p) == Some(Piece([c], p + 6)) && ClosingQuote(s, p) == ClosingQuote(s, p + 6)
  {
    hide Encode2, Encode3, Encode4, Combine;
    assert ParseHex4(s, p + 2) == Some(c);
    ScanOverPlain(s, p + 2, 4);
  }

  /** One escaped character is one turn of the unescaper and gives back the character. */
  lemma EscapeByteStep(s: cstr, p: nat, c: byte, slashes: bool)
    requires Occurs(s, p, EscapeByte(c, slashes))
    ensures Step(s, p) == Some(Piece([c], p + |EscapeByte(c, slashes)|))
    ensures ClosingQuote(s, p) == ClosingQuote(s, p + |EscapeByte(c, slashes)|)
    ensures At(s, p) != QUOTE && At(s, p) != 0
  {
    var e := EscapeByte(c, slashes);
    forall d | 0 <= d < |e|
      ensures At(s, p + d) == e[d]
    {
      OccursAt(s, p, e, d);
    }
    hide ParseUtf16;
    if |e| == 6 {
      HexStep(s, p, c);
    } else if |e| == 2 {
      assert At(s, p) == e[0] == BACKSLASH && At(s, p + 1) == e[1] != LOWER_U;
    } else {
      assert At(s, p) == e[0] == c;
    }
  }

  lemma QuoteCloses(s: cstr, p: nat)
    requires At(s, p) == QUOTE
    ensures ClosingQuote(s, p) == Some(p)
  {
  }

  lemma NothingToUnescape(s: cstr, p: nat)
    ensures Unescape(s, p, p) == Some(Piece([], p))
  {
  }

  /** Scanner and unescaper take back the output of the escaper, for every byte string. */
  lemma {:induction false} EscapeAllRoundTrip(s: cstr, p: nat, t: seq<byte>, slashes: bool)
    requires Occurs(s, p, EscapeAll(t, slashes) + [QUOTE])
    ensures var q := p + |EscapeAll(t, slashes)|;
            ClosingQuote(s, p) == Some(q) && Unescape(s, p, q) == Some(Piece(t, q))
    decreases |t|
  {
    hide Step, ClosingQuote, EscapeByte, Unescape, Occurs;
    var all := EscapeAll(t, slashes);
    var q := p + |all|;
    OccursSplit(s, p, all, [QUOTE]);
    if t == [] {
      OccursAt(s, p, [QUOTE], 0);
      QuoteCloses(s, p);
      NothingToUnescape(s, p);
    } else {
      var e, rest := EscapeByte(t[0], slashes), EscapeAll(t[1..], slashes);
      OccursSplit(s, p, e, rest);
      OccursSplit(s, p + |e|, rest, [QUOTE]);
      EscapeByteStep(s, p, t[0], slashes);
      EscapeAllRoundTrip(s, p + |e|, t[1..], slashes);
      UnescapeUnfolds(s, p, q);
      assert [t[0]] + t[1..] == t;
    }
  }

  /** Reading a serialized string gives back its bytes and stops right behind it. */
  lemma StringRoundTrip(s: cstr, p: nat, t: seq<byte>, slashes: bool)
    requires Occurs(s, p, StringText(t, slashes))
    ensures QuotedString(s, p) == Some(Piece(t, p + |StringText(t, slashes)|))
  {
    hide Unescape, ClosingQuote;
    var all := EscapeAll(t, slashes);
    assert StringText(t, slashes) == [QUOTE] + (all + [QUOTE]);
    OccursSplit(s, p, [QUOTE], all + [QUOTE]);
    OccursAt(s, p, [QUOTE], 0);
    EscapeAllRoundTrip(s, p + 1, t, slashes);
  }

  // ----- UTF-8 in, UTF-8 out -----

  lemma DropAscii(w: seq<byte>)
    requires Utf8Octets(w) && w != [] && w[0] < 0x80
    ensures Utf8Octets(w[1..])
  {
    var k :| 1 <= k <= |w| && Utf8Char(w[..k]) && Utf8Octets(w[k..]);
    assert w[..k][0] == w[0];
  }

  lemma {:induction false} DropAsciiRun(w: seq<byte>, n: nat)
    requires Utf8Octets(w) && n <= |w| && forall d :: 0 <= d < n ==> w[d] < 0x80
    ensures Utf8Octets(w[n..])
    decreases n
  {
    if n > 0 {
      DropAscii(w);
      DropAsciiRun(w[1..], n - 1);
      assert w[1..][n - 1..] == w[n..];
    } else {
      assert w[0..] == w;
    }
  }

  lemma PrependChar(a: seq<byte>, b: seq<byte>)
    requires Utf8Char(a) && Utf8Octets(b)
    ensures Utf8Octets(a + b)
  {
    assert (a + b)[..|a|] == a && (a + b)[|a|..] == b;
  }

  /** Bytes from 0x80 up are copied. */
  lemma {:induction false} CopiesHighBytes(s: cstr, p: nat, k: nat, q: nat)
    requires p + k <= q <= |s| && forall d :: p <= d < p + k ==> s[d] >= 0x80
    ensures Unescape(s, p, q) == Then(s[p..p + k], Unescape(s, p + k, q))
    decreases k
  {
    hide Then;
    if k > 0 {
      CopiesHighBytes(s, p + 1, k - 1, q);
      ThenThen([s[p]], s[p + 1..p + k], Unescape(s, p + k, q));
      assert [s[p]] + s[p + 1..p + k] == s[p..p + k];
      assert Unescape(s, p, q) == Then([s[p]], Unescape(s, p + 1, q));
    } else {
      ThenNothing(Unescape(s, p, q));
      assert s[p..p] == [];
    }
  }

  lemma HexIsAscii(s: cstr, i: nat)
    requires ParseHex4(s, i).Some?
    ensures forall d :: i <= d < i + 4 ==> At(s, d) < 0x80
  {
    assert HexDigit(At(s, i)).Some? && HexDigit(At(s, i + 1)).Some?;
    assert HexDigit(At(s, i + 2)).Some? && HexDigit(At(s, i + 3)).Some?;
  }

  /** The bytes that an escape is made of are ASCII, and what it writes is one character. */
  lemma AsciiStep(s: cstr, p: nat)
    requires p < |s| && s[p] < 0x80 && Step(s, p).Some? && Step(s, p).value.next <= |s|
    ensures Utf8Char(Step(s, p).value.bytes)
    ensures forall d :: p <= d < Step(s, p).value.next ==> s[d] < 0x80
  {
    hide VerifySequence, Encode2, Encode3, Encode4, Combine, ParseHex4;
    if s[p] == BACKSLASH && At(s, p + 1) == LOWER_U {
      ValueIsEncoded(s, p + 1);
      hide Utf8Char;
      HexIsAscii(s, p + 2);
      if Step(s, p).value.next == p + 12 { HexIsAscii(s, p + 8); }
      forall d | p <= d < Step(s, p).value.next ensures s[d] < 0x80 {
        assert At(s, d) == s[d];
      }
    }
  }

  lemma SliceOfSlice(s: seq<byte>, p: nat, k: nat, q: nat)
    requires p + k <= q <= |s|
    ensures s[p..q][..k] == s[p..p + k] && s[p..q][k..] == s[p + k..q]
  {
  }

  lemma EmptyIsUtf8()
    ensures Utf8Octets([])
  {
  }

  lemma ThenIsPrefix(bytes: seq<byte>, rest: Option<Piece>)
    ensures Then(bytes, rest).Some? <==> rest.Some?
    ensures rest.Some? ==> Then(bytes, rest).value.bytes == bytes + rest.value.bytes
  {
  }

  lemma UnescapeAfterStep(s: cstr, p: nat, q: nat)
    requires p < q <= |s| && Unescape(s, p, q).Some?
    ensures Step(s, p).Some? && Unescape(s, Step(s, p).value.next, q).Some?
    ensures Unescape(s, p, q).value.bytes ==
            Step(s, p).value.bytes + Unescape(s, Step(s, p).value.next, q).value.bytes
  {
  }

  /** The first character of well-formed text, when it is not ASCII, has only high bytes. */
  lemma HighChar(w: seq<byte>) returns (k: nat)
    requires Utf8Octets(w) && w != [] && w[0] >= 0x80
    ensures 1 <= k <= |w| && Utf8Char(w[..k]) && Utf8Octets(w[k..])
    ensures forall d :: 0 <= d < k ==> w[d] >= 0x80
  {
    k :| 1 <= k <= |w| && Utf8Char(w[..k]) && Utf8Octets(w[k..]);
    assert forall d :: 0 <= d < k ==> w[d] == w[..k][d];
  }

  /** Well-formed UTF-8 between the quotes unescapes to well-formed UTF-8. */
  lemma {:induction false} UnescapeKeepsUtf8(s: cstr, p: nat, q: nat)
    requires ClosingQuote(s, p) == Some(q) && Unescape(s, p, q).Some?
    requires Utf8Octets(s[p..q])
    ensures Utf8Octets(Unescape(s, p, q).value.bytes)
    decreases q - p
  {
    hide Step, Utf8Char, Utf8Octets, Then, ClosingQuote, Unescape;
    if p == q {
      NothingToUnescape(s, p);
      EmptyIsUtf8();
    } else if s[p] < 0x80 {
      UnescapeAfterStep(s, p, q);
      var next := Step(s, p).value.next;
      StepStaysInside(s, p, q);
      AsciiStep(s, p);
      DropAsciiRun(s[p..q], next - p);
      SliceOfSlice(s, p, next - p, q);
      UnescapeKeepsUtf8(s, next, q);
      PrependChar(Step(s, p).value.bytes, Unescape(s, next, q).value.bytes);
    } else {
      var k := HighChar(s[p..q]);
      SliceOfSlice(s, p, k, q);
      assert forall d :: p <= d < p + k ==> s[d] == s[p..q][d - p];
      CopiesHighBytes(s, p, k, q);
      ScanOverPlain(s, p, k);
      ThenIsPrefix(s[p..p + k], Unescape(s, p + k, q));
      UnescapeKeepsUtf8(s, p + k, q);
      PrependChar(s[p..p + k], Unescape(s, p + k, q).value.bytes);
    }
  }
}
