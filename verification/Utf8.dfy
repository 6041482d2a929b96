/**
 UTF-8 checking and the decoding of \u escapes. A mask such as `b & 0x3F` is
 written as the remainder by 0x40, a shift by 6 as the quotient by 0x40.
 */
module Utf8 {
  import opened Bytes
  import opened Members

  // ----- verify_utf8_sequence -----

  predicate IsContinuation(b: byte) {
    b / 0x40 == 2
  }

  function NumBytes(c: byte): nat {
    if c == 0xC0 || c == 0xC1 || c > 0xF4 || IsContinuation(c) then 0
    else if c / 0x80 == 0 then 1
    else if c / 0x20 == 6 then 2
    else if c / 0x10 == 14 then 3
    else if c / 0x08 == 30 then 4
    else 0
  }

  /** The code point that the bytes of a sequence spell, before it is judged. */
  function RawCodePoint(s: seq<byte>, i: nat): Option<nat> {
    var len := NumBytes(At(s, i));
    if len == 1 then
      Some(At(s, i))
    else if len == 2 && IsContinuation(At(s, i + 1)) then
      Some(At(s, i) % 0x20 * 0x40 + At(s, i + 1) % 0x40)
    else if len == 3 && IsContinuation(At(s, i + 1)) && IsContinuation(At(s, i + 2)) then
      Some((At(s, i) % 0x10 * 0x40 + At(s, i + 1) % 0x40) * 0x40 + At(s, i + 2) % 0x40)
    else if len == 4 && IsContinuation(At(s, i + 1)) && IsContinuation(At(s, i + 2))
            && IsContinuation(At(s, i + 3)) then
      Some(((At(s, i) % 8 * 0x40 + At(s, i + 1) % 0x40) * 0x40 + At(s, i + 2) % 0x40) * 0x40
           + At(s, i + 3) % 0x40)
    else
      None
  }

  /** Overlong forms, values past U+10FFFF and surrogate halves are refused. */
  predicate Acceptable(cp: nat, len: nat) {
    && !((cp < 0x80 && len > 1) || (cp < 0x800 && len > 2) || (cp < 0x1_0000 && len > 3))
    && cp <= 0x10_FFFF
    && !(0xD800 <= cp <= 0xDFFF)
  }

  datatype Decoded = Decoded(codePoint: nat, len: nat)

  /** `verify_utf8_sequence`, keeping the code point it computes. */
  function VerifySequence(s: seq<byte>, i: nat): (r: Option<Decoded>)
    ensures r.Some? ==> 1 <= r.value.len <= 4
  {
    var len := NumBytes(At(s, i));
    match RawCodePoint(s, i)
    case None => None
    case Some(cp) => if Acceptable(cp, len) then Some(Decoded(cp, len)) else None
  }

  ghost predicate IsValidFrom(s: seq<byte>, i: nat)
    decreases |s| - i
  {
    i >= |s| || (VerifySequence(s, i).Some? && IsValidFrom(s, i + VerifySequence(s, i).value.len))
  }

  method IsValidUtf8(text: seq<byte>) returns (ok: bool)
    ensures ok <==> IsValidFrom(text, 0)
  {
    var p := 0;
    while p < |text|
      invariant IsValidFrom(text, 0) <==> IsValidFrom(text, p)
    {
      var r := VerifySequence(text, p);
      if r.None? { return false; }
      p := p + r.value.len;
    }
    return true;
  }

  // ----- section 4 of RFC 3629 -----

  predicate Tail(b: byte) {
    0x80 <= b <= 0xBF
  }

  predicate Utf8Char(o: seq<byte>) {
    || (|o| == 1 && o[0] <= 0x7F)
    || (|o| == 2 && 0xC2 <= o[0] <= 0xDF && Tail(o[1]))
    || (|o| == 3 && Tail(o[2])
        && (|| (o[0] == 0xE0 && 0xA0 <= o[1] <= 0xBF)
            || (0xE1 <= o[0] <= 0xEC && Tail(o[1]))
            || (o[0] == 0xED && 0x80 <= o[1] <= 0x9F)
            || (0xEE <= o[0] <= 0xEF && Tail(o[1]))))
    || (|o| == 4 && Tail(o[2]) && Tail(o[3])
        && (|| (o[0] == 0xF0 && 0x90 <= o[1] <= 0xBF)
            || (0xF1 <= o[0] <= 0xF3 && Tail(o[1]))
            || (o[0] == 0xF4 && 0x80 <= o[1] <= 0x8F)))
  }

  ghost predicate Utf8Octets(s: seq<byte>) {
    s == [] || exists k :: 1 <= k <= |s| && Utf8Char(s[..k]) && Utf8Octets(s[k..])
  }

  /** The checker takes a sequence exactly when it is one character of the grammar. */
  lemma SequenceIsUtf8Char(s: cstr, i: nat, k: nat)
    requires i < |s| && 1 <= k
    ensures VerifySequence(s, i).Some? && VerifySequence(s, i).value.len == k <==>
            i + k <= |s| && Utf8Char(s[i..i + k])
  {
    if i + k <= |s| {
      var o := s[i..i + k];
      assert forall d :: 0 <= d < k ==> o[d] == At(s, i + d);
    }
  }

  /** `is_valid_utf8` on a whole NUL-terminated string accepts exactly RFC 3629's UTF-8. */
  lemma {:induction false} ValidIsRfc3629(s: cstr, i: nat)
    requires i <= |s|
    ensures IsValidFrom(s, i) <==> Utf8Octets(s[i..])
    decreases |s| - i
  {
    hide Utf8Char, VerifySequence;
    var rest := s[i..];
    if i < |s| {
      forall k | 1 <= k <= |rest|
        ensures Utf8Char(rest[..k]) <==> VerifySequence(s, i).Some? && VerifySequence(s, i).value.len == k
      {
        SequenceIsUtf8Char(s, i, k);
        assert rest[..k] == s[i..i + k];
      }
      if VerifySequence(s, i).Some? {
        var k := VerifySequence(s, i).value.len;
        SequenceIsUtf8Char(s, i, k);
        ValidIsRfc3629(s, i + k);
        assert rest[k..] == s[i + k..];
      }
    }
  }

  // ----- \u escapes -----

  function HexDigit(c: byte): (r: Option<nat>)
    ensures r.Some? ==> r.value < 16
  {
    if 0x30 <= c <= 0x39 then Some(c - 0x30)          // '0'..'9'
    else if 0x61 <= c <= 0x66 then Some(c - 0x61 + 10) // 'a'..'f'
    else if 0x41 <= c <= 0x46 then Some(c - 0x41 + 10) // 'A'..'F'
    else None
  }

  const LOWER_DIGITS: seq<byte> :=  // 0123456789abcdef
    [0x30, 0x31, 0x32, 0x33, 0x34, 0x35, 0x36, 0x37, 0x38, 0x39, 0x61, 0x62, 0x63, 0x64, 0x65, 0x66]
  const UPPER_DIGITS: seq<byte> :=  // 0123456789ABCDEF
    [0x30, 0x31, 0x32, 0x33, 0x34, 0x35, 0x36, 0x37, 0x38, 0x39, 0x41, 0x42, 0x43, 0x44, 0x45, 0x46]

  /** `c` is the base-16 digit `d`, in either letter case. */
  predicate IsDigit(c: byte, d: nat) {
    d < 16 && (c == LOWER_DIGITS[d] || c == UPPER_DIGITS[d])
  }

  /** The four bytes at `i` are the base-16 digits of `v`, the most significant one first. */
  predicate IsNumeral(s: seq<byte>, i: nat, v: nat) {
    && v < 0x1_0000
    && IsDigit(At(s, i), v / 0x1000) && IsDigit(At(s, i + 1), v / 0x100 % 0x10)
    && IsDigit(At(s, i + 2), v / 0x10 % 0x10) && IsDigit(At(s, i + 3), v % 0x10)
  }

  /** `parse_utf16_hex`: four hex digits, none of them the terminator. */
  function ParseHex4(s: seq<byte>, i: nat): (r: Option<nat>)
    ensures r.Some? ==> r.value < 0x1_0000
    ensures r.Some? ==> forall d :: i <= d < i + 4 ==> HexDigit(At(s, d)).Some?
  {
    var x1, x2, x3, x4 :=
      HexDigit(At(s, i)), HexDigit(At(s, i + 1)), HexDigit(At(s, i + 2)), HexDigit(At(s, i + 3));
    if x1.None? || x2.None? || x3.None? || x4.None? then None
    else Some(x1.value * 0x1000 + x2.value * 0x100 + x3.value * 0x10 + x4.value)
  }

  lemma HexDigitReadsDigits(c: byte, d: nat)
    ensures HexDigit(c) == Some(d) <==> IsDigit(c, d)
  {
  }

  lemma LastDigit(v: nat, q: nat, d: nat)
    requires d < 0x10
    ensures v == 0x10 * q + d <==> q == v / 0x10 && d == v % 0x10
  {
  }

  lemma EightBits(v: nat)
    ensures v / 0x100 == v / 0x10 / 0x10 && v / 0x1000 == v / 0x10 / 0x10 / 0x10
  {
  }

  /** A number below 2 to the 16 and its four digits determine each other. */
  lemma FourHexDigits(v: nat, x1: nat, x2: nat, x3: nat, x4: nat)
    requires v < 0x1_0000 && x1 < 16 && x2 < 16 && x3 < 16 && x4 < 16
    ensures v == x1 * 0x1000 + x2 * 0x100 + x3 * 0x10 + x4 <==>
            x1 == v / 0x1000 && x2 == v / 0x100 % 0x10 && x3 == v / 0x10 % 0x10 && x4 == v % 0x10
  {
    var q2 := 0x10 * x1 + x2;
    var q3 := 0x10 * q2 + x3;
    EightBits(v);
    LastDigit(v, q3, x4);
    LastDigit(v / 0x10, q2, x3);
    LastDigit(v / 0x10 / 0x10, x1, x2);
  }

  /** Four bytes are read as `v` exactly when they are its numeral. */
  lemma ParseHex4ReadsNumerals(s: seq<byte>, i: nat, v: nat)
    ensures ParseHex4(s, i) == Some(v) <==> IsNumeral(s, i, v)
  {
    hide HexDigit, IsDigit;
    if v < 0x1_0000 {
      HexDigitReadsDigits(At(s, i), v / 0x1000);
      HexDigitReadsDigits(At(s, i + 1), v / 0x100 % 0x10);
      HexDigitReadsDigits(At(s, i + 2), v / 0x10 % 0x10);
      HexDigitReadsDigits(At(s, i + 3), v % 0x10);
      if ParseHex4(s, i).Some? {
        FourHexDigits(v, HexDigit(At(s, i)).value, HexDigit(At(s, i + 1)).value,
                      HexDigit(At(s, i + 2)).value, HexDigit(At(s, i + 3)).value);
      }
      FourHexDigits(v, v / 0x1000, v / 0x100 % 0x10, v / 0x10 % 0x10, v % 0x10);
    }
  }

  const BACKSLASH: byte := 0x5C
  const LOWER_U: byte := 0x75

  /** `110xxxxx 10xxxxxx` */
  function Encode2(cp: nat): (out: seq<byte>)
    ensures |out| == 2
  {
    [cp / 0x40 % 0x20 + 0xC0, cp % 0x40 + 0x80]
  }

  /** `1110xxxx 10xxxxxx 10xxxxxx` */
  function Encode3(cp: nat): (out: seq<byte>)
    ensures |out| == 3
  {
    [cp / 0x1000 % 0x10 + 0xE0, cp / 0x40 % 0x40 + 0x80, cp % 0x40 + 0x80]
  }

  /** `11110xxx 10xxxxxx 10xxxxxx 10xxxxxx` */
  function Encode4(cp: nat): (out: seq<byte>)
    ensures |out| == 4
  {
    [cp / 0x4_0000 % 8 + 0xF0, cp / 0x1000 % 0x40 + 0x80, cp / 0x40 % 0x40 + 0x80, cp % 0x40 + 0x80]
  }

  function Combine(lead: nat, trail: nat): nat
    requires lead >= 0xD800 && trail >= 0xDC00
  {
    (lead - 0xD800) % 0x400 * 0x400 + (trail - 0xDC00) % 0x400 + 0x1_0000
  }

  datatype Escape = Escape(bytes: seq<byte>, last: nat)

  /**
   `parse_utf16`: `i` is the position of the `u`. The result holds the emitted
   bytes and the position of the last hex digit consumed.
   */
  function ParseUtf16(s: seq<byte>, i: nat): (r: Option<Escape>)
    ensures r.Some? ==> i < r.value.last && 1 <= |r.value.bytes| <= 4
    ensures r.Some? ==> |r.value.bytes| <= r.value.last - i
  {
    match ParseHex4(s, i + 1)
    case None => None
    case Some(cp) =>
      if cp < 0x80 then
        Some(Escape([cp], i + 4))
      else if cp < 0x800 then
        Some(Escape(Encode2(cp), i + 4))
      else if cp < 0xD800 || cp > 0xDFFF then
        Some(Escape(Encode3(cp), i + 4))
      else if cp <= 0xDBFF then
        if At(s, i + 5) != BACKSLASH || At(s, i + 6) != LOWER_U then None
        else
          match ParseHex4(s, i + 7)
          case None => None
          case Some(trail) =>
            if trail < 0xDC00 || trail > 0xDFFF then None
            else Some(Escape(Encode4(Combine(cp, trail)), i + 10))
      else None
  }

  /**
   The escape at `i` denotes the scalar value `cp` by section 7 of RFC 8259: its
   digits are those of `cp`, or it is the first of two escapes whose digits are
   those of the surrogates of section 2.1 of RFC 2781.
   */
  ghost predicate Denotes(s: seq<byte>, i: nat, cp: nat) {
    if cp < 0x1_0000 then IsNumeral(s, i + 1, cp) && !(0xD800 <= cp <= 0xDFFF)
    else
      && cp <= 0x10_FFFF
      && IsNumeral(s, i + 1, 0xD800 + (cp - 0x1_0000) / 0x400)
      && At(s, i + 5) == BACKSLASH && At(s, i + 6) == LOWER_U
      && IsNumeral(s, i + 7, 0xDC00 + (cp - 0x1_0000) % 0x400)
  }

  lemma OneByte(cp: nat)
    requires cp < 0x80
    ensures VerifySequence([cp], 0) == Some(Decoded(cp, 1)) && Utf8Char([cp])
  {
  }

  lemma TwoDigits(cp: nat, b: nat, c: nat)
    requires b < 0x20 && c < 0x40 && cp == b * 0x40 + c && 0x80 <= cp
    ensures var out := [b + 0xC0, c + 0x80];
            && VerifySequence(out, 0) == Some(Decoded(cp, 2)) && Utf8Char(out)
  {
    var out := [b + 0xC0, c + 0x80];
    assert RawCodePoint(out, 0) == Some(cp);
  }

  /** The last six bits and the rest. */
  lemma SixBits(n: nat) returns (high: nat, low: nat)
    ensures high == n / 0x40 && low == n % 0x40 && n == 0x40 * high + low && low < 0x40
  {
    high, low := n / 0x40, n % 0x40;
  }

  lemma TwoBytes(cp: nat)
    requires 0x80 <= cp < 0x800
    ensures VerifySequence(Encode2(cp), 0) == Some(Decoded(cp, 2)) && Utf8Char(Encode2(cp))
  {
    hide VerifySequence, Utf8Char;
    var b, c := SixBits(cp);
    assert Encode2(cp) == [b + 0xC0, c + 0x80];
    TwoDigits(cp, b, c);
  }

  lemma TwelveBits(n: nat)
    ensures n / 0x40 / 0x40 == n / 0x1000
  {
  }

  lemma ThreeDigits(cp: nat, b: nat, c: nat, d: nat)
    requires b < 0x10 && c < 0x40 && d < 0x40 && cp == (b * 0x40 + c) * 0x40 + d
    requires 0x800 <= cp && !(0xD800 <= cp <= 0xDFFF)
    ensures var out := [b + 0xE0, c + 0x80, d + 0x80];
            && VerifySequence(out, 0) == Some(Decoded(cp, 3)) && Utf8Char(out)
  {
    var out := [b + 0xE0, c + 0x80, d + 0x80];
    assert RawCodePoint(out, 0) == Some(cp);
  }

  lemma ThreeBytes(cp: nat)
    requires 0x800 <= cp < 0x1_0000 && !(0xD800 <= cp <= 0xDFFF)
    ensures VerifySequence(Encode3(cp), 0) == Some(Decoded(cp, 3)) && Utf8Char(Encode3(cp))
  {
    hide VerifySequence, Utf8Char;
    var q, d := SixBits(cp);
    var b, c := SixBits(q);
    TwelveBits(cp);
    assert Encode3(cp) == [b + 0xE0, c + 0x80, d + 0x80];
    ThreeDigits(cp, b, c, d);
  }

  lemma EighteenBits(n: nat)
    ensures n / 0x1000 / 0x40 == n / 0x4_0000
  {
  }

  lemma FourDigits(cp: nat, a: nat, b: nat, c: nat, d: nat)
    requires a < 8 && b < 0x40 && c < 0x40 && d < 0x40 && cp == ((a * 0x40 + b) * 0x40 + c) * 0x40 + d
    requires 0x1_0000 <= cp <= 0x10_FFFF
    ensures var out := [a + 0xF0, b + 0x80, c + 0x80, d + 0x80];
            && VerifySequence(out, 0) == Some(Decoded(cp, 4)) && Utf8Char(out)
  {
    var out := [a + 0xF0, b + 0x80, c + 0x80, d + 0x80];
    assert RawCodePoint(out, 0) == Some(cp);
  }

  lemma FourBytes(cp: nat)
    requires 0x1_0000 <= cp <= 0x10_FFFF
    ensures VerifySequence(Encode4(cp), 0) == Some(Decoded(cp, 4)) && Utf8Char(Encode4(cp))
  {
    hide VerifySequence, Utf8Char;
    var q, d := SixBits(cp);
    var p, c := SixBits(q);
    var a, b := SixBits(p);
    TwelveBits(cp);
    EighteenBits(cp);
    assert Encode4(cp) == [a + 0xF0, b + 0x80, c + 0x80, d + 0x80];
    FourDigits(cp, a, b, c, d);
  }

  lemma SurrogatesCombine(cp: nat, lead: nat, trail: nat)
    requires 0xD800 <= lead <= 0xDBFF && 0xDC00 <= trail <= 0xDFFF && 0x1_0000 <= cp <= 0x10_FFFF
    ensures cp == Combine(lead, trail) <==>
            lead == 0xD800 + (cp - 0x1_0000) / 0x400 && trail == 0xDC00 + (cp - 0x1_0000) % 0x400
  {
  }

  lemma CombineIsHigh(lead: nat, trail: nat)
    requires 0xD800 <= lead <= 0xDBFF && 0xDC00 <= trail <= 0xDFFF
    ensures 0x1_0000 <= Combine(lead, trail) <= 0x10_FFFF
  {
  }

  /** The value that the escape at `i` has for the parser. */
  function ValueOf(s: seq<byte>, i: nat): Option<nat> {
    match ParseHex4(s, i + 1)
    case None => None
    case Some(cp) =>
      if cp < 0xD800 || cp > 0xDFFF then Some(cp)
      else if cp > 0xDBFF || At(s, i + 5) != BACKSLASH || At(s, i + 6) != LOWER_U then None
      else
        match ParseHex4(s, i + 7)
        case None => None
        case Some(trail) => if trail < 0xDC00 || trail > 0xDFFF then None else Some(Combine(cp, trail))
  }

  lemma ValueIsDenoted(s: seq<byte>, i: nat, cp: nat)
    ensures ValueOf(s, i) == Some(cp) <==> Denotes(s, i, cp)
  {
    hide ParseHex4, IsNumeral, Combine;
    var lead, trail := ParseHex4(s, i + 1), ParseHex4(s, i + 7);
    ParseHex4ReadsNumerals(s, i + 1, cp);
    if 0x1_0000 <= cp <= 0x10_FFFF {
      ParseHex4ReadsNumerals(s, i + 1, 0xD800 + (cp - 0x1_0000) / 0x400);
      ParseHex4ReadsNumerals(s, i + 7, 0xDC00 + (cp - 0x1_0000) % 0x400);
    }
    if lead.Some? && 0xD800 <= lead.value <= 0xDBFF && trail.Some? && 0xDC00 <= trail.value <= 0xDFFF {
      CombineIsHigh(lead.value, trail.value);
      if 0x1_0000 <= cp <= 0x10_FFFF { SurrogatesCombine(cp, lead.value, trail.value); }
    }
  }

  lemma ValueIsEncoded(s: seq<byte>, i: nat)
    ensures ParseUtf16(s, i).Some? <==> ValueOf(s, i).Some?
    ensures ParseUtf16(s, i).Some? ==>
              var cp, Escape(out, last) := ValueOf(s, i).value, ParseUtf16(s, i).value;
              && last == i + (if cp < 0x1_0000 then 4 else 10)
              && VerifySequence(out, 0) == Some(Decoded(cp, |out|)) && Utf8Char(out)
  {
    hide ParseHex4, HexDigit, VerifySequence, Utf8Char, Encode2, Encode3, Encode4, Combine;
    if ParseUtf16(s, i).Some? {
      var cp := ValueOf(s, i).value;
      if 0xD800 <= ParseHex4(s, i + 1).value <= 0xDFFF {
        CombineIsHigh(ParseHex4(s, i + 1).value, ParseHex4(s, i + 7).value);
      }
      if cp < 0x80 { OneByte(cp); }
      else if cp < 0x800 { TwoBytes(cp); }
      else if cp < 0x1_0000 { ThreeBytes(cp); }
      else { FourBytes(cp); }
    }
  }

  /**
   An escape is accepted, with bytes that decode to `cp` and the right number of
   digits, exactly when it denotes `cp`; no other escape is accepted.
   */
  lemma EscapeEncodesScalar(s: seq<byte>, i: nat, cp: nat)
    ensures Denotes(s, i, cp) <==>
            && ParseUtf16(s, i).Some?
            && var Escape(out, last) := ParseUtf16(s, i).value;
               last == i + (if cp < 0x1_0000 then 4 else 10) && VerifySequence(out, 0) == Some(Decoded(cp, |out|))
    ensures ParseUtf16(s, i).Some? ==> Utf8Char(ParseUtf16(s, i).value.bytes)
    ensures ParseUtf16(s, i).Some? ==> exists d :: Denotes(s, i, d)
  {
    hide ParseUtf16, ValueOf, Denotes, VerifySequence, Utf8Char;
    ValueIsEncoded(s, i);
    ValueIsDenoted(s, i, cp);
    if ParseUtf16(s, i).Some? { ValueIsDenoted(s, i, ValueOf(s, i).value); }
  }
}
