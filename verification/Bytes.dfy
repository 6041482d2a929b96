/** Bytes and NUL-terminated strings, as the C code sees them. */
module Bytes {

  /** One C `unsigned char`. */
  type byte = x: int | 0 <= x < 256

  /** The characters of a NUL-terminated string, without the terminator. */
  type cstr = s: seq<byte> | 0 !in s witness []

  const SIZE_MAX: nat := 0xFFFF_FFFF_FFFF_FFFF
  const INT_MAX: nat := 0x7FFF_FFFF

  /** Reading a NUL-terminated string: one past the last character is the terminator. */
  function At(s: seq<byte>, i: nat): byte {
    if i < |s| then s[i] else 0
  }

  /** A string literal as bytes. */
  function Text(s: string): (r: seq<byte>)
    requires forall i | 0 <= i < |s| :: 0 < s[i] as int < 256
    ensures |r| == |s| && 0 !in r
  {
    seq<byte>(|s|, i requires 0 <= i < |s| => s[i] as int)
  }

  function Min(a: nat, b: nat): nat {
    if a <= b then a else b
  }

  function Max(a: nat, b: nat): nat {
    if a >= b then a else b
  }

  lemma Associative(a: seq<byte>, b: seq<byte>, c: seq<byte>)
    ensures a + b + c == a + (b + c)
  {
  }

  /** `w` stands in `s` at position `p`. */
  predicate Occurs(s: seq<byte>, p: nat, w: seq<byte>) {
    p + |w| <= |s| && s[p..p + |w|] == w
  }

  lemma OccursSplit(s: seq<byte>, p: nat, a: seq<byte>, b: seq<byte>)
    ensures Occurs(s, p, a + b) <==> Occurs(s, p, a) && Occurs(s, p + |a|, b)
  {
    if p + |a| + |b| <= |s| {
      assert s[p..p + |a + b|] == s[p..p + |a|] + s[p + |a|..p + |a| + |b|];
      if Occurs(s, p, a + b) {
        assert s[p..p + |a|] == (a + b)[..|a|];
        assert s[p + |a|..p + |a| + |b|] == (a + b)[|a|..];
      }
    }
  }

  lemma OccursAt(s: seq<byte>, p: nat, w: seq<byte>, d: nat)
    requires Occurs(s, p, w) && d < |w|
    ensures At(s, p + d) == w[d]
  {
    assert s[p..p + |w|][d] == w[d];
  }

  /** The same for a text of five parts. */
  lemma OccursParts(s: seq<byte>, p: nat, a: seq<byte>, b: seq<byte>, c: seq<byte>, d: seq<byte>, e: seq<byte>)
    requires Occurs(s, p, a + (b + (c + (d + e))))
    ensures Occurs(s, p, a) && Occurs(s, p + |a|, b) && Occurs(s, p + |a| + |b|, c)
    ensures Occurs(s, p + |a| + |b| + |c|, d) && Occurs(s, p + |a| + |b| + |c| + |d|, e)
  {
    hide Occurs;
    OccursSplit(s, p, a, b + (c + (d + e)));
    OccursSplit(s, p + |a|, b, c + (d + e));
    OccursSplit(s, p + |a| + |b|, c, d + e);
    OccursSplit(s, p + |a| + |b| + |c|, d, e);
  }

  /** `tolower` in the C locale. */
  function Lower(b: byte): byte {
    if 0x41 <= b <= 0x5A then b + 0x20 else b
  }

  /** Two bytes are alike when they are the same, or the two cases of one letter. */
  lemma LowerJoinsCases(a: byte, b: byte)
    ensures Lower(a) == Lower(b) <==> a == b || (0x41 <= Min(a, b) <= 0x5A && Max(a, b) == Min(a, b) + 0x20)
  {
  }

  /** `strcasecmp(a, b) == 0` */
  predicate CiEqual(a: seq<byte>, b: seq<byte>) {
    |a| == |b| && forall i :: 0 <= i < |a| ==> Lower(a[i]) == Lower(b[i])
  }

  function LowerChar(c: char): int {
    if 'A' <= c <= 'Z' then c as int + 0x20 else c as int
  }

  /** `strcasecmp` with a string literal. */
  predicate CiEqualText(a: seq<byte>, literal: string) {
    |a| == |literal| && forall i :: 0 <= i < |a| ==> Lower(a[i]) as int == LowerChar(literal[i])
  }

  /** The decimal digits of `n`, as `%zu` prints them. */
  function Decimal(n: nat): (d: cstr)
    ensures d != [] && forall i :: 0 <= i < |d| ==> 0x30 <= d[i] <= 0x39
  {
    if n < 10 then [0x30 + n] else Decimal(n / 10) + [0x30 + n % 10]
  }

  /** The number that decimal digits stand for. */
  function NumberOf(digits: seq<byte>): int {
    if digits == [] then 0
    else 10 * NumberOf(digits[..|digits| - 1]) + (digits[|digits| - 1] as int - 0x30)
  }

  /** The digits of `n` stand for `n`, and only 0 starts with a zero. */
  lemma {:induction false} DecimalIsNumeral(n: nat)
    ensures NumberOf(Decimal(n)) == n && (Decimal(n)[0] == 0x30 <==> n == 0)
  {
    var d := Decimal(n);
    if n >= 10 {
      DecimalIsNumeral(n / 10);
      assert d[..|d| - 1] == Decimal(n / 10) && d[0] == Decimal(n / 10)[0];
    } else {
      assert d[..0] == [];
    }
  }

  const LETTER: byte := 0x78  // x

  function Letters(n: nat): (s: cstr)
    ensures |s| == n && forall i :: 0 <= i < n ==> s[i] == LETTER
  {
    seq(n, _ => LETTER)
  }
}
