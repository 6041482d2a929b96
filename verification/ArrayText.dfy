/** Array values as text: the `|:` separator, its splitter and the `ARRAY::` rendering. */
module ArrayText {
  import opened Bytes
  import opened Members

  const SEPARATOR: cstr := [0x7C, 0x3A]                                // |:
  const MARKER: cstr := [0x41, 0x52, 0x52, 0x41, 0x59, 0x3A, 0x3A]     // ARRAY::

  /** `strstr(s, w) - s`. */
  function Find(s: seq<byte>, w: seq<byte>): (r: Option<nat>)
    ensures r.Some? ==> Occurs(s, r.value, w)
  {
    if |s| < |w| then None
    else if s[..|w|] == w then Some(0)
    else if |s| == |w| then None
    else
      match Find(s[1..], w)
      case None => None
      case Some(k) =>
        assert s[1..][k..k + |w|] == s[k + 1..k + 1 + |w|];
        Some(k + 1)
  }

  /** It is the first occurrence, and there is none when nothing is found. */
  lemma {:induction false} FindIsFirst(s: seq<byte>, w: seq<byte>)
    ensures forall i :: 0 <= i && Occurs(s, i, w) ==> Find(s, w).Some? && Find(s, w).value <= i
  {
    if |s| > |w| && s[..|w|] != w {
      FindIsFirst(s[1..], w);
      forall i | 0 <= i && Occurs(s, i, w)
        ensures Find(s, w).Some? && Find(s, w).value <= i
      {
        assert s[0..|w|] == s[..|w|];
        if i > 0 {
          assert s[1..][i - 1..i - 1 + |w|] == s[i..i + |w|];
          assert Occurs(s[1..], i - 1, w);
        }
      }
    }
  }

  predicate Contains(s: seq<byte>, w: seq<byte>) {
    Find(s, w).Some?
  }

  /** The count of separators that `esl_event_add_array` makes before it splits. */
  function Separators(d: cstr): nat
    decreases |d|
  {
    match Find(d, SEPARATOR)
    case None => 0
    case Some(k) => 1 + Separators(d[k + 2..])
  }

  /** `esl_separate_string_string`: at most `max` pieces, the last one takes the rest. */
  function Separate(d: cstr, max: nat): (pieces: seq<cstr>)
    requires max > 0
    ensures 1 <= |pieces| <= max
    ensures forall i :: 0 <= i < |pieces| ==> |pieces[i]| <= |d|
    decreases |d|
  {
    match Find(d, SEPARATOR)
    case None => [d]
    case Some(k) => if max == 1 then [d] else [d[..k]] + Separate(d[k + 2..], max - 1)
  }

  /** The pieces between all separators. */
  ghost function Split(d: cstr): seq<cstr>
    decreases |d|
  {
    match Find(d, SEPARATOR)
    case None => [d]
    case Some(k) => [d[..k]] + Split(d[k + 2..])
  }

  function Join(pieces: seq<cstr>): cstr {
    if pieces == [] then []
    else if |pieces| == 1 then pieces[0]
    else pieces[0] + SEPARATOR + Join(pieces[1..])
  }

  /** The value shown for an array header. */
  function Render(pieces: seq<cstr>): cstr {
    (if |pieces| > 1 then MARKER else []) + Join(pieces)
  }

  lemma JoinOne(piece: cstr)
    ensures Join([piece]) == piece
  {
  }

  lemma JoinFirst(piece: cstr, pieces: seq<cstr>)
    requires pieces != []
    ensures Join([piece] + pieces) == piece + SEPARATOR + Join(pieces)
  {
    assert ([piece] + pieces)[1..] == pieces;
  }

  /** The count and the splitter agree: every separator is cut, no piece is lost. */
  lemma {:induction false} SeparateIsSplit(d: cstr)
    ensures Separate(d, Separators(d) + 1) == Split(d)
    ensures Join(Split(d)) == d && |Split(d)| == Separators(d) + 1
    decreases |d|
  {
    hide Find, Join;
    match Find(d, SEPARATOR)
    case None => JoinOne(d);
    case Some(k) =>
      SeparateIsSplit(d[k + 2..]);
      JoinFirst(d[..k], Split(d[k + 2..]));
      assert Split(d)[1..] == Split(d[k + 2..]);
      assert d == d[..k] + d[k..k + 2] + d[k + 2..];
  }

  /** No piece holds a separator. */
  lemma {:induction false} SplitLeavesNoSeparator(d: cstr)
    ensures forall i :: 0 <= i < |Split(d)| ==> !Contains(Split(d)[i], SEPARATOR)
    decreases |d|
  {
    match Find(d, SEPARATOR)
    case None =>
    case Some(k) =>
      SplitLeavesNoSeparator(d[k + 2..]);
      FindIsFirst(d, SEPARATOR);
      if Contains(d[..k], SEPARATOR) {
        var j := Find(d[..k], SEPARATOR).value;
        assert d[..k][j..j + 2] == d[j..j + 2];
        assert Occurs(d, j, SEPARATOR);
      }
  }

  /** The first separator in `x |: rest` is the one behind `x` when `x` has none. */
  lemma {:induction false} FindBehind(x: cstr, rest: cstr)
    requires !Contains(x, SEPARATOR)
    ensures Find(x + SEPARATOR + rest, SEPARATOR) == Some(|x|)
    decreases |x|
  {
    var s := x + SEPARATOR + rest;
    if x == [] {
      assert s[..2] == SEPARATOR;
    } else {
      assert s[1..] == x[1..] + SEPARATOR + rest;
      if |x| == 1 {
        assert s[..2][1] == SEPARATOR[0];
      } else {
        assert s[..2] == x[..2];
      }
      FindBehind(x[1..], rest);
    }
  }

  /** Splitting a joined text gives the pieces back, as long as none of them holds a separator. */
  lemma {:induction false} SplitJoin(pieces: seq<cstr>)
    requires pieces != [] && forall i :: 0 <= i < |pieces| ==> !Contains(pieces[i], SEPARATOR)
    ensures Split(Join(pieces)) == pieces
  {
    if |pieces| > 1 {
      var x, rest := pieces[0], Join(pieces[1..]);
      FindBehind(x, rest);
      var d := Join(pieces);
      assert d == x + SEPARATOR + rest;
      assert d[..|x|] == x && d[|x| + 2..] == rest;
      SplitJoin(pieces[1..]);
    }
  }

  /** Joining one piece more. */
  lemma {:induction false} JoinAppend(pieces: seq<cstr>, last: cstr)
    requires pieces != []
    ensures Join(pieces + [last]) == Join(pieces) + SEPARATOR + last
  {
    var all := pieces + [last];
    assert all[1..] == pieces[1..] + [last];
    if |pieces| > 1 {
      JoinAppend(pieces[1..], last);
    } else {
      assert all[1..] == [last];
    }
  }

  lemma MarkerIsFound(s: cstr)
    ensures Contains(MARKER + s, MARKER)
  {
    assert (MARKER + s)[..7] == MARKER;
  }

  lemma SeparatorIsFound()
    ensures Contains(SEPARATOR, SEPARATOR)
  {
  }

  /** A text without the first character of the marker does not hold the marker. */
  lemma {:induction false} NoMarkerWithoutItsFirst(s: cstr)
    requires MARKER[0] !in s
    ensures !Contains(s, MARKER)
  {
    if |s| >= |MARKER| {
      assert s[..|MARKER|][0] == s[0];
      NoMarkerWithoutItsFirst(s[1..]);
    }
  }

  // ----- the splitter on its buffer -----

  /** The NUL-terminated string `t` stands at position `p`. */
  predicate IsString(s: seq<byte>, p: nat, t: cstr) {
    p + |t| < |s| && s[p..p + |t|] == t && s[p + |t|] == 0
  }

  /** `strdup` */
  method Duplicate(d: cstr) returns (buf: array<byte>)
    ensures fresh(buf) && buf[..] == d + [0]
  {
    buf := new byte[|d| + 1];
    forall i | 0 <= i < |d| {
      buf[i] := d[i];
    }
    buf[|d|] := 0;
    assert buf[..] == buf[..|d|] + [buf[|d|]];
  }

  /** `strlen` of the string that starts at `p`. */
  method StringLength(buf: array<byte>, p: nat, ghost t: cstr) returns (n: nat)
    requires IsString(buf[..], p, t)
    ensures n == |t|
  {
    ghost var text := buf[..][p..p + |t|];
    assert forall i :: p <= i < p + |t| ==> buf[i] == text[i - p] != 0;
    n := 0;
    while buf[p + n] != 0
      invariant n <= |t|
      decreases |t| - n
    {
      n := n + 1;
    }
  }

  /** Reading the string that starts at `p`. */
  method ReadString(buf: array<byte>, p: nat, ghost t: cstr) returns (r: cstr)
    requires IsString(buf[..], p, t)
    ensures r == t
  {
    var n := StringLength(buf, p, t);
    assert buf[p..p + n] == buf[..][p..p + n];
    r := buf[p..p + n];
  }

  /** The counting loop over `strstr`. */
  method CountSeparators(d: cstr) returns (n: nat)
    ensures n == Separators(d)
  {
    n := 0;
    var rest := d;
    while true
      invariant n + Separators(rest) == Separators(d)
      decreases |rest|
    {
      var k := Find(rest, SEPARATOR);
      if k.None? { return; }
      rest := rest[k.value + 2..];
      n := n + 1;
    }
  }

  /** The pieces `done` are cut off, and what is left of the text starts at the last position. */
  ghost predicate CutSoFar(s: seq<byte>, starts: seq<nat>, done: seq<cstr>, rest: cstr) {
    && |starts| == |done| + 1
    && IsString(s, starts[|done|], rest)
    && forall j :: 0 <= j < |done| ==> IsString(s, starts[j], done[j]) && starts[j] + |done[j]| < starts[|done|]
  }

  lemma StartOfCut(s: seq<byte>, d: cstr)
    requires s == d + [0]
    ensures CutSoFar(s, [0], [], d)
    ensures forall max: nat :: max > 0 ==> [] + Separate(d, max) == Separate(d, max)
  {
    assert s[0..|d|] == d;
  }

  lemma CutFits(s: seq<byte>, starts: seq<nat>, done: seq<cstr>, rest: cstr)
    requires CutSoFar(s, starts, done, rest)
    ensures |starts| == |done| + 1 && IsString(s, starts[|done|], rest)
    ensures starts[|done|] + |rest| < |s|
  {
  }

  lemma EndOfCut(s: seq<byte>, starts: seq<nat>, done: seq<cstr>, rest: cstr)
    requires CutSoFar(s, starts, done, rest)
    ensures |starts| == |done| + 1
    ensures forall j :: 0 <= j < |starts| ==> IsString(s, starts[j], (done + [rest])[j])
  {
  }

  lemma SeparateStep(done: seq<cstr>, d: cstr, max: nat, k: nat)
    requires max > 1 && Find(d, SEPARATOR) == Some(k)
    ensures done + Separate(d, max) == done + [d[..k]] + Separate(d[k + 2..], max - 1)
  {
    assert done + ([d[..k]] + Separate(d[k + 2..], max - 1)) == done + [d[..k]] + Separate(d[k + 2..], max - 1);
  }

  lemma SeparateEnd(d: cstr, max: nat)
    requires max == 1 || (max > 0 && Find(d, SEPARATOR).None?)
    ensures Separate(d, max) == [d]
  {
  }

  lemma StringFits(s: seq<byte>, p: nat, t: cstr)
    requires IsString(s, p, t)
    ensures p + |t| < |s|
  {
  }

  lemma CutString(s: seq<byte>, p: nat, t: cstr, k: nat)
    requires IsString(s, p, t) && Occurs(t, k, SEPARATOR)
    ensures IsString(s[p + k := 0], p, t[..k]) && IsString(s[p + k := 0], p + k + 2, t[k + 2..])
  {
    var s' := s[p + k := 0];
    assert s'[p..p + k] == s[p..p + |t|][..k];
    assert s'[p + k + 2..p + |t|] == s[p..p + |t|][k + 2..];
  }

  lemma StringKept(s: seq<byte>, p: nat, t: cstr, c: nat)
    requires IsString(s, p, t) && p + |t| < c < |s|
    ensures IsString(s[c := 0], p, t)
  {
    assert s[c := 0][p..p + |t|] == s[p..p + |t|];
  }

  /** Cutting at `k` leaves the piece in front, the rest behind the separator and the earlier pieces as they were. */
  lemma CutStep(s: seq<byte>, starts: seq<nat>, done: seq<cstr>, rest: cstr, k: nat)
    requires CutSoFar(s, starts, done, rest) && Occurs(rest, k, SEPARATOR)
    ensures var c := starts[|done|] + k;
            c < |s| && CutSoFar(s[c := 0], starts + [c + 2], done + [rest[..k]], rest[k + 2..])
  {
    hide IsString;
    StringFits(s, starts[|done|], rest);
    var p := starts[|done|];
    var c := p + k;
    var s' := s[c := 0];
    var starts', done' := starts + [c + 2], done + [rest[..k]];
    CutString(s, p, rest, k);
    forall j | 0 <= j < |done'|
      ensures IsString(s', starts'[j], done'[j]) && starts'[j] + |done'[j]| < c + 2
    {
      if j < |done| { StringKept(s, starts[j], done[j], c); }
    }
  }

  /**
   `esl_separate_string_string`: overwrites the first character of each
   separator with a terminator and returns where the pieces start.
   */
  method SeparateInPlace(buf: array<byte>, ghost d: cstr, max: nat) returns (starts: seq<nat>)
    requires max > 0 && buf[..] == d + [0]
    modifies buf
    ensures |starts| == |Separate(d, max)|
    ensures forall j :: 0 <= j < |starts| ==> IsString(buf[..], starts[j], Separate(d, max)[j])
  {
    hide IsString, Separate, CutSoFar, Find;
    starts := [0];
    ghost var done: seq<cstr> := [];
    ghost var rest := d;
    StartOfCut(buf[..], d);
    while |starts| < max
      invariant 1 <= |starts| <= max && |done| == |starts| - 1
      invariant CutSoFar(buf[..], starts, done, rest)
      invariant done + Separate(rest, max - |done|) == Separate(d, max)
      decreases max - |starts|
    {
      CutFits(buf[..], starts, done, rest);
      var piece := ReadString(buf, starts[|starts| - 1], rest);
      var k := Find(piece, SEPARATOR);
      if k.None? { break; }
      var delimiter := starts[|starts| - 1] + k.value;
      CutStep(buf[..], starts, done, rest, k.value);
      SeparateStep(done, rest, max - |done|, k.value);
      ghost var before := buf[..];
      buf[delimiter] := 0;
      assert buf[..] == before[delimiter := 0];
      starts := starts + [delimiter + 2];
      done, rest := done + [rest[..k.value]], rest[k.value + 2..];
    }
    SeparateEnd(rest, max - |done|);
    EndOfCut(buf[..], starts, done, rest);
  }
}
