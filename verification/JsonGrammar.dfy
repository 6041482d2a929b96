/**
 What the recursive-descent parser computes, as functions of the text and a
 position. Number tokens are not part of this model: meeting one is an outcome
 of its own.
 */
module JsonGrammar {
  import opened Bytes
  import opened Members
  import opened JsonStrings
  import opened JsonValues
  import opened JsonText

  const MAX_NESTING: nat := 2048

  datatype Outcome = Parsed(value: Json, next: nat) | Rejected | NumberMet

  /** `isspace` in the C locale. */
  predicate IsSpace(b: byte) {
    b == 0x20 || 0x09 <= b <= 0x0D
  }

  function SkipSpaces(s: cstr, p: nat): (q: nat)
    ensures p <= q && !IsSpace(At(s, q))
    ensures p <= |s| ==> q <= |s|
    decreases |s| - p
  {
    if IsSpace(At(s, p)) then SkipSpaces(s, p + 1) else p
  }

  /** `strncmp(token, s + p, |token|) == 0` */
  predicate StartsWith(s: cstr, p: nat, token: seq<byte>) {
    Occurs(s, p, token)
  }

  function ParseString(s: cstr, p: nat): (r: Outcome)
    ensures r.Parsed? ==> p < r.next <= |s|
  {
    match QuotedString(s, p)
    case None => Rejected
    case Some(text) => Parsed(Str(text.bytes), text.next)
  }

  function ParseBoolean(s: cstr, p: nat): (r: Outcome)
    ensures r.Parsed? ==> p < r.next <= |s|
  {
    if StartsWith(s, p, TRUE_TOKEN) then Parsed(Bool(true), p + |TRUE_TOKEN|)
    else if StartsWith(s, p, FALSE_TOKEN) then Parsed(Bool(false), p + |FALSE_TOKEN|)
    else Rejected
  }

  function ParseNull(s: cstr, p: nat): (r: Outcome)
    ensures r.Parsed? ==> p < r.next <= |s|
  {
    if StartsWith(s, p, NULL_TOKEN) then Parsed(Null, p + |NULL_TOKEN|) else Rejected
  }

  datatype Separator = Separator(more: bool, next: nat)

  /** Both loops go on behind a comma, unless the closing bracket follows it. */
  function AfterElement(s: cstr, p: nat, bracket: byte): (r: Separator)
    ensures p <= r.next && (p <= |s| ==> r.next <= |s|)
  {
    var q := SkipSpaces(s, p);
    if At(s, q) != COMMA then Separator(false, q)
    else
      var q' := SkipSpaces(s, q + 1);
      Separator(At(s, q') != bracket, q')
  }

  function CloseArray(s: cstr, p: nat, items: seq<Json>): (r: Outcome)
    ensures r.Parsed? ==> p < r.next <= |s|
  {
    var q := SkipSpaces(s, p);
    if At(s, q) == RBRACKET then Parsed(Arr(items), q + 1) else Rejected
  }

  datatype MemberOutcome = GotMember(member: Member<Json>, next: nat) | NoMember(outcome: Outcome)

  function CloseObject(s: cstr, p: nat, members: seq<Member<Json>>): (r: Outcome)
    ensures r.Parsed? ==> p < r.next <= |s|
  {
    var q := SkipSpaces(s, p);
    if At(s, q) == RBRACE then Parsed(Obj(members), q + 1) else Rejected
  }

  function ParseValue(s: cstr, p: nat, nesting: nat): (r: Outcome)
    ensures r.Parsed? ==> p < r.next <= |s|
    decreases |s| - p, 2
  {
    if nesting > MAX_NESTING then Rejected
    else
      var q := SkipSpaces(s, p);
      var c := At(s, q);
      if c == LBRACE then ParseObject(s, q, nesting + 1)
      else if c == LBRACKET then ParseArray(s, q, nesting + 1)
      else if c == QUOTE then ParseString(s, q)
      else if c == 0x66 || c == 0x74 then ParseBoolean(s, q) // 'f', 't'
      else if c == 0x2D || 0x30 <= c <= 0x39 then NumberMet  // '-', digits
      else if c == 0x6E then ParseNull(s, q)                 // 'n'
      else Rejected
  }

  function ParseArray(s: cstr, p: nat, nesting: nat): (r: Outcome)
    ensures r.Parsed? ==> p < r.next <= |s|
    decreases |s| - p, 1
  {
    if At(s, p) != LBRACKET then Rejected
    else
      var q := SkipSpaces(s, p + 1);
      if At(s, q) == RBRACKET then Parsed(Arr([]), q + 1) else ParseItems(s, q, nesting, [])
  }

  /** The item loop, with the items read so far. */
  function ParseItems(s: cstr, p: nat, nesting: nat, items: seq<Json>): (r: Outcome)
    ensures r.Parsed? ==> p < r.next <= |s|
    decreases |s| - p, 3
  {
    if At(s, p) == 0 then CloseArray(s, p, items)
    else
      var v := ParseValue(s, p, nesting);
      if !v.Parsed? then v
      else
        var items' := items + [v.value];
        var sep := AfterElement(s, v.next, RBRACKET);
        if sep.more then ParseItems(s, sep.next, nesting, items') else CloseArray(s, sep.next, items')
  }

  function ParseObject(s: cstr, p: nat, nesting: nat): (r: Outcome)
    ensures r.Parsed? ==> p < r.next <= |s|
    decreases |s| - p, 1
  {
    if At(s, p) != LBRACE then Rejected
    else
      var q := SkipSpaces(s, p + 1);
      if At(s, q) == RBRACE then Parsed(Obj([]), q + 1) else ParseMembers(s, q, nesting, [])
  }

  /** One member of an object, up to the end of its value. Names with a NUL are refused. */
  function ParseMember(s: cstr, p: nat, nesting: nat): (r: MemberOutcome)
    ensures r.GotMember? ==> p < r.next <= |s|
    ensures r.NoMember? ==> !r.outcome.Parsed?
    decreases |s| - p, 3
  {
    match QuotedString(s, p)
    case None => NoMember(Rejected)
    case Some(key) =>
      var colon := SkipSpaces(s, key.next);
      if 0 in key.bytes || At(s, colon) != COLON then NoMember(Rejected)
      else
        var v := ParseValue(s, colon + 1, nesting);
        if v.Parsed? then GotMember(Member(key.bytes, v.value), v.next) else NoMember(v)
  }

  /** The member loop, with the members read so far. */
  function ParseMembers(s: cstr, p: nat, nesting: nat, members: seq<Member<Json>>): (r: Outcome)
    ensures r.Parsed? ==> p < r.next <= |s|
    decreases |s| - p, 4
  {
    if At(s, p) == 0 then CloseObject(s, p, members)
    else
      match ParseMember(s, p, nesting)
      case NoMember(outcome) => outcome
      case GotMember(member, next) =>
        if Has(members, member.name) then Rejected
        else
          var members' := members + [member];
          var sep := AfterElement(s, next, RBRACE);
          if sep.more then ParseMembers(s, sep.next, nesting, members') else CloseObject(s, sep.next, members')
  }

  /** `json_parse_string`: a byte order mark is skipped; text after the value is ignored. */
  function ParseText(s: cstr): Outcome {
    if At(s, 0) == 0xEF && At(s, 1) == 0xBB && At(s, 2) == 0xBF then ParseValue(s, 3, 0)
    else ParseValue(s, 0, 0)
  }
}
