/** The parser itself: a cursor that moves over the text, filling hash tables on the way. */
module JsonParser {
  import opened Bytes
  import opened Members
  import opened JsonStrings
  import opened JsonValues
  import opened JsonText
  import JsonGrammar
  import opened ObjectTable

  type Outcome = JsonGrammar.Outcome

  /** A text this long never makes a table refuse to grow. */
  const MAX_TEXT: nat := MAX_MEMBERS

  /** One turn of the member loop, in the grammar. */
  lemma MembersStep(s: cstr, p: nat, nesting: nat, members: seq<Member<Json>>)
    ensures JsonGrammar.ParseMembers(s, p, nesting, members) ==
            var m := JsonGrammar.ParseMember(s, p, nesting);
            if At(s, p) == 0 then JsonGrammar.CloseObject(s, p, members)
            else if m.NoMember? then m.outcome
            else if Has(members, m.member.name) then JsonGrammar.Rejected
            else
              var sep := JsonGrammar.AfterElement(s, m.next, RBRACE);
              if sep.more then JsonGrammar.ParseMembers(s, sep.next, nesting, members + [m.member])
              else JsonGrammar.CloseObject(s, sep.next, members + [m.member])
  {
    hide JsonGrammar.ParseMember, JsonGrammar.AfterElement, JsonGrammar.CloseObject, Has;
  }

  class Parser {
    const text: cstr
    var pos: nat

    constructor (text: cstr, start: nat)
      ensures this.text == text && pos == start
    {
      this.text, pos := text, start;
    }

    method SkipWhitespaces()
      modifies this
      ensures pos == JsonGrammar.SkipSpaces(text, old(pos))
    {
      while JsonGrammar.IsSpace(At(text, pos))
        invariant JsonGrammar.SkipSpaces(text, pos) == JsonGrammar.SkipSpaces(text, old(pos))
        decreases |text| - pos
      {
        pos := pos + 1;
      }
    }

    method QuotedText() returns (r: Option<seq<byte>>)
      modifies this
      ensures r.Some? <==> QuotedString(text, old(pos)).Some?
      ensures r.Some? ==> QuotedString(text, old(pos)) == Some(Piece(r.value, pos))
    {
      r, pos := GetQuotedString(text, pos);
    }

    method ParseStringValue() returns (r: Outcome)
      modifies this
      ensures r == JsonGrammar.ParseString(text, old(pos))
      ensures r.Parsed? ==> pos == r.next
    {
      var string' := QuotedText();
      if string'.None? { return JsonGrammar.Rejected; }
      return JsonGrammar.Parsed(Str(string'.value), pos);
    }

    method ParseBooleanValue() returns (r: Outcome)
      modifies this
      ensures r == JsonGrammar.ParseBoolean(text, old(pos))
      ensures r.Parsed? ==> pos == r.next
    {
      if JsonGrammar.StartsWith(text, pos, TRUE_TOKEN) {
        pos := pos + |TRUE_TOKEN|;
        return JsonGrammar.Parsed(Bool(true), pos);
      } else if JsonGrammar.StartsWith(text, pos, FALSE_TOKEN) {
        pos := pos + |FALSE_TOKEN|;
        return JsonGrammar.Parsed(Bool(false), pos);
      }
      return JsonGrammar.Rejected;
    }

    method ParseNullValue() returns (r: Outcome)
      modifies this
      ensures r == JsonGrammar.ParseNull(text, old(pos))
      ensures r.Parsed? ==> pos == r.next
    {
      if JsonGrammar.StartsWith(text, pos, NULL_TOKEN) {
        pos := pos + |NULL_TOKEN|;
        return JsonGrammar.Parsed(Null, pos);
      }
      return JsonGrammar.Rejected;
    }

    method NextElement(bracket: byte) returns (more: bool)
      modifies this
      ensures JsonGrammar.AfterElement(text, old(pos), bracket) == JsonGrammar.Separator(more, pos)
    {
      SkipWhitespaces();
      if At(text, pos) != COMMA { return false; }
      pos := pos + 1;
      SkipWhitespaces();
      return At(text, pos) != bracket;
    }

    method CloseObject(table: JsonObject<Json>, ghost members: seq<Member<Json>>) returns (r: Outcome)
      requires Roomy(table, members) && this !in table.Repr()
      modifies this
      ensures r == JsonGrammar.CloseObject(text, old(pos), members)
      ensures r.Parsed? ==> pos == r.next
    {
      hide Roomy;
      SkipWhitespaces();
      if At(text, pos) != RBRACE { return JsonGrammar.Rejected; }
      pos := pos + 1;
      var stored := MembersIn(table, members);
      return JsonGrammar.Parsed(Obj(stored), pos);
    }

    method ParseValue(nesting: nat) returns (r: Outcome)
      requires |text| <= MAX_TEXT
      modifies this
      ensures r == JsonGrammar.ParseValue(text, old(pos), nesting)
      ensures r.Parsed? ==> pos == r.next
      decreases |text| - pos, 7
    {
      if nesting > JsonGrammar.MAX_NESTING { return JsonGrammar.Rejected; }
      SkipWhitespaces();
      var c := At(text, pos);
      if c == LBRACE { r := ParseObjectValue(nesting + 1); }
      else if c == LBRACKET { r := ParseArrayValue(nesting + 1); }
      else if c == QUOTE { r := ParseStringValue(); }
      else if c == 0x66 || c == 0x74 { r := ParseBooleanValue(); }
      else if c == 0x2D || 0x30 <= c <= 0x39 { r := JsonGrammar.NumberMet; }
      else if c == 0x6E { r := ParseNullValue(); }
      else { r := JsonGrammar.Rejected; }
    }

    method ParseArrayValue(nesting: nat) returns (r: Outcome)
      requires |text| <= MAX_TEXT
      modifies this
      ensures r == JsonGrammar.ParseArray(text, old(pos), nesting)
      ensures r.Parsed? ==> pos == r.next
      decreases |text| - pos, 5
    {
      hide JsonGrammar.ParseValue, JsonGrammar.AfterElement, JsonGrammar.SkipSpaces, JsonGrammar.ParseObject;
      if At(text, pos) != LBRACKET { return JsonGrammar.Rejected; }
      pos := pos + 1;
      SkipWhitespaces();
      if At(text, pos) == RBRACKET {
        pos := pos + 1;
        return JsonGrammar.Parsed(Arr([]), pos);
      }
      var items: seq<Json> := [];
      while At(text, pos) != 0
        invariant old(pos) < pos
        invariant JsonGrammar.ParseArray(text, old(pos), nesting) ==
                  JsonGrammar.ParseItems(text, pos, nesting, items)
        decreases |text| - pos
      {
        var v := ParseValue(nesting);
        if !v.Parsed? { return v; }
        items := items + [v.value];
        var more := NextElement(RBRACKET);
        if !more { break; }
      }
      assert JsonGrammar.ParseArray(text, old(pos), nesting) == JsonGrammar.CloseArray(text, pos, items);
      SkipWhitespaces();
      if At(text, pos) != RBRACKET { return JsonGrammar.Rejected; }
      pos := pos + 1;
      return JsonGrammar.Parsed(Arr(items), pos);
    }

    method ParseMember(nesting: nat) returns (r: JsonGrammar.MemberOutcome)
      requires |text| <= MAX_TEXT
      modifies this
      ensures r == JsonGrammar.ParseMember(text, old(pos), nesting)
      ensures r.GotMember? ==> pos == r.next
      decreases |text| - pos, 3
    {
      hide JsonGrammar.ParseValue, JsonGrammar.SkipSpaces, QuotedString;
      var key := QuotedText();
      if key.None? { return JsonGrammar.NoMember(JsonGrammar.Rejected); }
      if 0 in key.value { return JsonGrammar.NoMember(JsonGrammar.Rejected); }
      SkipWhitespaces();
      if At(text, pos) != COLON { return JsonGrammar.NoMember(JsonGrammar.Rejected); }
      pos := pos + 1;
      var v := ParseValue(nesting);
      if !v.Parsed? { return JsonGrammar.NoMember(v); }
      return JsonGrammar.GotMember(Member(key.value, v.value), pos);
    }

    method ParseObjectValue(nesting: nat) returns (r: Outcome)
      requires |text| <= MAX_TEXT
      modifies this
      ensures r == JsonGrammar.ParseObject(text, old(pos), nesting)
      ensures r.Parsed? ==> pos == r.next
      decreases |text| - pos, 6
    {
      if At(text, pos) != LBRACE { return JsonGrammar.Rejected; }
      pos := pos + 1;
      SkipWhitespaces();
      if At(text, pos) == RBRACE {
        pos := pos + 1;
        return JsonGrammar.Parsed(Obj([]), pos);
      }
      r := ParseMembers(nesting);
    }

    /** The loop of `parse_object_value` and its end. */
    method ParseMembers(nesting: nat) returns (r: Outcome)
      requires |text| <= MAX_TEXT
      modifies this
      ensures r == JsonGrammar.ParseMembers(text, old(pos), nesting, [])
      ensures r.Parsed? ==> pos == r.next
      decreases |text| - pos, 5
    {
      hide JsonGrammar.ParseMember, JsonGrammar.AfterElement, JsonGrammar.CloseObject, JsonGrammar.ParseMembers, Roomy;
      var table := NewTable<Json>();
      ghost var members: seq<Member<Json>> := [];
      while At(text, pos) != 0
        invariant old(pos) <= pos
        invariant fresh(table.Repr()) && this !in table.Repr()
        invariant Roomy(table, members) && |members| <= pos
        invariant JsonGrammar.ParseMembers(text, old(pos), nesting, []) ==
                  JsonGrammar.ParseMembers(text, pos, nesting, members)
        decreases |text| - pos
      {
        var failed, more;
        failed, more, members := MemberTurn(table, members, nesting);
        if failed.Some? { return failed.value; }
        if !more { break; }
      }
      MembersStep(text, pos, nesting, members);
      r := CloseObject(table, members);
    }

    /** One turn of the loop: it fails, or adds a member and says whether another one follows. */
    method MemberTurn(table: JsonObject<Json>, ghost members: seq<Member<Json>>, nesting: nat)
      returns (failed: Option<Outcome>, more: bool, ghost members': seq<Member<Json>>)
      requires |text| <= MAX_TEXT && At(text, pos) != 0
      requires Roomy(table, members) && |members| < MAX_MEMBERS && this !in table.Repr()
      modifies this, table.Repr()
      ensures fresh(table.Repr() - old(table.Repr())) && this !in table.Repr()
      ensures failed.Some? ==>
                failed.value == JsonGrammar.ParseMembers(text, old(pos), nesting, members) && !failed.value.Parsed?
      ensures failed.None? ==>
                && old(pos) < pos && Roomy(table, members') && |members'| == |members| + 1
                && JsonGrammar.ParseMembers(text, old(pos), nesting, members) ==
                   if more then JsonGrammar.ParseMembers(text, pos, nesting, members')
                   else JsonGrammar.CloseObject(text, pos, members')
      decreases |text| - pos, 4
    {
      hide JsonGrammar.ParseMember, JsonGrammar.AfterElement, JsonGrammar.CloseObject, JsonGrammar.ParseMembers;
      hide Has, Roomy;
      more, members' := false, members;
      MembersStep(text, pos, nesting, members);
      var m := ParseMember(nesting);
      if m.NoMember? { return Some(m.outcome), more, members'; }
      var status := AddTo(table, members, m.member.name, m.member.value);
      if !status { return Some(JsonGrammar.Rejected), more, members'; }
      members' := members + [m.member];
      more := NextElement(RBRACE);
      failed := None;
    }
  }

  /** `json_parse_string`. */
  method ParseString(text: cstr) returns (r: Outcome)
    requires |text| <= MAX_TEXT
    ensures r == JsonGrammar.ParseText(text)
  {
    var start := if At(text, 0) == 0xEF && At(text, 1) == 0xBB && At(text, 2) == 0xBF then 3 else 0;
    var parser := new Parser(text, start);
    r := parser.ParseValue(0);
  }
}
