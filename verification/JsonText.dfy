/** The text that serialization stands for, compact or pretty. */
module JsonText {
  import opened Bytes
  import opened Members
  import opened JsonStrings
  import opened JsonValues

  const LBRACE: byte := 0x7B
  const RBRACE: byte := 0x7D
  const LBRACKET: byte := 0x5B
  const RBRACKET: byte := 0x5D
  const COLON: byte := 0x3A
  const COMMA: byte := 0x2C
  const SPACE: byte := 0x20
  const NEWLINE: byte := 0x0A

  const TRUE_TOKEN: seq<byte> := [0x74, 0x72, 0x75, 0x65]         // true
  const FALSE_TOKEN: seq<byte> := [0x66, 0x61, 0x6C, 0x73, 0x65]  // false
  const NULL_TOKEN: seq<byte> := [0x6E, 0x75, 0x6C, 0x6C]         // null
  const INDENT: seq<byte> := [SPACE, SPACE, SPACE, SPACE]

  /** How to print: indented over lines or compact, and whether `/` is escaped. */
  datatype Style = Style(pretty: bool, slashes: bool)

  function Indent(level: nat): seq<byte> {
    if level == 0 then [] else INDENT + Indent(level - 1)
  }

  function Pad(level: nat, style: Style): seq<byte> {
    if style.pretty then Indent(level) else []
  }

  function Break(style: Style): seq<byte> {
    if style.pretty then [NEWLINE] else []
  }

  function Comma(more: bool): seq<byte> {
    if more then [COMMA] else []
  }

  function Colon(style: Style): seq<byte> {
    if style.pretty then [COLON, SPACE] else [COLON]
  }

  function ValueText(v: Json, level: nat, style: Style): seq<byte>
    requires NumberFree(v)
    decreases v, 1
  {
    match v
    case Null => NULL_TOKEN
    case Bool(flag) => if flag then TRUE_TOKEN else FALSE_TOKEN
    case Str(chars) => StringText(chars, style.slashes)
    case Arr(items) =>
      if items == [] then [LBRACKET, RBRACKET]
      else [LBRACKET] + Break(style) + ItemsText(items, level, style) + Pad(level, style) + [RBRACKET]
    case Obj(members) =>
      if members == [] then [LBRACE, RBRACE]
      else [LBRACE] + Break(style) + MembersText(members, level, style) + Pad(level, style) + [RBRACE]
  }

  function ItemsText(items: seq<Json>, level: nat, style: Style): seq<byte>
    requires forall i :: 0 <= i < |items| ==> NumberFree(items[i])
    decreases items, 0
  {
    if items == [] then []
    else ItemText(items[0], level, style, |items| > 1) + ItemsText(items[1..], level, style)
  }

  function ItemText(item: Json, level: nat, style: Style, more: bool): seq<byte>
    requires NumberFree(item)
    decreases item, 2
  {
    Pad(level + 1, style) + ValueText(item, level + 1, style) + Comma(more) + Break(style)
  }

  function MembersText(members: seq<Member<Json>>, level: nat, style: Style): seq<byte>
    requires forall i :: 0 <= i < |members| ==> NumberFree(members[i].value)
    decreases members, 0
  {
    if members == [] then []
    else MemberText(members[0], level, style, |members| > 1) + MembersText(members[1..], level, style)
  }

  function MemberText(m: Member<Json>, level: nat, style: Style, more: bool): seq<byte>
    requires NumberFree(m.value)
    decreases m, 2
  {
    Pad(level + 1, style) + StringText(m.name, style.slashes) + Colon(style)
    + ValueText(m.value, level + 1, style) + Comma(more) + Break(style)
  }
}
