/** The text the serializer produces, as a function of the value. */
module JsonText {
  import opened Bytes
  import opened JsonValue

  datatype Format = Format(pretty: bool, escapeSlashes: bool)

  const NULL_TOKEN: bytes := [0x6E, 0x75, 0x6C, 0x6C]
  const TRUE_TOKEN: bytes := [0x74, 0x72, 0x75, 0x65]
  const FALSE_TOKEN: bytes := [0x66, 0x61, 0x6C, 0x73, 0x65]

  function EscapeByte(c: byte, escapeSlashes: bool): bytes {
    if c == QUOTE then [BACKSLASH, QUOTE]
    else if c == BACKSLASH then [BACKSLASH, BACKSLASH]
    else if c == 0x08 then [BACKSLASH, 0x62]
    else if c == 0x0C then [BACKSLASH, 0x66]
    else if c == 0x0A then [BACKSLASH, 0x6E]
    else if c == 0x0D then [BACKSLASH, 0x72]
    else if c == 0x09 then [BACKSLASH, 0x74]
    else if c < 0x20 then [BACKSLASH, 0x75, 0x30, 0x30, HexDigit(c / 16, false), HexDigit(c % 16, false)]
    else if c == SLASH && escapeSlashes then [BACKSLASH, SLASH]
    else [c]
  }

  function Escape(s: bytes, escapeSlashes: bool): bytes {
    if s == [] then [] else EscapeByte(s[0], escapeSlashes) + Escape(s[1..], escapeSlashes)
  }

  function Quoted(s: bytes, escapeSlashes: bool): bytes {
    [QUOTE] + Escape(s, escapeSlashes) + [QUOTE]
  }

  function Digits(n: nat): bytes {
    if n < 10 then [0x30 + n] else Digits(n / 10) + [0x30 + n % 10]
  }

  function Decimal(n: int): bytes {
    if n < 0 then [MINUS] + Digits(-n) else Digits(n)
  }

  function Indent(level: nat, f: Format): bytes {
    if f.pretty then Spaces(4 * level) else []
  }

  function LineBreak(f: Format): bytes {
    if f.pretty then [NEWLINE] else []
  }

  function Separator(k: nat, count: nat): bytes {
    if k + 1 < count then [COMMA] else []
  }

  function AfterColon(f: Format): bytes {
    if f.pretty then [COLON, SPACE] else [COLON]
  }

  /** What one turn of the array loop writes. */
  function ItemText(items: seq<Value>, k: nat, level: nat, f: Format): bytes
    requires k < |items|
    decreases items, |items| - k, 0
  {
    Indent(level + 1, f) + Text(items[k], level + 1, f) + Separator(k, |items|) + LineBreak(f)
  }

  /** Items k.. of an array nested at the given level. */
  function ItemsText(items: seq<Value>, k: nat, level: nat, f: Format): bytes
    requires k <= |items|
    decreases items, |items| - k, 1
  {
    if k == |items| then [] else ItemText(items, k, level, f) + ItemsText(items, k + 1, level, f)
  }

  /** What one turn of the object loop writes. */
  function MemberText(ms: seq<Member>, k: nat, level: nat, f: Format): bytes
    requires k < |ms|
    decreases ms, |ms| - k, 0
  {
    Indent(level + 1, f) + Quoted(ms[k].name, f.escapeSlashes) + AfterColon(f)
    + Text(ms[k].value, level + 1, f) + Separator(k, |ms|) + LineBreak(f)
  }

  function MembersText(ms: seq<Member>, k: nat, level: nat, f: Format): bytes
    requires k <= |ms|
    decreases ms, |ms| - k, 1
  {
    if k == |ms| then [] else MemberText(ms, k, level, f) + MembersText(ms, k + 1, level, f)
  }

  function Text(v: Value, level: nat, f: Format): bytes
    decreases v
  {
    match v
    case Null => NULL_TOKEN
    case Boolean(b) => if b then TRUE_TOKEN else FALSE_TOKEN
    case Number(n) => Decimal(n)
    case Str(chars) => Quoted(chars, f.escapeSlashes)
    case Array(items) =>
      if items == [] then [LBRACKET, RBRACKET]
      else [LBRACKET] + LineBreak(f) + ItemsText(items, 0, level, f) + Indent(level, f) + [RBRACKET]
    case Object(ms) =>
      if ms == [] then [LBRACE, RBRACE]
      else [LBRACE] + LineBreak(f) + MembersText(ms, 0, level, f) + Indent(level, f) + [RBRACE]
  }
}
