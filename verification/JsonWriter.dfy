/** The serializer as the program runs it: one function that measures when it has no buffer and
    writes when it has one. */
module JsonWriter {
  import opened Bytes
  import opened JsonValue
  import opened JsonText

  const INT_LIMIT: int := 0x8000_0000
  const NUM_BUF_SIZE: nat := 64

  /** The C type int: a total that left this range would have overflowed. */
  type CInt = x: int | -INT_LIMIT <= x < INT_LIMIT

  /** The last digit of the escapes of control characters. */
  const LOW_HEX: bytes :=
    [0x30, 0x31, 0x32, 0x33, 0x34, 0x35, 0x36, 0x37, 0x38, 0x39, 0x61, 0x62, 0x63, 0x64, 0x65, 0x66]

  /** Where the text goes: a buffer, or nowhere. The ghost text is everything appended so far. */
  class Output {
    const buf: array?<byte>
    ghost const initial: bytes
    ghost var text: bytes

    ghost predicate Valid()
      reads this, buf
    {
      buf != null ==>
        |text| <= buf.Length == |initial| && buf[..|text|] == text &&
        forall k :: |text| < k < buf.Length ==> buf[k] == initial[k]
    }

    /** There is room for n more bytes and the NUL that sprintf puts behind them. */
    ghost predicate Room(at: nat, n: nat)
      reads this
    {
      buf != null ==> at == |text| && at + n < buf.Length
    }

    ghost predicate Terminated()
      reads this, buf
    {
      buf != null ==> |text| < buf.Length && buf[|text|] == NUL
    }

    constructor (buf: array?<byte>)
      ensures Valid() && this.buf == buf && text == []
      ensures buf != null ==> initial == buf[..]
    {
      this.buf := buf;
      initial := if buf == null then [] else buf[..];
      text := [];
    }

    /** append_string; sprintf copies up to the first NUL and adds one. */
    method AppendString(at: nat, str: bytes) returns (written: nat)
      requires Valid() && Room(at, |str|) && NUL !in str
      modifies this, buf
      ensures Valid() && Terminated()
      ensures text == old(text) + str && written == |str|
    {
      text := text + str;
      written := |str|;
      if buf == null { return; }
      for k := 0 to |str|
        invariant buf[..at + k] == old(text) + str[..k]
        invariant forall j :: at + |str| < j < buf.Length ==> buf[j] == initial[j]
        modifies buf
      {
        buf[at + k] := str[k];
      }
      assert str[..|str|] == str;
      buf[at + |str|] := NUL;
    }

    /** The default case of the escaping switch: the byte itself, with no NUL behind it. */
    method PutByte(at: nat, c: byte)
      requires Valid() && Room(at, 1)
      modifies this, buf
      ensures Valid() && text == old(text) + [c]
    {
      text := text + [c];
      if buf != null {
        buf[at] := c;
        assert buf[..at + 1] == buf[..at] + [c];
      }
    }

    method AppendIndent(at: nat, level: nat) returns (written: CInt)
      requires Valid() && Room(at, 4 * level) && 4 * level < INT_LIMIT
      modifies this, buf
      ensures Valid() && (old(Terminated()) ==> Terminated())
      ensures text == old(text) + Spaces(4 * level) && written == 4 * level
    {
      written := 0;
      for i := 0 to level
        invariant written == 4 * i && text == old(text) + Spaces(4 * i)
        invariant Valid() && Room(at + written, 4 * (level - i)) && (old(Terminated()) ==> Terminated())
      {
        var w := AppendString(at + written, [SPACE, SPACE, SPACE, SPACE]);
        written := written + w;
        assert Spaces(4 * i) + [SPACE, SPACE, SPACE, SPACE] == Spaces(4 * (i + 1));
      }
    }

    /** One turn of the escaping loop. */
    method SerializeByte(at: nat, c: byte, f: Format) returns (written: nat)
      requires Valid() && Room(at, |EscapeByte(c, f.escapeSlashes)|)
      modifies this, buf
      ensures Valid()
      ensures text == old(text) + EscapeByte(c, f.escapeSlashes) && written == |EscapeByte(c, f.escapeSlashes)|
    {
      var str: bytes;
      if c == QUOTE {
        str := [BACKSLASH, QUOTE];
      } else if c == BACKSLASH {
        str := [BACKSLASH, BACKSLASH];
      } else if c == 0x08 {
        str := [BACKSLASH, 0x62];
      } else if c == 0x0C {
        str := [BACKSLASH, 0x66];
      } else if c == 0x0A {
        str := [BACKSLASH, 0x6E];
      } else if c == 0x0D {
        str := [BACKSLASH, 0x72];
      } else if c == 0x09 {
        str := [BACKSLASH, 0x74];
      } else if c < 0x10 {
        str := [BACKSLASH, 0x75, ZERO, ZERO, ZERO, LOW_HEX[c]];
      } else if c < 0x20 {
        str := [BACKSLASH, 0x75, ZERO, ZERO, 0x31, LOW_HEX[c - 0x10]];
      } else if c == SLASH {
        str := if f.escapeSlashes then [BACKSLASH, SLASH] else [SLASH];
      } else {
        PutByte(at, c);
        return 1;
      }
      assert str == EscapeByte(c, f.escapeSlashes);
      written := AppendString(at, str);
    }

    /** json_serialize_string. */
    method SerializeString(at: nat, s: bytes, f: Format) returns (written: CInt)
      requires Valid() && Room(at, |Quoted(s, f.escapeSlashes)|) && |Quoted(s, f.escapeSlashes)| < INT_LIMIT
      modifies this, buf
      ensures Valid() && Terminated()
      ensures text == old(text) + Quoted(s, f.escapeSlashes) && written == |Quoted(s, f.escapeSlashes)|
    {
      hide Escape, EscapeByte;
      ghost var whole := Escape(s, f.escapeSlashes);
      ghost var done: bytes := [];
      var w := AppendString(at, [QUOTE]);
      written := w;
      assert s[0..] == s;
      for i := 0 to |s|
        invariant done + Escape(s[i..], f.escapeSlashes) == whole
        invariant written == 1 + |done| && text == old(text) + [QUOTE] + done
        invariant Valid() && (buf != null ==> at + written == |text|)
      {
        EscapeFrom(s, i, f.escapeSlashes);
        w := SerializeByte(at + written, s[i], f);
        written := written + w;
        done := done + EscapeByte(s[i], f.escapeSlashes);
      }
      assert s[|s|..] == [];
      EscapeNothing(f.escapeSlashes);
      w := AppendString(at + written, [QUOTE]);
      written := written + w;
    }

    /** The number case: sprintf goes to the 64-byte scratch buffer when there is no other. */
    method SerializeNumber(at: nat, n: ExactInt) returns (written: CInt)
      requires Valid() && Room(at, |Decimal(n)|)
      modifies this, buf
      ensures Valid() && Terminated()
      ensures text == old(text) + Decimal(n) && written == |Decimal(n)|
    {
      DecimalFits(n);
      if buf == null {
        var numBuf := new byte[NUM_BUF_SIZE];
        var scratch := new Output(numBuf);
        written := scratch.AppendString(0, Decimal(n));
        text := text + Decimal(n);
      } else {
        written := AppendString(at, Decimal(n));
      }
    }

    /** json_serialize_to_buffer_r. */
    method SerializeValue(at: nat, v: Value, level: nat, f: Format) returns (written: CInt)
      requires Valid() && Room(at, |Text(v, level, f)|) && |Text(v, level, f)| < INT_LIMIT
      modifies this, buf
      ensures Valid() && Terminated()
      ensures text == old(text) + Text(v, level, f) && written == |Text(v, level, f)|
      decreases v, 1
    {
      match v
      case Null => written := AppendString(at, NULL_TOKEN);
      case Boolean(b) => written := AppendString(at, if b then TRUE_TOKEN else FALSE_TOKEN);
      case Number(n) => written := SerializeNumber(at, n);
      case Str(chars) => written := SerializeString(at, chars, f);
      case Array(items) => written := SerializeArray(at, items, level, f);
      case Object(ms) => written := SerializeObject(at, ms, level, f);
    }

    method SerializeArray(at: nat, items: seq<Value>, level: nat, f: Format) returns (written: CInt)
      requires Valid() && Room(at, |Text(Array(items), level, f)|) && |Text(Array(items), level, f)| < INT_LIMIT
      modifies this, buf
      ensures Valid() && Terminated()
      ensures text == old(text) + Text(Array(items), level, f) && written == |Text(Array(items), level, f)|
      decreases items, 1
    {
      hide ItemText, ItemsText, Text, Indent, Opening, Closing;
      ArrayText(items, level, f);
      ghost var whole := ItemsText(items, 0, level, f);
      ghost var done: bytes := [];
      ghost var head := Opening(|items|, LBRACKET, f);
      var o := SerializeOpen(at, |items|, LBRACKET, f);
      written := o;
      for i := 0 to |items|
        invariant done + ItemsText(items, i, level, f) == whole
        invariant written == |head| + |done| && text == old(text) + head + done
        invariant Valid() && (buf != null ==> at + written == |text|)
      {
        ItemsFrom(items, i, level, f, done);
        var w := SerializeItem(at + written, items, i, level, f);
        written := written + w;
        done := done + ItemText(items, i, level, f);
      }
      ItemsEnd(items, level, f);
      var x := SerializeClose(at + written, |items|, RBRACKET, level, f);
      written := written + x;
    }

    method SerializeItem(at: nat, items: seq<Value>, k: nat, level: nat, f: Format) returns (written: CInt)
      requires k < |items|
      requires Valid() && Room(at, |ItemText(items, k, level, f)|) && |ItemText(items, k, level, f)| < INT_LIMIT
      modifies this, buf
      ensures Valid()
      ensures text == old(text) + ItemText(items, k, level, f) && written == |ItemText(items, k, level, f)|
      decreases items, 0
    {
      hide Text;
      written := 0;
      if f.pretty {
        written := AppendIndent(at, level + 1);
      }
      var w := SerializeValue(at + written, items[k], level + 1, f);
      written := written + w;
      var x := SerializeSeparator(at + written, k, |items|, f);
      written := written + x;
    }

    /** The opening bracket and, in front of a first element, the line break. */
    method SerializeOpen(at: nat, count: nat, open: byte, f: Format) returns (written: nat)
      requires open != NUL
      requires Valid() && Room(at, |Opening(count, open, f)|)
      modifies this, buf
      ensures Valid()
      ensures text == old(text) + Opening(count, open, f) && written == |Opening(count, open, f)|
    {
      written := AppendString(at, [open]);
      if count > 0 && f.pretty {
        var w := AppendString(at + written, [NEWLINE]);
        written := written + w;
      }
    }

    /** The comma between elements, and the line break behind each. */
    method SerializeSeparator(at: nat, k: nat, count: nat, f: Format) returns (written: nat)
      requires k < count
      requires Valid() && Room(at, |Separator(k, count)| + |LineBreak(f)|)
      modifies this, buf
      ensures Valid()
      ensures text == old(text) + Separator(k, count) + LineBreak(f)
      ensures written == |Separator(k, count)| + |LineBreak(f)|
    {
      written := 0;
      if k < count - 1 {
        written := AppendString(at, [COMMA]);
      }
      if f.pretty {
        var w := AppendString(at + written, [NEWLINE]);
        written := written + w;
      }
    }

    /** The last line's indentation and the closing bracket. */
    method SerializeClose(at: nat, count: nat, close: byte, level: nat, f: Format) returns (written: CInt)
      requires close != NUL
      requires Valid() && Room(at, |Closing(count, close, level, f)|) && |Closing(count, close, level, f)| < INT_LIMIT
      modifies this, buf
      ensures Valid() && Terminated()
      ensures text == old(text) + Closing(count, close, level, f)
      ensures written == |Closing(count, close, level, f)|
    {
      written := 0;
      if count > 0 && f.pretty {
        written := AppendIndent(at, level);
      }
      var w := AppendString(at + written, [close]);
      written := written + w;
    }

    method SerializeObject(at: nat, ms: seq<Member>, level: nat, f: Format) returns (written: CInt)
      requires Valid() && Room(at, |Text(Object(ms), level, f)|) && |Text(Object(ms), level, f)| < INT_LIMIT
      modifies this, buf
      ensures Valid() && Terminated()
      ensures text == old(text) + Text(Object(ms), level, f) && written == |Text(Object(ms), level, f)|
      decreases ms, 1
    {
      hide MemberText, MembersText, Text, Indent, Opening, Closing;
      ObjectText(ms, level, f);
      ghost var whole := MembersText(ms, 0, level, f);
      ghost var done: bytes := [];
      ghost var head := Opening(|ms|, LBRACE, f);
      var o := SerializeOpen(at, |ms|, LBRACE, f);
      written := o;
      for i := 0 to |ms|
        invariant done + MembersText(ms, i, level, f) == whole
        invariant written == |head| + |done| && text == old(text) + head + done
        invariant Valid() && (buf != null ==> at + written == |text|)
      {
        MembersFrom(ms, i, level, f, done);
        var w := SerializeMember(at + written, ms, i, level, f);
        written := written + w;
        done := done + MemberText(ms, i, level, f);
      }
      MembersEnd(ms, level, f);
      var x := SerializeClose(at + written, |ms|, RBRACE, level, f);
      written := written + x;
    }

    method SerializeMember(at: nat, ms: seq<Member>, k: nat, level: nat, f: Format) returns (written: CInt)
      requires k < |ms|
      requires Valid() && Room(at, |MemberText(ms, k, level, f)|) && |MemberText(ms, k, level, f)| < INT_LIMIT
      modifies this, buf
      ensures Valid()
      ensures text == old(text) + MemberText(ms, k, level, f) && written == |MemberText(ms, k, level, f)|
      decreases ms, 0
    {
      hide Text, Quoted, Indent, AfterColon;
      var w := SerializeKey(at, ms[k].name, level, f);
      written := w;
      w := SerializeValue(at + written, ms[k].value, level + 1, f);
      written := written + w;
      var x := SerializeSeparator(at + written, k, |ms|, f);
      written := written + x;
    }

    method SerializeKey(at: nat, name: Name, level: nat, f: Format) returns (written: CInt)
      requires Valid() && Room(at, |KeyText(name, level, f)|) && |KeyText(name, level, f)| < INT_LIMIT
      modifies this, buf
      ensures Valid()
      ensures text == old(text) + KeyText(name, level, f) && written == |KeyText(name, level, f)|
    {
      hide Quoted;
      written := 0;
      if f.pretty {
        written := AppendIndent(at, level + 1);
      }
      var w := SerializeString(at + written, name, f);
      written := written + w;
      var x := AppendString(at + written, [COLON]);
      written := written + x;
      if f.pretty {
        x := AppendString(at + written, [SPACE]);
        written := written + x;
      }
    }
  }

  function KeyText(name: Name, level: nat, f: Format): bytes {
    Indent(level + 1, f) + Quoted(name, f.escapeSlashes) + AfterColon(f)
  }

  function Opening(count: nat, open: byte, f: Format): bytes {
    [open] + (if count > 0 then LineBreak(f) else [])
  }

  function Closing(count: nat, close: byte, level: nat, f: Format): bytes {
    (if count > 0 then Indent(level, f) else []) + [close]
  }

  lemma ItemsFrom(items: seq<Value>, k: nat, level: nat, f: Format, done: bytes)
    requires k < |items|
    ensures done + ItemsText(items, k, level, f) == (done + ItemText(items, k, level, f)) + ItemsText(items, k + 1,
              level, f)
  {
    hide ItemText;
  }

  lemma ItemsEnd(items: seq<Value>, level: nat, f: Format)
    ensures ItemsText(items, |items|, level, f) == []
  {
  }

  lemma MembersFrom(ms: seq<Member>, k: nat, level: nat, f: Format, done: bytes)
    requires k < |ms|
    ensures done + MembersText(ms, k, level, f) == (done + MemberText(ms, k, level, f)) + MembersText(ms, k + 1,
              level, f)
  {
    hide MemberText;
  }

  lemma MembersEnd(ms: seq<Member>, level: nat, f: Format)
    ensures MembersText(ms, |ms|, level, f) == []
  {
  }

  lemma ArrayText(items: seq<Value>, level: nat, f: Format)
    ensures Text(Array(items), level, f) ==
              Opening(|items|, LBRACKET, f) + ItemsText(items, 0, level, f) + Closing(|items|, RBRACKET, level, f)
  {
  }

  lemma ObjectText(ms: seq<Member>, level: nat, f: Format)
    ensures Text(Object(ms), level, f) ==
              Opening(|ms|, LBRACE, f) + MembersText(ms, 0, level, f) + Closing(|ms|, RBRACE, level, f)
  {
  }

  lemma {:induction false} DigitsFit(n: nat, k: nat)
    requires k > 0 && n < Pow10(k)
    ensures |Digits(n)| <= k && NUL !in Digits(n)
  {
    if n >= 10 { DigitsFit(n / 10, k - 1); }
  }

  /** The scratch buffer holds every number the model prints. */
  lemma DecimalFits(n: ExactInt)
    ensures |Decimal(n)| < 64 && NUL !in Decimal(n)
  {
    assert Pow10(4) == 10000;
    assert Pow10(8) == 10000 * Pow10(4);
    assert Pow10(12) == 10000 * Pow10(8);
    assert Pow10(16) == 10000 * Pow10(12);
    DigitsFit(if n < 0 then -n else n, 16);
  }

  lemma EscapeNothing(escapeSlashes: bool)
    ensures Escape([], escapeSlashes) == []
  {
  }

  lemma EscapeFrom(s: bytes, i: nat, escapeSlashes: bool)
    requires i < |s|
    ensures Escape(s[i..], escapeSlashes) == EscapeByte(s[i], escapeSlashes) + Escape(s[i + 1..], escapeSlashes)
  {
    assert s[i..][1..] == s[i + 1..];
  }

  // ----- the public entry points -----

  /** json_serialization_size and its pretty form: the measuring pass, plus one for the NUL. */
  method SerializationSize(v: Value, f: Format) returns (size: nat)
    requires |Text(v, 0, f)| < INT_LIMIT
    ensures size == |Text(v, 0, f)| + 1
  {
    hide Text;
    var nowhere := new Output(null);
    var res := nowhere.SerializeValue(0, v, 0, f);
    size := res;
    size := size + 1;
  }

  /** json_serialize_to_buffer and its pretty form. */
  method SerializeToBuffer(v: Value, f: Format, buf: array<byte>, bufSize: nat) returns (ok: bool)
    requires |Text(v, 0, f)| < INT_LIMIT && bufSize <= buf.Length
    modifies buf
    ensures ok <==> |Text(v, 0, f)| < bufSize
    ensures !ok ==> buf[..] == old(buf[..])
    ensures ok ==> buf[..|Text(v, 0, f)|] == Text(v, 0, f) && buf[|Text(v, 0, f)|] == NUL
    ensures ok ==> forall k :: |Text(v, 0, f)| < k < buf.Length ==> buf[k] == old(buf[k])
  {
    hide Text;
    var needed := SerializationSize(v, f);
    if bufSize < needed { return false; }
    var output := new Output(buf);
    var written := output.SerializeValue(0, v, 0, f);
    assert output.text == Text(v, 0, f);
    return true;
  }

  /** json_serialize_to_string and its pretty form: exactly the text and one NUL. */
  method SerializeToString(v: Value, f: Format) returns (buf: array<byte>)
    requires |Text(v, 0, f)| < INT_LIMIT
    ensures fresh(buf) && buf[..] == Text(v, 0, f) + [NUL]
  {
    hide Text;
    var size := SerializationSize(v, f);
    buf := new byte[size];
    var ok := SerializeToBuffer(v, f, buf, size);
    assert buf[..] == buf[..size - 1] + [buf[size - 1]];
  }
}
