/** Reading back what the serializer wrote. */
module JsonRoundTrip {
  import opened Bytes
  import opened JsonValue
  import opened JsonText
  import opened JsonString
  import opened JsonParser
  import opened NumberLiteral
  import opened NumberScan
  import Utf8

  // ----- numbers -----

  lemma {:induction false} DigitsReadBack(n: nat)
    ensures Digits(n) != [] && (forall k :: 0 <= k < |Digits(n)| ==> IsDigit(Digits(n)[k]))
    ensures DigitsValue(Digits(n)) == n
    ensures n > 0 ==> Digits(n)[0] != ZERO
    ensures n < 10 ==> |Digits(n)| == 1
  {
    var w := Digits(n);
    if n < 10 {
      assert w[..|w| - 1] == [];
    } else {
      DigitsReadBack(n / 10);
      assert w[..|w| - 1] == Digits(n / 10);
    }
  }

  lemma DecimalIsDecimal(n: int)
    ensures IsDecimal(Decimal(n))
  {
    DigitsReadBack(if n < 0 then -n else n);
    hide Digits, DigitsValue;
    assert n < 0 ==> Decimal(n)[1] == Digits(-n)[0];
  }

  /** The decimal text of n, taken apart. */
  function IntegerLiteral(n: int): Literal {
    Literal(n < 0, [], Digits(if n < 0 then -n else n), None, None)
  }

  lemma IntegerLiteralIs(n: int)
    ensures IsLiteral(IntegerLiteral(n)) && Spelling(IntegerLiteral(n)) == Decimal(n) && Worth(IntegerLiteral(n), n)
  {
    hide Digits, DigitsValue, Pow10;
    var l, m := IntegerLiteral(n), if n < 0 then -n else n;
    DigitsReadBack(m);
    assert IsLiteral(l);
    assert l.whole + Places(l) == Digits(m);
    OneTimes(m);
    assert Spelling(l) == Sign(l) + Digits(m);
  }

  lemma OneTimes(m: nat)
    ensures IsScaled(m, 0, m)
  {
  }

  lemma ParsedNumber(s: bytes, i: nat)
    requires i <= |s| && NumeralAt(s, FirstDigit(s, i))
    ensures var (l, end) := Scan(s, i);
            i <= end <= |s| && IsLiteral(l) &&
            ParseNumber(s, i) ==
              if !IsDecimal(s[i..end]) then Err
              else match ExactValue(l) case None => Foreign case Some(n) => Ok(Number(n), end)
  {
    ScanIsLiteral(s, i);
    ScanStands(s, i);
    hide Scan, IsDecimal, IsLiteral, ExactValue;
  }

  lemma DecimalStarts(n: int)
    ensures Decimal(n) != [] && (Decimal(n)[0] == MINUS || IsDigit(Decimal(n)[0]))
  {
    DigitsReadBack(if n < 0 then -n else n);
    hide Digits, DigitsValue;
  }

  /** A printed integer is read back to its last digit exactly when nothing behind it makes it longer. */
  lemma ReadNumber(s: bytes, i: nat, n: ExactInt)
    requires Occurs(s, i, Decimal(n))
    ensures i <= |s| && (At(s, i) == MINUS || IsDigit(At(s, i)))
    ensures var j := i + |Decimal(n)|;
            ParseNumber(s, i) == Ok(Number(n), j) <==> !Continues(s, j, IntegerLiteral(n))
  {
    hide *;
    DecimalIsDecimal(n);
    DecimalStarts(n);
    OccursSlice(s, i, Decimal(n));
    OccursAt(s, i, Decimal(n), 0);
    IntegerLiteralIs(n);
    LiteralEndsIff(s, i, IntegerLiteral(n));
    ParsedNumber(s, i);
    ExactValueIff(IntegerLiteral(n), n);
  }

  // ----- strings -----

  /** One escaped byte is read back in one step, which the scan for the closing quote follows. */
  lemma ReadEscapedByte(s: bytes, i: nat, c: byte, e: bool)
    requires Occurs(s, i, EscapeByte(c, e))
    ensures UnescapeUnit(s, i) == Emit([c], i + |EscapeByte(c, e)|)
    ensures At(s, i) != QUOTE && At(s, i) != NUL
  {
    var w := EscapeByte(c, e);
    OccursAt(s, i, w, 0);
    if |w| == 2 {
      OccursAt(s, i, w, 1);
    } else if |w| == 6 {
      HexDigitReads(c / 16, false);
      HexDigitReads(c % 16, false);
      OccursAt(s, i, w, 1);
      OccursAt(s, i, w, 2);
      OccursAt(s, i, w, 3);
      OccursAt(s, i, w, 4);
      OccursAt(s, i, w, 5);
      assert Hex4(s, i + 2) == Some(c);
      assert Utf8.Encode(c) == [c];
    }
  }

  lemma {:induction false} ReadEscaped(s: bytes, i: nat, t: bytes, e: bool)
    requires Occurs(s, i, Escape(t, e)) && At(s, i + |Escape(t, e)|) == QUOTE
    ensures ClosingQuote(s, i) == Some(i + |Escape(t, e)|)
    ensures Unescape(s, i, i + |Escape(t, e)|) == Some(t)
    decreases |t|
  {
    hide Occurs, UnescapeUnit, EscapeByte;
    if t != [] {
      var w, rest := EscapeByte(t[0], e), Escape(t[1..], e);
      OccursConcat(s, i, w, rest);
      ReadEscapedByte(s, i, t[0], e);
      ReadEscaped(s, i + |w|, t[1..], e);
      UnitInStep(s, i);
      StopsSameQuote(s, i, i + |w|);
      assert [t[0]] + t[1..] == t;
    }
  }

  lemma ReadQuoted(s: bytes, i: nat, t: bytes, e: bool)
    requires Occurs(s, i, Quoted(t, e))
    ensures QuotedString(s, i) == Some((t, i + |Quoted(t, e)|))
  {
    hide Occurs, Escape, ClosingQuote, Unescape;
    var w := Escape(t, e);
    OccursConcat(s, i, [QUOTE] + w, [QUOTE]);
    OccursConcat(s, i, [QUOTE], w);
    OccursAt(s, i, [QUOTE] + w, 0);
    OccursAt(s, i + 1 + |w|, [QUOTE], 0);
    ReadEscaped(s, i + 1, t, e);
  }

  // ----- layout -----

  predicate AllSpace(w: bytes) {
    forall k :: 0 <= k < |w| ==> IsSpace(w[k])
  }

  lemma {:induction false} SkipLayout(s: bytes, i: nat, w: bytes)
    requires Occurs(s, i, w) && AllSpace(w)
    ensures SkipSpaces(s, i) == SkipSpaces(s, i + |w|)
    decreases |w|
  {
    if w == [] {
    } else {
      OccursAt(s, i, w, 0);
      OccursConcat(s, i, [w[0]], w[1..]);
      assert [w[0]] + w[1..] == w;
      SkipLayout(s, i + 1, w[1..]);
    }
  }

  lemma IndentIsSpace(level: nat, f: Format)
    ensures AllSpace(Indent(level, f)) && AllSpace(LineBreak(f))
  {
  }

  lemma NoSpaceHere(s: bytes, i: nat)
    requires !IsSpace(At(s, i))
    ensures SkipSpaces(s, i) == i
  {
  }

  predicate IsValueStart(c: byte) {
    c == LBRACE || c == LBRACKET || c == QUOTE || c == MINUS || IsDigit(c) || c == 0x66 || c == 0x74 || c == 0x6E
  }

  lemma TextStart(v: Value, level: nat, f: Format)
    ensures Text(v, level, f) != [] && IsValueStart(Text(v, level, f)[0])
  {
    match v
    case Number(n) => DigitsReadBack(if n < 0 then -n else n);
    case _ =>
  }

  lemma ItemLayout(s: bytes, p: nat, items: seq<Value>, k: nat, level: nat, f: Format)
    requires k < |items| && Occurs(s, p, ItemsText(items, k, level, f))
    ensures var p1 := p + |Indent(level + 1, f)|;
            var p2 := p1 + |Text(items[k], level + 1, f)|;
            var p3 := p2 + |Separator(k, |items|)|;
            var p4 := p3 + |LineBreak(f)|;
            Occurs(s, p, Indent(level + 1, f)) && Occurs(s, p1, Text(items[k], level + 1, f)) &&
            Occurs(s, p2, Separator(k, |items|)) && Occurs(s, p3, LineBreak(f)) &&
            Occurs(s, p4, ItemsText(items, k + 1, level, f)) &&
            p4 + |ItemsText(items, k + 1, level, f)| == p + |ItemsText(items, k, level, f)|
  {
    hide Occurs, Text;
    var a, b, c := Indent(level + 1, f), Text(items[k], level + 1, f), Separator(k, |items|);
    var d, e := LineBreak(f), ItemsText(items, k + 1, level, f);
    OccursConcat(s, p, a + b + c + d, e);
    OccursConcat(s, p, a + b + c, d);
    OccursConcat(s, p, a + b, c);
    OccursConcat(s, p, a, b);
  }

  lemma MemberLayout(s: bytes, p: nat, ms: seq<Member>, k: nat, level: nat, f: Format)
    requires k < |ms| && Occurs(s, p, MembersText(ms, k, level, f))
    ensures var key := Quoted(ms[k].name, f.escapeSlashes);
            var p1 := p + |Indent(level + 1, f)|;
            var p2 := p1 + |key|;
            var p3 := p2 + |AfterColon(f)|;
            var p4 := p3 + |Text(ms[k].value, level + 1, f)|;
            var p5 := p4 + |Separator(k, |ms|)|;
            var p6 := p5 + |LineBreak(f)|;
            Occurs(s, p, Indent(level + 1, f)) && Occurs(s, p1, key) && Occurs(s, p2, AfterColon(f)) &&
            Occurs(s, p3, Text(ms[k].value, level + 1, f)) &&
            Occurs(s, p4, Separator(k, |ms|)) && Occurs(s, p5, LineBreak(f)) &&
            Occurs(s, p6, MembersText(ms, k + 1, level, f)) &&
            p6 + |MembersText(ms, k + 1, level, f)| == p + |MembersText(ms, k, level, f)|
  {
    hide Occurs, Text, Quoted;
    var a, key, colon := Indent(level + 1, f), Quoted(ms[k].name, f.escapeSlashes), AfterColon(f);
    var b, c, d, e := Text(ms[k].value, level + 1, f), Separator(k, |ms|), LineBreak(f),
        MembersText(ms, k + 1, level, f);
    OccursConcat(s, p, a + key + colon + b + c + d, e);
    OccursConcat(s, p, a + key + colon + b + c, d);
    OccursConcat(s, p, a + key + colon + b, c);
    OccursConcat(s, p, a + key + colon, b);
    OccursConcat(s, p, a + key, colon);
    OccursConcat(s, p, a, key);
  }

  /** The two ends of a bracketed text and what stands between them. */
  lemma BracketLayout(s: bytes, p: nat, open: byte, body: bytes, close: byte, level: nat, f: Format)
    requires Occurs(s, p, [open] + LineBreak(f) + body + Indent(level, f) + [close])
    requires !IsSpace(close)
    ensures var b := p + 1 + |LineBreak(f)|;
            At(s, p) == open && Occurs(s, b, body) && SkipSpaces(s, p + 1) == SkipSpaces(s, b) &&
            At(s, SkipSpaces(s, b + |body|)) == close &&
            SkipSpaces(s, b + |body|) + 1 == p + |[open] + LineBreak(f) + body + Indent(level, f) + [close]|
  {
    var lb, ind := LineBreak(f), Indent(level, f);
    OccursConcat(s, p, [open] + lb + body + ind, [close]);
    OccursConcat(s, p, [open] + lb + body, ind);
    OccursConcat(s, p, [open] + lb, body);
    OccursConcat(s, p, [open], lb);
    OccursAt(s, p, [open], 0);
    var b := p + 1 + |lb|;
    SkipLayout(s, p + 1, lb);
    SkipLayout(s, b + |body|, ind);
    OccursAt(s, b + |body| + |ind|, [close], 0);
  }

  // ----- values -----

  /** One turn of the items loop. */
  lemma ItemsStep(s: bytes, start: nat, nesting: nat, done: seq<Value>, v: Value, next: nat)
    requires At(s, start) != NUL && ParseValue(s, start, nesting) == Ok(v, next)
    ensures var i := SkipSpaces(s, next);
            ParseItems(s, start, nesting, done) ==
              if At(s, i) != COMMA then Ok(done + [v], i)
              else ParseItems(s, SkipSpaces(s, i + 1), nesting, done + [v])
  {
    hide ParseValue, SkipSpaces;
  }

  /** One turn of the members loop. */
  lemma MembersStep(s: bytes, start: nat, nesting: nat, done: seq<Member>, name: Name, valueStart: nat, v: Value,
                    next: nat)
    requires At(s, start) != NUL && ParseKey(s, start) == Some((name, valueStart))
    requires ParseValue(s, valueStart, nesting) == Ok(v, next) && Lookup(done, name).None?
    ensures var i := SkipSpaces(s, next);
            ParseMembers(s, start, nesting, done) ==
              if At(s, i) != COMMA then Ok(done + [Member(name, v)], i)
              else ParseMembers(s, SkipSpaces(s, i + 1), nesting, done + [Member(name, v)])
  {
    hide ParseValue, SkipSpaces, ParseKey, Lookup;
  }

  /** What the serializer writes behind an element begins with one of these. */
  predicate EndsElement(c: byte) {
    IsSpace(c) || c in {COMMA, RBRACKET, RBRACE}
  }

  lemma NothingContinues(s: bytes, p: nat)
    requires EndsElement(At(s, p))
    ensures forall l :: !Continues(s, p, l)
  {
  }

  /** Where the cursor goes after an element: to the comma and on to the next line, or to what follows the list. */
  lemma AfterElement(s: bytes, p: nat, k: nat, count: nat, f: Format)
    requires k < count
    requires Occurs(s, p, Separator(k, count)) && Occurs(s, p + |Separator(k, count)|, LineBreak(f))
    requires k + 1 == count ==> At(s, SkipSpaces(s, p + |LineBreak(f)|)) in {RBRACKET, RBRACE}
    ensures var after := p + |Separator(k, count)| + |LineBreak(f)|;
            if k + 1 < count then At(s, p) == COMMA && SkipSpaces(s, p) == p &&
                SkipSpaces(s, p + 1) == SkipSpaces(s, after)
            else SkipSpaces(s, p) == SkipSpaces(s, after)
    ensures EndsElement(At(s, p))
  {
    SkipLayout(s, p + |Separator(k, count)|, LineBreak(f));
    if k + 1 < count {
      OccursAt(s, p, Separator(k, count), 0);
    }
  }

  /** Where item k starts (p1), where it ends (p2), and where the text of the items after it starts (p4). */
  lemma ItemPlaces(s: bytes, p: nat, items: seq<Value>, k: nat, level: nat, f: Format)
    returns (p1: nat, p2: nat, p4: nat)
    requires k < |items| && Occurs(s, p, ItemsText(items, k, level, f))
    requires k + 1 == |items| ==> At(s, SkipSpaces(s, p + |ItemsText(items, k, level, f)|)) == RBRACKET
    ensures SkipSpaces(s, p) == p1 && IsValueStart(At(s, p1)) && SkipSpaces(s, p1) == p1
    ensures Occurs(s, p1, Text(items[k], level + 1, f)) && p2 == p1 + |Text(items[k], level + 1, f)|
    ensures EndsElement(At(s, p2))
    ensures Occurs(s, p4, ItemsText(items, k + 1, level, f))
    ensures p4 + |ItemsText(items, k + 1, level, f)| == p + |ItemsText(items, k, level, f)|
    ensures if k + 1 < |items| then SkipSpaces(s, p2) == p2 && At(s, p2) == COMMA &&
              SkipSpaces(s, p2 + 1) == SkipSpaces(s, p4)
            else SkipSpaces(s, p2) == SkipSpaces(s, p4) && p4 == p + |ItemsText(items, k, level, f)|
  {
    hide Text, Quoted, SkipSpaces, Occurs, Indent;
    ItemLayout(s, p, items, k, level, f);
    p1 := p + |Indent(level + 1, f)|;
    p2 := p1 + |Text(items[k], level + 1, f)|;
    p4 := p2 + |Separator(k, |items|)| + |LineBreak(f)|;
    TextStart(items[k], level + 1, f);
    OccursAt(s, p1, Text(items[k], level + 1, f), 0);
    IndentIsSpace(level + 1, f);
    SkipLayout(s, p, Indent(level + 1, f));
    NoSpaceHere(s, p1);
    AfterElement(s, p2, k, |items|, f);
  }

  lemma ReadKey(s: bytes, p: nat, name: Name, f: Format) returns (valueStart: nat)
    requires Occurs(s, p, Quoted(name, f.escapeSlashes))
    requires Occurs(s, p + |Quoted(name, f.escapeSlashes)|, AfterColon(f))
    ensures ParseKey(s, p) == Some((name, valueStart)) && At(s, p) == QUOTE && SkipSpaces(s, p) == p
    ensures SkipSpaces(s, valueStart) == SkipSpaces(s, p + |Quoted(name, f.escapeSlashes)| + |AfterColon(f)|)
  {
    hide Occurs, Escape, QuotedString;
    ReadQuoted(s, p, name, f.escapeSlashes);
    OccursAt(s, p, Quoted(name, f.escapeSlashes), 0);
    var c := p + |Quoted(name, f.escapeSlashes)|;
    OccursAt(s, c, AfterColon(f), 0);
    valueStart := c + 1;
    if f.pretty {
      OccursAt(s, c, AfterColon(f), 1);
    }
  }

  /** Where member k starts (p1), where the cursor looks for its value (vs), where the value starts (p3)
      and ends (p4), and where the text of the members after it starts (p6). */
  lemma MemberPlaces(s: bytes, p: nat, ms: seq<Member>, k: nat, level: nat, f: Format)
    returns (p1: nat, vs: nat, p3: nat, p4: nat, p6: nat)
    requires k < |ms| && Occurs(s, p, MembersText(ms, k, level, f))
    requires k + 1 == |ms| ==> At(s, SkipSpaces(s, p + |MembersText(ms, k, level, f)|)) == RBRACE
    ensures SkipSpaces(s, p) == p1 && At(s, p1) == QUOTE
    ensures ParseKey(s, p1) == Some((ms[k].name, vs)) && SkipSpaces(s, vs) == p3
    ensures Occurs(s, p3, Text(ms[k].value, level + 1, f)) && p4 == p3 + |Text(ms[k].value, level + 1, f)|
    ensures EndsElement(At(s, p4))
    ensures Occurs(s, p6, MembersText(ms, k + 1, level, f))
    ensures p6 + |MembersText(ms, k + 1, level, f)| == p + |MembersText(ms, k, level, f)|
    ensures if k + 1 < |ms| then SkipSpaces(s, p4) == p4 && At(s, p4) == COMMA &&
              SkipSpaces(s, p4 + 1) == SkipSpaces(s, p6)
            else SkipSpaces(s, p4) == SkipSpaces(s, p6) && p6 == p + |MembersText(ms, k, level, f)|
  {
    hide Text, Quoted, SkipSpaces, Occurs, Indent, AfterColon, ParseKey;
    MemberLayout(s, p, ms, k, level, f);
    p1 := p + |Indent(level + 1, f)|;
    vs := ReadKey(s, p1, ms[k].name, f);
    p3 := p1 + |Quoted(ms[k].name, f.escapeSlashes)| + |AfterColon(f)|;
    p4 := p3 + |Text(ms[k].value, level + 1, f)|;
    p6 := p4 + |Separator(k, |ms|)| + |LineBreak(f)|;
    IndentIsSpace(level + 1, f);
    SkipLayout(s, p, Indent(level + 1, f));
    TextStart(ms[k].value, level + 1, f);
    OccursAt(s, p3, Text(ms[k].value, level + 1, f), 0);
    NoSpaceHere(s, p3);
    AfterElement(s, p4, k, |ms|, f);
  }

  /** Parsing the text of v where it stands gives v and leaves the cursor right behind it. */
  lemma {:induction false} ReadValue(s: bytes, start: nat, p: nat, v: Value, level: nat, f: Format, nesting: nat)
    requires SkipSpaces(s, start) == p && Occurs(s, p, Text(v, level, f))
    requires WellFormed(v) && NestsFrom(v, nesting)
    requires v.Number? ==> !Continues(s, p + |Text(v, level, f)|, IntegerLiteral(v.n))
    ensures ParseValue(s, start, nesting) == Ok(v, p + |Text(v, level, f)|)
    decreases v, 1
  {
    hide Occurs, ParseArray, ParseObject, ParseNumber, QuotedString, Escape, ItemsText, MembersText, SkipSpaces;
    TextStart(v, level, f);
    OccursAt(s, p, Text(v, level, f), 0);
    match v
    case Null => OccursSlice(s, p, NULL_TOKEN);
    case Boolean(b) => OccursSlice(s, p, Text(v, level, f));
    case Number(n) => ReadNumber(s, p, n);
    case Str(chars) => ReadQuoted(s, p, chars, f.escapeSlashes);
    case Array(items) => ReadArray(s, p, items, level, f, nesting + 1);
    case Object(ms) => ReadObject(s, p, ms, level, f, nesting + 1);
  }

  lemma {:induction false} ReadArray(s: bytes, p: nat, items: seq<Value>, level: nat, f: Format, nesting: nat)
    requires Occurs(s, p, Text(Array(items), level, f)) && At(s, p) == LBRACKET
    requires forall i :: 0 <= i < |items| ==> WellFormed(items[i]) && NestsFrom(items[i], nesting)
    ensures ParseArray(s, p, nesting) == Ok(Array(items), p + |Text(Array(items), level, f)|)
    decreases items, |items| + 1
  {
    hide Occurs, SkipSpaces, ParseValue, ParseItems, ParseMembers, ItemsText, MembersText;
    if items == [] {
      OccursAt(s, p, Text(Array(items), level, f), 1);
      NoSpaceHere(s, p + 1);
    } else {
      BracketLayout(s, p, LBRACKET, ItemsText(items, 0, level, f), RBRACKET, level, f);
      var b := p + 1 + |LineBreak(f)|;
      var p1, p2, p4 := ItemPlaces(s, b, items, 0, level, f);
      ReadItems(s, b, items, 0, level, f, nesting);
      assert items[..0] == [];
    }
  }

  lemma {:induction false} ReadItems(s: bytes, p: nat, items: seq<Value>, k: nat, level: nat, f: Format, nesting: nat)
    requires k < |items| && Occurs(s, p, ItemsText(items, k, level, f))
    requires forall i :: 0 <= i < |items| ==> WellFormed(items[i]) && NestsFrom(items[i], nesting)
    requires At(s, SkipSpaces(s, p + |ItemsText(items, k, level, f)|)) == RBRACKET
    ensures ParseItems(s, SkipSpaces(s, p), nesting, items[..k])
         == Ok(items, SkipSpaces(s, p + |ItemsText(items, k, level, f)|))
    decreases items, |items| - k
  {
    hide Text, ItemsText, ParseValue, ParseItems, SkipSpaces, Occurs;
    var p1, p2, p4 := ItemPlaces(s, p, items, k, level, f);
    NothingContinues(s, p2);
    ReadValue(s, p1, p1, items[k], level + 1, f, nesting);
    ItemsStep(s, p1, nesting, items[..k], items[k], p2);
    assert items[..k] + [items[k]] == items[..k + 1];
    if k + 1 < |items| {
      ReadItems(s, p4, items, k + 1, level, f, nesting);
    } else {
      assert items[..k + 1] == items;
    }
  }

  lemma {:induction false} ReadObject(s: bytes, p: nat, ms: seq<Member>, level: nat, f: Format, nesting: nat)
    requires Occurs(s, p, Text(Object(ms), level, f)) && At(s, p) == LBRACE
    requires DistinctNames(ms)
    requires forall i :: 0 <= i < |ms| ==> WellFormed(ms[i].value) && NestsFrom(ms[i].value, nesting)
    ensures ParseObject(s, p, nesting) == Ok(Object(ms), p + |Text(Object(ms), level, f)|)
    decreases ms, |ms| + 1
  {
    hide Occurs, SkipSpaces, ParseValue, ParseItems, ParseMembers, ItemsText, MembersText;
    if ms == [] {
      OccursAt(s, p, Text(Object(ms), level, f), 1);
      NoSpaceHere(s, p + 1);
    } else {
      BracketLayout(s, p, LBRACE, MembersText(ms, 0, level, f), RBRACE, level, f);
      var b := p + 1 + |LineBreak(f)|;
      var p1, vs, p3, p4, p6 := MemberPlaces(s, b, ms, 0, level, f);
      ReadMembers(s, b, ms, 0, level, f, nesting);
      assert ms[..0] == [];
    }
  }

  lemma {:induction false} ReadMembers(s: bytes, p: nat, ms: seq<Member>, k: nat, level: nat, f: Format, nesting: nat)
    requires k < |ms| && Occurs(s, p, MembersText(ms, k, level, f))
    requires DistinctNames(ms)
    requires forall i :: 0 <= i < |ms| ==> WellFormed(ms[i].value) && NestsFrom(ms[i].value, nesting)
    requires At(s, SkipSpaces(s, p + |MembersText(ms, k, level, f)|)) == RBRACE
    ensures ParseMembers(s, SkipSpaces(s, p), nesting, ms[..k])
         == Ok(ms, SkipSpaces(s, p + |MembersText(ms, k, level, f)|))
    decreases ms, |ms| - k
  {
    hide Text, MembersText, ParseValue, ParseMembers, SkipSpaces, Occurs;
    var p1, vs, p3, p4, p6 := MemberPlaces(s, p, ms, k, level, f);
    NothingContinues(s, p4);
    ReadValue(s, vs, p3, ms[k].value, level + 1, f, nesting);
    NewName(ms, k);
    MembersStep(s, p1, nesting, ms[..k], ms[k].name, vs, ms[k].value, p4);
    assert ms[..k] + [ms[k]] == ms[..k + 1];
    if k + 1 < |ms| {
      ReadMembers(s, p6, ms, k + 1, level, f, nesting);
    } else {
      assert ms[..k + 1] == ms;
    }
  }

  lemma NewName(ms: seq<Member>, k: nat)
    requires DistinctNames(ms) && k < |ms|
    ensures Lookup(ms[..k], ms[k].name).None?
  {
  }

  // ----- what the parser can produce -----

  /** Every value the parser produces has distinct names and bounded nesting. */
  lemma {:induction false} ParserProduces(s: bytes, start: nat, nesting: nat)
    requires ParseValue(s, start, nesting).Ok?
    ensures WellFormed(ParseValue(s, start, nesting).value) && NestsFrom(ParseValue(s, start, nesting).value, nesting)
    decreases |s| - start, 2
  {
    var i := SkipSpaces(s, start);
    if At(s, i) == LBRACE {
      var j := SkipSpaces(s, i + 1);
      if At(s, j) != RBRACE { ParserProducesMembers(s, j, nesting + 1, []); }
    } else if At(s, i) == LBRACKET {
      var j := SkipSpaces(s, i + 1);
      if At(s, j) != RBRACKET { ParserProducesItems(s, j, nesting + 1, []); }
    }
  }

  predicate GoodItems(items: seq<Value>, nesting: nat) {
    forall i :: 0 <= i < |items| ==> WellFormed(items[i]) && NestsFrom(items[i], nesting)
  }

  predicate GoodMembers(ms: seq<Member>, nesting: nat) {
    DistinctNames(ms) && forall i :: 0 <= i < |ms| ==> WellFormed(ms[i].value) && NestsFrom(ms[i].value, nesting)
  }

  lemma OneMoreItem(done: seq<Value>, v: Value, nesting: nat)
    requires GoodItems(done, nesting) && WellFormed(v) && NestsFrom(v, nesting)
    ensures GoodItems(done + [v], nesting)
  {
  }

  lemma {:induction false} ParserProducesItems(s: bytes, start: nat, nesting: nat, done: seq<Value>)
    requires ParseItems(s, start, nesting, done).Ok? && GoodItems(done, nesting)
    ensures GoodItems(ParseItems(s, start, nesting, done).value, nesting)
    decreases |s| - start, 3
  {
    hide GoodItems, WellFormed, NestsFrom, ParseValue, ParseItems, SkipSpaces;
    ItemsTurn(s, start, nesting, done);
    if At(s, start) != NUL {
      ParserProduces(s, start, nesting);
      var r := ParseValue(s, start, nesting);
      ItemsStep(s, start, nesting, done, r.value, r.next);
      OneMoreItem(done, r.value, nesting);
      var i := SkipSpaces(s, r.next);
      if At(s, i) == COMMA {
        ParserProducesItems(s, SkipSpaces(s, i + 1), nesting, done + [r.value]);
      }
    }
  }

  lemma ItemsTurn(s: bytes, start: nat, nesting: nat, done: seq<Value>)
    requires ParseItems(s, start, nesting, done).Ok?
    ensures if At(s, start) == NUL then ParseItems(s, start, nesting, done).value == done
            else ParseValue(s, start, nesting).Ok?
  {
    hide ParseValue;
  }

  lemma MembersTurn(s: bytes, start: nat, nesting: nat, done: seq<Member>)
    requires ParseMembers(s, start, nesting, done).Ok? && At(s, start) != NUL
    ensures ParseKey(s, start).Some? && ParseValue(s, ParseKey(s, start).value.1, nesting).Ok?
    ensures Lookup(done, ParseKey(s, start).value.0).None?
  {
  }

  lemma OneMoreMember(done: seq<Member>, m: Member, nesting: nat)
    requires GoodMembers(done, nesting) && Lookup(done, m.name).None?
    requires WellFormed(m.value) && NestsFrom(m.value, nesting)
    ensures GoodMembers(done + [m], nesting)
  {
  }

  lemma {:induction false} ParserProducesMembers(s: bytes, start: nat, nesting: nat, done: seq<Member>)
    requires ParseMembers(s, start, nesting, done).Ok? && GoodMembers(done, nesting)
    ensures GoodMembers(ParseMembers(s, start, nesting, done).value, nesting)
    decreases |s| - start, 3
  {
    if At(s, start) != NUL {
      MembersTurn(s, start, nesting, done);
      hide GoodMembers, WellFormed, NestsFrom, ParseValue, ParseMembers, Lookup;
      var (name, valueStart) := ParseKey(s, start).value;
      ParserProduces(s, valueStart, nesting);
      var r := ParseValue(s, valueStart, nesting);
      MembersStep(s, start, nesting, done, name, valueStart, r.value, r.next);
      OneMoreMember(done, Member(name, r.value), nesting);
      var i := SkipSpaces(s, r.next);
      if At(s, i) == COMMA {
        ParserProducesMembers(s, SkipSpaces(s, i + 1), nesting, done + [Member(name, r.value)]);
      }
    } else {
      assert ParseMembers(s, start, nesting, done).value == done;
    }
  }

  // ----- main results -----

  /** What makes a number longer lies behind it. */
  lemma ContinuesBehind(w: bytes, rest: bytes, l: Literal)
    ensures Continues(w + rest, |w|, l) <==> Continues(rest, 0, l)
  {
    assert forall k: nat :: At(w + rest, |w| + k) == At(rest, k);
  }

  lemma AllOfIt(w: bytes, rest: bytes)
    ensures Occurs(w + rest, 0, w)
  {
  }

  /** Parsing what the serializer wrote gives the value back, key order included, and leaves the cursor
      exactly behind it, for the well-formed values nested no deeper than MAX_NESTING and for no others,
      whatever follows, unless it makes a number longer. */
  lemma RoundTrip(v: Value, f: Format, rest: bytes)
    ensures Parse(Text(v, 0, f) + rest) == Ok(v, |Text(v, 0, f)|) <==>
              WellFormed(v) && NestsFrom(v, 0) && (v.Number? ==> !Continues(rest, 0, IntegerLiteral(v.n)))
  {
    var w := Text(v, 0, f);
    var s := w + rest;
    TextStart(v, 0, f);
    assert s[0] == w[0];
    assert Parse(s) == ParseValue(s, 0, 0);
    NoSpaceHere(s, 0);
    AllOfIt(w, rest);
    if v.Number? {
      ContinuesBehind(w, rest, IntegerLiteral(v.n));
      ReadNumber(s, 0, v.n);
      hide Occurs, ParseNumber, Continues, SkipSpaces, Digits;
    } else {
      if WellFormed(v) && NestsFrom(v, 0) { ReadValue(s, 0, 0, v, 0, f, 0); }
      if Parse(s) == Ok(v, |w|) { ParserProduces(s, 0, 0); }
    }
  }

  lemma NothingBehind(v: Value)
    ensures v.Number? ==> !Continues([], 0, IntegerLiteral(v.n))
  {
  }

  /** Whatever the parser reads from any text, printing it and parsing again changes nothing. */
  lemma Reparse(s: bytes, f: Format)
    requires Parse(s).Ok?
    ensures Parse(Text(Parse(s).value, 0, f)) == Ok(Parse(s).value, |Text(Parse(s).value, 0, f)|)
  {
    ParserProduces(s, if At(s, 0) == 0xEF && At(s, 1) == 0xBB && At(s, 2) == 0xBF then 3 else 0, 0);
    var v := Parse(s).value;
    RoundTrip(v, f, []);
    NothingBehind(v);
    assert Text(v, 0, f) + [] == Text(v, 0, f);
  }
}
