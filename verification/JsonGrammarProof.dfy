/** The parser reads the language of the grammar and nothing else, but for a bare minus sign at the top. */
module JsonGrammarProof {
  import opened Bytes
  import opened JsonValue
  import opened JsonString
  import opened JsonUnicodeEscape
  import opened Utf8
  import opened JsonParser
  import opened JsonGrammar
  import opened NumberLiteral
  import opened NumberScan
  import T = JsonText
  import R = JsonRoundTrip

  // ----- numbers -----

  /** Neither x nor X nor NUL. */
  predicate NoX(w: bytes) {
    forall k :: 0 <= k < |w| ==> w[k] !in {0x78, 0x58, NUL}
  }

  lemma NoXIn(a: bytes, b: bytes)
    ensures NoX(a + b) <==> NoX(a) && NoX(b)
  {
    assert forall k :: 0 <= k < |a| ==> (a + b)[k] == a[k];
    assert forall k :: 0 <= k < |b| ==> (a + b)[|a| + k] == b[k];
  }

  lemma NoXInDigits(w: bytes)
    ensures AllDigits(w) ==> NoX(w)
  {
  }

  lemma NoXInExponent(l: Literal)
    requires l.exponent.Some? ==> IsExponent(l.exponent.value, false)
    ensures NoX(ExponentText(l))
  {
    if l.exponent.Some? {
      var x := l.exponent.value;
      NoXIn([x.letter] + x.sign, x.digits);
      NoXIn([x.letter], x.sign);
      NoXInDigits(x.digits);
    }
  }

  lemma NoXInPrefix(w: bytes)
    requires IsPrefix(w)
    ensures !NoX(w)
  {
    assert w[1] in {0x78, 0x58, NUL};
  }

  lemma NoXInNumber(l: Literal)
    requires IsLiteral(l)
    ensures NoX(Spelling(l)) <==> !Hex(l)
  {
    hide NoX, IsExponent, AllDigits, IsPrefix, ExponentText;
    NoXIn(Sign(l) + l.prefix + l.whole + FractionText(l), ExponentText(l));
    NoXIn(Sign(l) + l.prefix + l.whole, FractionText(l));
    NoXIn(Sign(l) + l.prefix, l.whole);
    NoXIn(Sign(l), l.prefix);
    if Hex(l) {
      NoXInPrefix(l.prefix);
    } else {
      NoXInDigits(l.whole);
      NoXInExponent(l);
      NoXInDigits(Places(l));
      if l.fraction.Some? { NoXIn([DOT], l.fraction.value); }
      NoXPoint();
    }
  }

  lemma NoXPoint()
    ensures NoX([]) && NoX([DOT]) && NoX([MINUS])
  {
  }

  predicate LeadingZero(w: bytes) {
    |w| > 1 && w[0] == ZERO && w[1] != DOT
  }

  lemma IsDecimalWithout(minus: bool, w: bytes)
    requires w != [] && w[0] != MINUS && NoX(w)
    ensures IsDecimal((if minus then [MINUS] else []) + w) <==> !LeadingZero(w)
  {
    NoXIn([MINUS], w);
    NoXPoint();
    var t := (if minus then [MINUS] else []) + w;
    assert forall k :: 0 <= k < |w| ==> t[|t| - |w| + k] == w[k];
    assert !minus ==> t == w;
    hide NoX;
    assert IsDecimal(t) <==> !LeadingZero(t) && !(minus && LeadingZero(w)) && NoX(t);
  }

  lemma LeadingZeroIff(l: Literal)
    requires IsLiteral(l) && !Hex(l)
    ensures var w := l.whole + FractionText(l) + ExponentText(l);
            w != [] && w[0] != MINUS &&
            (LeadingZero(w) <==> !(IsNatural(l.whole) || l.whole == []) || ZeroExponent(l))
  {
    var w := l.whole + FractionText(l) + ExponentText(l);
    if l.whole == [] {
      assert w[0] == DOT;
    } else {
      assert w[0] == l.whole[0];
      if |l.whole| > 1 { assert w[1] == l.whole[1]; }
    }
  }

  lemma XIsRefused(w: bytes)
    ensures IsDecimal(w) ==> NoX(w)
  {
  }

  lemma BehindSign(l: Literal)
    requires !Hex(l)
    ensures Spelling(l) == Sign(l) + (l.whole + FractionText(l) + ExponentText(l))
    ensures Sign(l) == if l.minus then [MINUS] else []
  {
    hide FractionText, ExponentText;
  }

  lemma AcceptedIff(l: Literal)
    requires IsLiteral(l) && (l.whole == [] ==> l.minus || Hex(l))
    ensures Accepted(l) <==> !Hex(l) && (IsNatural(l.whole) || l.whole == []) && !ZeroExponent(l)
  {
  }

  /** What is_decimal lets pass of the numbers strtod converts. */
  lemma DecimalIff(l: Literal)
    requires IsLiteral(l) && (l.whole == [] ==> l.minus || Hex(l))
    ensures IsDecimal(Spelling(l)) <==> Accepted(l)
  {
    hide *;
    NoXInNumber(l);
    AcceptedIff(l);
    if Hex(l) {
      XIsRefused(Spelling(l));
    } else {
      var w := l.whole + FractionText(l) + ExponentText(l);
      LeadingZeroIff(l);
      NoXIn(Sign(l), w);
      BehindSign(l);
      IsDecimalWithout(l.minus, w);
    }
  }

  lemma SpellsNumber(s: bytes, i: nat, l: Literal)
    requires Accepted(l) && Occurs(s, i, Spelling(l))
    ensures Spelling(l) != [] && (At(s, i) == MINUS || IsDigit(At(s, i)))
  {
    OccursAt(s, i, Spelling(l), 0);
    assert Spelling(l)[0] == if l.minus then MINUS else l.whole[0];
  }

  /** parse_number_value on a number of the expected form that is not the beginning of a longer one. */
  lemma LiteralIsParsed(s: bytes, i: nat, l: Literal, n: ExactInt)
    requires IsLiteral(l) && Occurs(s, i, Spelling(l)) && !Continues(s, i + |Spelling(l)|, l)
    requires l.whole == [] ==> l.minus || Hex(l)
    ensures i <= |s|
    ensures ParseNumber(s, i) == Ok(Number(n), i + |Spelling(l)|) <==> Accepted(l) && Worth(l, n)
    ensures ParseNumber(s, i) == Err <==> !Accepted(l)
  {
    hide *;
    OccursSlice(s, i, Spelling(l));
    LiteralEndsIff(s, i, l);
    R.ParsedNumber(s, i);
    ExactValueIff(l, n);
    DecimalIff(l);
  }

  /** parse_number_value reads on exactly over the numbers of the grammar, to their end. */
  lemma NumberIff(s: bytes, i: nat, j: nat, n: ExactInt)
    requires At(s, i) == MINUS || IsDigit(At(s, i))
    ensures ParseNumber(s, i) == Ok(Number(n), j) && i < j <==> NumberAt(s, i, j, n)
  {
    hide *;
    InText(s, i);
    if NumberAt(s, i, j, n) {
      var l := NumberAtIs(s, i, j, n);
      LiteralIsParsed(s, i, l, n);
    }
    if ParseNumber(s, i) == Ok(Number(n), j) && i < j {
      var l := NumberFoundIs(s, i);
      R.ParsedNumber(s, i);
      LiteralIsParsed(s, i, l, n);
      NumberStands(s, i, j, n, l);
    }
  }

  lemma NumberAtIs(s: bytes, i: nat, j: nat, n: ExactInt) returns (l: Literal)
    requires NumberAt(s, i, j, n)
    ensures IsLiteral(l) && Accepted(l) && Worth(l, n) && Occurs(s, i, Spelling(l)) && !Continues(s, j, l)
    ensures j == i + |Spelling(l)| && i < j && (l.whole == [] ==> l.minus || Hex(l))
    ensures At(s, i) == MINUS || IsDigit(At(s, i))
  {
    l :| LiteralAt(s, i, j, l) && Accepted(l) && Worth(l, n) && !Continues(s, j, l);
    SpellsNumber(s, i, l);
    hide Occurs, Spelling, Worth, Continues, IsNatural, ZeroExponent;
  }

  lemma NumberStands(s: bytes, i: nat, j: nat, n: ExactInt, l: Literal)
    requires Accepted(l) && Worth(l, n) && Occurs(s, i, Spelling(l)) && !Continues(s, j, l) && j == i + |Spelling(l)|
    ensures NumberAt(s, i, j, n)
  {
    LiteralStands(s, i, j, l);
    hide Occurs, Spelling, Worth, Accepted, Continues;
  }

  lemma NumberFoundIs(s: bytes, i: nat) returns (l: Literal)
    requires (At(s, i) == MINUS || IsDigit(At(s, i))) && i < |s|
    requires ParseNumber(s, i).Ok? && i < ParseNumber(s, i).next
    ensures NumeralAt(s, FirstDigit(s, i)) && l == Scan(s, i).0 && i + |Spelling(l)| == Scan(s, i).1
    ensures IsLiteral(l) && Occurs(s, i, Spelling(l)) && !Continues(s, i + |Spelling(l)|, l)
    ensures l.whole == [] ==> l.minus || Hex(l)
  {
    hide *;
    NumeralRead(s, i);
    l := Scan(s, i).0;
    ScanIsLiteral(s, i);
    ScanStands(s, i);
    WholeOrMinus(s, i);
  }

  lemma NumeralRead(s: bytes, i: nat)
    requires i <= |s| && ParseNumber(s, i).Ok? && i < ParseNumber(s, i).next
    ensures NumeralAt(s, FirstDigit(s, i))
  {
  }

  lemma WholeOrMinus(s: bytes, i: nat)
    requires (At(s, i) == MINUS || IsDigit(At(s, i))) && NumeralAt(s, FirstDigit(s, i))
    ensures var l := Scan(s, i).0; l.whole == [] ==> l.minus || Hex(l)
  {
    var first := FirstDigit(s, i);
    if first == i && !HexAt(s, i) { assert i < SkipDigits(s, i, false); }
  }

  lemma InText(s: bytes, i: nat)
    requires At(s, i) == MINUS || IsDigit(At(s, i))
    ensures i < |s|
  {
  }

  /** Where it stays, there is a '-' with no number behind it, and the value is 0. */
  lemma BareMinusIff(s: bytes, i: nat, n: ExactInt)
    requires At(s, i) == MINUS || IsDigit(At(s, i))
    ensures ParseNumber(s, i) == Ok(Number(n), i) <==> BareMinus(s, i) && n == 0
  {
    if NumeralAt(s, FirstDigit(s, i)) { ScanStands(s, i); }
    assert s[i..i] == [];
    hide Scan, Occurs, Spelling, WordAt;
  }

  /** Of the numbers of the RFC, where no longer one stands, a lone zero with an exponent is refused, and every
      other one that is worth an integer the model holds is read up to its end. */
  lemma RfcNumberRead(s: bytes, i: nat, l: Literal, n: ExactInt)
    requires IsRfcNumber(l) && Occurs(s, i, Spelling(l)) && !Continues(s, i + |Spelling(l)|, l)
    ensures i <= |s|
    ensures ZeroExponent(l) ==> ParseNumber(s, i) == Err
    ensures Worth(l, n) && !ZeroExponent(l) ==> ParseNumber(s, i) == Ok(Number(n), i + |Spelling(l)|)
  {
    RfcIsAccepted(l);
    LiteralIsParsed(s, i, l, n);
    hide *;
  }

  lemma RfcIsAccepted(l: Literal)
    requires IsRfcNumber(l)
    ensures IsLiteral(l) && l.whole != [] && (Accepted(l) <==> !ZeroExponent(l))
  {
  }

  /** What is refused, among the texts the model answers for (a number outside the range of a double, for which
      errno is set, is Foreign): infinity, NaN, or a number of the expected form that this language does not have. */
  lemma RefusedIff(s: bytes, i: nat)
    requires (At(s, i) == MINUS || IsDigit(At(s, i))) && !ParseNumber(s, i).Foreign?
    ensures ParseNumber(s, i) == Err <==>
              (At(s, i) == MINUS && (WordAt(s, i + 1, INF) || WordAt(s, i + 1, NAN))) ||
              (exists l: Literal, j: nat ::
                 LiteralAt(s, i, j, l) && IsLiteral(l) && !Accepted(l) && !Continues(s, j, l))
  {
    hide Occurs, Spelling, Scan, WordAt, IsLiteral, Accepted, Continues;
    if NumeralAt(s, FirstDigit(s, i)) {
      RefusedLiteral(s, i);
    } else {
      assert s[i..i] == [];
      forall l: Literal, j: nat | LiteralAt(s, i, j, l) && IsLiteral(l) && !Continues(s, j, l) ensures false {
        OnlyLiteral(s, i, j, l);
      }
    }
  }

  lemma NoWordThere(s: bytes, i: nat)
    requires NumeralAt(s, i)
    ensures !WordAt(s, i, INF) && !WordAt(s, i, NAN)
  {
    assert ToLower(At(s, i + 0)) != INF[0] && ToLower(At(s, i + 0)) != NAN[0];
  }

  lemma RefusedLiteral(s: bytes, i: nat)
    requires (At(s, i) == MINUS || IsDigit(At(s, i))) && NumeralAt(s, FirstDigit(s, i))
    ensures At(s, i) == MINUS ==> !WordAt(s, i + 1, INF) && !WordAt(s, i + 1, NAN)
    ensures ParseNumber(s, i) == Err <==>
              exists l: Literal, j: nat :: LiteralAt(s, i, j, l) && IsLiteral(l) && !Accepted(l) && !Continues(s, j, l)
  {
    hide *;
    NoWordBehind(s, i);
    ScanIsLiteral(s, i);
    ScanStands(s, i);
    WholeOrMinus(s, i);
    var (r, end) := Scan(s, i);
    LiteralStands(s, i, end, r);
    LiteralIsRefused(s, i, r);
    forall l: Literal, j: nat | LiteralAt(s, i, j, l) && IsLiteral(l) && !Continues(s, j, l) ensures l == r {
      OnlyLiteral(s, i, j, l);
    }
  }

  lemma LiteralIsRefused(s: bytes, i: nat, l: Literal)
    requires IsLiteral(l) && Occurs(s, i, Spelling(l)) && !Continues(s, i + |Spelling(l)|, l)
    requires l.whole == [] ==> l.minus || Hex(l)
    ensures i <= |s| && (ParseNumber(s, i) == Err <==> !Accepted(l))
  {
    LiteralIsParsed(s, i, l, 0);
    hide IsLiteral, Occurs, Spelling, Continues, Accepted, ParseNumber;
  }

  lemma NoWordBehind(s: bytes, i: nat)
    requires NumeralAt(s, FirstDigit(s, i))
    ensures At(s, i) == MINUS ==> !WordAt(s, i + 1, INF) && !WordAt(s, i + 1, NAN)
  {
    NoWordThere(s, FirstDigit(s, i));
    hide WordAt, NumeralAt;
  }

  lemma LiteralStands(s: bytes, i: nat, j: nat, l: Literal)
    requires Occurs(s, i, Spelling(l)) && j == i + |Spelling(l)|
    ensures LiteralAt(s, i, j, l)
  {
  }

  lemma OnlyLiteral(s: bytes, i: nat, j: nat, l: Literal)
    requires LiteralAt(s, i, j, l) && IsLiteral(l) && !Continues(s, j, l)
    ensures NumeralAt(s, FirstDigit(s, i)) && l == Scan(s, i).0
  {
    hide Occurs, Spelling, IsLiteral, Continues, Scan;
    LiteralEndsIff(s, i, l);
  }

  // ----- strings -----

  /** One step of process_string is one character of the grammar. */
  lemma CharIff(s: bytes, i: nat, next: nat, text: bytes)
    ensures CharAt(s, i, next, text) <==> At(s, i) != QUOTE && UnescapeUnit(s, i) == Emit(text, next)
  {
    if EscapeAt(s, i) {
      UnicodeIff(s, i, next, text);
    } else {
      assert !UnicodeAt(s, i, next, text);
    }
    hide UnicodeAt, Utf16Unit;
  }

  lemma UnicodeIff(s: bytes, i: nat, next: nat, text: bytes)
    requires EscapeAt(s, i)
    ensures UnicodeAt(s, i, next, text) <==> UnescapeUnit(s, i) == Emit(text, next)
  {
    hide UnescapeUnit, Spells, Utf16, Encode;
    if UnicodeAt(s, i, next, text) {
      var cp: nat :| IsScalar(cp) && Spells(s, i, cp) && next == i + 6 * |Utf16(cp)| && text == Encode(cp);
      SpelledIsWritten(s, i, cp);
    }
    if UnescapeUnit(s, i) == Emit(text, next) {
      var cp := WrittenIsSpelled(s, i);
      SpelledIsWritten(s, i, cp);
    }
  }

  lemma FirstCharOf(s: bytes, i: nat, j: nat, t: bytes) returns (next: nat, text: bytes)
    requires i < j && CharsAt(s, i, j, t)
    ensures i < next <= j && text <= t && CharAt(s, i, next, text) && CharsAt(s, next, j, t[|text|..])
  {
    next, text :| i < next <= j && text <= t && CharAt(s, i, next, text) && CharsAt(s, next, j, t[|text|..]);
  }

  lemma NoCharsRead(s: bytes, i: nat, t: bytes)
    requires CharsAt(s, i, i, t) && At(s, i) == QUOTE
    ensures ClosingQuote(s, i) == Some(i) && Unescape(s, i, i) == Some(t)
  {
  }

  lemma {:induction false} CharsAreRead(s: bytes, i: nat, j: nat, t: bytes)
    requires i <= j && CharsAt(s, i, j, t) && At(s, j) == QUOTE
    ensures ClosingQuote(s, i) == Some(j) && Unescape(s, i, j) == Some(t)
    decreases j - i
  {
    hide *;
    if i == j {
      NoCharsRead(s, i, t);
    } else {
      var next, text := FirstCharOf(s, i, j, t);
      CharIff(s, i, next, text);
      CharsAreRead(s, next, j, t[|text|..]);
      OneCharRead(s, i, next, j, text, t[|text|..]);
      assert text + t[|text|..] == t;
    }
  }

  lemma OneCharRead(s: bytes, i: nat, next: nat, j: nat, text: bytes, rest: bytes)
    requires At(s, i) != QUOTE && UnescapeUnit(s, i) == Emit(text, next) && i < next <= j
    requires ClosingQuote(s, next) == Some(j) && Unescape(s, next, j) == Some(rest)
    ensures ClosingQuote(s, i) == Some(j) && Unescape(s, i, j) == Some(text + rest)
  {
    assert At(s, i) != NUL;
    UnitInStep(s, i);
    StopsSameQuote(s, i, next);
    UnescapeStep(s, i, j);
    hide ClosingQuote, Unescape, UnescapeUnit, StopsAt;
  }

  lemma {:induction false} CharsWereThere(s: bytes, i: nat, j: nat, t: bytes)
    requires ClosingQuote(s, i) == Some(j) && Unescape(s, i, j) == Some(t)
    ensures i <= j && CharsAt(s, i, j, t)
    decreases j - i
  {
    if i == j {
      AtEnd(s, i, j);
    } else {
      NotAtQuote(s, i, j);
      assert At(s, i) != NUL;
      UnescapeStep(s, i, j);
      hide Unescape, ClosingQuote, UnescapeUnit;
      var u := UnescapeUnit(s, i);
      var rest := Unescape(s, u.next, j).value;
      CharIff(s, i, u.next, u.text);
      CharsWereThere(s, u.next, j, rest);
      assert t == u.text + rest && t[|u.text|..] == rest;
    }
  }

  lemma QuotedIs(s: bytes, i: nat, j: nat, t: bytes)
    ensures QuotedString(s, i) == Some((t, j)) <==>
              At(s, i) == QUOTE && j > i + 1 && ClosingQuote(s, i + 1) == Some(j - 1) &&
              Unescape(s, i + 1, j - 1) == Some(t)
  {
    hide Unescape, UnescapeUnit;
  }

  lemma StringIs(s: bytes, i: nat, j: nat, t: bytes)
    ensures StringAt(s, i, j, t) <==>
              At(s, i) == QUOTE && i + 2 <= j <= |s| && At(s, j - 1) == QUOTE && CharsAt(s, i + 1, j - 1, t)
  {
    hide CharsAt;
  }

  /** get_quoted_string reads a string of the grammar, and nothing else. */
  lemma StringIff(s: bytes, i: nat, j: nat, t: bytes)
    ensures QuotedString(s, i) == Some((t, j)) <==> StringAt(s, i, j, t)
  {
    hide *;
    QuotedIs(s, i, j, t);
    StringIs(s, i, j, t);
    if StringAt(s, i, j, t) {
      CharsAreRead(s, i + 1, j - 1, t);
    }
    if QuotedString(s, i) == Some((t, j)) {
      QuoteInText(s, i + 1, j - 1);
      CharsWereThere(s, i + 1, j - 1, t);
    }
  }

  // ----- white space and tokens -----

  /** isspace accepts the white space of the grammar and nothing else. */
  lemma WhiteIff(c: byte)
    ensures IsSpace(c) <==> IsWhite(c)
  {
  }

  /** The end of the white space is where something else begins. */
  lemma {:induction false} SpaceIsSkipped(s: bytes, p: nat, a: nat)
    requires SpaceAt(s, p, a) && !IsSpace(At(s, a))
    ensures SkipSpaces(s, p) == a
    decreases a - p
  {
    if p < a { SpaceIsSkipped(s, p + 1, a); }
  }

  lemma {:induction false} SkippedIsSpace(s: bytes, p: nat)
    requires p <= |s|
    ensures SpaceAt(s, p, SkipSpaces(s, p))
    decreases |s| - p
  {
    if p < |s| && IsSpace(s[p]) { SkippedIsSpace(s, p + 1); }
  }

  /** A value begins with a byte that tells its kind. */
  predicate StartsKind(c: byte, v: Value) {
    match v
    case Null => c == 0x6E
    case Boolean(_) => c == 0x74 || c == 0x66
    case Number(_) => c == MINUS || IsDigit(c)
    case Str(_) => c == QUOTE
    case Array(_) => c == LBRACKET
    case Object(_) => c == LBRACE
  }

  lemma ValueStarts(s: bytes, i: nat, j: nat, v: Value)
    requires ValueAt(s, i, j, v)
    ensures i < j <= |s| && StartsKind(s[i], v) && !IsSpace(s[i]) && s[i] != NUL
  {
    if v.Number? { var l := NumberAtIs(s, i, j, v.n); }
    TokensSpelled();
    if v.Null? { OccursAt(s, i, T.NULL_TOKEN, 0); }
    if v.Boolean? { OccursAt(s, i, if v.b then T.TRUE_TOKEN else T.FALSE_TOKEN, 0); }
    hide ItemsAt, MembersAt, StringAt, NumberAt;
  }

  lemma TokensSpelled()
    ensures T.NULL_TOKEN == Ascii("null") && T.TRUE_TOKEN == Ascii("true") && T.FALSE_TOKEN == Ascii("false")
  {
  }

  lemma TokensIff(s: bytes, i: nat, j: nat)
    ensures ParseNull(s, i) == Ok(Null, j) <==> ValueAt(s, i, j, Null)
    ensures forall b :: ParseBoolean(s, i) == Ok(Boolean(b), j) <==> ValueAt(s, i, j, Boolean(b))
  {
    TokensSpelled();
    OccursSlice(s, i, T.NULL_TOKEN);
    OccursSlice(s, i, T.TRUE_TOKEN);
    OccursSlice(s, i, T.FALSE_TOKEN);
    if Occurs(s, i, T.TRUE_TOKEN) && Occurs(s, i, T.FALSE_TOKEN) {
      OccursAt(s, i, T.TRUE_TOKEN, 0);
      OccursAt(s, i, T.FALSE_TOKEN, 0);
      assert false;
    }
    hide Occurs;
  }

  lemma KeyOf(s: bytes, a: nat, b: nat, name: Name)
    requires QuotedString(s, a) == Some((name, b))
    ensures ParseKey(s, a) == if At(s, SkipSpaces(s, b)) == COLON then Some((name, SkipSpaces(s, b) + 1)) else None
  {
  }

  lemma KeyHasString(s: bytes, a: nat, c: nat, name: Name) returns (b: nat)
    requires ParseKey(s, a) == Some((name, c))
    ensures QuotedString(s, a) == Some((name, b)) && b <= |s|
    ensures SkipSpaces(s, b) + 1 == c && At(s, c - 1) == COLON
  {
    b := QuotedString(s, a).value.1;
  }

  lemma KeyParts(s: bytes, p: nat, c: nat, name: Name) returns (a: nat, b: nat)
    requires KeyAt(s, p, c, name)
    ensures c > 0 && At(s, c - 1) == COLON && SpaceAt(s, p, a) && StringAt(s, a, b, name) && SpaceAt(s, b, c - 1)
    ensures !IsSpace(At(s, a)) && !IsSpace(COLON)
  {
    a, b :| SpaceAt(s, p, a) && StringAt(s, a, b, name) && SpaceAt(s, b, c - 1);
    hide CharsAt;
  }

  lemma KeyStands(s: bytes, p: nat, a: nat, b: nat, c: nat, name: Name)
    requires c > 0 && At(s, c - 1) == COLON && SpaceAt(s, p, a) && StringAt(s, a, b, name) && SpaceAt(s, b, c - 1)
    ensures KeyAt(s, p, c, name)
  {
    hide SpaceAt, StringAt;
  }

  /** The key of a member, read from its first byte, ends behind its colon. */
  lemma KeyIff(s: bytes, p: nat, c: nat, name: Name)
    requires p <= |s|
    ensures ParseKey(s, SkipSpaces(s, p)) == Some((name, c)) <==> KeyAt(s, p, c, name)
  {
    hide *;
    if KeyAt(s, p, c, name) {
      var a, b := KeyParts(s, p, c, name);
      StringIff(s, a, b, name);
      SpaceIsSkipped(s, p, a);
      SpaceIsSkipped(s, b, c - 1);
      KeyOf(s, a, b, name);
    }
    if ParseKey(s, SkipSpaces(s, p)) == Some((name, c)) {
      var a := SkipSpaces(s, p);
      var b := KeyHasString(s, a, c, name);
      SkippedIsSpace(s, p);
      StringIff(s, a, b, name);
      SkippedIsSpace(s, b);
      KeyStands(s, p, a, b, c, name);
    }
  }

  // ----- every value of the grammar is read -----

  lemma {:induction false} ValueIsRead(s: bytes, start: nat, i: nat, j: nat, v: Value, nesting: nat)
    requires SpaceAt(s, start, i) && ValueAt(s, i, j, v) && NestsFrom(v, nesting)
    ensures ParseValue(s, start, nesting) == Ok(v, j)
    decreases v, 1
  {
    ValueStarts(s, i, j, v);
    SpaceIsSkipped(s, start, i);
    Dispatch(s, start, nesting);
    match v
    case Null => TokensIff(s, i, j);
    case Boolean(b) => TokensIff(s, i, j);
    case Number(n) => NumberIff(s, i, j, n);
    case Str(t) => StringIff(s, i, j, t);
    case Array(items) => ArrayIsRead(s, i, j, items, nesting + 1);
    case Object(ms) => ObjectIsRead(s, i, j, ms, nesting + 1);
  }

  /** Which function reads on, by the first byte that is no white space. */
  lemma Dispatch(s: bytes, start: nat, nesting: nat)
    requires nesting <= MAX_NESTING
    ensures var i, r := SkipSpaces(s, start), ParseValue(s, start, nesting);
            && (At(s, i) == LBRACE ==> r == ParseObject(s, i, nesting + 1))
            && (At(s, i) == LBRACKET ==> r == ParseArray(s, i, nesting + 1))
            && (At(s, i) == QUOTE ==> r == ParseString(s, i))
            && (At(s, i) == 0x66 || At(s, i) == 0x74 ==> r == ParseBoolean(s, i))
            && (At(s, i) == MINUS || IsDigit(At(s, i)) ==> r == ParseNumber(s, i))
            && (At(s, i) == 0x6E ==> r == ParseNull(s, i))
            && (r.Ok? ==> At(s, i) in {LBRACE, LBRACKET, QUOTE, 0x66, 0x74, MINUS, 0x6E} || IsDigit(At(s, i)))
  {
  }

  lemma {:induction false} ArrayIsRead(s: bytes, i: nat, j: nat, items: seq<Value>, nesting: nat)
    requires ValueAt(s, i, j, Array(items)) && forall k :: 0 <= k < |items| ==> NestsFrom(items[k], nesting)
    ensures At(s, i) == LBRACKET && ParseArray(s, i, nesting) == Ok(Array(items), j)
    decreases items, |items| + 1
  {
    hide ParseItems, SkipSpaces, SpaceAt, ItemsAt, NestsFrom;
    if items == [] {
      SpaceIsSkipped(s, i + 1, j - 1);
    } else {
      ItemsStart(s, i + 1, j - 1, items, 0);
      ItemsAreRead(s, i + 1, j - 1, items, 0, nesting);
      assert items[..0] == [];
    }
  }

  /** The first item is found behind the white space, and is no closing bracket. */
  lemma ItemsStart(s: bytes, p: nat, q: nat, items: seq<Value>, k: nat)
    requires k < |items| && ItemsAt(s, p, q, items, k)
    ensures !(At(s, SkipSpaces(s, p)) in {RBRACKET, NUL})
  {
    var a: nat, b: nat, c: nat :| SpaceAt(s, p, a) && ValueAt(s, a, b, items[k]) && SpaceAt(s, b, c);
    ValueStarts(s, a, b, items[k]);
    SpaceIsSkipped(s, p, a);
    hide ValueAt, SpaceAt, SkipSpaces;
  }

  /** Where item k stands (a to b), and where the cursor rests behind it (c). */
  lemma ItemParts(s: bytes, p: nat, q: nat, items: seq<Value>, k: nat) returns (a: nat, b: nat, c: nat)
    requires k < |items| && ItemsAt(s, p, q, items, k) && At(s, q) == RBRACKET
    ensures SkipSpaces(s, p) == a && At(s, a) != NUL && SpaceAt(s, a, a)
    ensures ValueAt(s, a, b, items[k]) && SkipSpaces(s, b) == c
    ensures if k + 1 == |items| then c == q && At(s, c) != COMMA
            else At(s, c) == COMMA && ItemsAt(s, c + 1, q, items, k + 1)
  {
    a, b, c :| SpaceAt(s, p, a) && ValueAt(s, a, b, items[k]) && SpaceAt(s, b, c) &&
      if k + 1 == |items| then c == q else At(s, c) == COMMA && ItemsAt(s, c + 1, q, items, k + 1);
    ValueStarts(s, a, b, items[k]);
    SpaceIsSkipped(s, p, a);
    SpaceIsSkipped(s, b, c);
    hide ItemsAt, ValueAt, SkipSpaces;
  }

  lemma {:induction false} ItemsAreRead(s: bytes, p: nat, q: nat, items: seq<Value>, k: nat, nesting: nat)
    requires k < |items| && ItemsAt(s, p, q, items, k) && At(s, q) == RBRACKET
    requires forall m :: 0 <= m < |items| ==> NestsFrom(items[m], nesting)
    ensures ParseItems(s, SkipSpaces(s, p), nesting, items[..k]) == Ok(items, q)
    decreases items, |items| - k
  {
    hide *;
    var a, b, c := ItemParts(s, p, q, items, k);
    ValueIsRead(s, a, a, b, items[k], nesting);
    R.ItemsStep(s, a, nesting, items[..k], items[k], b);
    assert items[..k] + [items[k]] == items[..k + 1];
    if k + 1 < |items| {
      ItemsAreRead(s, c + 1, q, items, k + 1, nesting);
    } else {
      assert items[..k + 1] == items;
    }
  }

  lemma {:induction false} ObjectIsRead(s: bytes, i: nat, j: nat, ms: seq<Member>, nesting: nat)
    requires ValueAt(s, i, j, Object(ms)) && forall k :: 0 <= k < |ms| ==> NestsFrom(ms[k].value, nesting)
    ensures At(s, i) == LBRACE && ParseObject(s, i, nesting) == Ok(Object(ms), j)
    decreases ms, |ms| + 1
  {
    hide ParseMembers, SkipSpaces, SpaceAt, MembersAt, NestsFrom, DistinctNames;
    if ms == [] {
      SpaceIsSkipped(s, i + 1, j - 1);
    } else {
      MembersStart(s, i + 1, j - 1, ms, 0);
      MembersAreRead(s, i + 1, j - 1, ms, 0, nesting);
      assert ms[..0] == [];
    }
  }

  lemma MembersStart(s: bytes, p: nat, q: nat, ms: seq<Member>, k: nat)
    requires k < |ms| && MembersAt(s, p, q, ms, k)
    ensures At(s, SkipSpaces(s, p)) == QUOTE && At(s, SkipSpaces(s, p)) != NUL
  {
    var c: nat, d: nat :| KeyAt(s, p, c, ms[k].name) && SpaceAt(s, c, d);
    var a: nat, b: nat :| SpaceAt(s, p, a) && StringAt(s, a, b, ms[k].name);
    SpaceIsSkipped(s, p, a);
    hide SpaceAt, SkipSpaces, CharsAt;
  }

  /** Where the colon of member k ends (c), where its value stands (d to e), and where the cursor rests
      behind it (f). */
  lemma MemberParts(s: bytes, p: nat, q: nat, ms: seq<Member>, k: nat) returns (c: nat, d: nat, e: nat, f: nat)
    requires k < |ms| && MembersAt(s, p, q, ms, k) && At(s, q) == RBRACE
    ensures ParseKey(s, SkipSpaces(s, p)) == Some((ms[k].name, c))
    ensures SpaceAt(s, c, d) && ValueAt(s, d, e, ms[k].value) && SkipSpaces(s, e) == f
    ensures if k + 1 == |ms| then f == q && At(s, f) != COMMA
            else At(s, f) == COMMA && MembersAt(s, f + 1, q, ms, k + 1)
  {
    c, d, e, f :|
      KeyAt(s, p, c, ms[k].name) && SpaceAt(s, c, d) && ValueAt(s, d, e, ms[k].value) && SpaceAt(s, e, f) &&
      if k + 1 == |ms| then f == q else At(s, f) == COMMA && MembersAt(s, f + 1, q, ms, k + 1);
    KeyInText(s, p, c, ms[k].name);
    KeyIff(s, p, c, ms[k].name);
    SpaceIsSkipped(s, e, f);
    hide MembersAt, ValueAt, SkipSpaces, KeyAt, ParseKey;
  }

  /** One turn of the member loop on member k. */
  lemma {:induction false} MemberIsRead(s: bytes, p: nat, q: nat, ms: seq<Member>, k: nat, nesting: nat)
    returns (f: nat)
    requires k < |ms| && MembersAt(s, p, q, ms, k) && At(s, q) == RBRACE && DistinctNames(ms)
    requires NestsFrom(ms[k].value, nesting)
    ensures k + 1 == |ms| ==> ParseMembers(s, SkipSpaces(s, p), nesting, ms[..k]) == Ok(ms[..k + 1], q)
    ensures k + 1 < |ms| ==>
              MembersAt(s, f + 1, q, ms, k + 1) &&
              ParseMembers(s, SkipSpaces(s, p), nesting, ms[..k])
                == ParseMembers(s, SkipSpaces(s, f + 1), nesting, ms[..k + 1])
    decreases ms, |ms| - k, 0
  {
    hide *;
    MembersStart(s, p, q, ms, k);
    var c, d, e, f' := MemberParts(s, p, q, ms, k);
    f := f';
    ValueIsRead(s, c, d, e, ms[k].value, nesting);
    MemberTurn(s, SkipSpaces(s, p), nesting, ms, k, c, e);
  }

  lemma {:induction false} MembersAreRead(s: bytes, p: nat, q: nat, ms: seq<Member>, k: nat, nesting: nat)
    requires k < |ms| && MembersAt(s, p, q, ms, k) && At(s, q) == RBRACE && DistinctNames(ms)
    requires forall m :: 0 <= m < |ms| ==> NestsFrom(ms[m].value, nesting)
    ensures ParseMembers(s, SkipSpaces(s, p), nesting, ms[..k]) == Ok(ms, q)
    decreases ms, |ms| - k, 1
  {
    hide *;
    var f := MemberIsRead(s, p, q, ms, k, nesting);
    if k + 1 < |ms| {
      MembersAreRead(s, f + 1, q, ms, k + 1, nesting);
    } else {
      assert ms[..k + 1] == ms;
    }
  }

  lemma MemberTurn(s: bytes, a: nat, nesting: nat, ms: seq<Member>, k: nat, c: nat, e: nat)
    requires k < |ms| && DistinctNames(ms) && At(s, a) != NUL
    requires ParseKey(s, a) == Some((ms[k].name, c)) && ParseValue(s, c, nesting) == Ok(ms[k].value, e)
    ensures var f := SkipSpaces(s, e);
            ParseMembers(s, a, nesting, ms[..k]) ==
              if At(s, f) != COMMA then Ok(ms[..k + 1], f)
              else ParseMembers(s, SkipSpaces(s, f + 1), nesting, ms[..k + 1])
  {
    hide ParseMembers, ParseValue, ParseKey, SkipSpaces;
    R.NewName(ms, k);
    hide DistinctNames, Lookup;
    R.MembersStep(s, a, nesting, ms[..k], ms[k].name, c, ms[k].value, e);
    var m := ms[k];
    assert m == Member(m.name, m.value);
    assert ms[..k] + [m] == ms[..k + 1];
  }

  lemma KeyInText(s: bytes, p: nat, c: nat, name: Name)
    requires KeyAt(s, p, c, name)
    ensures p <= |s|
  {
  }

  // ----- and nothing else -----

  /** What a value was read from: a value of the grammar, or a bare minus sign. */
  lemma {:induction false} ValueWasThere(s: bytes, start: nat, nesting: nat, v: Value, j: nat)
    requires start <= |s| && ParseValue(s, start, nesting) == Ok(v, j)
    ensures var i := SkipSpaces(s, start); ValueAt(s, i, j, v) || (BareMinus(s, i) && j == i && v == Number(0))
    decreases |s| - start, 2
  {
    var i := SkipSpaces(s, start);
    Dispatch(s, start, nesting);
    if At(s, i) == LBRACE {
      ObjectWasThere(s, i, nesting + 1, v, j);
    } else if At(s, i) == LBRACKET {
      ArrayWasThere(s, i, nesting + 1, v, j);
    } else if At(s, i) == QUOTE {
      StringIff(s, i, j, v.chars);
    } else if At(s, i) == MINUS || IsDigit(At(s, i)) {
      NumberFound(s, i, v, j);
    } else {
      TokensIff(s, i, j);
    }
    hide ParseValue, SkipSpaces, ValueAt, ParseNumber, QuotedString, StringAt;
  }

  lemma NumberFound(s: bytes, i: nat, v: Value, j: nat)
    requires (At(s, i) == MINUS || IsDigit(At(s, i))) && ParseNumber(s, i) == Ok(v, j)
    ensures ValueAt(s, i, j, v) || (BareMinus(s, i) && j == i && v == Number(0))
  {
    if i < j { NumberIff(s, i, j, v.n); } else { BareMinusIff(s, i, v.n); }
    hide NumberAt;
  }

  lemma {:induction false} ArrayWasThere(s: bytes, i: nat, nesting: nat, v: Value, j: nat)
    requires At(s, i) == LBRACKET && ParseArray(s, i, nesting) == Ok(v, j)
    ensures ValueAt(s, i, j, v)
    decreases |s| - i, 1
  {
    hide *;
    ArrayFound(s, i, nesting, v, j);
    SkippedIsSpace(s, i + 1);
    if v.items != [] {
      ItemsWereThere(s, i + 1, nesting, [], v.items, j - 1);
    }
    ArrayStands(s, i, j, v.items);
  }

  lemma ArrayFound(s: bytes, i: nat, nesting: nat, v: Value, j: nat)
    requires At(s, i) == LBRACKET && ParseArray(s, i, nesting) == Ok(v, j)
    ensures v.Array? && i + 2 <= j <= |s| && At(s, j - 1) == RBRACKET
    ensures if v.items == [] then SkipSpaces(s, i + 1) == j - 1
            else ParseItems(s, SkipSpaces(s, i + 1), nesting, []) == Ok(v.items, j - 1)
  {
    hide ParseItems;
  }

  lemma ArrayStands(s: bytes, i: nat, j: nat, items: seq<Value>)
    requires i + 2 <= j <= |s| && At(s, i) == LBRACKET && At(s, j - 1) == RBRACKET
    requires if items == [] then SpaceAt(s, i + 1, j - 1) else ItemsAt(s, i + 1, j - 1, items, 0)
    ensures ValueAt(s, i, j, Array(items))
  {
    hide SpaceAt, ItemsAt;
  }

  /** The items read from p on, when the list turns out to be closed. */
  lemma {:induction false} ItemsWereThere(s: bytes, p: nat, nesting: nat, done: seq<Value>, items: seq<Value>, q: nat)
    requires p <= |s| && ParseItems(s, SkipSpaces(s, p), nesting, done) == Ok(items, q) && At(s, q) == RBRACKET
    ensures done < items && ItemsAt(s, p, q, items, |done|)
    decreases |s| - p, 3
  {
    hide *;
    var a := SkipSpaces(s, p);
    SkipSpacesTwice(s, p);
    ItemFound(s, a, nesting, done, items, q);
    var r := ParseValue(s, a, nesting);
    var b := r.next;
    var c := SkipSpaces(s, b);
    SkippedIsSpace(s, p);
    SkippedIsSpace(s, b);
    ValueWasThere(s, a, nesting, r.value, b);
    MinusIsNoEnd(s, a);
    assert ValueAt(s, a, b, r.value);
    if At(s, c) == COMMA {
      ItemsWereThere(s, c + 1, nesting, done + [r.value], items, q);
    }
    ItemStands(s, p, q, items, |done|, a, b, c);
  }

  lemma ItemStands(s: bytes, p: nat, q: nat, items: seq<Value>, k: nat, a: nat, b: nat, c: nat)
    requires k < |items| && SpaceAt(s, p, a) && ValueAt(s, a, b, items[k]) && SpaceAt(s, b, c)
    requires if k + 1 == |items| then c == q else At(s, c) == COMMA && ItemsAt(s, c + 1, q, items, k + 1)
    ensures ItemsAt(s, p, q, items, k)
  {
    hide SpaceAt, ValueAt;
  }

  /** Behind a bare minus sign stands the sign itself: neither a comma nor the end of a list. */
  lemma MinusIsNoEnd(s: bytes, a: nat)
    ensures BareMinus(s, a) ==> SkipSpaces(s, a) == a && !(At(s, a) in {COMMA, RBRACKET, RBRACE})
  {
  }

  lemma ItemFound(s: bytes, a: nat, nesting: nat, done: seq<Value>, items: seq<Value>, q: nat)
    requires a <= |s| && SkipSpaces(s, a) == a
    requires ParseItems(s, a, nesting, done) == Ok(items, q) && At(s, q) == RBRACKET
    ensures var r := ParseValue(s, a, nesting);
            r.Ok? && a <= r.next <= |s| &&
            var c := SkipSpaces(s, r.next);
            if At(s, c) == COMMA then
              a <= c < |s| && ParseItems(s, SkipSpaces(s, c + 1), nesting, done + [r.value]) == Ok(items, q)
            else items == done + [r.value] && q == c
  {
    hide ParseValue;
  }

  lemma {:induction false} ObjectWasThere(s: bytes, i: nat, nesting: nat, v: Value, j: nat)
    requires At(s, i) == LBRACE && ParseObject(s, i, nesting) == Ok(v, j)
    ensures ValueAt(s, i, j, v)
    decreases |s| - i, 1
  {
    hide *;
    ObjectFound(s, i, nesting, v, j);
    SkippedIsSpace(s, i + 1);
    NoNames();
    if v.members != [] {
      MembersWereThere(s, i + 1, nesting, [], v.members, j - 1);
    }
    ObjectStands(s, i, j, v.members);
  }

  lemma NoNames()
    ensures DistinctNames([])
  {
  }

  lemma ObjectFound(s: bytes, i: nat, nesting: nat, v: Value, j: nat)
    requires At(s, i) == LBRACE && ParseObject(s, i, nesting) == Ok(v, j)
    ensures v.Object? && i + 2 <= j <= |s| && At(s, j - 1) == RBRACE
    ensures if v.members == [] then SkipSpaces(s, i + 1) == j - 1
            else ParseMembers(s, SkipSpaces(s, i + 1), nesting, []) == Ok(v.members, j - 1)
  {
    hide ParseMembers;
  }

  lemma ObjectStands(s: bytes, i: nat, j: nat, ms: seq<Member>)
    requires i + 2 <= j <= |s| && At(s, i) == LBRACE && At(s, j - 1) == RBRACE && DistinctNames(ms)
    requires if ms == [] then SpaceAt(s, i + 1, j - 1) else MembersAt(s, i + 1, j - 1, ms, 0)
    ensures ValueAt(s, i, j, Object(ms))
  {
    hide SpaceAt, MembersAt, DistinctNames;
  }

  lemma {:induction false} MembersWereThere(s: bytes, p: nat, nesting: nat, done: seq<Member>, ms: seq<Member>, q: nat)
    requires p <= |s| && ParseMembers(s, SkipSpaces(s, p), nesting, done) == Ok(ms, q) && At(s, q) == RBRACE
    requires DistinctNames(done)
    ensures done < ms && MembersAt(s, p, q, ms, |done|) && DistinctNames(ms)
    decreases |s| - p, 3
  {
    hide *;
    var a := SkipSpaces(s, p);
    SkipSpacesTwice(s, p);
    MemberFound(s, a, nesting, done, ms, q);
    var (name, c) := ParseKey(s, a).value;
    var r := ParseValue(s, c, nesting);
    var m := Member(name, r.value);
    var d, e, f := SkipSpaces(s, c), r.next, SkipSpaces(s, r.next);
    SkippedIsSpace(s, c);
    SkippedIsSpace(s, e);
    KeyIff(s, p, c, name);
    NewNameStaysDistinct(done, m);
    ValueWasThere(s, c, nesting, r.value, e);
    MinusIsNoEnd(s, d);
    assert ValueAt(s, d, e, r.value);
    if At(s, f) == COMMA {
      MembersWereThere(s, f + 1, nesting, done + [m], ms, q);
    }
    assert ms[|done|] == m;
    MemberStands(s, p, q, ms, |done|, c, d, e, f);
  }

  lemma MemberStands(s: bytes, p: nat, q: nat, ms: seq<Member>, k: nat, c: nat, d: nat, e: nat, f: nat)
    requires k < |ms| && KeyAt(s, p, c, ms[k].name) && SpaceAt(s, c, d) && ValueAt(s, d, e, ms[k].value) &&
              SpaceAt(s, e, f)
    requires if k + 1 == |ms| then f == q else At(s, f) == COMMA && MembersAt(s, f + 1, q, ms, k + 1)
    ensures MembersAt(s, p, q, ms, k)
  {
    hide SpaceAt, ValueAt, KeyAt;
  }

  lemma NewNameStaysDistinct(done: seq<Member>, m: Member)
    requires DistinctNames(done) && Lookup(done, m.name).None?
    ensures DistinctNames(done + [m])
  {
  }

  lemma MemberFound(s: bytes, a: nat, nesting: nat, done: seq<Member>, ms: seq<Member>, q: nat)
    requires a <= |s| && SkipSpaces(s, a) == a
    requires ParseMembers(s, a, nesting, done) == Ok(ms, q) && At(s, q) == RBRACE
    ensures ParseKey(s, a).Some?
    ensures var (name, c) := ParseKey(s, a).value;
            var r := ParseValue(s, c, nesting);
            a < c <= |s| && Lookup(done, name).None? && r.Ok? && c <= r.next <= |s| &&
            var f := SkipSpaces(s, r.next);
            if At(s, f) == COMMA then
              c <= f < |s| && ParseMembers(s, SkipSpaces(s, f + 1), nesting, done + [Member(name, r.value)]) ==
                  Ok(ms, q)
            else ms == done + [Member(name, r.value)] && q == f
  {
    hide ParseValue, ParseKey;
  }

  // ----- the theorem -----

  /** The parser answers v and stops at j exactly when, behind white space, the text from there to j spells
      v in the grammar and nests no deeper than the limit, or a bare minus sign stands there, v is 0 and the
      cursor stays on the sign. */
  lemma ParsesIff(s: bytes, start: nat, nesting: nat, v: Value, j: nat)
    requires start <= |s|
    ensures ParseValue(s, start, nesting) == Ok(v, j) <==> IsReading(s, start, nesting, v, j)
  {
    hide ParseValue, ValueAt, NestsFrom, BareMinus;
    if ParseValue(s, start, nesting) == Ok(v, j) {
      ValueWasThere(s, start, nesting, v, j);
      SkippedIsSpace(s, start);
      R.ParserProduces(s, start, nesting);
      NotTooDeep(v, nesting);
    }
    if NestsFrom(v, nesting) && ValueBehindSpace(s, start, j, v) {
      var i: nat :| SpaceAt(s, start, i) && ValueAt(s, i, j, v);
      ValueIsRead(s, start, i, j, v, nesting);
    }
    if nesting <= MAX_NESTING && SpaceAt(s, start, j) && BareMinus(s, j) {
      MinusIsNoSpace(s, j);
      SpaceIsSkipped(s, start, j);
      BareMinusRead(s, start, nesting);
    }
  }

  lemma MinusIsNoSpace(s: bytes, j: nat)
    ensures BareMinus(s, j) ==> !IsSpace(At(s, j))
  {
  }

  /** json_parse_string answers v and stops at j exactly when that is a reading of the text from its start, or
      from behind the byte order mark EF BB BF if it begins with one. */
  lemma TextIff(s: bytes, v: Value, j: nat)
    ensures Parse(s) == Ok(v, j) <==> IsReading(s, TextBegin(s), 0, v, j)
  {
    ParsesIff(s, 0, 0, v, j);
    if |s| >= 3 { ParsesIff(s, 3, 0, v, j); }
    hide ParseValue, IsReading;
  }

  // ----- where the model gives no answer -----

  /** A number of the grammar stands at k, no longer one, and it is not worth an integer the model holds. */
  ghost predicate ForeignNumberAt(s: bytes, k: nat) {
    exists l: Literal, j: nat ::
      LiteralAt(s, k, j, l) && Accepted(l) && !Continues(s, j, l) && forall n: ExactInt :: !Worth(l, n)
  }

  lemma ForeignNumber(s: bytes, k: nat)
    requires k <= |s| && (At(s, k) == MINUS || IsDigit(At(s, k))) && ParseNumber(s, k) == Foreign
    ensures ForeignNumberAt(s, k)
  {
    hide *;
    NumeralForeign(s, k);
    var (l, end) := Scan(s, k);
    ScanIsLiteral(s, k);
    ScanStands(s, k);
    WholeOrMinus(s, k);
    forall n: ExactInt ensures !Worth(l, n) {
      LiteralIsParsed(s, k, l, n);
    }
    LiteralIsRefused(s, k, l);
    ForeignStands(s, k, end, l);
  }

  lemma ForeignStands(s: bytes, k: nat, j: nat, l: Literal)
    requires Occurs(s, k, Spelling(l)) && j == k + |Spelling(l)| && Accepted(l) && !Continues(s, j, l)
    requires forall n: ExactInt :: !Worth(l, n)
    ensures ForeignNumberAt(s, k)
  {
    assert LiteralAt(s, k, j, l);
  }

  lemma NumeralForeign(s: bytes, k: nat)
    requires k <= |s| && ParseNumber(s, k) == Foreign
    ensures NumeralAt(s, FirstDigit(s, k))
  {
  }

  /** The parser model gives no answer only where it met such a number. */
  lemma {:induction false} ForeignValue(s: bytes, start: nat, nesting: nat) returns (k: nat)
    requires start <= |s| && ParseValue(s, start, nesting) == Foreign
    ensures start <= k && ForeignNumberAt(s, k)
    decreases |s| - start, 2
  {
    var i := SkipSpaces(s, start);
    ForeignDispatch(s, start, nesting);
    hide ParseValue, ForeignNumberAt, ParseNumber, ParseItems, ParseMembers, SkipSpaces;
    if At(s, i) == LBRACE {
      k := ForeignMembers(s, SkipSpaces(s, i + 1), nesting + 1, []);
    } else if At(s, i) == LBRACKET {
      k := ForeignItems(s, SkipSpaces(s, i + 1), nesting + 1, []);
    } else {
      k := i;
      ForeignNumber(s, i);
    }
  }

  lemma ForeignDispatch(s: bytes, start: nat, nesting: nat)
    requires start <= |s| && ParseValue(s, start, nesting) == Foreign
    ensures var i := SkipSpaces(s, start);
            start <= i <= |s| &&
            if At(s, i) == LBRACE then
              SkipSpaces(s, i + 1) <= |s| && i < SkipSpaces(s, i + 1) &&
              ParseMembers(s, SkipSpaces(s, i + 1), nesting + 1, []) == Foreign
            else if At(s, i) == LBRACKET then
              SkipSpaces(s, i + 1) <= |s| && i < SkipSpaces(s, i + 1) &&
              ParseItems(s, SkipSpaces(s, i + 1), nesting + 1, []) == Foreign
            else (At(s, i) == MINUS || IsDigit(At(s, i))) && ParseNumber(s, i) == Foreign
  {
    hide ParseItems, ParseMembers, SkipSpaces, ParseNumber;
  }

  lemma {:induction false} ForeignItems(s: bytes, start: nat, nesting: nat, done: seq<Value>) returns (k: nat)
    requires start <= |s| && ParseItems(s, start, nesting, done) == Foreign
    ensures start <= k && ForeignNumberAt(s, k)
    decreases |s| - start, 3
  {
    ItemForeign(s, start, nesting, done);
    hide ParseItems, ParseValue, SkipSpaces, ForeignNumberAt;
    var r := ParseValue(s, start, nesting);
    if r == Foreign {
      k := ForeignValue(s, start, nesting);
    } else {
      var i := SkipSpaces(s, r.next);
      k := ForeignItems(s, SkipSpaces(s, i + 1), nesting, done + [r.value]);
    }
  }

  lemma ItemForeign(s: bytes, start: nat, nesting: nat, done: seq<Value>)
    requires start <= |s| && ParseItems(s, start, nesting, done) == Foreign
    ensures var r := ParseValue(s, start, nesting);
            r == Foreign ||
            (r.Ok? &&
             var i := SkipSpaces(s, r.next);
             start < SkipSpaces(s, i + 1) <= |s| &&
             ParseItems(s, SkipSpaces(s, i + 1), nesting, done + [r.value]) == Foreign)
  {
    hide ParseValue;
  }

  lemma {:induction false} ForeignMembers(s: bytes, start: nat, nesting: nat, done: seq<Member>) returns (k: nat)
    requires start <= |s| && ParseMembers(s, start, nesting, done) == Foreign
    ensures start <= k && ForeignNumberAt(s, k)
    decreases |s| - start, 3
  {
    MemberForeign(s, start, nesting, done);
    hide ParseMembers, ParseValue, ParseKey, SkipSpaces, ForeignNumberAt;
    var (name, c) := ParseKey(s, start).value;
    var r := ParseValue(s, c, nesting);
    if r == Foreign {
      k := ForeignValue(s, c, nesting);
    } else {
      var i := SkipSpaces(s, r.next);
      k := ForeignMembers(s, SkipSpaces(s, i + 1), nesting, done + [Member(name, r.value)]);
    }
  }

  lemma MemberForeign(s: bytes, start: nat, nesting: nat, done: seq<Member>)
    requires start <= |s| && ParseMembers(s, start, nesting, done) == Foreign
    ensures ParseKey(s, start).Some?
    ensures var (name, c) := ParseKey(s, start).value;
            start < c <= |s| &&
            var r := ParseValue(s, c, nesting);
            r == Foreign ||
            (r.Ok? &&
             var i := SkipSpaces(s, r.next);
             start < SkipSpaces(s, i + 1) <= |s| &&
             ParseMembers(s, SkipSpaces(s, i + 1), nesting, done + [Member(name, r.value)]) == Foreign)
  {
    hide ParseValue, ParseKey;
  }

  /** So a text without such a number is refused exactly when it has no reading. */
  lemma RefusesIff(s: bytes)
    requires forall k: nat :: !ForeignNumberAt(s, k)
    ensures Parse(s) == Err <==> forall v, j :: !IsReading(s, TextBegin(s), 0, v, j)
  {
    hide ParseValue, ForeignNumberAt, IsReading;
    if Parse(s) == Foreign {
      var k := ForeignValue(s, TextBegin(s), 0);
    }
    forall v, j ensures Parse(s) == Ok(v, j) <==> IsReading(s, TextBegin(s), 0, v, j) { TextIff(s, v, j); }
    if Parse(s).Ok? { assert IsReading(s, TextBegin(s), 0, Parse(s).value, Parse(s).next); }
  }

  lemma NotTooDeep(v: Value, nesting: nat)
    ensures NestsFrom(v, nesting) ==> nesting <= MAX_NESTING
  {
  }

  lemma BareMinusRead(s: bytes, start: nat, nesting: nat)
    requires nesting <= MAX_NESTING && BareMinus(s, SkipSpaces(s, start))
    ensures ParseValue(s, start, nesting) == Ok(Number(0), SkipSpaces(s, start))
  {
    Dispatch(s, start, nesting);
    BareMinusIff(s, SkipSpaces(s, start), 0);
    hide ParseValue, SkipSpaces, ParseNumber;
  }

  lemma NoWord(s: bytes, i: nat, word: bytes, k: nat)
    requires k < |word| && ToLower(At(s, i + k)) != word[k]
    ensures !WordAt(s, i, word)
  {
  }

  /** Inside an array a bare minus sign is always an error, for whatever stands around it. */
  lemma BareMinusInArray(s: bytes, start: nat, nesting: nat, done: seq<Value>)
    requires BareMinus(s, start)
    ensures nesting <= MAX_NESTING ==> ParseItems(s, start, nesting, done) == Ok(done + [Number(0)], start)
    ensures ParseItems(s, start, nesting, done).Ok? ==> At(s, ParseItems(s, start, nesting, done).next) != RBRACKET
  {
    if nesting <= MAX_NESTING {
      BareMinusRead(s, start, nesting);
      R.ItemsStep(s, start, nesting, done, Number(0), start);
    }
  }

  /** And so it is as the value of a member. */
  lemma BareMinusInObject(s: bytes, start: nat, nesting: nat, done: seq<Member>)
    requires At(s, start) != NUL && ParseKey(s, start).Some?
    requires BareMinus(s, SkipSpaces(s, ParseKey(s, start).value.1))
    ensures ParseMembers(s, start, nesting, done).Ok? ==> At(s, ParseMembers(s, start, nesting, done).next) != RBRACE
  {
    var (name, c) := ParseKey(s, start).value;
    if nesting <= MAX_NESTING && Lookup(done, name).None? {
      BareMinusRead(s, c, nesting);
      SkipSpacesTwice(s, c);
      hide ParseValue, ParseKey, SkipSpaces;
      R.MembersStep(s, start, nesting, done, name, c, Number(0), SkipSpaces(s, c));
    }
  }

  /** A number that was printed is read back, whatever text follows, exactly when that text does not make a
      longer number of it. */
  lemma NumberRoundTripIff(n: ExactInt, f: T.Format, rest: bytes)
    ensures var w := T.Text(Number(n), 0, f);
            Parse(w + rest) == Ok(Number(n), |w|) <==> !Continues(rest, 0, R.IntegerLiteral(n))
  {
    R.RoundTrip(Number(n), f, rest);
  }

  /** A number of the expected form that is all of the text. */
  lemma LiteralAlone(l: Literal, n: ExactInt)
    requires IsLiteral(l) && (l.whole == [] ==> l.minus || Hex(l))
    ensures Parse(Spelling(l)) == Ok(Number(n), |Spelling(l)|) <==> Accepted(l) && Worth(l, n)
    ensures !Accepted(l) ==> Parse(Spelling(l)) == Err
  {
    hide *;
    var s := Spelling(l);
    SpellingStarts(l);
    OccursSlice(s, 0, s);
    assert s[0..|s|] == s;
    NothingAfter(l);
    LiteralIsParsed(s, 0, l, n);
    NumberAtStart(s);
  }

  lemma SpellingStarts(l: Literal)
    requires IsLiteral(l) && (l.whole == [] ==> l.minus || Hex(l))
    ensures var s := Spelling(l); At(s, 0) == MINUS || IsDigit(At(s, 0))
  {
    if l.minus {
      assert Spelling(l)[0] == MINUS;
    } else if Hex(l) {
      assert Spelling(l)[0] == l.prefix[0];
    } else {
      assert Spelling(l)[0] == l.whole[0];
    }
  }

  lemma NothingAfter(l: Literal)
    ensures !Continues(Spelling(l), 0 + |Spelling(l)|, l)
  {
    hide Spelling;
  }

  lemma NumberAtStart(s: bytes)
    requires At(s, 0) == MINUS || IsDigit(At(s, 0))
    ensures Parse(s) == ParseNumber(s, 0)
  {
    assert SkipSpaces(s, 0) == 0;
    Dispatch(s, 0, 0);
    hide ParseNumber;
  }
}
