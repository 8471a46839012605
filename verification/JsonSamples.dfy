/** Known texts and what is read from them or printed for them, byte by byte. */
module JsonSamples {
  import opened Bytes
  import opened JsonValue
  import opened JsonParser
  import opened JsonGrammar
  import opened JsonGrammarProof
  import opened NumberLiteral
  import T = JsonText
  import R = JsonRoundTrip

  // ----- numbers -----

  lemma MinusRead(text: string, k: nat)
    requires |text| > 0 && text[0] == '-' && k < 3
    requires !NumeralAt(Ascii(text), 1)
    requires ToLower(At(Ascii(text), 1)) != INF[0] && ToLower(At(Ascii(text), 1 + k)) != NAN[k]
    ensures Parse(Ascii(text)) == Ok(Number(0), 0)
  {
    var s := Ascii(text);
    NoWord(s, 1, INF, 0);
    NoWord(s, 1, NAN, k);
    BareMinusRead(s, 0, 0);
    hide BareMinus, NumeralAt;
  }

  /** A bare minus sign alone is read as 0. */
  lemma BareMinusInput()
    ensures Parse(Ascii("-")) == Ok(Number(0), 0)
  {
    MinusRead("-", 0);
  }

  /** Texts that hold a sign and no number. */
  lemma MinusInputs()
    ensures Parse(Ascii("-.")) == Ok(Number(0), 0)
    ensures Parse(Ascii("-n")) == Ok(Number(0), 0)
  {
    MinusRead("-.", 0);
    MinusRead("-n", 1);
  }

  lemma DigitRead(n: nat, rest: bytes)
    requires n < 10
    ensures var w: bytes := [0x30 + n];
            Parse(w + rest) == Ok(Number(n), 1) <==> !Continues(rest, 0, Literal(false, [], w, None, None))
  {
    NumberRoundTripIff(n, T.Format(false, false), rest);
    hide Parse, Continues;
  }

  /** Numbers that the bytes behind them do not make longer. */
  lemma LookaheadInputs()
    ensures Parse(Ascii("5e")) == Ok(Number(5), 1)
    ensures Parse(Ascii("5e+")) == Ok(Number(5), 1)
    ensures Parse(Ascii("0xg")) == Ok(Number(0), 1)
  {
    hide Parse, Continues;
    NoExponent();
    Joined();
    DigitRead(5, Ascii("e"));
    DigitRead(5, Ascii("e+"));
    DigitRead(0, Ascii("xg"));
  }

  lemma NoExponent()
    ensures !Continues(Ascii("e"), 0, Literal(false, [], [0x35], None, None))
    ensures !Continues(Ascii("e+"), 0, Literal(false, [], [0x35], None, None))
    ensures !Continues(Ascii("xg"), 0, Literal(false, [], [ZERO], None, None))
  {
  }

  lemma Joined()
    ensures [0x35] + Ascii("e") == Ascii("5e") && [0x35] + Ascii("e+") == Ascii("5e+")
    ensures [ZERO] + Ascii("xg") == Ascii("0xg")
  {
  }

  lemma LiteralReads(l: Literal, text: string, n: ExactInt)
    requires Accepted(l) && Spelling(l) == Ascii(text) && Worth(l, n)
    ensures Parse(Ascii(text)) == Ok(Number(n), |text|)
  {
    LiteralAlone(l, n);
    hide Parse, Worth, Spelling;
  }

  lemma LiteralRefused(l: Literal, text: string)
    requires IsLiteral(l) && (l.whole == [] ==> l.minus || Hex(l)) && !Accepted(l) && Spelling(l) == Ascii(text)
    ensures Parse(Ascii(text)) == Err
  {
    LiteralAlone(l, 0);
    hide Parse, Spelling;
  }

  lemma TwoDigits(w: bytes)
    requires |w| == 2 && IsDigit(w[0]) && IsDigit(w[1])
    ensures DigitsValue(w) == 10 * (w[0] - 0x30) + w[1] - 0x30
  {
    assert w[..1] == [w[0]] && [w[0]][..0] == [];
    OneDigit(w[0]);
  }

  lemma OneDigit(c: byte)
    requires IsDigit(c)
    ensures DigitsValue([c]) == c - 0x30
  {
    assert [c][..0] == [];
  }

  const TRAILING_POINT := Literal(false, [], [0x31], Some([]), None)

  lemma TrailingPointSpelled()
    ensures Accepted(TRAILING_POINT) && Spelling(TRAILING_POINT) == Ascii("1.")
  {
  }

  lemma TrailingPointWorth()
    ensures Worth(TRAILING_POINT, 1)
  {
    hide DigitsValue, IsScaled;
    OneDigit(0x31);
    assert TRAILING_POINT.whole + Places(TRAILING_POINT) == [0x31];
    R.OneTimes(1);
  }

  lemma TrailingPoint()
    ensures Parse(Ascii("1.")) == Ok(Number(1), 2)
  {
    hide Accepted, Spelling, Worth, Parse, Ascii;
    TrailingPointSpelled();
    TrailingPointWorth();
    LiteralReads(TRAILING_POINT, "1.", 1);
  }

  const LEADING_POINT := Literal(true, [], [], Some([0x35]), Some(Exponent(0x65, [], [0x31])))

  lemma LeadingPointSpelled()
    ensures Accepted(LEADING_POINT) && Spelling(LEADING_POINT) == Ascii("-.5e1")
  {
  }

  lemma LeadingPointWorth()
    ensures Worth(LEADING_POINT, -5)
  {
    hide DigitsValue, IsScaled;
    OneDigit(0x35);
    OneDigit(0x31);
    assert LEADING_POINT.whole + Places(LEADING_POINT) == [0x35];
    R.OneTimes(5);
  }

  lemma LeadingPoint()
    ensures Parse(Ascii("-.5e1")) == Ok(Number(-5), 5)
  {
    hide Accepted, Spelling, Worth, Parse, Ascii;
    LeadingPointSpelled();
    LeadingPointWorth();
    LiteralReads(LEADING_POINT, "-.5e1", -5);
  }

  /** Numbers the RFC does not have are read. */
  lemma NumberInputs()
    ensures Parse(Ascii("1.")) == Ok(Number(1), 2)
    ensures Parse(Ascii("-.5e1")) == Ok(Number(-5), 5)
  {
    hide *;
    TrailingPoint();
    LeadingPoint();
  }

  lemma PowersOfTen()
    ensures IsScaled(1, 2, 100) && IsScaled(50, -1, 5)
  {
    assert Pow10(1) == 10 && Pow10(2) == 100;
  }

  const SCALED_UP := Literal(false, [], [0x31], None, Some(Exponent(0x45, [], [0x32])))

  lemma ScaledUpSpelled()
    ensures Accepted(SCALED_UP) && Spelling(SCALED_UP) == Ascii("1E2")
  {
  }

  lemma ScaledUpWorth()
    ensures Worth(SCALED_UP, 100)
  {
    hide DigitsValue, IsScaled;
    OneDigit(0x31);
    OneDigit(0x32);
    assert SCALED_UP.whole + Places(SCALED_UP) == [0x31];
    PowersOfTen();
  }

  lemma ScaledUp()
    ensures Parse(Ascii("1E2")) == Ok(Number(100), 3)
  {
    hide Accepted, Spelling, Worth, Parse, Ascii;
    ScaledUpSpelled();
    ScaledUpWorth();
    LiteralReads(SCALED_UP, "1E2", 100);
  }

  const SCALED_DOWN := Literal(false, [], [0x35, 0x30], None, Some(Exponent(0x65, [0x2D], [0x31])))

  lemma ScaledDownSpelled()
    ensures Accepted(SCALED_DOWN) && Spelling(SCALED_DOWN) == Ascii("50e-1")
  {
  }

  lemma ScaledDownWorth()
    ensures Worth(SCALED_DOWN, 5)
  {
    hide DigitsValue, IsScaled;
    OneDigit(0x31);
    TwoDigits([0x35, 0x30]);
    assert SCALED_DOWN.whole + Places(SCALED_DOWN) == [0x35, 0x30];
    PowersOfTen();
  }

  lemma ScaledDown()
    ensures Parse(Ascii("50e-1")) == Ok(Number(5), 5)
  {
    hide Accepted, Spelling, Worth, Parse, Ascii;
    ScaledDownSpelled();
    ScaledDownWorth();
    LiteralReads(SCALED_DOWN, "50e-1", 5);
  }

  /** Integers may be written with an exponent. */
  lemma ScaledInputs()
    ensures Parse(Ascii("1E2")) == Ok(Number(100), 3)
    ensures Parse(Ascii("50e-1")) == Ok(Number(5), 5)
  {
    hide *;
    ScaledUp();
    ScaledDown();
  }

  /** One number that the RFC has is refused, and so are those that only the C standard has. */
  lemma RefusedInputs()
    ensures Parse(Ascii("0e1")) == Err && Parse(Ascii("0X1")) == Err
    ensures Parse(Ascii("-inf")) == Err && Parse(Ascii("-NaN")) == Err
  {
    hide Parse, WordAt;
    ZeroExponentRefused();
    HexRefused();
    Words();
    WordRefused("-inf", INF);
    WordRefused("-NaN", NAN);
  }

  lemma ZeroExponentRefused()
    ensures Parse(Ascii("0e1")) == Err
  {
    var a := Literal(false, [], [ZERO], None, Some(Exponent(0x65, [], [0x31])));
    assert Spelling(a) == Ascii("0e1");
    LiteralRefused(a, "0e1");
    hide Parse, Spelling;
  }

  lemma HexRefused()
    ensures Parse(Ascii("0X1")) == Err
  {
    var a := Literal(false, [ZERO, 0x58], [0x31], None, None);
    assert Spelling(a) == Ascii("0X1");
    LiteralRefused(a, "0X1");
    hide Parse, Spelling;
  }

  lemma Words()
    ensures WordAt(Ascii("-inf"), 1, INF) && WordAt(Ascii("-NaN"), 1, NAN)
  {
    assert Ascii("-inf") == [MINUS, 0x69, 0x6E, 0x66] && Ascii("-NaN") == [MINUS, 0x4E, 0x61, 0x4E];
    hide Ascii;
  }

  lemma WordRefused(text: string, word: bytes)
    requires |text| == 4 && text[0] == '-' && (word == INF || word == NAN) && WordAt(Ascii(text), 1, word)
    ensures Parse(Ascii(text)) == Err
  {
    var s := Ascii(text);
    assert ToLower(At(s, 1 + 0)) == word[0];
    NumberAtStart(s);
    hide WordAt, Parse;
  }

  // ----- a document -----

  lemma OneEscaped(c: byte, e: bool)
    ensures T.Escape([c], e) == T.EscapeByte(c, e)
  {
    assert [c][1..] == [];
  }

  lemma SingleMember(m: Member, f: T.Format)
    ensures T.MembersText([m], 0, 0, f)
         == T.Indent(1, f) + T.Quoted(m.name, f.escapeSlashes) + T.AfterColon(f) + T.Text(m.value, 1, f)
            + T.LineBreak(f)
  {
    assert T.MembersText([m], 1, 0, f) == [];
    hide T.Quoted, T.Text, T.Indent, T.LineBreak, T.AfterColon;
  }

  lemma KeyAndSlash(f: T.Format)
    requires f == T.Format(true, true)
    ensures T.Quoted([0x61], true) == [QUOTE, 0x61, QUOTE]
    ensures T.Text(Str([SLASH]), 1, f) == [QUOTE, BACKSLASH, SLASH, QUOTE]
    ensures T.Indent(1, f) == [SPACE, SPACE, SPACE, SPACE] && T.Indent(0, f) == []
  {
    OneEscaped(0x61, true);
    OneEscaped(SLASH, true);
  }

  lemma SingleMemberObject(m: Member, f: T.Format)
    ensures T.Text(Object([m]), 0, f)
         == [LBRACE] + T.LineBreak(f) + T.MembersText([m], 0, 0, f) + T.Indent(0, f) + [RBRACE]
  {
    hide T.MembersText, T.Indent;
  }

  /** The default format of the pretty printer: slashes escaped. */
  lemma PrettySample()
    ensures var v := Object([Member(Ascii("a"), Str(Ascii("/")))]);
            T.Text(v, 0, T.Format(true, true)) == Ascii("{\n    \"a\": \"\\/\"\n}")
  {
    var f := T.Format(true, true);
    assert Ascii("a") == [0x61] && Ascii("/") == [SLASH];
    KeyAndSlash(f);
    SingleMember(Member([0x61], Str([SLASH])), f);
    SingleMemberObject(Member([0x61], Str([SLASH])), f);
    SampleBytes();
    hide T.MembersText, T.Quoted, T.Indent, T.Text, Ascii;
  }

  lemma SampleBytes()
    ensures [LBRACE] + [NEWLINE] + ([SPACE, SPACE, SPACE, SPACE] + [QUOTE, 0x61, QUOTE] + [COLON, SPACE]
                                    + [QUOTE, BACKSLASH, SLASH, QUOTE] + [NEWLINE]) + [] + [RBRACE]
         == Ascii("{\n    \"a\": \"\\/\"\n}")
  {
  }

  // ----- nesting -----

  function Nested(n: nat): Value
    requires n > 0
  {
    if n == 1 then Array([]) else Array([Nested(n - 1)])
  }

  /** n opening brackets and n closing ones. */
  function Brackets(n: nat): bytes {
    seq(n, _ => '[' as int) + seq(n, _ => ']' as int)
  }

  lemma {:induction false} NestedText(n: nat, level: nat)
    requires n > 0
    ensures T.Text(Nested(n), level, T.Format(false, false)) == Brackets(n)
  {
    var f := T.Format(false, false);
    if n == 1 {
      assert Brackets(1) == [LBRACKET, RBRACKET];
    } else {
      NestedText(n - 1, level + 1);
      var inner := T.Text(Nested(n - 1), level + 1, f);
      OneItem(Nested(n - 1), level, f);
      assert Brackets(n) == [LBRACKET] + Brackets(n - 1) + [RBRACKET];
    }
  }

  lemma OneItem(v: Value, level: nat, f: T.Format)
    requires !f.pretty
    ensures T.Text(Array([v]), level, f) == [LBRACKET] + T.Text(v, level + 1, f) + [RBRACKET]
  {
    assert T.ItemsText([v], 1, level, f) == [];
    assert T.ItemsText([v], 0, level, f) == T.ItemText([v], 0, level, f) + [];
  }

  lemma {:induction false} NestedNests(n: nat, depth: nat)
    requires n > 0
    ensures NestsFrom(Nested(n), depth) <==> depth + n <= 2049
    ensures WellFormed(Nested(n))
  {
    if n > 1 {
      NestedNests(n - 1, depth + 1);
      assert Nested(n).items[0] == Nested(n - 1);
    }
  }

  /** Below nesting opening brackets, with more of them still to come than the limit allows. */
  lemma {:induction false} TooManyBrackets(s: bytes, i: nat, nesting: nat)
    requires nesting <= 2049 && forall k: nat :: i <= k <= i + 2049 - nesting ==> At(s, k) == LBRACKET
    ensures ParseValue(s, i, nesting) == Err
    decreases 2049 - nesting
  {
    if nesting < 2049 {
      TooManyBrackets(s, i + 1, nesting + 1);
      BracketRefused(s, i, nesting);
    }
  }

  lemma BracketRefused(s: bytes, i: nat, nesting: nat)
    requires At(s, i) == At(s, i + 1) == LBRACKET && nesting <= MAX_NESTING
    requires ParseValue(s, i + 1, nesting + 1) == Err
    ensures ParseValue(s, i, nesting) == Err
  {
    R.NoSpaceHere(s, i);
    R.NoSpaceHere(s, i + 1);
    Dispatch(s, i, nesting);
    hide ParseValue;
  }

  /** Up to 2049 brackets nest: the innermost then lies at depth 2048. */
  lemma NestingLimit(n: nat)
    requires n > 0
    ensures Parse(Brackets(n)) == if n <= 2049 then Ok(Nested(n), 2 * n) else Err
  {
    hide ParseValue, NestsFrom, WellFormed, T.Text;
    if n <= 2049 {
      NestedText(n, 0);
      NestedNests(n, 0);
      R.RoundTrip(Nested(n), T.Format(false, false), []);
      assert Brackets(n) + [] == Brackets(n);
    } else {
      TooManyBrackets(Brackets(n), 0, 0);
    }
  }
}
