/** The language the parser reads, stated without a parser: a relation between a stretch of text and the
    value it spells, with any white space between tokens and any spelling of the strings. */
module JsonGrammar {
  import opened Bytes
  import opened JsonValue
  import opened JsonUnicodeEscape
  import opened NumberLiteral
  import opened Utf8
  import T = JsonText

  // ----- numbers -----

  /** Zero, or digits that do not start with zero. */
  predicate IsNatural(w: bytes) {
    w != [] && AllDigits(w) && (w[0] == ZERO ==> |w| == 1)
  }

  /** A number of section 6 of RFC 8259. */
  predicate IsRfcNumber(l: Literal) {
    IsLiteral(l) && !Hex(l) && IsNatural(l.whole) && (l.fraction.Some? ==> Places(l) != [])
  }

  /** An exponent right behind a lone zero. */
  predicate ZeroExponent(l: Literal) {
    l.whole == [ZERO] && l.fraction.None? && l.exponent.Some?
  }

  /** The numbers of this language: those of the RFC but for a lone zero with an exponent, and those whose
      point has no digits behind it or, after a '-', none in front of it. */
  predicate Accepted(l: Literal) {
    IsLiteral(l) && !Hex(l) && (IsNatural(l.whole) || (l.minus && l.whole == [])) && !ZeroExponent(l)
  }

  ghost predicate LiteralAt(s: bytes, i: nat, j: nat, l: Literal) {
    Occurs(s, i, Spelling(l)) && j == i + |Spelling(l)|
  }

  /** From i to j stands a number worth n, and no longer one. */
  ghost predicate NumberAt(s: bytes, i: nat, j: nat, n: ExactInt) {
    exists l: Literal :: LiteralAt(s, i, j, l) && Accepted(l) && Worth(l, n) && !Continues(s, j, l)
  }

  // ----- strings: section 7 -----

  function SimpleEscape(c: byte): Option<byte> {
    if c == QUOTE || c == BACKSLASH || c == SLASH then Some(c)
    else if c == 0x62 then Some(0x08)
    else if c == 0x66 then Some(0x0C)
    else if c == 0x6E then Some(0x0A)
    else if c == 0x72 then Some(0x0D)
    else if c == 0x74 then Some(0x09)
    else None
  }

  ghost predicate SimpleAt(s: bytes, i: nat, next: nat, text: bytes) {
    At(s, i) == BACKSLASH && SimpleEscape(At(s, i + 1)).Some? &&
    next == i + 2 && text == [SimpleEscape(At(s, i + 1)).value]
  }

  ghost predicate UnicodeAt(s: bytes, i: nat, next: nat, text: bytes) {
    EscapeAt(s, i) &&
    exists cp: nat :: IsScalar(cp) && Spells(s, i, cp) && next == i + 6 * |Utf16(cp)| && text == Encode(cp)
  }

  ghost predicate RawAt(s: bytes, i: nat, next: nat, text: bytes) {
    At(s, i) >= 0x20 && At(s, i) != QUOTE && At(s, i) != BACKSLASH && next == i + 1 && text == [At(s, i)]
  }

  /** One character of a string, from i to next, stands for these bytes. */
  ghost predicate CharAt(s: bytes, i: nat, next: nat, text: bytes) {
    RawAt(s, i, next, text) || SimpleAt(s, i, next, text) || UnicodeAt(s, i, next, text)
  }

  ghost predicate CharsAt(s: bytes, i: nat, j: nat, t: bytes)
    requires i <= j
    decreases j - i
  {
    if i == j then t == []
    else exists next: nat, text: bytes ::
      i < next <= j && text <= t && CharAt(s, i, next, text) && CharsAt(s, next, j, t[|text|..])
  }

  ghost predicate StringAt(s: bytes, i: nat, j: nat, t: bytes) {
    i + 2 <= j <= |s| && s[i] == QUOTE && s[j - 1] == QUOTE && CharsAt(s, i + 1, j - 1, t)
  }

  // ----- values: sections 2 to 5 -----

  /** White space as isspace has it: the four bytes of the RFC, and vertical tab and form feed. */
  predicate IsWhite(c: byte) {
    c in {0x20, 0x09, 0x0A, 0x0D, 0x0B, 0x0C}
  }

  ghost predicate SpaceAt(s: bytes, i: nat, j: nat) {
    i <= j <= |s| && forall k :: i <= k < j ==> IsWhite(s[k])
  }

  ghost predicate ValueAt(s: bytes, i: nat, j: nat, v: Value)
    decreases v, 0
  {
    match v
    case Null => Occurs(s, i, Ascii("null")) && j == i + 4
    case Boolean(b) =>
      var token := Ascii(if b then "true" else "false");
      Occurs(s, i, token) && j == i + |token|
    case Number(n) => NumberAt(s, i, j, n)
    case Str(t) => StringAt(s, i, j, t)
    case Array(items) =>
      i + 2 <= j <= |s| && s[i] == LBRACKET && s[j - 1] == RBRACKET &&
      if items == [] then SpaceAt(s, i + 1, j - 1) else ItemsAt(s, i + 1, j - 1, items, 0)
    case Object(ms) =>
      i + 2 <= j <= |s| && s[i] == LBRACE && s[j - 1] == RBRACE && DistinctNames(ms) &&
      if ms == [] then SpaceAt(s, i + 1, j - 1) else MembersAt(s, i + 1, j - 1, ms, 0)
  }

  /** From p to q stand items k.. of the list, with commas between them. */
  ghost predicate ItemsAt(s: bytes, p: nat, q: nat, items: seq<Value>, k: nat)
    requires k < |items|
    decreases items, |items| - k
  {
    exists a: nat, b: nat, c: nat ::
      SpaceAt(s, p, a) && ValueAt(s, a, b, items[k]) && SpaceAt(s, b, c) &&
      if k + 1 == |items| then c == q
      else At(s, c) == COMMA && ItemsAt(s, c + 1, q, items, k + 1)
  }

  /** From p to c stand a name and its colon. */
  ghost predicate KeyAt(s: bytes, p: nat, c: nat, name: Name) {
    c > 0 && At(s, c - 1) == COLON &&
    exists a: nat, b: nat :: SpaceAt(s, p, a) && StringAt(s, a, b, name) && SpaceAt(s, b, c - 1)
  }

  ghost predicate MembersAt(s: bytes, p: nat, q: nat, ms: seq<Member>, k: nat)
    requires k < |ms|
    decreases ms, |ms| - k
  {
    exists c: nat, d: nat, e: nat, f: nat ::
      KeyAt(s, p, c, ms[k].name) && SpaceAt(s, c, d) && ValueAt(s, d, e, ms[k].value) && SpaceAt(s, e, f) &&
      if k + 1 == |ms| then f == q
      else At(s, f) == COMMA && MembersAt(s, f + 1, q, ms, k + 1)
  }

  /** Leading white space and a value no node of which stands deeper than the parser goes. */
  ghost predicate ValueBehindSpace(s: bytes, start: nat, j: nat, v: Value) {
    exists i: nat :: SpaceAt(s, start, i) && ValueAt(s, i, j, v)
  }

  /** A '-' with no number behind it, which strtod does not convert. */
  predicate BareMinus(s: bytes, i: nat) {
    At(s, i) == MINUS && !NumeralAt(s, i + 1) && !WordAt(s, i + 1, INF) && !WordAt(s, i + 1, NAN)
  }

  /** Where the text begins: behind the byte order mark EF BB BF, if it has one. */
  function TextBegin(s: bytes): nat {
    if |s| >= 3 && s[0] == 0xEF && s[1] == 0xBB && s[2] == 0xBF then 3 else 0
  }

  /** What the parser may answer from start on: v, ending at j, behind white space, if it stands in the grammar
      there and nests no deeper than the limit from this depth; or 0, and the cursor stays on a bare '-'. */
  ghost predicate IsReading(s: bytes, start: nat, nesting: nat, v: Value, j: nat) {
    (NestsFrom(v, nesting) && ValueBehindSpace(s, start, j, v)) ||
    (nesting <= MAX_NESTING && SpaceAt(s, start, j) && BareMinus(s, j) && v == Number(0))
  }
}
