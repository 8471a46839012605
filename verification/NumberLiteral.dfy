/** The numbers strtod converts, as texts: the expected forms of section 7.22.1.3 of the C standard (C11),
    the integer such a text is worth, and the bytes behind it that make it longer. */
module NumberLiteral {
  import opened Bytes

  const LETTER_E: byte := 0x65
  const LETTER_P: byte := 0x70
  const LETTER_X: byte := 0x78
  const INF: bytes := [0x69, 0x6E, 0x66]
  const NAN: bytes := [0x6E, 0x61, 0x6E]

  datatype Exponent = Exponent(letter: byte, sign: bytes, digits: bytes)

  /** The prefix is empty for a decimal number, and 0x or 0X for a hexadecimal one. */
  datatype Literal = Literal(minus: bool, prefix: bytes, whole: bytes, fraction: Option<bytes>,
                             exponent: Option<Exponent>)

  predicate Hex(l: Literal) { l.prefix != [] }

  /** The digits behind the point. */
  function Places(l: Literal): bytes {
    if l.fraction.Some? then l.fraction.value else []
  }

  predicate IsPrefix(w: bytes) {
    |w| == 2 && w[0] == ZERO && ToLower(w[1]) == LETTER_X
  }

  predicate IsExponent(x: Exponent, hex: bool) {
    ToLower(x.letter) == (if hex then LETTER_P else LETTER_E) && x.sign in {[], [PLUS], [MINUS]} &&
    x.digits != [] && AllDigits(x.digits)
  }

  /** A digit on one side of the point at least; the point may stand alone on the other. */
  predicate IsLiteral(l: Literal) {
    && (Hex(l) ==> IsPrefix(l.prefix))
    && AllDigits(l.whole, Hex(l)) && AllDigits(Places(l), Hex(l)) && (l.whole != [] || Places(l) != [])
    && (l.exponent.Some? ==> IsExponent(l.exponent.value, Hex(l)))
  }

  function Sign(l: Literal): bytes {
    if l.minus then [MINUS] else []
  }

  function FractionText(l: Literal): bytes {
    if l.fraction.Some? then [DOT] + l.fraction.value else []
  }

  function ExponentText(l: Literal): bytes {
    match l.exponent
    case None => []
    case Some(x) => [x.letter] + x.sign + x.digits
  }

  function Spelling(l: Literal): bytes {
    Sign(l) + l.prefix + l.whole + FractionText(l) + ExponentText(l)
  }

  // ----- the value -----

  function Mantissa(l: Literal): nat
    requires IsLiteral(l) && !Hex(l)
  {
    DigitsValue(l.whole + Places(l))
  }

  /** The power of ten that the digits, read as an integer, are to be multiplied by. */
  function Scale(l: Literal): int
    requires IsLiteral(l) && !Hex(l)
  {
    var x: int := if l.exponent.Some? then DigitsValue(l.exponent.value.digits) else 0;
    (if l.exponent.Some? && l.exponent.value.sign == [MINUS] then -x else x) - |Places(l)|
  }

  /** a = m * 10^scale, without a division. */
  ghost predicate IsScaled(m: nat, scale: int, a: nat) {
    if scale >= 0 then a == m * Pow10(scale) else a * Pow10(-scale) == m
  }

  /** A decimal number is worth the integer n; -0 is worth no integer. */
  ghost predicate Worth(l: Literal, n: int) {
    IsLiteral(l) && !Hex(l) && (l.minus <==> n < 0) && IsScaled(Mantissa(l), Scale(l), if n < 0 then -n else n)
  }

  // ----- what stands behind -----

  /** A number starts here: a digit, or the point and a digit. */
  predicate NumeralAt(s: bytes, i: nat, hex: bool := false) {
    IsDigitOf(At(s, i), hex) || (At(s, i) == DOT && IsDigitOf(At(s, i + 1), hex))
  }

  predicate HexTailAt(s: bytes, i: nat) {
    ToLower(At(s, i)) == LETTER_X && NumeralAt(s, i + 1, true)
  }

  /** Where the digits of an exponent start whose letter stands at i. */
  function ExponentDigits(s: bytes, i: nat): nat {
    if At(s, i + 1) in {PLUS, MINUS} then i + 2 else i + 1
  }

  predicate ExponentAt(s: bytes, i: nat, hex: bool := false) {
    ToLower(At(s, i)) == (if hex then LETTER_P else LETTER_E) && IsDigit(At(s, ExponentDigits(s, i)))
  }

  predicate WordAt(s: bytes, i: nat, word: bytes) {
    forall k :: 0 <= k < |word| ==> ToLower(At(s, i + k)) == word[k]
  }

  /** The text at j makes the number l that ends there longer. */
  predicate Continues(s: bytes, j: nat, l: Literal) {
    if l.exponent.Some? then IsDigit(At(s, j))
    else
      || IsDigitOf(At(s, j), Hex(l))
      || ExponentAt(s, j, Hex(l))
      || (l.fraction.None? && At(s, j) == DOT)
      || (l.fraction.None? && l.prefix == [] && l.whole == [ZERO] && HexTailAt(s, j))
  }
}
