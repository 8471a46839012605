/** Bytes, C strings seen through a reading cursor, and the small facts about
    contiguous text that the other modules share. */
module Bytes {
  type byte = b: int | 0 <= b < 256
  type bytes = seq<byte>

  const NUL: byte := 0x00
  const NEWLINE: byte := 0x0A
  const RETURN: byte := 0x0D
  const SPACE: byte := 0x20
  const QUOTE: byte := 0x22
  const STAR: byte := 0x2A
  const PLUS: byte := 0x2B
  const COMMA: byte := 0x2C
  const MINUS: byte := 0x2D
  const DOT: byte := 0x2E
  const SLASH: byte := 0x2F
  const ZERO: byte := 0x30
  const COLON: byte := 0x3A
  const LBRACKET: byte := 0x5B
  const BACKSLASH: byte := 0x5C
  const RBRACKET: byte := 0x5D
  const LBRACE: byte := 0x7B
  const RBRACE: byte := 0x7D

  datatype Option<+T> = None | Some(value: T)

  /** What dereferencing a cursor at offset i of a NUL-terminated string gives. */
  function At(s: bytes, i: nat): byte {
    if i < |s| then s[i] else NUL
  }

  predicate IsDigit(c: byte) { 0x30 <= c <= 0x39 }

  /** The value of a hexadecimal digit, or -1. */
  function HexValue(c: byte): (r: int)
    ensures -1 <= r < 16
  {
    if 0x30 <= c <= 0x39 then c - 0x30
    else if 0x61 <= c <= 0x66 then c - 0x61 + 10
    else if 0x41 <= c <= 0x46 then c - 0x41 + 10
    else -1
  }

  /** A digit of base 16 or of base 10. */
  predicate IsDigitOf(c: byte, hex: bool) {
    if hex then HexValue(c) >= 0 else IsDigit(c)
  }

  predicate AllDigits(w: bytes, hex: bool := false) {
    forall k :: 0 <= k < |w| ==> IsDigitOf(w[k], hex)
  }

  /** tolower in the C locale. */
  function ToLower(c: byte): byte {
    if 0x41 <= c <= 0x5A then c + 0x20 else c
  }

  /** isspace in the C locale. */
  predicate IsSpace(c: byte) { c == SPACE || 0x09 <= c <= 0x0D }

  /** Where the white space at offset i ends. */
  function SkipSpaces(s: bytes, i: nat): (j: nat)
    ensures i <= j && (i <= |s| ==> j <= |s|)
    ensures !IsSpace(At(s, j))
    decreases |s| - i
  {
    if IsSpace(At(s, i)) then SkipSpaces(s, i + 1) else i
  }

  /** Where the run of digits at offset i ends. */
  function SkipDigits(s: bytes, i: nat, hex: bool := false): (j: nat)
    ensures i <= j && (i <= |s| ==> j <= |s|)
    ensures !IsDigitOf(At(s, j), hex)
    ensures forall k :: i <= k < j ==> k < |s| && IsDigitOf(s[k], hex)
    decreases |s| - i
  {
    if IsDigitOf(At(s, i), hex) then SkipDigits(s, i + 1, hex) else i
  }

  function DigitsValue(s: bytes): nat
    requires forall k :: 0 <= k < |s| ==> IsDigit(s[k])
  {
    if s == [] then 0
    else
      var last := s[|s| - 1];
      assert IsDigit(last);
      DigitsValue(s[..|s| - 1]) * 10 + (last - 0x30)
  }

  function Pow10(k: nat): (p: nat)
    ensures p > 0
  {
    if k == 0 then 1 else 10 * Pow10(k - 1)
  }

  /** The text w stands at offset i of s. */
  ghost predicate Occurs(s: bytes, i: nat, w: bytes) {
    i + |w| <= |s| && forall k :: 0 <= k < |w| ==> s[i + k] == w[k]
  }

  lemma OccursAt(s: bytes, i: nat, w: bytes, k: nat)
    requires Occurs(s, i, w) && k < |w|
    ensures At(s, i + k) == w[k]
  {
  }

  lemma OccursSlice(s: bytes, i: nat, w: bytes)
    ensures Occurs(s, i, w) <==> i + |w| <= |s| && s[i..i + |w|] == w
  {
    if i + |w| <= |s| && s[i..i + |w|] == w {
      forall k | 0 <= k < |w| ensures s[i + k] == w[k] { assert s[i + k] == s[i..i + |w|][k]; }
    }
  }

  lemma OccursConcat(s: bytes, i: nat, a: bytes, b: bytes)
    ensures Occurs(s, i, a + b) <==> Occurs(s, i, a) && Occurs(s, i + |a|, b)
  {
    if Occurs(s, i, a + b) {
      forall k | 0 <= k < |a| ensures s[i + k] == a[k] { assert s[i + k] == (a + b)[k]; }
      forall k | 0 <= k < |b| ensures s[i + |a| + k] == b[k] { assert s[i + (|a| + k)] == (a + b)[|a| + k]; }
    }
    if Occurs(s, i, a) && Occurs(s, i + |a|, b) {
      forall k | 0 <= k < |a + b| ensures s[i + k] == (a + b)[k] {
        if k >= |a| { assert s[i + |a| + (k - |a|)] == b[k - |a|]; }
      }
    }
  }

  function Flatten(parts: seq<bytes>): bytes {
    if parts == [] then [] else parts[0] + Flatten(parts[1..])
  }

  /** The bytes of an ASCII text. */
  function Ascii(text: string): (s: bytes)
    ensures |s| == |text|
  {
    seq(|text|, i requires 0 <= i < |text| => text[i] as int % 0x80)
  }

  /** The constants are the characters they are named after. */
  lemma CharacterCodes()
    ensures [NEWLINE, RETURN, SPACE, QUOTE, STAR, PLUS, COMMA, MINUS, DOT, SLASH] == Ascii("\n\r \"*+,-./")
    ensures [ZERO, COLON, LBRACKET, BACKSLASH, RBRACKET, LBRACE, RBRACE] == Ascii("0:[\\]{}")
  {
  }

  function Spaces(n: nat): bytes {
    seq(n, _ => SPACE)
  }

  function HexDigit(d: nat, upper: bool): byte
    requires d < 16
  {
    if d < 10 then 0x30 + d else if upper then 0x37 + d else 0x57 + d
  }
}
