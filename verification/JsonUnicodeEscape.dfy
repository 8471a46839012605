/** \u escapes measured against UTF-16: which ones are accepted, and what they write. */
module JsonUnicodeEscape {
  import opened Bytes
  import opened Utf8
  import opened JsonString

  const LETTER_U: byte := 0x75

  /** UTF-16 code units of a scalar value: one, or a surrogate pair. */
  function Utf16(cp: nat): (units: seq<nat>)
    requires IsScalar(cp)
    ensures forall k :: 0 <= k < |units| ==> units[k] <= 0xFFFF
  {
    if cp < 0x10000 then [cp] else [0xD800 + (cp - 0x10000) / 1024, 0xDC00 + (cp - 0x10000) % 1024]
  }

  /** Four hexadecimal digits, each in either case. */
  function HexText(x: nat, upper: seq<bool>): bytes
    requires x <= 0xFFFF && |upper| == 4
  {
    [HexDigit(x / 16 / 16 / 16, upper[0]), HexDigit(x / 16 / 16 % 16, upper[1]), HexDigit(x / 16 % 16, upper[2]),
        HexDigit(x % 16, upper[3])]
  }

  /** Four hexadecimal digits at offset i spell x. */
  ghost predicate SpellsHex(s: bytes, i: nat, x: nat)
    requires x <= 0xFFFF
  {
    exists upper: seq<bool> :: |upper| == 4 && Occurs(s, i, HexText(x, upper))
  }

  predicate EscapeAt(s: bytes, i: nat) { At(s, i) == BACKSLASH && At(s, i + 1) == LETTER_U }

  ghost predicate SpellsUnit(s: bytes, i: nat, x: nat)
    requires x <= 0xFFFF
  {
    EscapeAt(s, i) && SpellsHex(s, i + 2, x)
  }

  /** At offset i the text spells a scalar value, one escape for each of its UTF-16 code units. */
  ghost predicate Spells(s: bytes, i: nat, cp: nat)
    requires IsScalar(cp)
  {
    forall k :: 0 <= k < |Utf16(cp)| ==> SpellsUnit(s, i + 6 * k, Utf16(cp)[k])
  }

  lemma HexWrites(c: byte)
    requires HexValue(c) >= 0
    ensures HexDigit(HexValue(c), 0x41 <= c <= 0x46) == c
  {
  }

  lemma LastDigit(y: nat, d: nat)
    requires d < 16
    ensures (16 * y + d) / 16 == y && (16 * y + d) % 16 == d
  {
  }

  lemma FourDigits(a: nat, b: nat, c: nat, d: nat)
    requires a < 16 && b < 16 && c < 16 && d < 16
    ensures var x := a * 4096 + b * 256 + c * 16 + d;
            x <= 0xFFFF && x / 16 / 16 / 16 == a && x / 16 / 16 % 16 == b && x / 16 % 16 == c && x % 16 == d
  {
    LastDigit(16 * (16 * a + b) + c, d);
    LastDigit(16 * a + b, c);
    LastDigit(a, b);
  }

  /** parse_utf16_hex reads x exactly where four hexadecimal digits spell it. */
  lemma Hex4Iff(s: bytes, i: nat, x: nat)
    requires x <= 0xFFFF
    ensures Hex4(s, i) == Some(x) <==> SpellsHex(s, i, x)
  {
    if Hex4(s, i) == Some(x) {
      Hex4Spelled(s, i, x);
    }
    if SpellsHex(s, i, x) {
      var upper: seq<bool> :| |upper| == 4 && Occurs(s, i, HexText(x, upper));
      Hex4Reads(s, i, x, upper);
    }
  }

  lemma Hex4Reads(s: bytes, i: nat, x: nat, upper: seq<bool>)
    requires x <= 0xFFFF && |upper| == 4 && Occurs(s, i, HexText(x, upper))
    ensures Hex4(s, i) == Some(x)
  {
    var w := HexText(x, upper);
    HexDigitReads(x / 16 / 16 / 16, upper[0]);
    HexDigitReads(x / 16 / 16 % 16, upper[1]);
    HexDigitReads(x / 16 % 16, upper[2]);
    HexDigitReads(x % 16, upper[3]);
    Positional(x);
    hide HexValue, HexDigit;
    assert s[i + 0] == w[0] && s[i + 1] == w[1] && s[i + 2] == w[2] && s[i + 3] == w[3];
  }

  lemma Positional(x: nat)
    requires x <= 0xFFFF
    ensures x == x / 16 / 16 / 16 * 4096 + x / 16 / 16 % 16 * 256 + x / 16 % 16 * 16 + x % 16
  {
    var y := x / 16;
    var z := y / 16;
    assert x == 16 * y + x % 16 && y == 16 * z + y % 16 && z == 16 * (z / 16) + z % 16;
  }

  lemma Hex4Spelled(s: bytes, i: nat, x: nat)
    requires x <= 0xFFFF && Hex4(s, i) == Some(x)
    ensures SpellsHex(s, i, x)
  {
    var a, b, c, d := s[i], s[i + 1], s[i + 2], s[i + 3];
    HexWrites(a);
    HexWrites(b);
    HexWrites(c);
    HexWrites(d);
    FourDigits(HexValue(a), HexValue(b), HexValue(c), HexValue(d));
    var upper := [0x41 <= a <= 0x46, 0x41 <= b <= 0x46, 0x41 <= c <= 0x46, 0x41 <= d <= 0x46];
    hide HexValue, HexDigit;
    assert HexText(x, upper) == [a, b, c, d];
    assert Occurs(s, i, HexText(x, upper));
  }

  /** The code point parse_utf16 makes of two surrogates. */
  function Combined(lead: nat, trail: nat): (cp: nat)
    requires 0xD800 <= lead && 0xDC00 <= trail
    ensures 0x10000 <= cp <= 0x10FFFF
  {
    (lead - 0xD800) % 1024 * 1024 + (trail - 0xDC00) % 1024 + 0x10000
  }

  /** What a surrogate pair stands for, and back. */
  lemma SurrogatePair(lead: nat, trail: nat)
    requires 0xD800 <= lead <= 0xDBFF && 0xDC00 <= trail <= 0xDFFF
    ensures Utf16(Combined(lead, trail)) == [lead, trail]
  {
  }

  lemma PairOf(cp: nat)
    requires IsScalar(cp) && cp >= 0x10000
    ensures var lead, trail := Utf16(cp)[0], Utf16(cp)[1];
            0xD800 <= lead <= 0xDBFF && 0xDC00 <= trail <= 0xDFFF && Combined(lead, trail) == cp
  {
  }

  /** The decision of parse_utf16, in terms of the one or two units it reads. */
  lemma UnitsDecide(s: bytes, i: nat)
    requires EscapeAt(s, i)
    ensures var u, first := UnescapeUnit(s, i), Hex4(s, i + 2);
            && (first.None? ==> u == Bad)
            && (first.Some? && (first.value < 0xD800 || first.value > 0xDFFF) ==> u == Emit(Encode(first.value), i + 6))
            && (first.Some? && 0xDC00 <= first.value <= 0xDFFF ==> u == Bad)
            && (first.Some? && 0xD800 <= first.value <= 0xDBFF ==>
                  var second := Hex4(s, i + 8);
                  if !EscapeAt(s, i + 6) || second.None? || !(0xDC00 <= second.value <= 0xDFFF) then u == Bad
                  else u == Emit(Encode(Combined(first.value, second.value)), i + 12))
  {
    hide Hex4, Encode;
  }

  /** Every scalar value, spelled with escapes, is written as its UTF-8 encoding, and all its escapes are read. */
  lemma SpelledIsWritten(s: bytes, i: nat, cp: nat)
    requires IsScalar(cp) && Spells(s, i, cp)
    ensures UnescapeUnit(s, i) == Emit(Encode(cp), i + 6 * |Utf16(cp)|)
  {
    hide Hex4, Encode, UnescapeUnit, SpellsHex, Combined;
    assert SpellsUnit(s, i + 6 * 0, Utf16(cp)[0]);
    Hex4Iff(s, i + 2, Utf16(cp)[0]);
    UnitsDecide(s, i);
    if cp >= 0x10000 {
      PairOf(cp);
      assert SpellsUnit(s, i + 6 * 1, Utf16(cp)[1]);
      Hex4Iff(s, i + 8, Utf16(cp)[1]);
    }
  }

  /** And nothing else is accepted: whatever a \u escape writes, it was spelled there. */
  lemma WrittenIsSpelled(s: bytes, i: nat) returns (cp: nat)
    requires EscapeAt(s, i) && UnescapeUnit(s, i).Emit?
    ensures IsScalar(cp) && Spells(s, i, cp)
  {
    hide Hex4, Encode, UnescapeUnit, SpellsHex, Combined;
    UnitsDecide(s, i);
    var first := Hex4(s, i + 2).value;
    Hex4Iff(s, i + 2, first);
    if first < 0xD800 || first > 0xDFFF {
      cp := first;
      assert SpellsUnit(s, i + 6 * 0, first);
    } else {
      var second := Hex4(s, i + 8).value;
      Hex4Iff(s, i + 8, second);
      SurrogatePair(first, second);
      cp := Combined(first, second);
      assert SpellsUnit(s, i + 6 * 0, first) && SpellsUnit(s, i + 6 * 1, second);
    }
  }

  /** So a \u escape is accepted exactly where a scalar value is spelled, and what it writes decodes to
      that value. */
  lemma EscapeAcceptedIff(s: bytes, i: nat)
    requires EscapeAt(s, i)
    ensures UnescapeUnit(s, i).Emit? <==> exists cp: nat :: IsScalar(cp) && Spells(s, i, cp)
    ensures forall cp: nat :: IsScalar(cp) && Spells(s, i, cp) ==>
              UnescapeUnit(s, i).Emit? && VerifySequence(UnescapeUnit(s, i).text, 0) == Some(cp)
  {
    hide UnescapeUnit, Spells, VerifySequence;
    if UnescapeUnit(s, i).Emit? {
      var cp := WrittenIsSpelled(s, i);
    }
    forall cp: nat | IsScalar(cp) && Spells(s, i, cp)
      ensures UnescapeUnit(s, i).Emit? && VerifySequence(UnescapeUnit(s, i).text, 0) == Some(cp)
    {
      SpelledIsWritten(s, i, cp);
      EncodeVerifies(cp, []);
      assert Encode(cp) + [] == Encode(cp);
    }
  }
}
