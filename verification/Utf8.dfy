/** UTF-8: the decoder parson uses to validate text, the encoder its \u escapes
    use, and the grammar of RFC 3629 they are measured against. */
module Utf8 {
  import opened Bytes

  // ----- the grammar of RFC 3629, section 4 -----

  predicate Tail(b: byte) { 0x80 <= b <= 0xBF }

  predicate IsUtf8Char(s: bytes) {
    || (|s| == 1 && s[0] <= 0x7F)
    || (|s| == 2 && 0xC2 <= s[0] <= 0xDF && Tail(s[1]))
    || (|s| == 3 && Tail(s[2]) && SecondOfThree(s[0], s[1]))
    || (|s| == 4 && Tail(s[2]) && Tail(s[3]) && SecondOfFour(s[0], s[1]))
  }

  predicate SecondOfThree(a: byte, b: byte) {
    || (a == 0xE0 && 0xA0 <= b <= 0xBF)
    || (0xE1 <= a <= 0xEC && Tail(b))
    || (a == 0xED && 0x80 <= b <= 0x9F)
    || (0xEE <= a <= 0xEF && Tail(b))
  }

  predicate SecondOfFour(a: byte, b: byte) {
    || (a == 0xF0 && 0x90 <= b <= 0xBF)
    || (0xF1 <= a <= 0xF3 && Tail(b))
    || (a == 0xF4 && 0x80 <= b <= 0x8F)
  }

  ghost predicate AllChars(parts: seq<bytes>) {
    forall i :: 0 <= i < |parts| ==> IsUtf8Char(parts[i])
  }

  /** UTF8-octets: a concatenation of characters. */
  ghost predicate IsUtf8(s: bytes) {
    exists parts :: AllChars(parts) && Flatten(parts) == s
  }

  // ----- the decoder -----

  predicate IsCont(b: byte) { b / 64 == 2 }

  function SequenceLength(c: byte): nat {
    if c == 0xC0 || c == 0xC1 || c > 0xF4 || IsCont(c) then 0
    else if c / 128 == 0 then 1
    else if c / 32 == 6 then 2
    else if c / 16 == 14 then 3
    else if c / 8 == 30 then 4
    else 0
  }

  /** The bits gathered from the sequence at offset i; None when a continuation byte is missing. */
  function GatherBits(s: bytes, i: nat): Option<nat> {
    var n := SequenceLength(At(s, i));
    if n == 1 then Some(At(s, i))
    else if n == 2 && IsCont(At(s, i + 1)) then
      Some(At(s, i) % 32 * 64 + At(s, i + 1) % 64)
    else if n == 3 && IsCont(At(s, i + 1)) && IsCont(At(s, i + 2)) then
      Some((At(s, i) % 16 * 64 + At(s, i + 1) % 64) * 64 + At(s, i + 2) % 64)
    else if n == 4 && IsCont(At(s, i + 1)) && IsCont(At(s, i + 2)) && IsCont(At(s, i + 3)) then
      Some(((At(s, i) % 8 * 64 + At(s, i + 1) % 64) * 64 + At(s, i + 2) % 64) * 64 + At(s, i + 3) % 64)
    else None
  }

  /** verify_utf8_sequence: the code point when the sequence at offset i is accepted. */
  function VerifySequence(s: bytes, i: nat): Option<nat> {
    match GatherBits(s, i)
    case None => None
    case Some(cp) =>
      var n := SequenceLength(At(s, i));
      if (cp < 0x80 && n > 1) || (cp < 0x800 && n > 2) || (cp < 0x10000 && n > 3) then None
      else if cp > 0x10FFFF then None
      else if 0xD800 <= cp <= 0xDFFF then None
      else Some(cp)
  }

  /** is_valid_utf8 as a walk over whole sequences. */
  predicate ValidFrom(s: bytes, i: nat)
    decreases |s| - i
  {
    i >= |s| ||
    (VerifySequence(s, i).Some? && SequenceLength(At(s, i)) > 0 && ValidFrom(s, i + SequenceLength(At(s, i))))
  }

  method IsValidUtf8(s: bytes) returns (valid: bool)
    ensures valid <==> IsUtf8(s)
  {
    var i := 0;
    while i < |s|
      invariant ValidFrom(s, 0) <==> ValidFrom(s, i)
      decreases |s| - i
    {
      if VerifySequence(s, i).None? {
        ValidIffUtf8(s);
        return false;
      }
      i := i + SequenceLength(At(s, i));
    }
    ValidIffUtf8(s);
    return true;
  }

  // ----- the decoder accepts exactly the grammar -----

  /** What the decoder accepts at an offset is a character of the grammar standing there. */
  lemma VerifiedIsChar(s: bytes, i: nat)
    requires i < |s| && VerifySequence(s, i).Some?
    ensures 1 <= SequenceLength(s[i]) && i + SequenceLength(s[i]) <= |s|
    ensures IsUtf8Char(s[i..i + SequenceLength(s[i])])
  {
  }

  /** And every character of the grammar standing at an offset is accepted there. */
  lemma CharIsVerified(s: bytes, i: nat, c: bytes)
    requires IsUtf8Char(c) && Occurs(s, i, c)
    ensures VerifySequence(s, i).Some? && SequenceLength(At(s, i)) == |c|
  {
    OccursAt(s, i, c, 0);
    if |c| > 1 { OccursAt(s, i, c, 1); }
    if |c| > 2 { OccursAt(s, i, c, 2); }
    if |c| > 3 { OccursAt(s, i, c, 3); }
  }

  lemma {:induction false} ValidGivesParts(s: bytes, i: nat) returns (parts: seq<bytes>)
    requires i <= |s| && ValidFrom(s, i)
    ensures AllChars(parts) && Flatten(parts) == s[i..]
    decreases |s| - i
  {
    if i == |s| {
      parts := [];
    } else {
      VerifiedIsChar(s, i);
      var n := SequenceLength(s[i]);
      var rest := ValidGivesParts(s, i + n);
      hide IsUtf8Char, ValidFrom;
      parts := [s[i..i + n]] + rest;
      assert parts[1..] == rest && parts[0] == s[i..i + n];
      assert s[i..] == s[i..i + n] + s[i + n..];
    }
  }

  lemma {:induction false} PartsGiveValid(s: bytes, i: nat, parts: seq<bytes>)
    requires i <= |s| && AllChars(parts) && Flatten(parts) == s[i..]
    ensures ValidFrom(s, i)
    decreases |parts|
  {
    hide IsUtf8Char, VerifySequence, SequenceLength;
    if parts == [] {
    } else {
      var n := |parts[0]|;
      FirstPart(s, i, parts);
      CharIsVerified(s, i, parts[0]);
      PartsGiveValid(s, i + n, parts[1..]);
    }
  }

  lemma FirstPart(s: bytes, i: nat, parts: seq<bytes>)
    requires i <= |s| && parts != [] && AllChars(parts) && Flatten(parts) == s[i..]
    ensures var n := |parts[0]|;
            n > 0 && i + n <= |s| && Occurs(s, i, parts[0]) && Flatten(parts[1..]) == s[i + n..] && AllChars(parts[1..])
  {
    var n := |parts[0]|;
    assert IsUtf8Char(parts[0]);
    assert s[i..][..n] == parts[0] && s[i..][n..] == Flatten(parts[1..]);
    assert s[i..i + n] == parts[0];
    OccursSlice(s, i, parts[0]);
    assert s[i + n..] == s[i..][n..];
  }

  /** is_valid_utf8 accepts exactly the concatenations of RFC 3629 characters. */
  lemma ValidIffUtf8(s: bytes)
    ensures ValidFrom(s, 0) <==> IsUtf8(s)
  {
    assert s[0..] == s;
    if ValidFrom(s, 0) {
      var parts := ValidGivesParts(s, 0);
    }
    if IsUtf8(s) {
      var parts :| AllChars(parts) && Flatten(parts) == s;
      PartsGiveValid(s, 0, parts);
    }
  }

  // ----- the encoder used by \u escapes -----

  function Encode(cp: nat): bytes
    requires cp <= 0x10FFFF
  {
    if cp < 0x80 then [cp]
    else if cp < 0x800 then [0xC0 + cp / 64 % 32, 0x80 + cp % 64]
    else if cp < 0x10000 then [0xE0 + cp / 4096 % 16, 0x80 + cp / 64 % 64, 0x80 + cp % 64]
    else [0xF0 + cp / 0x40000 % 8, 0x80 + cp / 4096 % 64, 0x80 + cp / 64 % 64, 0x80 + cp % 64]
  }

  predicate IsScalar(cp: nat) {
    cp <= 0x10FFFF && !(0xD800 <= cp <= 0xDFFF)
  }

  /** The low six bits of a continuation byte, and the class it belongs to. */
  lemma ContBits(x: nat)
    requires x < 64
    ensures (0x80 + x) / 64 == 2 && (0x80 + x) % 64 == x
  {
  }

  lemma LeadBits(x: nat)
    ensures x < 32 ==> (0xC0 + x) / 32 == 6 && (0xC0 + x) % 32 == x
    ensures x < 16 ==> (0xE0 + x) / 16 == 14 && (0xE0 + x) % 16 == x && (0xE0 + x) / 32 == 7
    ensures x < 8 ==> (0xF0 + x) / 8 == 30 && (0xF0 + x) % 8 == x && (0xF0 + x) / 16 == 15 && (0xF0 + x) / 32 == 7
  {
  }

  lemma SixBitGroups(cp: nat)
    requires cp <= 0x10FFFF
    ensures cp / 64 * 64 + cp % 64 == cp
    ensures cp / 4096 * 64 + cp / 64 % 64 == cp / 64
    ensures cp / 0x40000 * 64 + cp / 4096 % 64 == cp / 4096
    ensures cp / 0x40000 < 8 && (cp < 0x10000 ==> cp / 4096 < 16) && (cp < 0x800 ==> cp / 64 < 32)
  {
  }

  /** The text begins with the encoding of cp. */
  predicate Begins(s: bytes, cp: nat)
    requires cp <= 0x10FFFF
  {
    |Encode(cp)| <= |s| && s[..|Encode(cp)|] == Encode(cp)
  }

  lemma BeginsAt(s: bytes, cp: nat, k: nat)
    requires cp <= 0x10FFFF && Begins(s, cp) && k < |Encode(cp)|
    ensures At(s, k) == Encode(cp)[k]
  {
    assert s[..|Encode(cp)|][k] == s[k];
  }

  lemma GatherTwo(cp: nat, s: bytes)
    requires 0x80 <= cp < 0x800 && Begins(s, cp)
    ensures GatherBits(s, 0) == Some(cp) && SequenceLength(At(s, 0)) == 2
  {
    BeginsAt(s, cp, 0);
    BeginsAt(s, cp, 1);
    SixBitGroups(cp);
    LeadBits(cp / 64);
    ContBits(cp % 64);
    hide Begins;
  }

  lemma GatherThree(cp: nat, s: bytes)
    requires 0x800 <= cp < 0x10000 && Begins(s, cp)
    ensures GatherBits(s, 0) == Some(cp) && SequenceLength(At(s, 0)) == 3
  {
    BeginsAt(s, cp, 0);
    BeginsAt(s, cp, 1);
    BeginsAt(s, cp, 2);
    SixBitGroups(cp);
    LeadBits(cp / 4096);
    ContBits(cp / 64 % 64);
    ContBits(cp % 64);
    hide Begins;
  }

  lemma GatherFour(cp: nat, s: bytes)
    requires 0x10000 <= cp <= 0x10FFFF && Begins(s, cp)
    ensures GatherBits(s, 0) == Some(cp) && SequenceLength(At(s, 0)) == 4
  {
    BeginsAt(s, cp, 0);
    BeginsAt(s, cp, 1);
    BeginsAt(s, cp, 2);
    BeginsAt(s, cp, 3);
    SixBitGroups(cp);
    LeadBits(cp / 0x40000);
    ContBits(cp / 4096 % 64);
    ContBits(cp / 64 % 64);
    ContBits(cp % 64);
    hide Begins;
  }

  lemma GatherEncoded(cp: nat, s: bytes)
    requires IsScalar(cp) && Begins(s, cp)
    ensures GatherBits(s, 0) == Some(cp) && SequenceLength(At(s, 0)) == |Encode(cp)|
  {
    if cp < 0x80 {
      BeginsAt(s, cp, 0);
    } else {
      hide GatherBits, SequenceLength, Begins;
      if cp < 0x800 { GatherTwo(cp, s); } else if cp < 0x10000 { GatherThree(cp, s); } else { GatherFour(cp, s); }
    }
  }

  lemma EncodedLength(cp: nat)
    requires cp <= 0x10FFFF
    ensures |Encode(cp)| == if cp < 0x80 then 1 else if cp < 0x800 then 2 else if cp < 0x10000 then 3 else 4
  {
  }

  /** Six more bits, from a continuation byte. */
  function Further(high: int, b: byte): int {
    0x40 * high + (b - 0x80)
  }

  /** Six bits taken off and put back. */
  lemma SixBits(cp: nat)
    ensures cp == Further(cp / 0x40, 0x80 + cp % 0x40)
  {
  }

  lemma Quotients(cp: nat)
    ensures cp / 0x1000 == cp / 0x40 / 0x40 && cp / 0x4_0000 == cp / 0x40 / 0x40 / 0x40
  {
  }

  lemma Leads(cp: nat)
    ensures cp < 0x800 ==> cp / 0x40 % 32 == cp / 0x40
    ensures cp < 0x10000 ==> cp / 0x1000 % 16 == cp / 0x1000
    ensures cp <= 0x10FFFF ==> cp / 0x4_0000 % 8 == cp / 0x4_0000
  {
  }

  /** The code point from the bytes, as in the table of RFC 3629, section 3: the first byte without its mark,
      followed by six bits of every other. */
  lemma EncodeBits(cp: nat)
    requires cp <= 0x10FFFF
    ensures var e := Encode(cp);
            match |e|
            case 1 => cp == e[0]
            case 2 => cp == Further(e[0] - 0xC0, e[1])
            case 3 => cp == Further(Further(e[0] - 0xE0, e[1]), e[2])
            case _ => |e| == 4 && cp == Further(Further(Further(e[0] - 0xF0, e[1]), e[2]), e[3])
  {
    hide Further;
    Quotients(cp);
    Leads(cp);
    SixBits(cp);
    SixBits(cp / 0x40);
    SixBits(cp / 0x40 / 0x40);
  }

  /** What the encoder writes is one character, and the decoder reads the code point back. */
  lemma EncodeVerifies(cp: nat, rest: bytes)
    requires IsScalar(cp)
    ensures VerifySequence(Encode(cp) + rest, 0) == Some(cp)
    ensures SequenceLength(At(Encode(cp) + rest, 0)) == |Encode(cp)|
    ensures IsUtf8Char(Encode(cp))
  {
    var s := Encode(cp) + rest;
    assert s[..|Encode(cp)|] == Encode(cp);
    GatherEncoded(cp, s);
    EncodedLength(cp);
    hide Encode, GatherBits, SequenceLength;
    VerifiedIsChar(s, 0);
  }

  // ----- concatenation -----

  lemma {:induction false} FlattenConcat(a: seq<bytes>, b: seq<bytes>)
    ensures Flatten(a + b) == Flatten(a) + Flatten(b)
  {
    if a == [] {
      assert a + b == b;
    } else {
      assert (a + b)[1..] == a[1..] + b;
      FlattenConcat(a[1..], b);
    }
  }

  /** A leading character may be put on or taken off without changing well-formedness. */
  lemma PrependChar(c: bytes, s: bytes)
    requires IsUtf8Char(c)
    ensures IsUtf8(c + s) <==> IsUtf8(s)
  {
    if IsUtf8(s) {
      var parts :| AllChars(parts) && Flatten(parts) == s;
      assert ([c] + parts)[1..] == parts;
      assert AllChars([c] + parts) && Flatten([c] + parts) == c + s;
    }
    if IsUtf8(c + s) {
      ValidIffUtf8(c + s);
      assert (c + s)[0..|c|] == c;
      CharIsVerified(c + s, 0, c);
      var parts := ValidGivesParts(c + s, |c|);
      assert (c + s)[|c|..] == s;
    }
  }
}
