/** What the header of a response says: where it ends, and the body length its field announces. */
module HttpLength {
  import opened Bytes
  import opened HttpBuffer
  import opened HttpFraming

  // ----- the header, by its bytes -----

  /** The name of the length field, in any case, with its colon and one space. */
  predicate FieldAt(s: bytes, k: nat) {
    var name := Ascii("Content-Length: ");
    k + |name| <= |s| && forall j :: 0 <= j < |name| ==> SameLetter(s[k + j], name[j])
  }

  predicate EmptyLineAt(s: bytes, t: nat) {
    var line := Ascii("\r\n\r\n");
    t + |line| <= |s| && s[t..t + |line|] == line
  }

  /** The first length field stands at k, and the first empty line, which ends the header, at t. */
  ghost predicate Header(s: bytes, k: nat, t: nat) {
    FieldAt(s, k) && (forall i: nat :: i < k ==> !FieldAt(s, i)) &&
    EmptyLineAt(s, t) && (forall i: nat :: i < t ==> !EmptyLineAt(s, i))
  }

  lemma Names()
    ensures CONTENT_LENGTH == Ascii("Content-Length: ") && TERMINATOR == Ascii("\r\n\r\n")
  {
  }

  lemma FieldIff(s: bytes, k: nat)
    ensures FieldAt(s, k) <==> MatchesAt(s, k, CONTENT_LENGTH, true)
  {
    Names();
    forall a: byte, b: byte { SameByteIff(a, b); }
    hide SameByte, Ascii;
  }

  lemma EmptyLineIff(s: bytes, t: nat)
    ensures EmptyLineAt(s, t) <==> MatchesAt(s, t, TERMINATOR, false)
  {
    Names();
    OccursSlice(s, t, TERMINATOR);
    assert forall a: byte, b: byte :: SameByte(a, b, false) <==> a == b;
    hide SameByte, Ascii;
  }

  /** The two searches find the header where it is. */
  lemma HeaderFound(s: bytes, k: nat, t: nat)
    requires Header(s, k, t)
    ensures HasBodyLength(s) && LengthAt(s) == k + 16 && HeaderEnd(s) == t + 4
  {
    forall i: nat { FieldIff(s, i); }
    forall i: nat { EmptyLineIff(s, i); }
    hide FieldAt, EmptyLineAt, MatchesAt, First;
    assert IsFirst(s, CONTENT_LENGTH, true, LengthFieldAt(s)) && IsFirst(s, TERMINATOR, false, TerminatorAt(s));
  }

  // ----- the number -----

  /** White space, a sign or none, and digits stand at i, and no digit behind them. */
  ghost predicate LengthTextAt(s: bytes, i: nat, white: bytes, sign: bytes, digits: bytes) {
    var next := At(s, i + |white| + |sign| + |digits|);
    && Occurs(s, i, white + sign + digits) && (forall c :: c in white ==> c in {0x09, 0x0A, 0x0B, 0x0C, 0x0D, 0x20})
    && sign in {[], ['+' as int], ['-' as int]} && AllDigits(digits) && !IsDigit(next)
    && (digits == [] && sign == [] ==> next !in {0x09, 0x0A, 0x0B, 0x0C, 0x0D, 0x20, '+' as int, '-' as int})
  }

  /** The integer that is written there; without digits it is 0. */
  function Spelled(sign: bytes, digits: bytes): int
    requires AllDigits(digits)
  {
    if sign == ['-' as int] then -(DigitsValue(digits) as int) else DigitsValue(digits)
  }

  lemma {:induction false} WhiteSkipped(s: bytes, i: nat, white: bytes)
    requires Occurs(s, i, white) && forall c :: c in white ==> c in {0x09, 0x0A, 0x0B, 0x0C, 0x0D, 0x20}
    requires !IsSpace(At(s, i + |white|))
    ensures SkipSpaces(s, i) == i + |white|
    decreases |white|
  {
    if white == [] {
    } else {
      OccursConcat(s, i, [white[0]], white[1..]);
      assert [white[0]] + white[1..] == white && white[0] in white;
      OccursAt(s, i, white, 0);
      assert forall c :: c in white[1..] ==> c in white;
      WhiteSkipped(s, i + 1, white[1..]);
    }
  }

  lemma {:induction false} DigitsSkipped(s: bytes, i: nat, digits: bytes)
    requires Occurs(s, i, digits) && AllDigits(digits) && !IsDigit(At(s, i + |digits|))
    ensures SkipDigits(s, i) == i + |digits|
    decreases |digits|
  {
    if digits == [] {
    } else {
      OccursConcat(s, i, [digits[0]], digits[1..]);
      assert [digits[0]] + digits[1..] == digits;
      OccursAt(s, i, digits, 0);
      DigitsSkipped(s, i + 1, digits[1..]);
    }
  }

  lemma NumberParts(s: bytes, i: nat, white: bytes, sign: bytes, digits: bytes)
    requires LengthTextAt(s, i, white, sign, digits)
    ensures SkipSpaces(s, i) == i + |white| && DigitsAt(s, i) == i + |white| + |sign|
    ensures StopsAt(s, i) == i + |white| + |sign| + |digits| <= |s|
    ensures s[DigitsAt(s, i)..StopsAt(s, i)] == digits
    ensures At(s, i + |white|) == MINUS <==> sign == ['-' as int]
  {
    OccursConcat(s, i, white + sign, digits);
    OccursConcat(s, i, white, sign);
    var d := i + |white| + |sign|;
    if sign != [] { OccursAt(s, i + |white|, sign, 0); }
    if digits != [] { OccursAt(s, d, digits, 0); }
    OccursSlice(s, d, digits);
    DigitsSkipped(s, d, digits);
    WhiteSkipped(s, i, white);
    hide Occurs, SkipDigits, SkipSpaces;
  }

  /** strtol's long, assigned to an int: the number itself where it fits, and otherwise what is left of it modulo
      2^32; a number outside the range of a long gives the end of that range. */
  lemma LengthRead(s: bytes, i: nat, white: bytes, sign: bytes, digits: bytes)
    requires LengthTextAt(s, i, white, sign, digits)
    ensures i <= |s|
    ensures var n, r := Spelled(sign, digits), ReadLength(s, i);
            && -0x8000_0000 <= r < 0x8000_0000
            && (-0x8000_0000 <= n < 0x8000_0000 ==> r == n)
            && (-0x8000_0000_0000_0000 <= n < 0x8000_0000_0000_0000 ==> (r - n) % 0x1_0000_0000 == 0)
            && (n >= 0x8000_0000_0000_0000 ==> r == -1)
            && (n < -0x8000_0000_0000_0000 ==> r == 0)
  {
    NumberParts(s, i, white, sign, digits);
    hide DigitsValue, LengthTextAt, DigitsAt, StopsAt, SkipSpaces;
  }

  // ----- the response -----

  /** The body length is the number in the length field, and the header ends behind the empty line. */
  lemma BodyLengthIs(s: bytes, k: nat, t: nat, white: bytes, sign: bytes, digits: bytes)
    requires Header(s, k, t) && LengthTextAt(s, k + 16, white, sign, digits)
    requires -0x8000_0000 <= Spelled(sign, digits) < 0x8000_0000
    ensures HasBodyLength(s) && HeaderEnd(s) == t + 4 && BodyLength(s) == Spelled(sign, digits)
  {
    hide Header, LengthTextAt, ReadLength, DigitsValue;
    HeaderFound(s, k, t);
    LengthRead(s, k + 16, white, sign, digits);
  }

  /** What is waited for: the header and as many bytes as the field announces; a negative length is added in
      size_t, so that it takes from the header's own length or, if it is larger, wraps around. */
  lemma TotalIsHeaderPlusBody(s: bytes, k: nat, t: nat, white: bytes, sign: bytes, digits: bytes)
    requires Header(s, k, t) && LengthTextAt(s, k + 16, white, sign, digits) && |s| < 0x8000_0000
    requires -0x8000_0000 <= Spelled(sign, digits) < 0x8000_0000
    ensures var n := t + 4 + Spelled(sign, digits);
            Total(HeaderEnd(s), BodyLength(s)) == if n >= 0 then n else n + 0x1_0000_0000_0000_0000
  {
    BodyLengthIs(s, k, t, white, sign, digits);
    assert t + 4 <= |s|;
    hide Header, LengthTextAt, HeaderEnd, BodyLength, Spelled;
  }
}
