/** strtod, for a text that starts with a digit or '-': the longest number that stands there. */
module NumberScan {
  import opened Bytes
  import opened JsonValue
  import opened NumberLiteral

  /** What is converted: the value, if it is an integer a double holds exactly other than -0, and where the
      conversion ends; or infinity or NaN. */
  datatype Conversion = Converted(exact: Option<ExactInt>, end: nat) | NotFinite

  function FirstDigit(s: bytes, i: nat): (first: nat)
    ensures i <= first && (i <= |s| ==> first <= |s|)
  {
    if At(s, i) == MINUS then i + 1 else i
  }

  predicate HexAt(s: bytes, i: nat) {
    At(s, i) == ZERO && HexTailAt(s, i + 1)
  }

  function FractionEnd(s: bytes, i: nat, hex: bool): nat {
    if At(s, i) == DOT then SkipDigits(s, i + 1, hex) else i
  }

  function ExponentEnd(s: bytes, i: nat, hex: bool): nat {
    if ExponentAt(s, i, hex) then SkipDigits(s, ExponentDigits(s, i)) else i
  }

  function ScanExponent(s: bytes, i: nat): Exponent
    requires ExponentAt(s, i, true) || ExponentAt(s, i)
  {
    var d := ExponentDigits(s, i);
    Exponent(s[i], s[i + 1..d], s[d..SkipDigits(s, d)])
  }

  /** The number that stands at i, and where it ends. */
  function Scan(s: bytes, i: nat): (r: (Literal, nat))
    requires NumeralAt(s, FirstDigit(s, i))
  {
    var first := FirstDigit(s, i);
    var hex := HexAt(s, first);
    var p := if hex then first + 2 else first;
    var a := SkipDigits(s, p, hex);
    var b := FractionEnd(s, a, hex);
    var fraction := if At(s, a) == DOT then Some(s[a + 1..b]) else None;
    var exponent := if ExponentAt(s, b, hex) then Some(ScanExponent(s, b)) else None;
    (Literal(first > i, s[first..p], s[p..a], fraction, exponent), ExponentEnd(s, b, hex))
  }

  function Scaled(m: nat, scale: int): Option<nat> {
    if scale >= 0 then Some(m * Pow10(scale))
    else if m % Pow10(-scale) == 0 then Some(m / Pow10(-scale))
    else None
  }

  function ExactValue(l: Literal): Option<ExactInt>
    requires IsLiteral(l)
  {
    if Hex(l) then None
    else
      match Scaled(Mantissa(l), Scale(l))
      case None => None
      case Some(a) =>
        var n: int := if l.minus then 0 - a else a;
        if a > MAX_EXACT || (l.minus && a == 0) then None else Some(n)
  }

  lemma ScannedExponent(s: bytes, i: nat, hex: bool)
    requires ExponentAt(s, i, hex)
    ensures IsExponent(ScanExponent(s, i), hex)
  {
    var sign := ScanExponent(s, i).sign;
    if At(s, i + 1) in {PLUS, MINUS} {
      assert sign == [s[i + 1]];
    } else {
      assert sign == [];
    }
  }

  lemma ScanIsLiteral(s: bytes, i: nat)
    requires NumeralAt(s, FirstDigit(s, i))
    ensures IsLiteral(Scan(s, i).0)
  {
    hide SkipDigits, IsExponent, ScanExponent, HexAt, IsPrefix, ExponentAt;
    var first := FirstDigit(s, i);
    var hex := HexAt(s, first);
    var p := if hex then first + 2 else first;
    var a := SkipDigits(s, p, hex);
    var b := FractionEnd(s, a, hex);
    var l := Scan(s, i).0;
    if hex { HexPrefix(s, first); }
    assert l.prefix == s[first..p];
    assert l.whole == s[p..a] && l.fraction == if At(s, a) == DOT then Some(s[a + 1..b]) else None;
    assert l.exponent == if ExponentAt(s, b, hex) then Some(ScanExponent(s, b)) else None;
    DigitsBetween(s, p, hex);
    if At(s, a) == DOT { DigitsBetween(s, a + 1, hex); }
    if ExponentAt(s, b, hex) { ScannedExponent(s, b, hex); }
    NumeralDigits(s, p, hex);
  }

  lemma HexPrefix(s: bytes, i: nat)
    requires HexAt(s, i)
    ensures i + 2 < |s| && IsPrefix(s[i..i + 2]) && NumeralAt(s, i + 2, true)
  {
  }

  lemma DigitsBetween(s: bytes, i: nat, hex: bool)
    requires i <= |s|
    ensures AllDigits(s[i..SkipDigits(s, i, hex)], hex)
  {
  }

  lemma NumeralDigits(s: bytes, p: nat, hex: bool)
    requires NumeralAt(s, p, hex)
    ensures var a := SkipDigits(s, p, hex);
            p <= a <= |s| && (p < a || (At(s, a) == DOT && a + 1 < FractionEnd(s, a, hex)))
  {
  }

  function Strtod(s: bytes, i: nat): (r: Conversion)
    ensures r.Converted? && i <= |s| ==> i <= r.end <= |s|
  {
    var first := FirstDigit(s, i);
    if NumeralAt(s, first) then
      ScanIsLiteral(s, i);
      ScanStands(s, i);
      Converted(ExactValue(Scan(s, i).0), Scan(s, i).1)
    else if WordAt(s, first, INF) || WordAt(s, first, NAN) then NotFinite
    else Converted(Some(0), i)
  }

  // ----- the value is what the digits say -----

  lemma Quotient(m: nat, p: nat, a: nat)
    requires p > 0
    ensures m % p == 0 && m / p == a <==> a * p == m
  {
    var q, r := m / p, m % p;
    assert m == q * p + r;
    Times(q + 1, a, p);
    Times(a + 1, q, p);
  }

  lemma Times(x: nat, y: nat, p: nat)
    ensures x <= y ==> x * p <= y * p
  {
  }

  /** strtod's value is n exactly when the literal is worth n. */
  lemma ExactValueIff(l: Literal, n: ExactInt)
    requires IsLiteral(l)
    ensures ExactValue(l) == Some(n) <==> Worth(l, n)
  {
    hide Mantissa, Scale, Pow10;
    if !Hex(l) {
      var m, scale := Mantissa(l), Scale(l);
      if scale < 0 {
        Quotient(m, Pow10(-scale), if n < 0 then -n else n);
      }
    }
  }

  // ----- the text up to the end is a number of the expected form, and the longest -----

  ghost predicate ExponentParts(s: bytes, b: nat, x: Exponent, j: nat) {
    var d := b + 1 + |x.sign|;
    d + |x.digits| == j && b < j <= |s| && s[b] == x.letter && s[b + 1..d] == x.sign && s[d..j] == x.digits
  }

  /** Where the parts of a literal end: sign and prefix at p, digits at a, fraction at b, all of it at j. */
  ghost predicate Parts(s: bytes, i: nat, l: Literal, p: nat, a: nat, b: nat, j: nat) {
    && i <= p <= a <= b <= j <= |s|
    && (l.minus <==> At(s, i) == MINUS)
    && p == FirstDigit(s, i) + |l.prefix| && s[FirstDigit(s, i)..p] == l.prefix
    && s[p..a] == l.whole
    && (l.fraction.Some? ==> At(s, a) == DOT && a < b && s[a + 1..b] == l.fraction.value)
    && (l.fraction.None? ==> a == b)
    && (l.exponent.Some? ==> ExponentParts(s, b, l.exponent.value, j))
    && (l.exponent.None? ==> b == j)
  }

  lemma SpellingIff(s: bytes, i: nat, l: Literal)
    ensures var p := i + |Sign(l)| + |l.prefix|;
            var a := p + |l.whole|;
            var b := a + |FractionText(l)|;
            b + |ExponentText(l)| == i + |Spelling(l)| &&
            (Occurs(s, i, Spelling(l)) <==>
               Occurs(s, i, Sign(l)) && Occurs(s, i + |Sign(l)|, l.prefix) && Occurs(s, p, l.whole) &&
               Occurs(s, a, FractionText(l)) && Occurs(s, b, ExponentText(l)))
  {
    hide Occurs, Sign, FractionText, ExponentText;
    OccursConcat(s, i, Sign(l) + l.prefix + l.whole + FractionText(l), ExponentText(l));
    OccursConcat(s, i, Sign(l) + l.prefix + l.whole, FractionText(l));
    OccursConcat(s, i, Sign(l) + l.prefix, l.whole);
    OccursConcat(s, i, Sign(l), l.prefix);
  }

  lemma SignIff(s: bytes, i: nat, l: Literal)
    ensures Occurs(s, i, Sign(l)) <==> i <= |s| && (l.minus ==> At(s, i) == MINUS)
  {
    if l.minus && Occurs(s, i, Sign(l)) { OccursAt(s, i, [MINUS], 0); }
  }

  lemma FractionIff(s: bytes, a: nat, l: Literal, b: nat)
    requires b == a + |FractionText(l)|
    ensures Occurs(s, a, FractionText(l)) <==>
              b <= |s| && (l.fraction.Some? ==> At(s, a) == DOT && s[a + 1..b] == l.fraction.value)
  {
    if l.fraction.Some? {
      OccursConcat(s, a, [DOT], l.fraction.value);
      OccursSlice(s, a + 1, l.fraction.value);
      if Occurs(s, a, [DOT]) { OccursAt(s, a, [DOT], 0); }
    }
  }

  lemma ExponentIff(s: bytes, b: nat, l: Literal, j: nat)
    requires j == b + |ExponentText(l)|
    ensures Occurs(s, b, ExponentText(l)) <==>
              j <= |s| && (l.exponent.Some? ==> ExponentParts(s, b, l.exponent.value, j))
  {
    hide Occurs;
    if l.exponent.Some? {
      var x := l.exponent.value;
      OccursConcat(s, b, [x.letter] + x.sign, x.digits);
      OccursConcat(s, b, [x.letter], x.sign);
      OneByteOccurs(s, b, x.letter);
      OccursSlice(s, b + 1, x.sign);
      OccursSlice(s, b + 1 + |x.sign|, x.digits);
    } else {
      NothingOccurs(s, b);
    }
  }

  lemma OneByteOccurs(s: bytes, i: nat, c: byte)
    ensures Occurs(s, i, [c]) <==> i < |s| && s[i] == c
  {
    if Occurs(s, i, [c]) { OccursAt(s, i, [c], 0); }
  }

  lemma NothingOccurs(s: bytes, i: nat)
    ensures Occurs(s, i, []) <==> i <= |s|
  {
  }

  /** A number of the expected form does not start with another sign. */
  lemma OneSign(s: bytes, p: nat, l: Literal)
    requires IsLiteral(l) && Occurs(s, p, l.prefix) && Occurs(s, p + |l.prefix|, l.whole)
    requires Occurs(s, p + |l.prefix| + |l.whole|, FractionText(l))
    ensures At(s, p) != MINUS
  {
    if l.prefix != [] {
      OccursAt(s, p, l.prefix, 0);
    } else if l.whole != [] {
      OccursAt(s, p, l.whole, 0);
    } else {
      FractionIff(s, p, l, p + |FractionText(l)|);
    }
  }

  lemma PartsOf(s: bytes, i: nat, l: Literal) returns (p: nat, a: nat, b: nat)
    requires IsLiteral(l) && Occurs(s, i, Spelling(l))
    ensures Parts(s, i, l, p, a, b, i + |Spelling(l)|)
  {
    hide IsLiteral, Occurs, Spelling;
    p := i + |Sign(l)| + |l.prefix|;
    a := p + |l.whole|;
    b := a + |FractionText(l)|;
    SpellingIff(s, i, l);
    SignIff(s, i, l);
    OneSign(s, i + |Sign(l)|, l);
    OccursSlice(s, i + |Sign(l)|, l.prefix);
    OccursSlice(s, p, l.whole);
    FractionIff(s, a, l, b);
    ExponentIff(s, b, l, i + |Spelling(l)|);
  }

  lemma PartLengths(s: bytes, i: nat, l: Literal, p: nat, a: nat, b: nat, j: nat)
    requires Parts(s, i, l, p, a, b, j)
    ensures FirstDigit(s, i) == i + |Sign(l)| && p == i + |Sign(l)| + |l.prefix| && a == p + |l.whole|
    ensures b == a + |FractionText(l)| && j == b + |ExponentText(l)|
  {
  }

  lemma PartsSpell(s: bytes, i: nat, l: Literal, p: nat, a: nat, b: nat, j: nat)
    requires Parts(s, i, l, p, a, b, j)
    ensures Occurs(s, i, Spelling(l)) && j == i + |Spelling(l)|
  {
    PartLengths(s, i, l, p, a, b, j);
    hide Occurs, Spelling, Sign, FractionText, ExponentText, FirstDigit, ExponentParts;
    SpellingIff(s, i, l);
    SignIff(s, i, l);
    OccursSlice(s, i + |Sign(l)|, l.prefix);
    OccursSlice(s, p, l.whole);
    FractionIff(s, a, l, b);
    ExponentIff(s, b, l, j);
  }

  /** What strtod converts is a number of the expected form that nothing behind it makes longer. */
  lemma ScanStands(s: bytes, i: nat)
    requires NumeralAt(s, FirstDigit(s, i))
    ensures var (l, end) := Scan(s, i);
            i < end <= |s| && Occurs(s, i, Spelling(l)) && end == i + |Spelling(l)| && !Continues(s, end, l)
  {
    var (l, end) := Scan(s, i);
    var p, a, b := ScanParts(s, i);
    PartsSpell(s, i, l, p, a, b, end);
    hide SkipDigits, Parts, Occurs, Spelling;
  }

  lemma ExponentScanned(s: bytes, b: nat, hex: bool)
    requires b <= |s|
    ensures b <= ExponentEnd(s, b, hex) <= |s|
    ensures if ExponentAt(s, b, hex) then
              b < ExponentEnd(s, b, hex) &&
              ExponentParts(s, b, ScanExponent(s, b), ExponentEnd(s, b, hex)) && !IsDigit(At(s, ExponentEnd(s, b, hex)))
            else ExponentEnd(s, b, hex) == b
  {
    if ExponentAt(s, b, hex) {
      var d := ExponentDigits(s, b);
      assert b < d <= SkipDigits(s, d) <= |s|;
    }
    hide SkipDigits;
  }

  lemma FractionScanned(s: bytes, a: nat, hex: bool)
    requires a <= |s| && !IsDigitOf(At(s, a), hex)
    ensures a <= FractionEnd(s, a, hex) <= |s| && !IsDigitOf(At(s, FractionEnd(s, a, hex)), hex)
    ensures (At(s, a) == DOT && a < FractionEnd(s, a, hex)) || (At(s, a) != DOT && a == FractionEnd(s, a, hex))
  {
  }

  lemma ScanParts(s: bytes, i: nat) returns (p: nat, a: nat, b: nat)
    requires NumeralAt(s, FirstDigit(s, i))
    ensures var (l, end) := Scan(s, i); i < end && Parts(s, i, l, p, a, b, end) && !Continues(s, end, l)
  {
    hide SkipDigits, ExponentAt, ScanExponent, ExponentParts, FractionEnd, ExponentEnd, IsDigitOf, HexAt, HexTailAt,
      NumeralAt;
    var first := FirstDigit(s, i);
    var hex := HexAt(s, first);
    if hex { HexPrefix(s, first); }
    p := if hex then first + 2 else first;
    a := SkipDigits(s, p, hex);
    b := FractionEnd(s, a, hex);
    NumeralDigits(s, p, hex);
    FractionScanned(s, a, hex);
    ExponentScanned(s, b, hex);
    TailOfHex(s, first);
    assert p < a ==> s[p..a][0] == s[p];
  }

  lemma TailOfHex(s: bytes, i: nat)
    ensures At(s, i) == ZERO && HexTailAt(s, i + 1) ==> HexAt(s, i)
  {
  }

  lemma {:induction false} DigitRun(s: bytes, p: nat, a: nat, hex: bool)
    requires p <= a <= |s| && AllDigits(s[p..a], hex)
    ensures a <= SkipDigits(s, p, hex)
    ensures !IsDigitOf(At(s, a), hex) ==> SkipDigits(s, p, hex) == a
    decreases a - p
  {
    if p < a {
      assert s[p..a][0] == s[p] && s[p + 1..a] == s[p..a][1..];
      DigitRun(s, p + 1, a, hex);
    }
  }

  lemma RunGoesOn(s: bytes, p: nat, a: nat, hex: bool)
    requires p <= a <= |s| && AllDigits(s[p..a], hex)
    ensures IsDigitOf(At(s, a), hex) ==> a < SkipDigits(s, p, hex)
  {
    DigitRun(s, p, a, hex);
  }

  lemma ExponentRun(s: bytes, b: nat, x: Exponent, j: nat, hex: bool)
    requires IsExponent(x, hex) && ExponentParts(s, b, x, j)
    ensures ExponentAt(s, b, hex) && !IsDigitOf(At(s, b), hex) && At(s, b) != DOT
    ensures if IsDigit(At(s, j)) then j < ExponentEnd(s, b, hex)
            else j == ExponentEnd(s, b, hex) && x == ScanExponent(s, b)
  {
    var d := b + 1 + |x.sign|;
    assert s[d..j][0] == s[d];
    if x.sign != [] { assert s[b + 1..d][0] == s[b + 1]; }
    DigitRun(s, d, j, false);
    RunGoesOn(s, d, j, false);
    hide SkipDigits;
  }

  lemma NoDigits(hex: bool)
    ensures !IsDigitOf(DOT, hex)
  {
  }

  /** How far the digits and the point reach, beside those of the literal. */
  lemma BodyRun(s: bytes, i: nat, l: Literal, p: nat, a: nat, b: nat, j: nat)
    requires IsLiteral(l) && Parts(s, i, l, p, a, b, j)
    ensures var hex := Hex(l);
            var A := SkipDigits(s, p, hex);
            var B := FractionEnd(s, A, hex);
            if IsDigitOf(At(s, b), hex) || (l.fraction.None? && At(s, b) == DOT) then b < B else a == A && b == B
  {
    hide SkipDigits, ExponentParts, IsExponent, IsDigitOf;
    var hex := Hex(l);
    DigitRun(s, p, a, hex);
    RunGoesOn(s, p, a, hex);
    if l.fraction.Some? {
      DigitRun(s, a + 1, b, hex);
      RunGoesOn(s, a + 1, b, hex);
    }
    NoDigits(hex);
  }

  lemma StartsNumeral(s: bytes, i: nat, l: Literal, p: nat, a: nat, b: nat, j: nat)
    requires IsLiteral(l) && Parts(s, i, l, p, a, b, j)
    ensures NumeralAt(s, p, Hex(l)) && NumeralAt(s, FirstDigit(s, i))
    ensures Hex(l) ==> HexAt(s, FirstDigit(s, i))
    ensures !Hex(l) && HexAt(s, FirstDigit(s, i)) ==>
              l.whole == [ZERO] && l.fraction.None? && l.exponent.None? && HexTailAt(s, j) && j == FirstDigit(s, i) + 1
  {
    assert p < a ==> s[p..a][0] == s[p];
    assert p + 1 < a ==> s[p..a][1] == s[p + 1];
    assert a + 1 < b ==> s[a + 1..b][0] == s[a + 1];
    if Hex(l) {
      assert l.prefix[0] == s[p - 2] && l.prefix[1] == s[p - 1];
    } else if HexAt(s, p) {
      assert a == p + 1 && l.whole == [s[p]];
    }
  }

  lemma ScanEnds(s: bytes, i: nat, p: nat)
    requires NumeralAt(s, FirstDigit(s, i))
    requires p == FirstDigit(s, i) + if HexAt(s, FirstDigit(s, i)) then 2 else 0
    ensures var hex := HexAt(s, FirstDigit(s, i));
            Scan(s, i).1 == ExponentEnd(s, FractionEnd(s, SkipDigits(s, p, hex), hex), hex)
  {
  }

  lemma ScanIs(s: bytes, i: nat, l: Literal, p: nat, a: nat, b: nat, j: nat)
    requires Parts(s, i, l, p, a, b, j) && NumeralAt(s, FirstDigit(s, i)) && |l.prefix| == (if Hex(l) then 2 else 0)
    requires Hex(l) == HexAt(s, FirstDigit(s, i)) && a == SkipDigits(s, p, Hex(l)) && b == FractionEnd(s, a, Hex(l))
    requires At(s, a) == DOT ==> l.fraction.Some?
    requires if ExponentAt(s, b, Hex(l)) then l.exponent == Some(ScanExponent(s, b)) else l.exponent.None?
    ensures Scan(s, i).0 == l
  {
    hide SkipDigits, HexAt, ExponentAt, ExponentParts, ScanExponent;
  }

  lemma ZeroBeforeX(s: bytes, i: nat, l: Literal, p: nat, a: nat, b: nat, j: nat)
    requires Parts(s, i, l, p, a, b, j) && l.prefix == [] && l.whole == [ZERO]
    ensures HexTailAt(s, a) ==> HexAt(s, FirstDigit(s, i))
  {
    assert s[p..a][0] == s[p];
  }

  /** Where the text of l ends and the scan agrees with it on the base. */
  lemma SameBase(s: bytes, i: nat, l: Literal, p: nat, a: nat, b: nat, j: nat)
    requires IsLiteral(l) && Parts(s, i, l, p, a, b, j) && NumeralAt(s, FirstDigit(s, i))
    requires Hex(l) == HexAt(s, FirstDigit(s, i))
    ensures var (r, end) := Scan(s, i); if Continues(s, j, l) then j < end else r == l && end == j
  {
    hide Scan, SkipDigits, ExponentParts, ScanExponent, HexAt, NumeralAt, IsExponent, AllDigits;
    ScanEnds(s, i, p);
    BodyRun(s, i, l, p, a, b, j);
    var hex := Hex(l);
    var B := FractionEnd(s, SkipDigits(s, p, hex), hex);
    if l.exponent.Some? {
      ExponentRun(s, b, l.exponent.value, j, hex);
    } else {
      ExponentScanned(s, B, hex);
    }
    if l.prefix == [] && l.whole == [ZERO] { ZeroBeforeX(s, i, l, p, a, b, j); }
    if !Continues(s, j, l) { ScanIs(s, i, l, p, a, b, j); }
  }

  /** strtod ends where a number of the expected form ends that stands there exactly when nothing behind that
      number makes it longer; it never ends before. */
  lemma LiteralEndsIff(s: bytes, i: nat, l: Literal)
    requires IsLiteral(l) && Occurs(s, i, Spelling(l))
    ensures NumeralAt(s, FirstDigit(s, i))
    ensures var j := i + |Spelling(l)|;
            var (r, end) := Scan(s, i);
            j <= end && (j == end <==> !Continues(s, j, l)) && (j == end ==> r == l)
  {
    hide *;
    var p, a, b := PartsOf(s, i, l);
    var j := i + |Spelling(l)|;
    StartsNumeral(s, i, l, p, a, b, j);
    if Hex(l) == HexAt(s, FirstDigit(s, i)) {
      SameBase(s, i, l, p, a, b, j);
    } else {
      HexIsLonger(s, i);
      XContinues(s, j, l);
    }
  }

  lemma XContinues(s: bytes, j: nat, l: Literal)
    requires l.whole == [ZERO] && l.fraction.None? && l.exponent.None? && !Hex(l) && HexTailAt(s, j)
    ensures Continues(s, j, l)
  {
  }

  lemma HexIsLonger(s: bytes, i: nat)
    requires HexAt(s, FirstDigit(s, i)) && NumeralAt(s, FirstDigit(s, i))
    ensures Scan(s, i).1 >= FirstDigit(s, i) + 2
  {
    var first := FirstDigit(s, i);
    ScanEnds(s, i, first + 2);
    var a := SkipDigits(s, first + 2, true);
    FractionScanned(s, a, true);
    ExponentScanned(s, FractionEnd(s, a, true), true);
    hide SkipDigits, Scan;
  }
}
