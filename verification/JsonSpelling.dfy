/** What white space printed text has, and how its strings and numbers are spelled, byte by byte. */
module JsonSpelling {
  import opened Bytes
  import opened JsonValue
  import opened JsonText
  import opened JsonLayout
  import G = JsonGrammar
  import R = JsonRoundTrip

  // ----- byte by byte -----

  /** The four digits behind an u: a control character that has no letter of its own. */
  predicate ControlAt(w: bytes) {
    |w| >= 5 && w[1] == '0' as int && w[2] == '0' as int && (w[3] == '0' as int || w[3] == '1' as int) &&
    ('0' as int <= w[4] <= '9' as int || 'a' as int <= w[4] <= 'f' as int) &&
    16 * (w[3] - '0' as int) + HexValue(w[4]) !in {0x08, 0x09, 0x0A, 0x0C, 0x0D}
  }

  /** How the first byte of w may look where it stands: no white space outside the literals of compact text, no
      control character inside a literal, a slash behind a backslash exactly when slashes are escaped, and a
      letter for every control character that has one. */
  predicate Fits(m: Mode, w: bytes, f: Format)
    requires w != []
  {
    match m
    case Outside => f.pretty || !G.IsWhite(w[0])
    case Inside => w[0] >= 0x20 && (w[0] == '/' as int ==> !f.escapeSlashes)
    case Escaped =>
      w[0] in Ascii("\"\\/bfnrtu") && (w[0] == '/' as int ==> f.escapeSlashes) && (w[0] == 'u' as int ==> ControlAt(w))
  }

  predicate AllFit(m: Mode, w: bytes, f: Format)
    decreases |w|
  {
    w == [] || (Fits(m, w, f) && AllFit(NextMode(m, w[0]), w[1..], f))
  }

  lemma FitsFurther(m: Mode, w: bytes, rest: bytes, f: Format)
    requires w != [] && Fits(m, w, f)
    ensures Fits(m, w + rest, f)
  {
  }

  lemma {:induction false} AllFitBoth(m: Mode, a: bytes, b: bytes, f: Format)
    requires AllFit(m, a, f) && AllFit(After(m, a), b, f)
    ensures AllFit(m, a + b, f)
    decreases |a|
  {
    hide Fits;
    if a == [] {
      assert a + b == b;
    } else {
      assert (a + b)[0] == a[0] && (a + b)[1..] == a[1..] + b;
      FitsFurther(m, a, b, f);
      AllFitBoth(NextMode(m, a[0]), a[1..], b, f);
    }
  }

  /** Text that fits and begins and ends outside literals. */
  predicate Whole(w: bytes, f: Format) {
    AllFit(Outside, w, f) && After(Outside, w) == Outside
  }

  lemma WholeBoth(a: bytes, b: bytes, f: Format)
    requires Whole(a, f) && Whole(b, f)
    ensures Whole(a + b, f)
  {
    AllFitBoth(Outside, a, b, f);
    AfterBoth(Outside, a, b);
  }

  lemma {:induction false} PlainWhole(w: bytes, f: Format)
    requires forall k :: 0 <= k < |w| ==> w[k] != 0x22 && (f.pretty || !G.IsWhite(w[k]))
    ensures Whole(w, f)
    decreases |w|
  {
    if w == [] {
    } else {
      PlainWhole(w[1..], f);
    }
  }

  lemma OneFits(m: Mode, c: byte, f: Format)
    ensures AllFit(m, [c], f) <==> Fits(m, [c], f)
    ensures After(m, [c]) == NextMode(m, c)
  {
    assert [c][1..] == [];
  }

  lemma {:induction false} HexFits(w: bytes, f: Format)
    requires forall k :: 0 <= k < |w| ==> HexValue(w[k]) >= 0
    ensures AllFit(Inside, w, f) && After(Inside, w) == Inside
    decreases |w|
  {
    if w == [] {
    } else {
      HexFits(w[1..], f);
    }
  }

  lemma EscapeLetter(c: byte, e: bool)
    ensures var w := EscapeByte(c, e);
            if w[0] == BACKSLASH then
              |w| >= 2 && w[1] in Ascii("\"\\/bfnrtu") && (w[1] == 0x2F ==> e) &&
              (w[1] == 0x75 ==> ControlAt(w[1..])) &&
              forall k :: 2 <= k < |w| ==> HexValue(w[k]) >= 0
            else w == [c] && c >= 0x20 && c != 0x22 && (c == 0x2F ==> !e)
  {
    var letters := Ascii("\"\\/bfnrtu");
    assert letters == [0x22, 0x5C, 0x2F, 0x62, 0x66, 0x6E, 0x72, 0x74, 0x75];
    assert letters[0] == 0x22 && letters[1] == 0x5C && letters[2] == 0x2F && letters[3] == 0x62 && letters[4] == 0x66;
    assert letters[5] == 0x6E && letters[6] == 0x72 && letters[7] == 0x74 && letters[8] == 0x75;
  }

  lemma EscapeByteFits(c: byte, f: Format)
    ensures AllFit(Inside, EscapeByte(c, f.escapeSlashes), f)
  {
    hide EscapeByte, AllFit, After, Ascii, ControlAt;
    var w := EscapeByte(c, f.escapeSlashes);
    EscapeLetter(c, f.escapeSlashes);
    OneFits(Inside, w[0], f);
    if w[0] == BACKSLASH {
      AfterBackslash(w[1..], f);
      assert w == [BACKSLASH] + w[1..];
      AllFitBoth(Inside, [BACKSLASH], w[1..], f);
    }
  }

  /** What stands behind a backslash. */
  lemma AfterBackslash(w: bytes, f: Format)
    requires w != [] && Fits(Escaped, w, f) && forall k :: 1 <= k < |w| ==> HexValue(w[k]) >= 0
    ensures AllFit(Escaped, w, f)
  {
    HexFits(w[1..], f);
  }

  lemma {:induction false} EscapeFits(s: bytes, f: Format)
    ensures AllFit(Inside, Escape(s, f.escapeSlashes), f)
    decreases |s|
  {
    hide EscapeByte, Fits;
    if s == [] {
    } else {
      EscapeByteFits(s[0], f);
      EscapeByteStays(s[0], f.escapeSlashes);
      EscapeFits(s[1..], f);
      AllFitBoth(Inside, EscapeByte(s[0], f.escapeSlashes), Escape(s[1..], f.escapeSlashes), f);
    }
  }

  lemma QuotedWhole(s: bytes, f: Format)
    ensures Whole(Quoted(s, f.escapeSlashes), f)
  {
    hide Escape, AllFit, After, Fits;
    var body := Escape(s, f.escapeSlashes);
    EscapeFits(s, f);
    EscapeStays(s, f.escapeSlashes);
    QuotesFit(f);
    OneFits(Outside, QUOTE, f);
    OneFits(Inside, QUOTE, f);
    AllFitBoth(Inside, body, [QUOTE], f);
    AfterBoth(Inside, body, [QUOTE]);
    AllFitBoth(Outside, [QUOTE], body + [QUOTE], f);
    AfterBoth(Outside, [QUOTE], body + [QUOTE]);
    assert [QUOTE] + (body + [QUOTE]) == [QUOTE] + body + [QUOTE];
  }

  lemma QuotesFit(f: Format)
    ensures Fits(Outside, [QUOTE], f) && Fits(Inside, [QUOTE], f)
  {
  }

  lemma LayoutWhole(level: nat, k: nat, count: nat, f: Format)
    ensures Whole(Indent(level, f), f) && Whole(LineBreak(f), f) && Whole(Separator(k, count), f)
    ensures Whole(AfterColon(f), f)
  {
    PlainWhole(Indent(level, f), f);
    PlainWhole(LineBreak(f), f);
    PlainWhole(Separator(k, count), f);
    PlainWhole(AfterColon(f), f);
    hide Whole;
  }

  lemma ScalarWhole(v: Value, level: nat, f: Format)
    requires v.Null? || v.Boolean? || v.Number? || v.Str?
    ensures Whole(Text(v, level, f), f)
  {
    match v
    case Number(n) =>
      R.DigitsReadBack(if n < 0 then -n else n);
      PlainWhole(Decimal(n), f);
    case Str(chars) => QuotedWhole(chars, f);
    case _ => PlainWhole(Text(v, level, f), f);
  }

  lemma BracketsWhole(open: byte, w: bytes, close: byte, level: nat, f: Format)
    requires OpensBracket(open) && ClosesBracket(close) && Whole(w, f)
    ensures Whole([open, close], f) && Whole([open] + LineBreak(f) + w + Indent(level, f) + [close], f)
  {
    PlainWhole([open, close], f);
    PlainWhole([open], f);
    PlainWhole([close], f);
    hide Whole;
    LayoutWhole(level, 0, 0, f);
    WholeBoth([open], LineBreak(f), f);
    WholeBoth([open] + LineBreak(f), w, f);
    WholeBoth([open] + LineBreak(f) + w, Indent(level, f), f);
    WholeBoth([open] + LineBreak(f) + w + Indent(level, f), [close], f);
  }

  /** Printed text ends outside literals, and every byte of it fits where it stands. */
  lemma {:induction false} TextWhole(v: Value, level: nat, f: Format)
    ensures Whole(Text(v, level, f), f)
    decreases v, 1
  {
    hide Whole, ItemsText, MembersText, OpensBracket, ClosesBracket;
    BracketKinds();
    match v
    case Array(items) =>
      ItemsWhole(items, 0, level, f);
      BracketsWhole(LBRACKET, ItemsText(items, 0, level, f), RBRACKET, level, f);
    case Object(ms) =>
      MembersWhole(ms, 0, level, f);
      BracketsWhole(LBRACE, MembersText(ms, 0, level, f), RBRACE, level, f);
    case _ => ScalarWhole(v, level, f);
  }

  lemma BracketKinds()
    ensures OpensBracket(LBRACKET) && OpensBracket(LBRACE) && ClosesBracket(RBRACKET) && ClosesBracket(RBRACE)
  {
  }

  lemma NothingWhole(f: Format)
    ensures Whole([], f)
  {
  }

  lemma {:induction false} ItemsWhole(items: seq<Value>, k: nat, level: nat, f: Format)
    requires k <= |items|
    ensures Whole(ItemsText(items, k, level, f), f)
    decreases items, |items| - k
  {
    hide Whole, Text, Indent, Separator, LineBreak;
    if k == |items| {
      NothingWhole(f);
    } else {
      var a, b, c, d := Indent(level + 1, f), Text(items[k], level + 1, f), Separator(k, |items|), LineBreak(f);
      LayoutWhole(level + 1, k, |items|, f);
      TextWhole(items[k], level + 1, f);
      ItemsWhole(items, k + 1, level, f);
      WholeBoth(a, b, f);
      WholeBoth(a + b, c, f);
      WholeBoth(a + b + c, d, f);
      WholeBoth(a + b + c + d, ItemsText(items, k + 1, level, f), f);
    }
  }

  lemma {:induction false} MembersWhole(ms: seq<Member>, k: nat, level: nat, f: Format)
    requires k <= |ms|
    ensures Whole(MembersText(ms, k, level, f), f)
    decreases ms, |ms| - k
  {
    hide Whole, Text, Quoted, Indent, AfterColon, Separator, LineBreak;
    if k == |ms| {
      NothingWhole(f);
    } else {
      var a, name, colon := Indent(level + 1, f), Quoted(ms[k].name, f.escapeSlashes), AfterColon(f);
      var b, c, d := Text(ms[k].value, level + 1, f), Separator(k, |ms|), LineBreak(f);
      LayoutWhole(level + 1, k, |ms|, f);
      QuotedWhole(ms[k].name, f);
      TextWhole(ms[k].value, level + 1, f);
      MembersWhole(ms, k + 1, level, f);
      WholeBoth(a, name, f);
      WholeBoth(a + name, colon, f);
      WholeBoth(a + name + colon, b, f);
      WholeBoth(a + name + colon + b, c, f);
      WholeBoth(a + name + colon + b + c, d, f);
      WholeBoth(a + name + colon + b + c + d, MembersText(ms, k + 1, level, f), f);
    }
  }

  lemma {:induction false} FitsAt(m: Mode, w: bytes, f: Format, k: nat)
    requires AllFit(m, w, f) && k < |w|
    ensures Fits(After(m, w[..k]), w[k..], f)
    decreases k
  {
    hide Fits;
    if k == 0 {
      assert w[..0] == [] && w[0..] == w;
    } else {
      FitsAt(NextMode(m, w[0]), w[1..], f, k - 1);
      assert w[..k][1..] == w[1..][..k - 1] && w[1..][k - 1..] == w[k..];
    }
  }

  /** Every byte of printed text fits where it stands. */
  lemma SpelledByRule(v: Value, f: Format, k: nat)
    requires k < |Text(v, 0, f)|
    ensures var w := Text(v, 0, f); Fits(After(Outside, w[..k]), w[k..], f)
  {
    TextWhole(v, 0, f);
    FitsAt(Outside, Text(v, 0, f), f, k);
    hide Text, Fits;
  }

  // ----- without the white space -----

  /** The text without the white space outside literals. */
  function Bare(m: Mode, w: bytes): bytes
    decreases |w|
  {
    if w == [] then []
    else (if m == Outside && G.IsWhite(w[0]) then [] else [w[0]]) + Bare(NextMode(m, w[0]), w[1..])
  }

  lemma {:induction false} BareBoth(m: Mode, a: bytes, b: bytes)
    ensures Bare(m, a + b) == Bare(m, a) + Bare(After(m, a), b)
    decreases |a|
  {
    hide G.IsWhite;
    if a == [] {
      assert a + b == b;
    } else {
      assert (a + b)[0] == a[0] && (a + b)[1..] == a[1..] + b;
      BareBoth(NextMode(m, a[0]), a[1..], b);
    }
  }

  lemma {:induction false} WhiteIsBare(w: bytes)
    requires forall k :: 0 <= k < |w| ==> G.IsWhite(w[k])
    ensures Bare(Outside, w) == [] && After(Outside, w) == Outside
    decreases |w|
  {
    if w == [] {
    } else {
      WhiteIsBare(w[1..]);
    }
  }

  lemma OneBare(m: Mode, c: byte)
    ensures Bare(m, [c]) == (if m == Outside && G.IsWhite(c) then [] else [c]) && After(m, [c]) == NextMode(m, c)
  {
    assert [c][1..] == [];
  }

  /** The pretty printer writes white space outside literals only. */
  lemma FrontAndBack(p: Place, c: byte)
    ensures Bare(p.mode, FrontOf(p, c)) == [] && After(p.mode, FrontOf(p, c)) == p.mode
    ensures Bare(NextMode(p.mode, c), BackOf(p, c)) == []
    ensures After(NextMode(p.mode, c), BackOf(p, c)) == NextMode(p.mode, c)
    ensures Move(p, c).mode == NextMode(p.mode, c)
  {
    if p.mode == Outside {
      WhiteIsBare(FrontOf(p, c));
      WhiteIsBare(BackOf(p, c));
    }
    hide Bare, After;
  }

  lemma {:induction false} PrettyAddsWhite(p: Place, w: bytes)
    ensures Bare(p.mode, Pretty(p, w)) == Bare(p.mode, w)
    decreases |w|
  {
    hide FrontOf, BackOf, Move, After, NextMode, G.IsWhite;
    if w == [] {
    } else {
      var a, c, b, rest := FrontOf(p, w[0]), [w[0]], BackOf(p, w[0]), Pretty(Move(p, w[0]), w[1..]);
      FrontAndBack(p, w[0]);
      OneBare(p.mode, w[0]);
      BareBoth(p.mode, a + c + b, rest);
      BareBoth(p.mode, a + c, b);
      BareBoth(p.mode, a, c);
      AfterBoth(p.mode, a + c, b);
      AfterBoth(p.mode, a, c);
      PrettyAddsWhite(Move(p, w[0]), w[1..]);
      assert c[1..] == [];
    }
  }

  lemma {:induction false} TightIsBare(m: Mode, w: bytes, f: Format)
    requires AllFit(m, w, f) && !f.pretty
    ensures Bare(m, w) == w
    decreases |w|
  {
    if w == [] {
    } else {
      TightIsBare(NextMode(m, w[0]), w[1..], f);
      hide ControlAt, NextMode;
    }
  }

  /** Compact text has no white space outside literals, and without it pretty text is the compact text. */
  lemma BareIsCompact(v: Value, e: bool)
    ensures var compact := Text(v, 0, Format(false, e));
            Bare(Outside, compact) == compact && Bare(Outside, Text(v, 0, Format(true, e))) == compact
  {
    hide Text, Bare, Pretty;
    TextWhole(v, 0, Format(false, e));
    TightIsBare(Outside, Text(v, 0, Format(false, e)), Format(false, e));
    PrettyIsLaidOut(v, e);
    PrettyAddsWhite(Place(Outside, 0, false), Text(v, 0, Format(false, e)));
  }

  // ----- numbers -----

  /** A number is printed as its decimal digits, without a leading zero and with a '-' in front if it is
      negative. */
  lemma NumberSpelling(n: int)
    ensures var w := Decimal(n);
            var digits := if n < 0 then w[1..] else w;
            (n < 0 ==> w[0] == '-' as int) && G.IsNatural(digits) && DigitsValue(digits) == if n < 0 then -n else n
  {
    R.DigitsReadBack(if n < 0 then -n else n);
    hide Digits, DigitsValue;
    assert n < 0 ==> Decimal(n)[1..] == Digits(-n);
  }
}
