/** What the comment stripper keeps, and that it leaves serialized text alone. */
module JsonCommentFacts {
  import opened Bytes
  import opened JsonValue
  import opened JsonComments
  import T = JsonText
  import P = JsonParser
  import R = JsonRoundTrip

  // ----- what the pass looks for -----

  lemma CommentTokens()
    ensures BLOCK == Tokens(Ascii("/*"), Ascii("*/")) && LINE == Tokens(Ascii("//"), Ascii("\n"))
  {
  }

  /** strstr finds the first place where the token stands. */
  lemma {:induction false} FindIff(s: bytes, w: bytes, k: nat)
    requires w != []
    ensures Find(s, w) == Some(k) <==> Occurs(s, k, w) && forall i: nat :: i < k ==> !Occurs(s, i, w)
    decreases |s|
  {
    OccursSlice(s, 0, w);
    if StartsWith(s, w) {
      assert Occurs(s, 0, w);
    } else if s != [] {
      assert !Occurs(s, 0, w);
      if k > 0 {
        FindIff(s[1..], w, k - 1);
        OneOn(s, k - 1, w);
        NoneBefore(s, k, w);
      }
    }
  }

  lemma NoneBefore(s: bytes, k: nat, w: bytes)
    requires s != [] && !Occurs(s, 0, w) && k > 0
    ensures (forall i: nat :: i < k ==> !Occurs(s, i, w)) <==> (forall i: nat :: i < k - 1 ==> !Occurs(s[1..], i, w))
  {
    hide Occurs;
    if forall i: nat :: i < k ==> !Occurs(s, i, w) {
      forall i: nat | i < k - 1 ensures !Occurs(s[1..], i, w) { OneOn(s, i, w); }
    }
    if forall i: nat :: i < k - 1 ==> !Occurs(s[1..], i, w) {
      forall i: nat | i < k ensures !Occurs(s, i, w) { if i > 0 { OneOn(s, i - 1, w); } }
    }
  }

  lemma OneOn(s: bytes, i: nat, w: bytes)
    requires s != []
    ensures Occurs(s, i + 1, w) <==> Occurs(s[1..], i, w)
  {
    OccursSlice(s, i + 1, w);
    OccursSlice(s[1..], i, w);
    if i + 1 + |w| <= |s| { assert s[1..][i..i + |w|] == s[i + 1..i + 1 + |w|]; }
  }

  function StateAfter(st: Scan, w: bytes): Scan {
    if w == [] then st else Step(StateAfter(st, w[..|w| - 1]), w[|w| - 1])
  }

  /** How many backslashes the text ends with. */
  function Backslashes(w: bytes): nat {
    if w == [] || w[|w| - 1] != '\\' as int then 0 else 1 + Backslashes(w[..|w| - 1])
  }

  /** How many quotes stand behind an even number of backslashes. */
  function Quotes(w: bytes): nat {
    if w == [] then 0
    else
      var before := w[..|w| - 1];
      Quotes(before) + if w[|w| - 1] == '"' as int && Backslashes(before) % 2 == 0 then 1 else 0
  }

  /** Without a comment on the way, the pass is inside a literal behind an odd number of unescaped quotes, and the
      next byte is escaped behind an odd number of backslashes. */
  lemma {:induction false} StateIs(w: bytes)
    ensures StateAfter(START, w) == Scan(Quotes(w) % 2 == 1, Backslashes(w) % 2 == 1)
    decreases |w|
  {
    if w == [] {
    } else {
      StateIs(w[..|w| - 1]);
    }
  }

  // ----- length and bytes -----

  /** What follows the opening token of a comment that is never closed. */
  function Unclosed(s: bytes, st: Scan, t: Tokens): Option<bytes>
    requires FromCaller(t)
    decreases |s|
  {
    if s == [] then None
    else if OpensHere(s, st, t.open) then
      var rest := s[|t.open|..];
      match Find(rest, t.close)
      case None => Some(rest)
      case Some(k) => Unclosed(rest[k + |t.close|..], START, t)
    else Unclosed(s[1..], Step(st, s[0]), t)
  }

  lemma StripAtComment(s: bytes, st: Scan, t: Tokens) returns (n: nat, rest: bytes)
    requires FromCaller(t) && OpensHere(s, st, t.open)
    ensures 2 <= n <= |s| && rest == s[n..]
    ensures if Find(s[2..], t.close).None? then
              n == 2 && Unclosed(s, st, t) == Some(rest) && Strip(s, st, t) == Spaces(n) + rest
            else Unclosed(s, st, t) == Unclosed(rest, START, t) && Strip(s, st, t) == Spaces(n) + Strip(rest, START, t)
  {
    match Find(s[2..], t.close)
    case None =>
      n, rest := 2, s[2..];
    case Some(k) =>
      n := 2 + k + |t.close|;
      rest := s[n..];
      assert s[2..][k + |t.close|..] == rest;
  }

  /** A pass keeps the length and only ever turns a byte into a space. */
  lemma {:induction false} OnlyBlanks(s: bytes, st: Scan, t: Tokens)
    requires FromCaller(t)
    ensures |Strip(s, st, t)| == |s|
    ensures forall k :: 0 <= k < |s| ==> Strip(s, st, t)[k] == s[k] || Strip(s, st, t)[k] == SPACE
    decreases |s|
  {
    if s == [] {
    } else {
      if OpensHere(s, st, t.open) {
        var n, rest := StripAtComment(s, st, t);
        hide Strip, Find, StartsWith, Unclosed;
        OnlyBlanks(rest, START, t);
      } else {
        hide OpensHere;
        OnlyBlanks(s[1..], Step(st, s[0]), t);
      }
    }
  }

  /** Reading text w as JSON without comments, entered in state st, byte k lies inside a string literal. */
  predicate InLiteral(w: bytes, st: Scan, k: nat)
    requires k < |w|
    decreases k
  {
    if k == 0 then st.inString else InLiteral(w[1..], Step(st, w[0]), k - 1)
  }

  lemma {:induction false} SpacesNotLiteral(n: nat, w: bytes, st: Scan, k: nat)
    requires !st.inString && k < n
    ensures InLiteral(Spaces(n) + w, st, k) == false
    decreases k
  {
    if k > 0 {
      assert (Spaces(n) + w)[1..] == Spaces(n - 1) + w;
      SpacesNotLiteral(n - 1, w, Step(st, SPACE), k - 1);
    }
  }

  lemma {:induction false} AfterSpaces(n: nat, w: bytes, st: Scan, k: nat)
    requires !st.inString && 0 < n <= k < n + |w|
    ensures InLiteral(Spaces(n) + w, st, k) == InLiteral(w, START, k - n)
    decreases n
  {
    assert (Spaces(n) + w)[1..] == Spaces(n - 1) + w;
    if n == 1 {
      assert Spaces(0) + w == w;
    } else {
      AfterSpaces(n - 1, w, Step(st, SPACE), k - 1);
    }
  }

  /** A literal behind blanked bytes is a literal of what follows them. */
  lemma LiteralBehindSpaces(n: nat, tail: bytes, st: Scan, k: nat)
    requires !st.inString && n > 0 && k < n + |tail| && InLiteral(Spaces(n) + tail, st, k)
    ensures k >= n && InLiteral(tail, START, k - n) && (Spaces(n) + tail)[k] == tail[k - n]
  {
    hide InLiteral;
    if k < n {
      SpacesNotLiteral(n, tail, st, k);
    } else {
      AfterSpaces(n, tail, st, k);
    }
  }

  /** A changed byte lies outside every string literal of the text that results. */
  lemma {:induction false} LiteralsKept(s: bytes, st: Scan, t: Tokens, k: nat)
    requires FromCaller(t) && |Strip(s, st, t)| == |s| && k < |s|
    requires InLiteral(Strip(s, st, t), st, k)
    ensures Strip(s, st, t)[k] == s[k]
    decreases |s|
  {
    var out := Strip(s, st, t);
    if OpensHere(s, st, t.open) {
      var n, rest := StripAtComment(s, st, t);
      hide Strip, Find, StartsWith, Unclosed, InLiteral;
      var tail := if Find(s[2..], t.close).None? then rest else Strip(rest, START, t);
      LiteralBehindSpaces(n, tail, st, k);
      if Find(s[2..], t.close).Some? {
        OnlyBlanks(rest, START, t);
        LiteralsKept(rest, START, t, k - n);
      }
    } else if k > 0 {
      hide OpensHere;
      assert out[1..] == Strip(s[1..], Step(st, s[0]), t);
      LiteralsKept(s[1..], Step(st, s[0]), t, k - 1);
    }
  }

  // ----- when a pass changes nothing -----

  /** The pass, entered in state st, meets an opening token outside string literals. */
  predicate Opens(s: bytes, st: Scan, open: bytes)
    decreases |s|
  {
    s != [] && (OpensHere(s, st, open) || Opens(s[1..], Step(st, s[0]), open))
  }

  lemma {:induction false} UnchangedIffNotOpen(s: bytes, st: Scan, t: Tokens)
    requires FromCaller(t)
    ensures Strip(s, st, t) == s <==> !Opens(s, st, t.open)
    decreases |s|
  {
    if s == [] {
    } else {
      if OpensHere(s, st, t.open) {
        FirstByte(s, t.open);
        assert Strip(s, st, t)[0] == SPACE;
      } else {
        UnchangedIffNotOpen(s[1..], Step(st, s[0]), t);
        assert s == [s[0]] + s[1..];
      }
    }
  }

  lemma {:induction false} OpensPastSpaces(n: nat, w: bytes, st: Scan, t: Tokens)
    requires FromCaller(t) && !st.inString && n > 0
    ensures Opens(Spaces(n) + w, st, t.open) == Opens(w, START, t.open)
    decreases n
  {
    var s := Spaces(n) + w;
    assert s[1..] == Spaces(n - 1) + w;
    FirstByte(s, t.open);
    assert s[0] == SPACE;
    if n == 1 {
      assert s[1..] == w;
    } else {
      OpensPastSpaces(n - 1, w, Step(st, SPACE), t);
    }
  }

  /** After a pass, a comment can only be left open inside the tail of one that was never closed. */
  lemma {:induction false} OpensAfterStrip(s: bytes, st: Scan, t: Tokens)
    requires FromCaller(t)
    ensures Opens(Strip(s, st, t), st, t.open) <==>
              Unclosed(s, st, t).Some? && Opens(Unclosed(s, st, t).value, START, t.open)
    decreases |s|
  {
    if s == [] {
    } else {
      var out := Strip(s, st, t);
      if OpensHere(s, st, t.open) {
        var n, rest := StripAtComment(s, st, t);
        assert !st.inString;
        hide Strip, Find, StartsWith, Unclosed, Opens, OpensHere;
        if Find(s[2..], t.close).None? {
          OpensPastSpaces(n, rest, st, t);
        } else {
          OpensPastSpaces(n, Strip(rest, START, t), st, t);
          OpensAfterStrip(rest, START, t);
        }
      } else {
        NoNewToken(s, st, t);
        hide OpensHere;
        assert out[1..] == Strip(s[1..], Step(st, s[0]), t);
        OpensAfterStrip(s[1..], Step(st, s[0]), t);
      }
    }
  }

  lemma NoNewToken(s: bytes, st: Scan, t: Tokens)
    requires FromCaller(t) && s != [] && !OpensHere(s, st, t.open)
    ensures !OpensHere(Strip(s, st, t), st, t.open)
  {
    var out := Strip(s, st, t);
    OnlyBlanks(s, st, t);
    if StartsWith(out, t.open) {
      FirstByte(out, t.open);
      assert s[..2] == t.open;
    }
  }

  /** A second pass changes nothing exactly when no comment was left open, or nothing that looks like
      another comment follows the one left open. */
  lemma IdempotentIff(s: bytes, t: Tokens)
    requires FromCaller(t)
    ensures Strip(Strip(s, START, t), START, t) == Strip(s, START, t) <==>
              match Unclosed(s, START, t) case None => true case Some(rest) => !Opens(rest, START, t.open)
  {
    UnchangedIffNotOpen(Strip(s, START, t), START, t);
    OpensAfterStrip(s, START, t);
  }

  // ----- serialized text -----

  /** An input on which a second pass does change the text: two opening tokens and no closing one. */
  lemma SecondPassChanges()
    ensures var s := [SLASH, STAR, SLASH, STAR];
            && Strip(s, START, BLOCK) == [SPACE, SPACE, SLASH, STAR]
            && Strip(Strip(s, START, BLOCK), START, BLOCK) == [SPACE, SPACE, SPACE, SPACE]
  {
    var s: bytes := [SLASH, STAR, SLASH, STAR];
    var once: bytes := [SPACE, SPACE, SLASH, STAR];
    NoStarSlash([SLASH, STAR]);
    assert s[2..] == [SLASH, STAR];
    assert Strip(s, START, BLOCK) == once;
    NoStarSlash([]);
    assert once[2..][2..] == [];
    assert Strip([SLASH, STAR], START, BLOCK) == [SPACE, SPACE];
    assert once[1..][1..] == [SLASH, STAR];
    assert Strip(once[1..], START, BLOCK) == [SPACE, SPACE, SPACE];
  }

  lemma NoStarSlash(w: bytes)
    requires w == [SLASH, STAR] || w == []
    ensures Find(w, BLOCK.close) == None
  {
    if w != [] {
      assert w[1..] == [STAR] && w[1..][1..] == [];
      assert !StartsWith(w[1..], BLOCK.close) && Find(w[1..][1..], BLOCK.close) == None;
      assert Find(w[1..], BLOCK.close) == None && w[..2][0] == SLASH;
    }
  }

  /** Reads w without meeting a slash outside string literals; the state afterwards. */
  function Quiet(w: bytes, st: Scan): Option<Scan>
    decreases |w|
  {
    if w == [] then Some(st)
    else if !st.inString && w[0] == SLASH then None
    else Quiet(w[1..], Step(st, w[0]))
  }

  lemma {:induction false} QuietConcat(a: bytes, b: bytes, st: Scan)
    ensures Quiet(a + b, st) == match Quiet(a, st) case None => None case Some(mid) => Quiet(b, mid)
    decreases |a|
  {
    if a == [] {
      assert a + b == b;
    } else {
      assert (a + b)[1..] == a[1..] + b;
      QuietConcat(a[1..], b, Step(st, a[0]));
    }
  }

  lemma {:induction false} QuietDoesNotOpen(w: bytes, st: Scan, t: Tokens)
    requires FromCaller(t) && Quiet(w, st).Some?
    ensures !Opens(w, st, t.open)
    decreases |w|
  {
    if w == [] {
    } else {
      FirstByte(w, t.open);
      QuietDoesNotOpen(w[1..], Step(st, w[0]), t);
    }
  }

  predicate Plain(w: bytes) {
    forall k :: 0 <= k < |w| ==> w[k] != SLASH && w[k] != QUOTE && w[k] != BACKSLASH
  }

  lemma {:induction false} PlainIsQuiet(w: bytes)
    requires Plain(w)
    ensures Quiet(w, START) == Some(START)
    decreases |w|
  {
    if w == [] {
    } else {
      PlainIsQuiet(w[1..]);
    }
  }

  lemma {:induction false} PlainInLiteral(w: bytes)
    requires forall k :: 0 <= k < |w| ==> w[k] != QUOTE && w[k] != BACKSLASH
    ensures Quiet(w, Scan(true, false)) == Some(Scan(true, false))
    decreases |w|
  {
    if w == [] {
    } else {
      PlainInLiteral(w[1..]);
    }
  }

  lemma EscapeByteQuiet(c: byte, e: bool)
    ensures Quiet(T.EscapeByte(c, e), Scan(true, false)) == Some(Scan(true, false))
  {
    var w := T.EscapeByte(c, e);
    if w[0] == BACKSLASH {
      assert w == w[..2] + w[2..];
      QuietConcat(w[..2], w[2..], Scan(true, false));
      PlainInLiteral(w[2..]);
    }
  }

  lemma {:induction false} EscapeQuiet(s: bytes, e: bool)
    ensures Quiet(T.Escape(s, e), Scan(true, false)) == Some(Scan(true, false))
    decreases |s|
  {
    if s == [] {
    } else {
      EscapeByteQuiet(s[0], e);
      EscapeQuiet(s[1..], e);
      QuietConcat(T.EscapeByte(s[0], e), T.Escape(s[1..], e), Scan(true, false));
    }
  }

  lemma QuotedQuiet(s: bytes, e: bool)
    ensures Quiet(T.Quoted(s, e), START) == Some(START)
  {
    EscapeQuiet(s, e);
    QuietConcat([QUOTE] + T.Escape(s, e), [QUOTE], START);
    QuietConcat([QUOTE], T.Escape(s, e), START);
  }

  lemma {:induction false} DigitsPlain(n: nat)
    ensures Plain(T.Digits(n))
  {
    if n >= 10 { DigitsPlain(n / 10); }
  }

  /** Serialized text is quiet: it starts and ends outside literals, and its slashes are all inside. */
  lemma {:induction false} TextQuiet(v: Value, level: nat, f: T.Format)
    ensures Quiet(T.Text(v, level, f), START) == Some(START)
    decreases v, 1
  {
    match v
    case Null => PlainIsQuiet(T.NULL_TOKEN);
    case Boolean(b) => PlainIsQuiet(T.Text(v, level, f));
    case Number(n) =>
      DigitsPlain(if n < 0 then -n else n);
      PlainIsQuiet(T.Text(v, level, f));
    case Str(chars) => QuotedQuiet(chars, f.escapeSlashes);
    case Array(items) =>
      ItemsQuiet(items, 0, level, f);
      BracketsQuiet(items == [], LBRACKET, T.ItemsText(items, 0, level, f), RBRACKET, level, f);
    case Object(ms) =>
      MembersQuiet(ms, 0, level, f);
      BracketsQuiet(ms == [], LBRACE, T.MembersText(ms, 0, level, f), RBRACE, level, f);
  }

  lemma BracketsQuiet(empty: bool, open: byte, body: bytes, close: byte, level: nat, f: T.Format)
    requires Plain([open, close]) && Quiet(body, START) == Some(START)
    ensures Quiet([open, close], START) == Some(START)
    ensures Quiet([open] + T.LineBreak(f) + body + T.Indent(level, f) + [close], START) == Some(START)
  {
    assert [open, close][0] == open && [open, close][1] == close;
    PlainIsQuiet([open, close]);
    var head, tail := [open] + T.LineBreak(f), T.Indent(level, f);
    PlainIsQuiet(head);
    PlainIsQuiet(tail);
    PlainIsQuiet([close]);
    QuietConcat(head + body + tail, [close], START);
    QuietConcat(head + body, tail, START);
    QuietConcat(head, body, START);
  }

  lemma {:induction false} ItemsQuiet(items: seq<Value>, k: nat, level: nat, f: T.Format)
    requires k <= |items|
    ensures Quiet(T.ItemsText(items, k, level, f), START) == Some(START)
    decreases items, |items| - k
  {
    if k < |items| {
      var a, b, c, d := T.Indent(level + 1, f), T.Text(items[k], level + 1, f), T.Separator(k, |items|), T.LineBreak(f);
      TextQuiet(items[k], level + 1, f);
      ItemsQuiet(items, k + 1, level, f);
      LayoutQuiet(level, f, k, |items|);
      QuietConcat(a + b + c + d, T.ItemsText(items, k + 1, level, f), START);
      QuietConcat(a + b + c, d, START);
      QuietConcat(a + b, c, START);
      QuietConcat(a, b, START);
    }
  }

  lemma LayoutQuiet(level: nat, f: T.Format, k: nat, count: nat)
    ensures Quiet(T.Indent(level + 1, f), START) == Quiet(T.LineBreak(f), START) == Some(START)
    ensures Quiet(T.Separator(k, count), START) == Quiet(T.AfterColon(f), START) == Some(START)
  {
    PlainIsQuiet(T.Indent(level + 1, f));
    PlainIsQuiet(T.LineBreak(f));
    PlainIsQuiet(T.Separator(k, count));
    PlainIsQuiet(T.AfterColon(f));
  }

  lemma {:induction false} MembersQuiet(ms: seq<Member>, k: nat, level: nat, f: T.Format)
    requires k <= |ms|
    ensures Quiet(T.MembersText(ms, k, level, f), START) == Some(START)
    decreases ms, |ms| - k
  {
    if k < |ms| {
      var a, key, colon := T.Indent(level + 1, f), T.Quoted(ms[k].name, f.escapeSlashes), T.AfterColon(f);
      var b, c, d := T.Text(ms[k].value, level + 1, f), T.Separator(k, |ms|), T.LineBreak(f);
      QuotedQuiet(ms[k].name, f.escapeSlashes);
      TextQuiet(ms[k].value, level + 1, f);
      MembersQuiet(ms, k + 1, level, f);
      LayoutQuiet(level, f, k, |ms|);
      QuietConcat(a + key + colon + b + c + d, T.MembersText(ms, k + 1, level, f), START);
      QuietConcat(a + key + colon + b + c, d, START);
      QuietConcat(a + key + colon + b, c, START);
      QuietConcat(a + key + colon, b, START);
      QuietConcat(a + key, colon, START);
      QuietConcat(a, key, START);
    }
  }

  /** Both passes, as json_parse_string_with_comments runs them. */
  function StripBoth(s: bytes): bytes {
    Strip(Strip(s, START, BLOCK), START, LINE)
  }

  /** Neither pass changes a byte of serialized text, whatever its strings contain and whether or
      not slashes are escaped. */
  lemma SerializedTextUntouched(v: Value, f: T.Format)
    ensures Strip(T.Text(v, 0, f), START, BLOCK) == T.Text(v, 0, f)
    ensures StripBoth(T.Text(v, 0, f)) == T.Text(v, 0, f)
  {
    TextQuiet(v, 0, f);
    QuietDoesNotOpen(T.Text(v, 0, f), START, BLOCK);
    QuietDoesNotOpen(T.Text(v, 0, f), START, LINE);
    UnchangedIffNotOpen(T.Text(v, 0, f), START, BLOCK);
    UnchangedIffNotOpen(T.Text(v, 0, f), START, LINE);
  }

  /** json_parse_string_with_comments. */
  function ParseWithComments(s: bytes): P.Parsed<Value> {
    P.ParseValue(StripBoth(s), 0, 0)
  }

  /** So parsing with comments also inverts the serializer. */
  lemma RoundTripWithComments(v: Value, f: T.Format)
    ensures ParseWithComments(T.Text(v, 0, f)) == P.Ok(v, |T.Text(v, 0, f)|) <==> WellFormed(v) && NestsFrom(v, 0)
  {
    var w := T.Text(v, 0, f);
    SerializedTextUntouched(v, f);
    R.RoundTrip(v, f, []);
    R.TextStart(v, 0, f);
    assert w + [] == w;
  }
}
