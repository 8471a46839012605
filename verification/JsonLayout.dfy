/** How the pretty text is laid out, said by a formatter that knows only bytes. */
module JsonLayout {
  import opened Bytes
  import opened JsonValue
  import opened JsonText

  // ----- where a byte stands -----

  /** Outside string literals, inside one, or inside one and behind a backslash. */
  datatype Mode = Outside | Inside | Escaped

  function NextMode(m: Mode, c: byte): Mode {
    match m
    case Outside => if c == '"' as int then Inside else Outside
    case Inside => if c == '\\' as int then Escaped else if c == '"' as int then Outside else Inside
    case Escaped => Inside
  }

  function After(m: Mode, w: bytes): Mode
    decreases |w|
  {
    if w == [] then m else After(NextMode(m, w[0]), w[1..])
  }

  lemma {:induction false} AfterBoth(m: Mode, a: bytes, b: bytes)
    ensures After(m, a + b) == After(After(m, a), b)
    decreases |a|
  {
    if a == [] {
      assert a + b == b;
    } else {
      assert (a + b)[1..] == a[1..] + b;
      AfterBoth(NextMode(m, a[0]), a[1..], b);
    }
  }

  // ----- a pretty printer for any text -----

  /** Where a byte stands, how many brackets are open there, and whether the byte before opened one. */
  datatype Place = Place(mode: Mode, depth: nat, first: bool)

  predicate OpensBracket(c: byte) { c == '[' as int || c == '{' as int }

  predicate ClosesBracket(c: byte) { c == ']' as int || c == '}' as int }

  /** A new line, four spaces for every open bracket. */
  function Line(depth: nat): bytes {
    [0x0A] + seq(4 * depth, _ => 0x20)
  }

  /** What is written in front of a byte: an element behind an opening bracket starts a line of its own, and so
      does the closing bracket of a container that has elements. */
  function FrontOf(p: Place, c: byte): bytes {
    if p.mode != Outside || c == ',' as int || c == ':' as int then []
    else if ClosesBracket(c) then (if p.first || p.depth == 0 then [] else Line(p.depth - 1))
    else if p.first then Line(p.depth)
    else []
  }

  /** And what behind it: the next element starts a line of its own, and a value stands one space behind the
      colon. */
  function BackOf(p: Place, c: byte): bytes {
    if p.mode != Outside then []
    else if c == ',' as int then Line(p.depth)
    else if c == ':' as int then [0x20]
    else []
  }

  function Move(p: Place, c: byte): Place {
    if p.mode != Outside then Place(NextMode(p.mode, c), p.depth, false)
    else if OpensBracket(c) then Place(Outside, p.depth + 1, true)
    else if ClosesBracket(c) then Place(Outside, if p.depth == 0 then 0 else p.depth - 1, false)
    else Place(NextMode(Outside, c), p.depth, false)
  }

  function Pretty(p: Place, w: bytes): bytes
    decreases |w|
  {
    if w == [] then [] else FrontOf(p, w[0]) + [w[0]] + BackOf(p, w[0]) + Pretty(Move(p, w[0]), w[1..])
  }

  function MoveAll(p: Place, w: bytes): Place
    decreases |w|
  {
    if w == [] then p else MoveAll(Move(p, w[0]), w[1..])
  }

  lemma {:induction false} PrettyBoth(p: Place, a: bytes, b: bytes)
    ensures Pretty(p, a + b) == Pretty(p, a) + Pretty(MoveAll(p, a), b)
    ensures MoveAll(p, a + b) == MoveAll(MoveAll(p, a), b)
    decreases |a|
  {
    hide FrontOf, BackOf, Move;
    if a == [] {
      assert a + b == b;
    } else {
      assert (a + b)[0] == a[0] && (a + b)[1..] == a[1..] + b;
      PrettyBoth(Move(p, a[0]), a[1..], b);
    }
  }

  // ----- the pretty text is the compact text, printed pretty -----

  /** Text that is written as it is, behind a line break if it stands behind an opening bracket. */
  ghost predicate Copied(depth: nat, w: bytes, pretty: bytes) {
    forall first :: CopiedFrom(first, depth, w, pretty)
  }

  ghost predicate CopiedFrom(first: bool, depth: nat, w: bytes, pretty: bytes) {
    var p := Place(Outside, depth, first);
    Pretty(p, w) == (if first then Line(depth) else []) + pretty && MoveAll(p, w) == Place(Outside, depth, false)
  }

  /** No byte of w means anything to the layout. */
  predicate Ordinary(w: bytes) {
    forall k :: 0 <= k < |w| ==> !OpensBracket(w[k]) && !ClosesBracket(w[k]) && w[k] !in {0x22, 0x2C, 0x3A}
  }

  lemma {:induction false} OrdinaryRest(depth: nat, w: bytes)
    requires Ordinary(w)
    ensures var p := Place(Outside, depth, false); Pretty(p, w) == w && MoveAll(p, w) == p
    decreases |w|
  {
    if w == [] {
    } else {
      OrdinaryRest(depth, w[1..]);
    }
  }

  lemma OrdinaryCopied(depth: nat, w: bytes)
    requires Ordinary(w) && w != []
    ensures Copied(depth, w, w)
  {
    hide Pretty, MoveAll;
    OrdinaryRest(depth, w[1..]);
    assert w == [w[0]] + w[1..];
    forall first ensures CopiedFrom(first, depth, w, w) {
      var p := Place(Outside, depth, first);
      PrettyBoth(p, [w[0]], w[1..]);
      OneByte(p, w[0]);
    }
  }

  lemma {:induction false} DigitsOrdinary(n: nat)
    ensures Digits(n) != [] && Ordinary(Digits(n))
  {
    if n >= 10 { DigitsOrdinary(n / 10); }
  }

  /** Bytes of a literal that do not end it. */
  predicate Stays(m: Mode, w: bytes)
    decreases |w|
  {
    m != Outside && (w == [] || Stays(NextMode(m, w[0]), w[1..]))
  }

  lemma {:induction false} LiteralCopied(m: Mode, depth: nat, w: bytes)
    requires Stays(m, w)
    ensures var p := Place(m, depth, false); Pretty(p, w) == w && MoveAll(p, w) == Place(After(m, w), depth, false)
    decreases |w|
  {
    if w == [] {
    } else {
      LiteralCopied(NextMode(m, w[0]), depth, w[1..]);
    }
  }

  lemma {:induction false} StaysBoth(m: Mode, a: bytes, b: bytes)
    requires Stays(m, a) && Stays(After(m, a), b)
    ensures Stays(m, a + b)
    decreases |a|
  {
    if a == [] {
      assert a + b == b;
    } else {
      assert (a + b)[1..] == a[1..] + b;
      StaysBoth(NextMode(m, a[0]), a[1..], b);
    }
  }

  lemma {:induction false} PlainStays(w: bytes)
    requires forall k :: 0 <= k < |w| ==> w[k] != 0x22 && w[k] != 0x5C
    ensures Stays(Inside, w) && After(Inside, w) == Inside
    decreases |w|
  {
    if w == [] {
    } else {
      PlainStays(w[1..]);
    }
  }

  lemma BackslashStays(c: byte)
    ensures Stays(Inside, [BACKSLASH, c]) && After(Inside, [BACKSLASH, c]) == Inside
  {
    assert [BACKSLASH, c][1..] == [c] && [c][1..] == [];
    assert After(Escaped, [c]) == After(Inside, []);
  }

  lemma EscapeByteStays(c: byte, e: bool)
    ensures Stays(Inside, EscapeByte(c, e)) && After(Inside, EscapeByte(c, e)) == Inside
  {
    hide Stays, After;
    var w := EscapeByte(c, e);
    if w[0] == BACKSLASH {
      assert w == [BACKSLASH, w[1]] + w[2..];
      BackslashStays(w[1]);
      PlainStays(w[2..]);
      StaysBoth(Inside, [BACKSLASH, w[1]], w[2..]);
      AfterBoth(Inside, [BACKSLASH, w[1]], w[2..]);
    } else {
      PlainStays(w);
    }
  }

  lemma {:induction false} EscapeStays(s: bytes, e: bool)
    ensures Stays(Inside, Escape(s, e)) && After(Inside, Escape(s, e)) == Inside
    decreases |s|
  {
    hide EscapeByte;
    if s == [] {
    } else {
      EscapeByteStays(s[0], e);
      EscapeStays(s[1..], e);
      StaysBoth(Inside, EscapeByte(s[0], e), Escape(s[1..], e));
      AfterBoth(Inside, EscapeByte(s[0], e), Escape(s[1..], e));
    }
  }

  lemma QuotedCopied(depth: nat, s: bytes, e: bool)
    ensures Copied(depth, Quoted(s, e), Quoted(s, e))
  {
    hide Escape, Stays, Pretty, MoveAll, EscapeByte, After;
    var body := Escape(s, e);
    EscapeStays(s, e);
    LiteralCopied(Inside, depth, body);
    OneByte(Place(Inside, depth, false), QUOTE);
    forall first ensures CopiedFrom(first, depth, Quoted(s, e), Quoted(s, e)) {
      var p := Place(Outside, depth, first);
      PrettyBoth(p, [QUOTE] + body, [QUOTE]);
      PrettyBoth(p, [QUOTE], body);
      OneByte(p, QUOTE);
    }
  }

  lemma OneByte(p: Place, c: byte)
    ensures Pretty(p, [c]) == FrontOf(p, c) + [c] + BackOf(p, c) && MoveAll(p, [c]) == Move(p, c)
  {
    assert [c][1..] == [];
  }

  /** The compact and the pretty text of a value; the two of the same level have the same escapes. */
  function Compact(e: bool): Format { Format(false, e) }

  function Wide(e: bool): Format { Format(true, e) }

  lemma {:induction false} ValuePretty(v: Value, level: nat, e: bool)
    ensures Copied(level, Text(v, level, Compact(e)), Text(v, level, Wide(e)))
    decreases v, 1
  {
    match v
    case Null => OrdinaryCopied(level, NULL_TOKEN);
    case Boolean(b) => OrdinaryCopied(level, if b then TRUE_TOKEN else FALSE_TOKEN);
    case Number(n) =>
      DigitsOrdinary(if n < 0 then -n else n);
      OrdinaryCopied(level, Decimal(n));
    case Str(chars) => QuotedCopied(level, chars, e);
    case Array(items) =>
      if items == [] {
        EmptyPretty(LBRACKET, RBRACKET, level);
      } else {
        ItemsPretty(items, 0, level, e);
        FullPretty(LBRACKET, ItemsText(items, 0, level, Compact(e)), ItemsText(items, 0, level, Wide(e)), RBRACKET,
                   level, e);
      }
    case Object(ms) =>
      if ms == [] {
        EmptyPretty(LBRACE, RBRACE, level);
      } else {
        MembersPretty(ms, 0, level, e);
        FullPretty(LBRACE, MembersText(ms, 0, level, Compact(e)), MembersText(ms, 0, level, Wide(e)), RBRACE,
                   level, e);
      }
  }

  /** The elements from one of them on, each on its own line; the line break in front of the first of them is
      written for the bracket or the comma before it. */
  ghost predicate Lines(first: bool, level: nat, w: bytes, pretty: bytes) {
    var p := Place(Outside, level + 1, first);
    (if first then [] else Line(level + 1)) + Pretty(p, w) + [0x0A] == [0x0A] + pretty &&
    MoveAll(p, w) == Place(Outside, level + 1, false)
  }

  lemma EmptyPretty(open: byte, close: byte, level: nat)
    requires OpensBracket(open) && ClosesBracket(close)
    ensures Copied(level, [open, close], [open, close])
  {
    hide Pretty, MoveAll;
    OneByte(Place(Outside, level + 1, true), close);
    assert [open] + [close] == [open, close];
    forall first ensures CopiedFrom(first, level, [open, close], [open, close]) {
      var p := Place(Outside, level, first);
      PrettyBoth(p, [open], [close]);
      OneByte(p, open);
    }
  }

  lemma FullPretty(open: byte, w: bytes, pretty: bytes, close: byte, level: nat, e: bool)
    requires OpensBracket(open) && ClosesBracket(close) && Lines(true, level, w, pretty)
    ensures Copied(level, [open] + LineBreak(Compact(e)) + w + Indent(level, Compact(e)) + [close],
                   [open] + LineBreak(Wide(e)) + pretty + Indent(level, Wide(e)) + [close])
  {
    hide Pretty, MoveAll, CopiedFrom, Lines;
    var wide := [open, 0x0A] + pretty + Indent(level, Wide(e)) + [close];
    forall first ensures CopiedFrom(first, level, [open] + w + [close], wide) {
      FullFrom(first, open, w, pretty, close, level, e);
    }
    assert [open] + LineBreak(Compact(e)) + w + Indent(level, Compact(e)) + [close] == [open] + w + [close];
    assert [open] + LineBreak(Wide(e)) + pretty + Indent(level, Wide(e)) + [close] == wide;
  }

  lemma FullFrom(first: bool, open: byte, w: bytes, pretty: bytes, close: byte, level: nat, e: bool)
    requires OpensBracket(open) && ClosesBracket(close) && Lines(true, level, w, pretty)
    ensures CopiedFrom(first, level, [open] + w + [close], [open, 0x0A] + pretty + Indent(level, Wide(e)) + [close])
  {
    hide Pretty, MoveAll;
    var p, inner := Place(Outside, level, first), Place(Outside, level + 1, true);
    PrettyBoth(p, [open] + w, [close]);
    PrettyBoth(p, [open], w);
    OneByte(p, open);
    OneByte(Place(Outside, level + 1, false), close);
    var lead := if first then Line(level) else [];
    var lines, indent := Pretty(inner, w), Indent(level, Wide(e));
    assert Line(level) == [0x0A] + indent;
    assert lines + [0x0A] == [0x0A] + pretty;
    assert Pretty(p, [open] + w + [close]) == lead + [open] + lines + ([0x0A] + indent + [close]);
    assert lead + [open] + lines + ([0x0A] + indent + [close]) == lead + [open] + (lines + [0x0A]) + indent + [close];
    assert lead + [open] + ([0x0A] + pretty) + indent + [close] == lead + ([open, 0x0A] + pretty + indent + [close]);
  }

  lemma NothingPretty(p: Place)
    ensures Pretty(p, []) == [] && MoveAll(p, []) == p
  {
  }

  /** The last element. */
  lemma LastLine(first: bool, level: nat, e: bool, x: bytes, y: bytes)
    requires Copied(level + 1, x, y)
    ensures Lines(first, level, x, Indent(level + 1, Wide(e)) + y + [0x0A])
  {
    hide Pretty, MoveAll;
    assert CopiedFrom(first, level + 1, x, y);
    assert Line(level + 1) == [0x0A] + Indent(level + 1, Wide(e));
  }

  lemma CommaPretty(depth: nat)
    ensures var q := Place(Outside, depth, false);
            Pretty(q, [COMMA]) == [COMMA] + Line(depth) && MoveAll(q, [COMMA]) == q
  {
    OneByte(Place(Outside, depth, false), COMMA);
    hide Line;
  }

  lemma LineIs(level: nat, e: bool)
    ensures Line(level) == [0x0A] + Indent(level, Wide(e))
  {
  }

  /** An element, the comma behind it, and the elements that follow. */
  lemma MoreLines(first: bool, level: nat, e: bool, x: bytes, y: bytes, rest: bytes, pretty: bytes)
    requires Copied(level + 1, x, y) && Lines(false, level, rest, pretty)
    ensures Lines(first, level, x + [COMMA] + rest, Indent(level + 1, Wide(e)) + y + [COMMA] + [0x0A] + pretty)
  {
    hide Pretty, MoveAll, Line, Indent, Move, FrontOf, BackOf;
    assert CopiedFrom(first, level + 1, x, y);
    var p, q := Place(Outside, level + 1, first), Place(Outside, level + 1, false);
    PrettyBoth(p, x + [COMMA], rest);
    PrettyBoth(p, x, [COMMA]);
    CommaPretty(level + 1);
    var line, indent := Line(level + 1), Indent(level + 1, Wide(e));
    LineIs(level + 1, e);
    var start := if first then [] else line;
    var behind := Pretty(q, rest);
    assert start + Pretty(p, x) == line + y;
    assert line + behind + [0x0A] == [0x0A] + pretty;
    Reorder(start, Pretty(p, x), line, y, behind, pretty, indent);
  }

  lemma Reorder(start: bytes, x: bytes, line: bytes, y: bytes, behind: bytes, pretty: bytes, indent: bytes)
    requires start + x == line + y && line + behind + [0x0A] == [0x0A] + pretty && line == [0x0A] + indent
    ensures start + (x + ([COMMA] + line) + behind) + [0x0A] == [0x0A] + (indent + y + [COMMA] + [0x0A] + pretty)
  {
    assert start + (x + ([COMMA] + line) + behind) + [0x0A] == (start + x) + [COMMA] + (line + behind + [0x0A]);
    assert [0x0A] + (indent + y + [COMMA] + [0x0A] + pretty) == (line + y) + [COMMA] + ([0x0A] + pretty);
  }

  lemma ItemSplit(items: seq<Value>, k: nat, level: nat, e: bool)
    requires k < |items|
    ensures var x, y := Text(items[k], level + 1, Compact(e)), Text(items[k], level + 1, Wide(e));
            if k + 1 == |items| then
              ItemsText(items, k, level, Compact(e)) == x &&
              ItemsText(items, k, level, Wide(e)) == Indent(level + 1, Wide(e)) + y + [0x0A]
            else
              ItemsText(items, k, level, Compact(e)) == x + [COMMA] + ItemsText(items, k + 1, level, Compact(e)) &&
              ItemsText(items, k, level, Wide(e))
                == Indent(level + 1, Wide(e)) + y + [COMMA] + [0x0A] + ItemsText(items, k + 1, level, Wide(e))
  {
    hide Text;
  }

  lemma {:induction false} ItemsPretty(items: seq<Value>, k: nat, level: nat, e: bool)
    requires k < |items|
    ensures Lines(k == 0, level, ItemsText(items, k, level, Compact(e)), ItemsText(items, k, level, Wide(e)))
    decreases items, |items| - k
  {
    hide *;
    ItemSplit(items, k, level, e);
    ValuePretty(items[k], level + 1, e);
    var x, y := Text(items[k], level + 1, Compact(e)), Text(items[k], level + 1, Wide(e));
    if k + 1 < |items| {
      ItemsPretty(items, k + 1, level, e);
      MoreLines(k == 0, level, e, x, y, ItemsText(items, k + 1, level, Compact(e)),
                ItemsText(items, k + 1, level, Wide(e)));
    } else {
      LastLine(k == 0, level, e, x, y);
    }
  }

  /** A name, its colon and its value. */
  function MemberBody(m: Member, level: nat, e: bool, colon: bytes, f: Format): bytes {
    Quoted(m.name, e) + colon + Text(m.value, level + 1, f)
  }

  lemma CompactSplit(ms: seq<Member>, k: nat, level: nat, e: bool)
    requires k < |ms|
    ensures var x, f := MemberBody(ms[k], level, e, [COLON], Compact(e)), Compact(e);
            MembersText(ms, k, level, f) == if k + 1 == |ms| then x else x + [COMMA] + MembersText(ms, k + 1, level, f)
  {
    hide Text, Quoted;
  }

  lemma WideSplit(ms: seq<Member>, k: nat, level: nat, e: bool)
    requires k < |ms|
    ensures var y, f := MemberBody(ms[k], level, e, [COLON, SPACE], Wide(e)), Wide(e);
            MembersText(ms, k, level, f)
              == if k + 1 == |ms| then Indent(level + 1, f) + y + [0x0A]
                 else Indent(level + 1, f) + y + [COMMA] + [0x0A] + MembersText(ms, k + 1, level, f)
  {
    hide Text, Quoted, Indent;
  }

  lemma MemberCopied(m: Member, level: nat, e: bool)
    requires Copied(level + 1, Text(m.value, level + 1, Compact(e)), Text(m.value, level + 1, Wide(e)))
    ensures Copied(level + 1, MemberBody(m, level, e, [COLON], Compact(e)),
                   MemberBody(m, level, e, [COLON, SPACE], Wide(e)))
  {
    hide Pretty, MoveAll, Quoted, Text;
    var depth := level + 1;
    var name, x, y := Quoted(m.name, e), Text(m.value, depth, Compact(e)), Text(m.value, depth, Wide(e));
    QuotedCopied(depth, m.name, e);
    var body, wide := name + [COLON] + x, name + [COLON, SPACE] + y;
    forall first ensures CopiedFrom(first, depth, body, wide) {
      var p, q := Place(Outside, depth, first), Place(Outside, depth, false);
      assert CopiedFrom(first, depth, name, name) && CopiedFrom(false, depth, x, y);
      PrettyBoth(p, name + [COLON], x);
      PrettyBoth(p, name, [COLON]);
      OneByte(q, COLON);
    }
  }

  lemma {:induction false} MembersPretty(ms: seq<Member>, k: nat, level: nat, e: bool)
    requires k < |ms|
    ensures Lines(k == 0, level, MembersText(ms, k, level, Compact(e)), MembersText(ms, k, level, Wide(e)))
    decreases ms, |ms| - k
  {
    hide *;
    CompactSplit(ms, k, level, e);
    WideSplit(ms, k, level, e);
    ValuePretty(ms[k].value, level + 1, e);
    MemberCopied(ms[k], level, e);
    var x, y := MemberBody(ms[k], level, e, [COLON], Compact(e)), MemberBody(ms[k], level, e, [COLON, SPACE], Wide(e));
    if k + 1 < |ms| {
      MembersPretty(ms, k + 1, level, e);
      MoreLines(k == 0, level, e, x, y, MembersText(ms, k + 1, level, Compact(e)),
                MembersText(ms, k + 1, level, Wide(e)));
    } else {
      LastLine(k == 0, level, e, x, y);
    }
  }

  /** The pretty text is what the pretty printer above makes of the compact text: every element on a line of its
      own, four spaces for every bracket open there, and one space behind the colon of every name. */
  lemma PrettyIsLaidOut(v: Value, e: bool)
    ensures Text(v, 0, Format(true, e)) == Pretty(Place(Outside, 0, false), Text(v, 0, Format(false, e)))
  {
    ValuePretty(v, 0, e);
    assert CopiedFrom(false, 0, Text(v, 0, Compact(e)), Text(v, 0, Wide(e)));
    hide Pretty, Text;
  }
}
