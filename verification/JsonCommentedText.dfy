/** Text with comments in it: when both passes take out the comments and nothing else. */
module JsonCommentedText {
  import opened Bytes
  import opened JsonValue
  import opened JsonComments
  import opened JsonCommentFacts
  import P = JsonParser
  import G = JsonGrammar
  import GP = JsonGrammarProof

  /** A stretch of text without comments, or a comment: a block with its closing token, or a line with its
      line break. */
  datatype Piece = Clean(text: bytes) | Block(body: bytes) | Line(body: bytes)

  function Rendered(p: Piece): bytes {
    match p
    case Clean(text) => text
    case Block(body) => BLOCK.open + body + BLOCK.close
    case Line(body) => LINE.open + body + LINE.close
  }

  /** The piece with spaces in place of a comment. */
  function Blanked(p: Piece): bytes {
    if p.Clean? then p.text else Spaces(|Rendered(p)|)
  }

  function RenderedAll(ps: seq<Piece>): bytes {
    if ps == [] then [] else Rendered(ps[0]) + RenderedAll(ps[1..])
  }

  function BlankedAll(ps: seq<Piece>): bytes {
    if ps == [] then [] else Blanked(ps[0]) + BlankedAll(ps[1..])
  }

  /** Clean text begins and ends outside string literals and has slashes inside them only; the body of a
      comment does not close it. */
  predicate IsPiece(p: Piece) {
    match p
    case Clean(text) => Quiet(text, START) == Some(START)
    case Block(body) => Find(body + BLOCK.close, BLOCK.close) == Some(|body|)
    case Line(body) => NEWLINE !in body
  }

  /** The state in which the block pass leaves w, if it closes within w every block comment it opens there. */
  function Through(w: bytes, st: Scan): Option<Scan>
    decreases |w|
  {
    if w == [] then Some(st)
    else if OpensHere(w, st, BLOCK.open) then
      match Find(w[2..], BLOCK.close)
      case None => None
      case Some(k) => Through(w[2 + k + 2..], START)
    else Through(w[1..], Step(st, w[0]))
  }

  /** What the block pass, which runs first, must find in a line comment: no '*' right behind the token, every
      block comment it opens closed before the line break, and quotes balanced. */
  predicate Harmless(body: bytes) {
    !StartsWith(body, [STAR]) && Through(Rendered(Line(body)), START) == Some(START)
  }

  predicate Good(p: Piece) {
    IsPiece(p) && (p.Line? ==> Harmless(p.body))
  }

  predicate AllGood(ps: seq<Piece>) {
    forall i :: 0 <= i < |ps| ==> Good(ps[i])
  }

  // ----- one pass over a piece and what follows -----

  lemma {:induction false} FindFurther(x: bytes, y: bytes, w: bytes)
    requires Find(x, w).Some?
    ensures Find(x + y, w) == Find(x, w)
    decreases |x|
  {
    if StartsWith(x, w) {
      assert (x + y)[..|w|] == x[..|w|];
    } else {
      assert (x + y)[1..] == x[1..] + y;
      FindFurther(x[1..], y, w);
      assert |w| <= |x| ==> (x + y)[..|w|] == x[..|w|];
      FindReaches(x, w);
    }
  }

  lemma {:induction false} FindReaches(x: bytes, w: bytes)
    requires Find(x, w).Some?
    ensures |w| <= |x|
  {
  }

  lemma QuietNothing(rest: bytes, st: Scan, t: Tokens)
    requires FromCaller(t)
    ensures Strip([] + rest, st, t) == Strip(rest, st, t) && Quiet([], st) == Some(st)
  {
    assert [] + rest == rest;
  }

  lemma QuietByte(w: bytes, rest: bytes, st: Scan, t: Tokens)
    requires FromCaller(t) && w != [] && Quiet(w, st).Some?
    ensures Quiet(w[1..], Step(st, w[0])) == Quiet(w, st)
    ensures Strip(w + rest, st, t) == [w[0]] + Strip(w[1..] + rest, Step(st, w[0]), t)
  {
    var s := w + rest;
    assert s[0] == w[0] && s[1..] == w[1..] + rest;
    FirstByte(s, t.open);
    hide StartsWith, Find;
  }

  /** Quiet text is copied, whatever follows. */
  lemma {:induction false} QuietCopied(w: bytes, rest: bytes, st: Scan, t: Tokens)
    requires FromCaller(t) && Quiet(w, st).Some?
    ensures Strip(w + rest, st, t) == w + Strip(rest, Quiet(w, st).value, t)
    decreases |w|
  {
    hide *;
    if w == [] {
      QuietNothing(rest, st, t);
    } else {
      QuietByte(w, rest, st, t);
      QuietCopied(w[1..], rest, Step(st, w[0]), t);
      assert w == [w[0]] + w[1..];
    }
  }

  lemma {:induction false} SpacesQuiet(n: nat)
    ensures Quiet(Spaces(n), START) == Some(START)
  {
    if n > 0 {
      assert Spaces(n)[1..] == Spaces(n - 1);
      SpacesQuiet(n - 1);
    }
  }

  /** A comment that closes is blanked, and the pass goes on outside literals. */
  lemma ClosedComment(s: bytes, st: Scan, t: Tokens, k: nat)
    requires FromCaller(t) && OpensHere(s, st, t.open) && |s| >= 2 && Find(s[2..], t.close) == Some(k)
    ensures k + 2 + |t.close| <= |s|
    ensures Strip(s, st, t) == Spaces(k + 2 + |t.close|) + Strip(s[k + 2 + |t.close|..], START, t)
  {
    hide Find, Spaces, Strip, OpensHere;
    assert s[0..|s|] == s && s[2..|s|] == s[2..];
    StripBlanks(s, 0, |s|, st, t, k);
    assert s[k + 2 + |t.close|..|s|] == s[k + 2 + |t.close|..];
  }

  lemma CommentShape(body: bytes, rest: bytes, t: Tokens)
    requires FromCaller(t)
    ensures var s := t.open + body + t.close + rest;
            && |s| >= 2 && s[2..] == (body + t.close) + rest && OpensHere(s, START, t.open)
            && |t.open + body + t.close| == |body| + 2 + |t.close| && s[|body| + 2 + |t.close|..] == rest
  {
    var s := t.open + body + t.close + rest;
    assert s[..2] == t.open && s[0] == SLASH;
  }

  lemma CommentBlanked(body: bytes, rest: bytes, t: Tokens)
    requires FromCaller(t) && Find(body + t.close, t.close) == Some(|body|)
    ensures Strip(t.open + body + t.close + rest, START, t)
         == Spaces(|t.open + body + t.close|) + Strip(rest, START, t)
  {
    hide *;
    CommentShape(body, rest, t);
    FindFurther(body + t.close, rest, t.close);
    ClosedComment(t.open + body + t.close + rest, START, t, |body|);
  }

  lemma {:induction false} LineCloses(body: bytes)
    requires NEWLINE !in body
    ensures Find(body + LINE.close, LINE.close) == Some(|body|)
    decreases |body|
  {
    var s := body + LINE.close;
    if body == [] {
      assert s == LINE.close && s[..1] == s;
    } else {
      assert s[0] == body[0] && s[..1][0] == body[0];
      assert s[1..] == body[1..] + LINE.close;
      LineCloses(body[1..]);
    }
  }

  // ----- the block pass over a line comment -----

  predicate EndsLine(w: bytes) { w == [] || w[|w| - 1] == NEWLINE }

  /** What opens in text that ends with a line break opens there whatever follows. */
  lemma OpensSame(w: bytes, rest: bytes, st: Scan)
    requires w != [] && EndsLine(w)
    ensures OpensHere(w + rest, st, BLOCK.open) == OpensHere(w, st, BLOCK.open)
  {
    if |w| > 1 {
      assert (w + rest)[..2] == w[..2];
    } else {
      FirstByte(w + rest, BLOCK.open);
    }
  }

  lemma {:induction false} FoundThere(x: bytes, w: bytes)
    requires Find(x, w).Some?
    ensures x[Find(x, w).value..Find(x, w).value + |w|] == w
  {
    if !StartsWith(x, w) {
      FoundThere(x[1..], w);
      var k := Find(x[1..], w).value;
      assert x[k + 1..k + 1 + |w|] == x[1..][k..k + |w|];
    }
  }

  /** A block comment that closes inside the text closes before the last byte. */
  lemma ClosedBefore(w: bytes)
    requires |w| > 2 && EndsLine(w) && Find(w[2..], BLOCK.close).Some?
    ensures var n := Find(w[2..], BLOCK.close).value + 4; n < |w| && EndsLine(w[n..])
  {
    FoundThere(w[2..], BLOCK.close);
    var k := Find(w[2..], BLOCK.close).value;
    assert w[2..][k..k + 2][1] == w[k + 3];
  }

  lemma LongerThanToken(w: bytes, st: Scan)
    requires w != [] && EndsLine(w) && OpensHere(w, st, BLOCK.open)
    ensures |w| > 2 && EndsLine(w[2..])
  {
    assert w[..2][1] == w[1];
  }

  lemma ThroughClosed(w: bytes, st: Scan)
    requires |w| > 2 && OpensHere(w, st, BLOCK.open) && Find(w[2..], BLOCK.close).Some?
    ensures var n := Find(w[2..], BLOCK.close).value + 4; n <= |w| && Through(w, st) == Through(w[n..], START)
  {
    var k := Find(w[2..], BLOCK.close).value;
    assert w[2 + k + 2..] == w[k + 4..];
    hide Find, OpensHere;
  }

  /** A block comment that opens and closes inside the text. */
  lemma ClosedInside(w: bytes, rest: bytes, st: Scan)
    requires w != [] && EndsLine(w) && OpensHere(w, st, BLOCK.open) && Find(w[2..], BLOCK.close).Some?
    ensures var n := Find(w[2..], BLOCK.close).value + 4;
            && 0 < n < |w| && EndsLine(w[n..]) && Through(w, st) == Through(w[n..], START)
            && Strip(w, st, BLOCK) == Spaces(n) + Strip(w[n..], START, BLOCK)
            && Strip(w + rest, st, BLOCK) == Spaces(n) + Strip(w[n..] + rest, START, BLOCK)
  {
    hide Find, OpensHere, Strip, Through, Spaces, EndsLine;
    OpensSame(w, rest, st);
    LongerThanToken(w, st);
    var k := Find(w[2..], BLOCK.close).value;
    ClosedBefore(w);
    ThroughClosed(w, st);
    ClosedComment(w, st, BLOCK, k);
    assert (w + rest)[2..] == w[2..] + rest;
    FindFurther(w[2..], rest, BLOCK.close);
    ClosedComment(w + rest, st, BLOCK, k);
    assert (w + rest)[k + 4..] == w[k + 4..] + rest;
  }

  lemma ThroughNothing(rest: bytes, st: Scan)
    ensures Strip([] + rest, st, BLOCK) == Strip([], st, BLOCK) + Strip(rest, st, BLOCK) && Through([], st) == Some(st)
  {
    assert [] + rest == rest;
  }

  lemma ThroughCloses(w: bytes, st: Scan)
    requires w != [] && OpensHere(w, st, BLOCK.open) && Through(w, st).Some?
    ensures Find(w[2..], BLOCK.close).Some?
  {
  }

  lemma {:induction false} ThroughPass(w: bytes, rest: bytes, st: Scan)
    requires EndsLine(w) && Through(w, st).Some?
    ensures Strip(w + rest, st, BLOCK) == Strip(w, st, BLOCK) + Strip(rest, Through(w, st).value, BLOCK)
    decreases |w|
  {
    hide *;
    if w == [] {
      ThroughNothing(rest, st);
    } else {
      if OpensHere(w, st, BLOCK.open) {
        ThroughCloses(w, st);
        ClosedInside(w, rest, st);
        ThroughPass(w[Find(w[2..], BLOCK.close).value + 4..], rest, START);
      } else {
        CopiedBoth(w, rest, st);
        ThroughPass(w[1..], rest, Step(st, w[0]));
      }
    }
  }

  lemma CopiedBoth(w: bytes, rest: bytes, st: Scan)
    requires w != [] && EndsLine(w) && !OpensHere(w, st, BLOCK.open)
    ensures EndsLine(w[1..]) && Through(w, st) == Through(w[1..], Step(st, w[0]))
    ensures Strip(w, st, BLOCK) == [w[0]] + Strip(w[1..], Step(st, w[0]), BLOCK)
    ensures Strip(w + rest, st, BLOCK) == [w[0]] + Strip(w[1..] + rest, Step(st, w[0]), BLOCK)
  {
    OpensSame(w, rest, st);
    assert (w + rest)[1..] == w[1..] + rest;
    hide OpensHere;
  }

  /** The line break survives a block pass that gets through. */
  lemma {:induction false} BreakKept(w: bytes, st: Scan)
    requires w != [] && EndsLine(w) && Through(w, st).Some?
    ensures |Strip(w, st, BLOCK)| == |w| && Strip(w, st, BLOCK)[|w| - 1] == NEWLINE
    decreases |w|
  {
    OnlyBlanks(w, st, BLOCK);
    if OpensHere(w, st, BLOCK.open) {
      LongerThanToken(w, st);
      ClosedBefore(w);
      var n := Find(w[2..], BLOCK.close).value + 4;
      assert w[2..][n - 2..] == w[n..];
      BreakKept(w[n..], START);
      assert Strip(w, st, BLOCK) == Spaces(n) + Strip(w[n..], START, BLOCK);
      hide Find, OpensHere, Strip;
    } else {
      FirstByte(w, BLOCK.open);
      if |w| > 1 { BreakKept(w[1..], Step(st, w[0])); }
      hide Find, OpensHere;
    }
  }

  /** After the block pass a line comment is still one of the same length, if there was no '*' behind its token. */
  lemma LineKept(body: bytes) returns (kept: bytes)
    requires NEWLINE !in body && !StartsWith(body, [STAR]) && Through(Rendered(Line(body)), START).Some?
    ensures Strip(Rendered(Line(body)), START, BLOCK) == Rendered(Line(kept))
    ensures |kept| == |body| && NEWLINE !in kept
  {
    hide Strip, Through;
    var w := Rendered(Line(body));
    var after := Strip(w, START, BLOCK);
    OnlyBlanks(w, START, BLOCK);
    BreakKept(w, START);
    TokenKept(body);
    kept := after[2..2 + |body|];
    Inside(w, after, body, kept);
    assert after == LINE.open + kept + LINE.close;
  }

  lemma Inside(w: bytes, after: bytes, body: bytes, kept: bytes)
    requires w == Rendered(Line(body)) && |after| == |w| && kept == after[2..2 + |body|] && NEWLINE !in body
    requires forall k :: 0 <= k < |w| ==> after[k] == w[k] || after[k] == SPACE
    ensures NEWLINE !in kept
  {
    forall k | 0 <= k < |kept|
      ensures kept[k] != NEWLINE
    {
      assert kept[k] == after[2 + k] && w[2 + k] == body[k] && body[k] in body;
    }
  }

  lemma TokenKept(body: bytes)
    requires !StartsWith(body, [STAR])
    ensures var after := Strip(Rendered(Line(body)), START, BLOCK); |after| >= 2 && after[..2] == LINE.open
  {
    var w := Rendered(Line(body));
    assert w[..2] == LINE.open && w[0] == SLASH && w[1] == SLASH;
    assert w[1..] == [SLASH] + (body + LINE.close) && w[1..][1..] == body + LINE.close;
    assert !OpensHere(w, START, BLOCK.open) by { assert w[..2][1] == SLASH; }
    assert !OpensHere(w[1..], START, BLOCK.open) by {
      assert w[1..][..2][1] == (body + LINE.close)[0];
      assert body != [] ==> body[..1] == [body[0]];
    }
    assert Strip(w, START, BLOCK) == [SLASH] + Strip(w[1..], START, BLOCK);
    assert Strip(w[1..], START, BLOCK) == [SLASH] + Strip(w[1..][1..], START, BLOCK);
  }

  // ----- both passes over good pieces -----

  function AfterBlocks(p: Piece): bytes {
    match p
    case Clean(text) => text
    case Block(_) => Spaces(|Rendered(p)|)
    case Line(_) => Strip(Rendered(p), START, BLOCK)
  }

  function AllAfterBlocks(ps: seq<Piece>): bytes {
    if ps == [] then [] else AfterBlocks(ps[0]) + AllAfterBlocks(ps[1..])
  }

  lemma BlockPassOne(p: Piece, rest: bytes)
    requires Good(p)
    ensures Strip(Rendered(p) + rest, START, BLOCK) == AfterBlocks(p) + Strip(rest, START, BLOCK)
  {
    hide Strip, Quiet, Through, Find;
    match p
    case Clean(text) => QuietCopied(text, rest, START, BLOCK);
    case Block(body) => CommentBlanked(body, rest, BLOCK);
    case Line(body) => ThroughPass(Rendered(p), rest, START);
  }

  lemma LinePassOne(p: Piece, rest: bytes)
    requires Good(p)
    ensures Strip(AfterBlocks(p) + rest, START, LINE) == Blanked(p) + Strip(rest, START, LINE)
  {
    hide Strip, Quiet, Through, Find;
    match p
    case Clean(text) => QuietCopied(text, rest, START, LINE);
    case Block(body) =>
      SpacesQuiet(|Rendered(p)|);
      QuietCopied(Spaces(|Rendered(p)|), rest, START, LINE);
    case Line(body) =>
      var kept := LineKept(body);
      LineCloses(kept);
      CommentBlanked(kept, rest, LINE);
  }

  lemma {:induction false} BlockPass(ps: seq<Piece>)
    requires AllGood(ps)
    ensures Strip(RenderedAll(ps), START, BLOCK) == AllAfterBlocks(ps)
  {
    if ps == [] {
      StripNothing(START, BLOCK);
    } else {
      hide Strip, Good;
      BlockPassOne(ps[0], RenderedAll(ps[1..]));
      BlockPass(ps[1..]);
    }
  }

  lemma {:induction false} LinePass(ps: seq<Piece>)
    requires AllGood(ps)
    ensures Strip(AllAfterBlocks(ps), START, LINE) == BlankedAll(ps)
  {
    if ps == [] {
      StripNothing(START, LINE);
    } else {
      hide Strip, Good;
      LinePassOne(ps[0], AllAfterBlocks(ps[1..]));
      LinePass(ps[1..]);
    }
  }

  /** Both passes take out exactly the comments. */
  lemma CommentsGo(ps: seq<Piece>)
    requires AllGood(ps)
    ensures StripBoth(RenderedAll(ps)) == BlankedAll(ps)
  {
    BlockPass(ps);
    LinePass(ps);
  }

  /** So text with comments parses exactly as the grammar has it with spaces in their place. */
  lemma CommentsParse(ps: seq<Piece>, v: Value, j: nat)
    requires AllGood(ps)
    ensures ParseWithComments(RenderedAll(ps)) == P.Ok(v, j) <==>
              G.IsReading(BlankedAll(ps), 0, 0, v, j)
  {
    CommentsGo(ps);
    GP.ParsesIff(BlankedAll(ps), 0, 0, v, j);
  }

  // ----- the condition on line comments is exact -----

  /** A token is found behind a line break exactly where it is found without what stands before. */
  lemma {:induction false} FoundBehind(x: bytes, y: bytes)
    requires x != [] && EndsLine(x) && Find(x, BLOCK.close).None? && Find(y, BLOCK.close).Some?
    ensures Find(x + y, BLOCK.close) == Some(|x| + Find(y, BLOCK.close).value)
    decreases |x|
  {
    assert !StartsWith(x, BLOCK.close);
    assert (x + y)[1..] == x[1..] + y;
    if |x| == 1 {
      FirstByte(x + y, BLOCK.close);
      assert x[1..] + y == y;
    } else {
      assert (x + y)[..2] == x[..2];
      FoundBehind(x[1..], y);
    }
  }

  /** A block comment left open runs on behind the line. */
  lemma {:induction false} RunsOn(w: bytes, rest: bytes, st: Scan, j: nat)
    requires w != [] && EndsLine(w) && Through(w, st) == None
    requires Find(rest, BLOCK.close).Some? && j < Find(rest, BLOCK.close).value
    ensures |w| + j < |Strip(w + rest, st, BLOCK)| && Strip(w + rest, st, BLOCK)[|w| + j] == SPACE
    decreases |w|
  {
    hide *;
    if OpensHere(w, st, BLOCK.open) {
      LongerThanToken(w, st);
      if Find(w[2..], BLOCK.close).Some? {
        ClosedInside(w, rest, st);
        var n := Find(w[2..], BLOCK.close).value + 4;
        RunsOn(w[n..], rest, START, j);
        SpacesLength(n);
      } else {
        LeftOpen(w, rest, st, j);
      }
    } else {
      CopiedBoth(w, rest, st);
      NotTheLast(w, st);
      RunsOn(w[1..], rest, Step(st, w[0]), j);
    }
  }

  lemma SpacesLength(n: nat)
    ensures |Spaces(n)| == n
  {
  }

  lemma NotTheLast(w: bytes, st: Scan)
    requires w != [] && EndsLine(w) && !OpensHere(w, st, BLOCK.open) && Through(w, st) == None
    ensures w[1..] != [] && EndsLine(w[1..])
  {
  }

  lemma LeftOpen(w: bytes, rest: bytes, st: Scan, j: nat)
    requires w != [] && EndsLine(w) && OpensHere(w, st, BLOCK.open)
    requires Find(w[2..], BLOCK.close).None? && Find(rest, BLOCK.close).Some?
    requires j < Find(rest, BLOCK.close).value
    ensures |w| + j < |Strip(w + rest, st, BLOCK)| && Strip(w + rest, st, BLOCK)[|w| + j] == SPACE
  {
    var s := w + rest;
    OpensSame(w, rest, st);
    LongerThanToken(w, st);
    assert s[2..] == w[2..] + rest;
    hide OpensHere, Find, Strip;
    FoundBehind(w[2..], rest);
    ClosedComment(s, st, BLOCK, |w| - 2 + Find(rest, BLOCK.close).value);
  }

  /** A line break ends an escape. */
  lemma {:induction false} NotEscapedBehind(w: bytes, st: Scan)
    requires w != [] && EndsLine(w) && Through(w, st).Some?
    ensures !Through(w, st).value.escaped
    decreases |w|
  {
    if OpensHere(w, st, BLOCK.open) {
      var n := Find(w[2..], BLOCK.close).value + 4;
      ClosedInside(w, [], st);
      NotEscapedBehind(w[n..], START);
    } else {
      FirstByte(w, BLOCK.open);
      if |w| > 1 { NotEscapedBehind(w[1..], Step(st, w[0])); }
    }
  }

  /** What the passes should make of a line comment with other pieces behind it. */
  ghost predicate GoesCleanly(body: bytes, ps: seq<Piece>) {
    StripBoth(Rendered(Line(body)) + RenderedAll(ps)) == Spaces(|Rendered(Line(body))|) + BlankedAll(ps)
  }

  /** A line comment meets the condition exactly when it goes cleanly in front of any good pieces. */
  lemma HarmlessIff(body: bytes)
    requires NEWLINE !in body
    ensures Harmless(body) <==> forall ps :: AllGood(ps) ==> GoesCleanly(body, ps)
  {
    if Harmless(body) {
      forall ps | AllGood(ps)
        ensures GoesCleanly(body, ps)
      {
        var all := [Line(body)] + ps;
        assert all[1..] == ps;
        assert AllGood(all);
        CommentsGo(all);
      }
    } else if StartsWith(body, [STAR]) {
      StarLeavesSlash(body);
      assert AllGood([]);
    } else if Through(Rendered(Line(body)), START).None? {
      OpenLosesText(body);
    } else {
      QuoteKeepsComment(body);
    }
  }

  /** A '*' behind the token turns its second slash into the opening of a block comment. */
  lemma StarLeavesSlash(body: bytes)
    requires StartsWith(body, [STAR])
    ensures !GoesCleanly(body, [])
  {
    var w := Rendered(Line(body));
    assert w + RenderedAll([]) == w;
    assert body[..1][0] == body[0] == STAR;
    assert w[..2][1] == SLASH && w[1..][..2] == [SLASH, STAR];
    assert Strip(w, START, BLOCK) == [SLASH] + Strip(w[1..], START, BLOCK);
    SpacesFirst(w[1..]);
    var once := Strip(w, START, BLOCK);
    assert once[1] == SPACE;
    FirstByte(once, LINE.open);
    assert Strip(once, START, LINE)[0] == SLASH;
    assert (Spaces(|w|) + BlankedAll([]))[0] == SPACE;
  }

  lemma SpacesFirst(s: bytes)
    requires OpensHere(s, START, BLOCK.open)
    ensures |Strip(s, START, BLOCK)| > 0 && Strip(s, START, BLOCK)[0] == SPACE
  {
    var after := Strip(s, START, BLOCK);
    match Find(s[2..], BLOCK.close)
    case None => assert after == Spaces(2) + s[2..];
    case Some(k) => assert after == Spaces(k + 4) + Strip(s[2..][k + 2..], START, BLOCK);
    hide Find, Strip, OpensHere;
  }

  /** A block comment left open in the line takes text with it up to the next closing token. */
  lemma OpenLosesText(body: bytes)
    requires NEWLINE !in body && Through(Rendered(Line(body)), START).None?
    ensures var ps := [Clean([ZERO]), Block([])]; AllGood(ps) && !GoesCleanly(body, ps)
  {
    var w, ps := Rendered(Line(body)), [Clean([ZERO]), Block([])];
    var rest: bytes := [ZERO, SLASH, STAR, STAR, SLASH];
    EmptyBlock();
    SmallPieces();
    assert ps[1..] == [Block([])] && ps[1..][1..] == [];
    assert RenderedAll(ps[1..]) == Rendered(Block([])) && BlankedAll(ps[1..]) == Spaces(4);
    assert RenderedAll(ps) == rest && BlankedAll(ps) == [ZERO] + Spaces(4);
    hide Strip, Through;
    RunsOn(w, rest, START, 0);
    SpaceStays(w + rest, |w|);
    assert (Spaces(|w|) + BlankedAll(ps))[|w|] == ZERO;
  }

  /** What the first pass blanks the second leaves blank. */
  lemma SpaceStays(s: bytes, k: nat)
    requires k < |Strip(s, START, BLOCK)| && Strip(s, START, BLOCK)[k] == SPACE
    ensures k < |StripBoth(s)| && StripBoth(s)[k] == SPACE
  {
    hide Strip;
    OnlyBlanks(Strip(s, START, BLOCK), START, LINE);
  }

  lemma EmptyBlock()
    ensures var s: bytes := [STAR, SLASH]; Find(s, BLOCK.close) == Some(0)
    ensures var s: bytes := [ZERO, SLASH, STAR, STAR, SLASH]; Find(s, BLOCK.close) == Some(3)
  {
    var s: bytes := [ZERO, SLASH, STAR, STAR, SLASH];
    assert s[1..][1..][1..] == [STAR, SLASH];
    assert s[..2][0] == ZERO && s[1..][..2][0] == SLASH && s[1..][1..][..2][1] == STAR;
    assert Find(s[1..][1..][1..], BLOCK.close) == Some(0);
    assert Find(s[1..][1..], BLOCK.close) == Some(1);
  }

  lemma SmallPieces()
    ensures Good(Clean([ZERO])) && Good(Block([]))
    ensures Rendered(Block([])) == [SLASH, STAR, STAR, SLASH]
  {
    EmptyBlock();
    var d: bytes := [ZERO];
    assert d[1..] == [];
    assert [] + BLOCK.close == BLOCK.close;
  }

  /** An odd quote in the line keeps the next comment in the text. */
  lemma QuoteKeepsComment(body: bytes)
    requires NEWLINE !in body && !StartsWith(body, [STAR])
    requires Through(Rendered(Line(body)), START).Some? && Through(Rendered(Line(body)), START) != Some(START)
    ensures AllGood([Block([])]) && !GoesCleanly(body, [Block([])])
  {
    var w := Rendered(Line(body));
    var rest: bytes := [SLASH, STAR, STAR, SLASH];
    var mid := Through(w, START).value;
    SmallPieces();
    assert [Block([])][1..] == [];
    assert RenderedAll([Block([])]) == rest && BlankedAll([Block([])]) == Spaces(4);
    hide Strip, Through, Quiet, Find;
    NotEscapedBehind(w, START);
    assert mid == Scan(true, false);
    PlainInLiteral(rest);
    QuietCopied(rest, [], mid, BLOCK);
    StripNothing(mid, BLOCK);
    assert rest + [] == rest;
    ThroughPass(w, rest, START);
    var kept := LineKept(body);
    LineCloses(kept);
    CommentBlanked(kept, rest, LINE);
    SlashStays(rest);
    assert StripBoth(w + rest) == Spaces(|w|) + Strip(rest, START, LINE);
    assert StripBoth(w + rest)[|w|] == SLASH;
    assert (Spaces(|w|) + Spaces(4))[|w|] == SPACE;
  }

  lemma SlashStays(rest: bytes)
    requires rest == [SLASH, STAR, STAR, SLASH]
    ensures |Strip(rest, START, LINE)| > 0 && Strip(rest, START, LINE)[0] == SLASH
  {
    assert rest[..2][1] == STAR;
  }
}
