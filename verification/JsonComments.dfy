/** The comment stripper: one pass as a function of the text, and what it keeps. */
module JsonComments {
  import opened Bytes

  /** What the pass knows at a byte: whether it is inside a string literal, and whether the byte
      before was an unescaped backslash. */
  datatype Scan = Scan(inString: bool, escaped: bool)

  const START := Scan(false, false)

  function Step(st: Scan, c: byte): Scan {
    if c == BACKSLASH && !st.escaped then Scan(st.inString, true)
    else if c == QUOTE && !st.escaped then Scan(!st.inString, false)
    else Scan(st.inString, false)
  }

  predicate StartsWith(s: bytes, w: bytes) {
    |w| <= |s| && s[..|w|] == w
  }

  /** strstr. */
  function Find(s: bytes, w: bytes): (r: Option<nat>)
    ensures r.Some? ==> r.value + |w| <= |s|
  {
    if StartsWith(s, w) then Some(0)
    else if s == [] then None
    else match Find(s[1..], w)
         case None => None
         case Some(k) => Some(k + 1)
  }

  /** A pair of tokens: what opens a comment and what closes it. */
  datatype Tokens = Tokens(open: bytes, close: bytes)

  const BLOCK := Tokens([SLASH, STAR], [STAR, SLASH])
  const LINE := Tokens([SLASH, SLASH], [NEWLINE])

  /** The tokens json_parse_string_with_comments passes. */
  predicate FromCaller(t: Tokens) { t == BLOCK || t == LINE }

  /** A comment starts at the first byte of s: a quote or backslash that is not escaped goes first. */
  predicate OpensHere(s: bytes, st: Scan, open: bytes) {
    s != [] && !(s[0] == BACKSLASH && !st.escaped) && !(s[0] == QUOTE && !st.escaped) &&
    !st.inString && StartsWith(s, open)
  }

  /** One pass over the text s, entered in state st. */
  function Strip(s: bytes, st: Scan, t: Tokens): bytes
    requires FromCaller(t)
    decreases |s|
  {
    if s == [] then []
    else if OpensHere(s, st, t.open) then
      var rest := s[|t.open|..];
      match Find(rest, t.close)
      case None => Spaces(|t.open|) + rest
      case Some(k) => Spaces(|t.open| + k + |t.close|) + Strip(rest[k + |t.close|..], START, t)
    else [s[0]] + Strip(s[1..], Step(st, s[0]), t)
  }

  // ----- in place -----

  lemma SliceStarts(s: bytes, i: nat, n: nat, w: bytes)
    requires i <= n <= |s|
    ensures StartsWith(s[i..n], w) <==> i + |w| <= n && s[i..i + |w|] == w
  {
    if i + |w| <= n { assert s[i..n][..|w|] == s[i..i + |w|]; }
  }

  lemma FirstByte(s: bytes, w: bytes)
    requires w != []
    ensures StartsWith(s, w) ==> s != [] && s[0] == w[0]
    ensures StartsWith(s, w) && |w| > 1 ==> s[1] == w[1]
  {
    if StartsWith(s, w) {
      assert s[..|w|][0] == s[0];
      assert |w| > 1 ==> s[..|w|][1] == s[1];
    }
  }

  /** The byte at i is copied. */
  lemma StripKeeps(s: bytes, i: nat, n: nat, st: Scan, t: Tokens)
    requires FromCaller(t) && i < n <= |s| && !OpensHere(s[i..n], st, t.open)
    ensures s[..i] + Strip(s[i..n], st, t) == s[..i + 1] + Strip(s[i + 1..n], Step(st, s[i]), t)
  {
    assert s[i..n][1..] == s[i + 1..n];
  }

  /** A comment that starts at i and is closed k bytes after its opening token. */
  lemma StripBlanks(s: bytes, i: nat, n: nat, st: Scan, t: Tokens, k: nat)
    requires FromCaller(t) && i + 2 <= n <= |s| && OpensHere(s[i..n], st, t.open)
    requires Find(s[i + 2..n], t.close) == Some(k)
    ensures i + 2 + k + |t.close| <= n
    ensures var end := i + 2 + k + |t.close|;
            Strip(s[i..n], st, t) == Spaces(end - i) + Strip(s[end..n], START, t)
  {
    assert s[i..n][2..] == s[i + 2..n];
    assert s[i + 2..n][k + |t.close|..] == s[i + 2 + k + |t.close|..n];
  }

  /** A comment that starts at i and is never closed: only its opening token is blanked. */
  lemma StripUnclosed(s: bytes, i: nat, n: nat, st: Scan, t: Tokens)
    requires FromCaller(t) && i + 2 <= n <= |s| && OpensHere(s[i..n], st, t.open)
    requires Find(s[i + 2..n], t.close) == None
    ensures Strip(s[i..n], st, t) == Spaces(2) + s[i + 2..n]
  {
    assert s[i..n][2..] == s[i + 2..n];
  }

  lemma FindStep(s: bytes, i: nat, n: nat, w: bytes)
    requires i < n <= |s| && !StartsWith(s[i..n], w)
    ensures Find(s[i..n], w) == match Find(s[i + 1..n], w) case None => None case Some(k) => Some(k + 1)
  {
    assert s[i..n][1..] == s[i + 1..n];
  }

  /** strstr on the bytes from offset from to the end of the string. */
  method FindToken(a: array<byte>, from: nat, n: nat, w: bytes) returns (r: Option<nat>)
    requires from <= n <= a.Length && w != []
    ensures r == Find(a[from..n], w)
  {
    hide Find, StartsWith;
    var i := from;
    while i < n
      invariant from <= i <= n
      invariant Find(a[from..n], w) == match Find(a[i..n], w) case None => None case Some(k) => Some(i - from + k)
    {
      SliceStarts(a[..], i, n, w);
      assert a[..][i..n] == a[i..n];
      if i + |w| <= n && a[i..i + |w|] == w {
        assert a[..][i..i + |w|] == a[i..i + |w|];
        FindHere(a[i..n], w);
        return Some(i - from);
      }
      assert i + |w| <= n ==> a[..][i..i + |w|] == a[i..i + |w|];
      FindStep(a[..], i, n, w);
      assert a[..][i + 1..n] == a[i + 1..n];
      i := i + 1;
    }
    FindNothing(w);
    return None;
  }

  lemma FindHere(s: bytes, w: bytes)
    requires StartsWith(s, w)
    ensures Find(s, w) == Some(0)
  {
  }

  lemma FindNothing(w: bytes)
    requires w != []
    ensures Find([], w) == None
  {
  }

  method Blank(a: array<byte>, from: nat, to: nat)
    requires from <= to <= a.Length
    modifies a
    ensures a[..from] == old(a[..from]) && a[to..] == old(a[to..])
    ensures a[..to] == old(a[..from]) + Spaces(to - from)
  {
    for i := from to to
      invariant a[..i] == old(a[..from]) + Spaces(i - from)
      invariant a[i..] == old(a[i..])
    {
      a[i] := SPACE;
    }
    assert a[..from] == a[..to][..from];
  }

  /** The branch for a comment: blanks it and says where to go on, or None if it is never closed. */
  method BlankComment(a: array<byte>, i: nat, n: nat, t: Tokens, ghost st: Scan) returns (next: Option<nat>)
    requires FromCaller(t) && i + 2 <= n < a.Length && OpensHere(a[i..n], st, t.open)
    modifies a
    ensures next.None? ==> a[..n] == old(a[..i]) + Strip(old(a[i..n]), st, t) && a[n..] == old(a[n..])
    ensures next.Some? ==>
              i < next.value <= n && a[next.value..] == old(a[next.value..]) &&
              a[..next.value] + Strip(a[next.value..n], START, t) == old(a[..i]) + Strip(old(a[i..n]), st, t)
  {
    hide Strip, Find, StartsWith;
    ghost var s := a[..];
    var close := FindToken(a, i + 2, n, t.close);
    assert s[i..n] == a[i..n] && s[i + 2..n] == a[i + 2..n];
    if close.None? {
      StripUnclosed(s, i, n, st, t);
      Blank(a, i, i + 2);
      SameTail(s, a[..], i + 2, n);
      assert a[..n] == a[..i + 2] + a[i + 2..n];
      return None;
    }
    StripBlanks(s, i, n, st, t, close.value);
    var end := i + 2 + close.value + |t.close|;
    Blank(a, i, end);
    SameTail(s, a[..], end, n);
    return Some(end);
  }

  lemma SameTail(before: bytes, now: bytes, i: nat, n: nat)
    requires i <= n <= |before| == |now| && now[i..] == before[i..]
    ensures now[i..n] == before[i..n] && now[n..] == before[n..]
  {
    assert now[i..n] == now[i..][..n - i] && before[i..n] == before[i..][..n - i];
    assert now[n..] == now[i..][n - i..] && before[n..] == before[i..][n - i..];
  }

  /** remove_comments on a NUL-terminated string of length n. */
  method RemoveComments(a: array<byte>, n: nat, t: Tokens)
    requires n < a.Length && a[n] == NUL && NUL !in a[..n]
    requires FromCaller(t)
    modifies a
    ensures a[..n] == Strip(old(a[..n]), START, t)
    ensures a[n..] == old(a[n..])
  {
    hide Strip, Find, StartsWith;
    var inString, escaped, i := false, false, 0;
    ghost var before := a[..];
    ghost var result := Strip(before[..n], START, t);
    assert a[0..n] == before[..n];
    while a[i] != NUL
      invariant i <= n && a[i..] == before[i..]
      invariant a[..i] + Strip(a[i..n], Scan(inString, escaped), t) == result
      decreases n - i
    {
      ghost var now, st := a[..], Scan(inString, escaped);
      KeepsTail(before, now, i, n);
      SliceStarts(now, i, n, t.open);
      assert now[i..n] == a[i..n] && a[i..n][0] == a[i] && now[..i] == a[..i];
      assert i + |t.open| <= n ==> now[i..i + |t.open|] == a[i..i + |t.open|];
      assert now[i + 1..n] == a[i + 1..n] && now[..i + 1] == a[..i + 1];
      assert a[i + 1..] == before[i..][1..];
      if !OpensHere(a[i..n], st, t.open) { StripKeeps(now, i, n, st, t); }
      var current := a[i];
      if current == BACKSLASH && !escaped {
        escaped := true;
        i := i + 1;
        continue;
      } else if current == QUOTE && !escaped {
        inString := !inString;
      } else if !inString && i + |t.open| <= n && a[i..i + |t.open|] == t.open {
        var next := BlankComment(a, i, n, t, st);
        if next.None? {
          assert a[n..] == before[i..][n - i..];
          return;
        }
        assert a[next.value..] == before[i..][next.value - i..] == before[next.value..];
        i := next.value - 1;
      }
      escaped := false;
      i := i + 1;
    }
    assert i == n by { NoEarlierNul(before, a[..], i, n); }
    StripNothing(Scan(inString, escaped), t);
    assert a[n..n] == [];
  }

  lemma StripNothing(st: Scan, t: Tokens)
    requires FromCaller(t)
    ensures Strip([], st, t) == []
  {
  }

  lemma NoEarlierNul(before: bytes, now: bytes, i: nat, n: nat)
    requires i <= n < |before| && |now| == |before| && now[i..] == before[i..] && NUL !in before[..n] && now[i] == NUL
    ensures i == n
  {
    assert now[i..][0] == before[i..][0];
  }

  lemma KeepsTail(before: bytes, now: bytes, i: nat, n: nat)
    requires i <= n < |before| && |now| == |before| && now[i..] == before[i..] && before[n] == NUL && now[i] != NUL
    ensures i < n
  {
    assert now[i..][n - i] == before[i..][n - i];
  }
}
