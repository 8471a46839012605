/** Quoted strings: finding the closing quote, and undoing the escapes. */
module JsonString {
  import opened Bytes
  import opened Utf8

  // ----- skip_quotes -----

  /** Offset of the quote that closes a string whose body starts at offset i. */
  function ClosingQuote(s: bytes, i: nat): (r: Option<nat>)
    ensures r.Some? ==> i <= r.value < |s| && s[r.value] == QUOTE
    decreases |s| - i
  {
    if At(s, i) == QUOTE then Some(i)
    else if At(s, i) == NUL then None
    else if At(s, i) == BACKSLASH then
      if At(s, i + 1) == NUL then None else ClosingQuote(s, i + 2)
    else ClosingQuote(s, i + 1)
  }

  /** The scan for the closing quote, started at offset i, passes through offset p. */
  predicate StopsAt(s: bytes, i: nat, p: nat)
    decreases |s| - i
  {
    i == p ||
    (At(s, i) != QUOTE && At(s, i) != NUL &&
     if At(s, i) == BACKSLASH then At(s, i + 1) != NUL && StopsAt(s, i + 2, p) else StopsAt(s, i + 1, p))
  }

  lemma StopsHere(s: bytes, i: nat)
    ensures StopsAt(s, i, i)
  {
  }

  lemma {:induction false} StopsTransitive(s: bytes, i: nat, p: nat, q: nat)
    requires StopsAt(s, i, p) && StopsAt(s, p, q)
    ensures StopsAt(s, i, q)
    decreases |s| - i
  {
    if i != p {
      StopsTransitive(s, if At(s, i) == BACKSLASH then i + 2 else i + 1, p, q);
    }
  }

  /** From any offset it passes through, the scan finds the same closing quote. */
  lemma {:induction false} StopsSameQuote(s: bytes, i: nat, p: nat)
    requires StopsAt(s, i, p)
    ensures ClosingQuote(s, i) == ClosingQuote(s, p)
    decreases |s| - i
  {
    if i != p {
      StopsSameQuote(s, if At(s, i) == BACKSLASH then i + 2 else i + 1, p);
    }
  }

  method SkipQuotes(s: bytes, start: nat) returns (end: Option<nat>)
    ensures end.Some? <==> At(s, start) == QUOTE && ClosingQuote(s, start + 1).Some?
    ensures end.Some? ==> end.value == ClosingQuote(s, start + 1).value + 1
  {
    if At(s, start) != QUOTE { return None; }
    var i := start + 1;
    while At(s, i) != QUOTE
      invariant i >= start + 1 && ClosingQuote(s, i) == ClosingQuote(s, start + 1)
      decreases |s| - i
    {
      if At(s, i) == NUL {
        return None;
      } else if At(s, i) == BACKSLASH {
        i := i + 1;
        if At(s, i) == NUL { return None; }
      }
      i := i + 1;
    }
    return Some(i + 1);
  }

  // ----- escapes -----

  lemma HexDigitReads(d: nat, upper: bool)
    requires d < 16
    ensures HexValue(HexDigit(d, upper)) == d && HexDigit(d, upper) != NUL
  {
  }

  /** parse_utf16_hex: four hexadecimal digits at offset i. */
  function Hex4(s: bytes, i: nat): (r: Option<nat>)
    ensures r.Some? ==> r.value <= 0xFFFF
    ensures r.Some? ==> i + 4 <= |s| && forall k :: i <= k < i + 4 ==> HexValue(s[k]) >= 0
  {
    var x1, x2, x3, x4 := HexValue(At(s, i)), HexValue(At(s, i + 1)), HexValue(At(s, i + 2)), HexValue(At(s, i + 3));
    if At(s, i) == NUL || At(s, i + 1) == NUL || At(s, i + 2) == NUL || At(s, i + 3) == NUL then None
    else if x1 == -1 || x2 == -1 || x3 == -1 || x4 == -1 then None
    else Some(x1 * 4096 + x2 * 256 + x3 * 16 + x4)
  }

  /** Bytes one step of process_string emits, and where its read cursor rests afterwards. */
  datatype Unit = Emit(text: bytes, next: nat) | Bad

  /** parse_utf16 with offset i on the 'u'. */
  function Utf16Unit(s: bytes, i: nat): Unit {
    match Hex4(s, i + 1)
    case None => Bad
    case Some(cp) =>
      if cp < 0xD800 || cp > 0xDFFF then Emit(Encode(cp), i + 5)
      else if cp <= 0xDBFF then
        if At(s, i + 5) != BACKSLASH || At(s, i + 6) != 0x75 then Bad
        else match Hex4(s, i + 7)
             case None => Bad
             case Some(trail) =>
               if trail < 0xDC00 || trail > 0xDFFF then Bad
               else Emit(Encode((cp - 0xD800) % 1024 * 1024 + (trail - 0xDC00) % 1024 + 0x10000), i + 11)
      else Bad
  }

  function UnescapeUnit(s: bytes, i: nat): Unit {
    if At(s, i) == BACKSLASH then
      var c := At(s, i + 1);
      if c == QUOTE || c == BACKSLASH || c == SLASH then Emit([c], i + 2)
      else if c == 0x62 then Emit([0x08], i + 2)
      else if c == 0x66 then Emit([0x0C], i + 2)
      else if c == 0x6E then Emit([0x0A], i + 2)
      else if c == 0x72 then Emit([0x0D], i + 2)
      else if c == 0x74 then Emit([0x09], i + 2)
      else if c == 0x75 then Utf16Unit(s, i + 1)
      else Bad
    else if At(s, i) < 0x20 then Bad
    else Emit([At(s, i)], i + 1)
  }

  lemma UnitAdvances(s: bytes, i: nat)
    ensures UnescapeUnit(s, i).Emit? ==> i < UnescapeUnit(s, i).next <= |s|
  {
  }

  /** process_string on the text between offsets i and end. */
  function Unescape(s: bytes, i: nat, end: nat): Option<bytes>
    decreases |s| - i
  {
    if At(s, i) == NUL || i >= end then Some([])
    else
      UnitAdvances(s, i);
      match UnescapeUnit(s, i)
      case Bad => None
      case Emit(text, next) =>
        match Unescape(s, next, end)
        case None => None
        case Some(rest) => Some(text + rest)
  }

  /** A step reads from one stop of the scan to another, and writes no more than it reads. */
  lemma UnitInStep(s: bytes, i: nat)
    requires At(s, i) != QUOTE && At(s, i) != NUL && UnescapeUnit(s, i).Emit?
    ensures StopsAt(s, i, UnescapeUnit(s, i).next)
    ensures 1 <= |UnescapeUnit(s, i).text| <= UnescapeUnit(s, i).next - i
  {
    if At(s, i) == BACKSLASH && At(s, i + 1) == 0x75 {
      HexStops(s, i + 2);
      if UnescapeUnit(s, i).next == i + 12 {
        HexStops(s, i + 8);
        assert StopsAt(s, i + 6, i + 8);
        StopsTransitive(s, i + 6, i + 8, i + 12);
        StopsTransitive(s, i + 2, i + 6, i + 12);
      }
    }
  }

  lemma HexStops(s: bytes, i: nat)
    requires Hex4(s, i).Some?
    ensures StopsAt(s, i, i + 4)
  {
    assert StopsAt(s, i + 3, i + 4);
    assert StopsAt(s, i + 2, i + 4);
    assert StopsAt(s, i + 1, i + 4);
  }

  /** Text already written before a step, put in front of what the rest will write. */
  function Prefixed(done: bytes, rest: Option<bytes>): Option<bytes> {
    match rest
    case None => None
    case Some(t) => Some(done + t)
  }

  lemma UnescapeStep(s: bytes, i: nat, end: nat)
    requires At(s, i) != NUL && At(s, i) != QUOTE && i < end && ClosingQuote(s, i) == Some(end)
    ensures UnescapeUnit(s, i).Bad? ==> Unescape(s, i, end) == None
    ensures UnescapeUnit(s, i).Emit? ==>
              Unescape(s, i, end) == Prefixed(UnescapeUnit(s, i).text, Unescape(s, UnescapeUnit(s, i).next, end)) &&
              i < UnescapeUnit(s, i).next <= end && ClosingQuote(s, UnescapeUnit(s, i).next) == Some(end)
  {
    if UnescapeUnit(s, i).Emit? {
      UnitInStep(s, i);
      StopsSameQuote(s, i, UnescapeUnit(s, i).next);
    }
  }

  method WriteUnit(output: array<byte>, write: nat, text: bytes)
    requires write + |text| <= output.Length
    modifies output
    ensures output[..write + |text|] == old(output[..write]) + text
  {
    for k := 0 to |text|
      invariant output[..write + k] == old(output[..write]) + text[..k]
    {
      output[write + k] := text[k];
    }
    assert text[..|text|] == text;
  }

  /** process_string called by get_quoted_string: end is the closing quote of the body at start.
      The output array has input_len + 1 bytes and every write falls inside it. The ghost cursors are the
      read offset and the number of bytes written, before each step and at the end. */
  method ProcessString(s: bytes, start: nat, end: nat) returns (result: Option<bytes>, ghost cursors: seq<(nat, nat)>)
    requires ClosingQuote(s, start) == Some(end)
    ensures result == Unescape(s, start, end)
    ensures forall k :: 0 <= k < |cursors| ==>
              start <= cursors[k].0 <= end && StopsAt(s, start, cursors[k].0) && cursors[k].1 <= cursors[k].0 - start
    ensures cursors != [] && cursors[0] == (start, 0)
    ensures result.Some? ==> cursors[|cursors| - 1] == (end, |result.value|)
  {
    hide Unescape, ClosingQuote, StopsAt, UnescapeUnit;
    var output := new byte[end - start + 1];
    var read, write := start, 0;
    cursors := [(start, 0)];
    assert forall t: bytes :: [] + t == t;
    assert StopsAt(s, start, read) by { StopsHere(s, start); }
    while At(s, read) != NUL && read < end
      invariant start <= read <= end && StopsAt(s, start, read)
      invariant 0 <= write <= read - start
      invariant cursors != [] && cursors[0] == (start, 0) && cursors[|cursors| - 1] == (read, write)
      invariant forall k :: 0 <= k < |cursors| ==>
                  start <= cursors[k].0 <= end && StopsAt(s, start, cursors[k].0) &&
                      cursors[k].1 <= cursors[k].0 - start
      invariant ClosingQuote(s, read) == Some(end)
      invariant Unescape(s, start, end) == Prefixed(output[..write], Unescape(s, read, end))
      decreases end - read
    {
      NotAtQuote(s, read, end);
      UnescapeStep(s, read, end);
      match UnescapeUnit(s, read)
      case Bad =>
        return None, cursors;
      case Emit(text, next) =>
        UnitInStep(s, read);
        StopsTransitive(s, start, read, next);
        ghost var done, rest := output[..write], Unescape(s, next, end);
        WriteUnit(output, write, text);
        assert rest.Some? ==> done + (text + rest.value) == (done + text) + rest.value;
        write := write + |text|;
        read := next;
        cursors := cursors + [(read, write)];
    }
    assert Unescape(s, read, end) == Some([]) by { AtEnd(s, read, end); }
    EndsAtQuote(s, read, end);
    output[write] := NUL;
    assert output[..write] + [] == output[..write];
    return Some(output[..write]), cursors;
  }

  /** There is no NUL before the closing quote. */
  lemma EndsAtQuote(s: bytes, i: nat, end: nat)
    requires ClosingQuote(s, i) == Some(end)
    ensures At(s, i) == NUL || i >= end ==> i == end
  {
  }

  lemma NotAtQuote(s: bytes, i: nat, end: nat)
    requires ClosingQuote(s, i) == Some(end) && i < end
    ensures At(s, i) != QUOTE && At(s, i) != NUL
  {
  }

  lemma QuoteInText(s: bytes, i: nat, q: nat)
    requires ClosingQuote(s, i) == Some(q)
    ensures i <= q < |s| && At(s, q) == QUOTE
  {
  }

  lemma AtEnd(s: bytes, i: nat, end: nat)
    requires At(s, i) == NUL || i >= end
    ensures Unescape(s, i, end) == Some([])
  {
  }

  /** get_quoted_string: the processed text and the offset after the closing quote. */
  function QuotedString(s: bytes, i: nat): (r: Option<(bytes, nat)>)
    ensures r.Some? ==> i + 2 <= r.value.1 <= |s|
  {
    if At(s, i) != QUOTE then None
    else match ClosingQuote(s, i + 1)
         case None => None
         case Some(q) =>
           match Unescape(s, i + 1, q)
           case None => None
           case Some(text) => Some((text, q + 1))
  }

  method GetQuotedString(s: bytes, start: nat) returns (r: Option<(bytes, nat)>)
    ensures r == QuotedString(s, start)
  {
    var end := SkipQuotes(s, start);
    if end.None? { return None; }
    var inputLen := end.value - start - 2;
    var text, _ := ProcessString(s, start + 1, start + 1 + inputLen);
    if text.None? { return None; }
    return Some((text.value, end.value));
  }
}
