/** Undoing escapes keeps text well-formed UTF-8, and cannot repair malformed text. */
module JsonStringUtf8 {
  import opened Bytes
  import opened Utf8
  import opened JsonString

  lemma EncodedIsChar(cp: nat)
    requires IsScalar(cp)
    ensures IsUtf8Char(Encode(cp)) && !Tail(Encode(cp)[0])
  {
    EncodeVerifies(cp, []);
  }

  lemma Utf16WritesChar(s: bytes, i: nat)
    requires Utf16Unit(s, i).Emit?
    ensures IsUtf8Char(Utf16Unit(s, i).text) && !Tail(Utf16Unit(s, i).text[0])
    ensures forall k :: i < k < Utf16Unit(s, i).next ==> At(s, k) < 0x80
  {
    hide Encode, IsUtf8Char, Tail;
    var cp := Hex4(s, i + 1).value;
    if cp < 0xD800 || cp > 0xDFFF {
      EncodedIsChar(cp);
    } else {
      EncodedIsChar((cp - 0xD800) % 1024 * 1024 + (Hex4(s, i + 7).value - 0xDC00) % 1024 + 0x10000);
    }
  }

  /** A whole escape becomes exactly one character of the grammar. */
  lemma EscapeWritesChar(s: bytes, i: nat)
    requires At(s, i) == BACKSLASH && UnescapeUnit(s, i).Emit?
    ensures IsUtf8Char(UnescapeUnit(s, i).text)
    ensures !Tail(UnescapeUnit(s, i).text[0])
    ensures forall k :: i <= k < UnescapeUnit(s, i).next ==> At(s, k) < 0x80
  {
    if At(s, i + 1) == 0x75 {
      hide Utf16Unit, IsUtf8Char, Tail;
      Utf16WritesChar(s, i + 1);
    }
  }

  lemma {:induction false} SkipAscii(s: bytes, i: nat, next: nat, end: nat)
    requires i <= next <= end <= |s|
    requires forall k :: i <= k < next ==> s[k] < 0x80
    ensures IsUtf8(s[i..end]) <==> IsUtf8(s[next..end])
    decreases next - i
  {
    if i < next {
      assert s[i..end] == [s[i]] + s[i + 1..end];
      PrependChar([s[i]], s[i + 1..end]);
      SkipAscii(s, i + 1, next, end);
    }
  }

  lemma RawByte(s: bytes, i: nat, end: nat)
    requires ClosingQuote(s, i) == Some(end) && At(s, i) >= 0x80
    ensures i < end && ClosingQuote(s, i + 1) == Some(end)
    ensures Unescape(s, i, end) == Prefixed([s[i]], Unescape(s, i + 1, end))
  {
  }

  /** Bytes above ASCII are copied as they stand. */
  lemma {:induction false} RawCopy(s: bytes, i: nat, n: nat, end: nat)
    requires ClosingQuote(s, i) == Some(end) && i + n <= end
    requires forall k :: i <= k < i + n ==> s[k] >= 0x80
    ensures ClosingQuote(s, i + n) == Some(end)
    ensures Unescape(s, i, end) == Prefixed(s[i..i + n], Unescape(s, i + n, end))
    decreases n
  {
    hide ClosingQuote, Unescape;
    var rest := Unescape(s, i + n, end);
    if n == 0 {
      assert rest.Some? ==> s[i..i] + rest.value == rest.value;
    } else {
      assert s[i] >= 0x80;
      RawByte(s, i, end);
      RawCopy(s, i + 1, n - 1, end);
      assert s[i..i + n] == [s[i]] + s[i + 1..i + n];
      assert rest.Some? ==> [s[i]] + (s[i + 1..i + n] + rest.value) == s[i..i + n] + rest.value;
    }
  }

  /** A unit that is no escape is one byte, copied. */
  lemma PlainUnit(s: bytes, i: nat)
    requires UnescapeUnit(s, i).Emit? && At(s, i) != BACKSLASH
    ensures i < |s| && UnescapeUnit(s, i) == Emit([s[i]], i + 1)
  {
  }

  lemma WritesSomething(s: bytes, i: nat, end: nat, t: bytes)
    requires ClosingQuote(s, i) == Some(end) && Unescape(s, i, end) == Some(t) && t != []
    ensures At(s, i) != NUL && At(s, i) != QUOTE && i < end
  {
    hide UnescapeUnit;
  }

  lemma NotEmpty(c: bytes)
    ensures IsUtf8Char(c) ==> c != []
  {
  }

  /** Continuation bytes in the result can only have been copied. */
  lemma {:induction false} TailsAreRaw(s: bytes, i: nat, n: nat, end: nat, t: bytes)
    requires ClosingQuote(s, i) == Some(end) && Unescape(s, i, end) == Some(t) && n <= |t|
    requires forall k :: 0 <= k < n ==> Tail(t[k])
    ensures i + n <= end && s[i..i + n] == t[..n]
    decreases n
  {
    hide ClosingQuote, Unescape, UnescapeUnit, IsUtf8Char, Tail;
    if n > 0 {
      WritesSomething(s, i, end, t);
      UnescapeStep(s, i, end);
      var u := UnescapeUnit(s, i);
      var rest := Unescape(s, u.next, end).value;
      assert Tail(t[0]) && (u.text != [] ==> t[0] == u.text[0]);
      if At(s, i) == BACKSLASH {
        EscapeWritesChar(s, i);
        NotEmpty(u.text);
        assert false;
      } else {
        PlainUnit(s, i);
        assert t == [s[i]] + rest && rest == t[1..];
        TailsAreRaw(s, i + 1, n - 1, end, rest);
        assert s[i..i + n] == [s[i]] + s[i + 1..i + n];
        assert t[..n] == [t[0]] + rest[..n - 1];
      }
    }
  }

  /** A character of several bytes is made of bytes above ASCII, all but the first continuations. */
  lemma WideChar(c: bytes)
    requires IsUtf8Char(c) && At(c, 0) >= 0x80
    ensures |c| > 0 && forall k :: 1 <= k < |c| ==> Tail(c[k])
    ensures forall k :: 1 <= k < |c| ==> c[k] >= 0x80
  {
  }

  lemma FirstChar(s: bytes) returns (n: nat)
    requires IsUtf8(s) && s != []
    ensures 1 <= n <= |s| && IsUtf8Char(s[..n])
  {
    ValidIffUtf8(s);
    VerifiedIsChar(s, 0);
    n := SequenceLength(s[0]);
  }

  /** Whichever side is known to be well-formed, both begin with the same character above ASCII. */
  lemma WideStart(s: bytes, i: nat, end: nat, t: bytes) returns (n: nat)
    requires ClosingQuote(s, i) == Some(end) && Unescape(s, i, end) == Some(t)
    requires i < end && s[i] >= 0x80 && (IsUtf8(s[i..end]) || IsUtf8(t))
    ensures 1 <= n && i + n <= end && IsUtf8Char(s[i..i + n])
    ensures forall k :: i <= k < i + n ==> s[k] >= 0x80
  {
    hide ClosingQuote, IsUtf8, IsUtf8Char, Unescape;
    if IsUtf8(s[i..end]) {
      n := FirstChar(s[i..end]);
      SliceOfSlice(s, i, end, n);
    } else {
      RawByte(s, i, end);
      var rest := Unescape(s, i + 1, end).value;
      assert t == [s[i]] + rest;
      n := FirstChar(t);
      WideChar(t[..n]);
      assert forall k :: 0 <= k < n - 1 ==> rest[k] == t[..n][k + 1];
      TailsAreRaw(s, i + 1, n - 1, end, rest);
      assert s[i..i + n] == [s[i]] + s[i + 1..i + n];
      assert t[..n] == [t[0]] + rest[..n - 1];
    }
    var c := s[i..i + n];
    assert c[0] == s[i];
    WideChar(c);
    forall k | i <= k < i + n ensures s[k] >= 0x80 { assert s[k] == c[k - i]; }
  }

  lemma SliceOfSlice(s: bytes, i: nat, end: nat, n: nat)
    requires i + n <= end <= |s|
    ensures s[i..end][..n] == s[i..i + n]
  {
  }

  lemma WideStep(s: bytes, i: nat, n: nat, end: nat, t: bytes) returns (rest: bytes)
    requires ClosingQuote(s, i) == Some(end) && Unescape(s, i, end) == Some(t)
    requires i + n <= end && IsUtf8Char(s[i..i + n])
    requires forall k :: i <= k < i + n ==> s[k] >= 0x80
    ensures ClosingQuote(s, i + n) == Some(end) && Unescape(s, i + n, end) == Some(rest)
    ensures IsUtf8(s[i..end]) <==> IsUtf8(s[i + n..end])
    ensures IsUtf8(t) <==> IsUtf8(rest)
  {
    RawCopy(s, i, n, end);
    rest := Unescape(s, i + n, end).value;
    assert s[i..end] == s[i..i + n] + s[i + n..end];
    PrependChar(s[i..i + n], s[i + n..end]);
    PrependChar(s[i..i + n], rest);
  }

  lemma AsciiUnit(s: bytes, i: nat)
    requires At(s, i) < 0x80 && UnescapeUnit(s, i).Emit?
    ensures IsUtf8Char(UnescapeUnit(s, i).text)
    ensures forall k :: i <= k < UnescapeUnit(s, i).next ==> At(s, k) < 0x80
  {
    if At(s, i) == BACKSLASH { EscapeWritesChar(s, i); }
  }

  lemma NarrowStep(s: bytes, i: nat, end: nat, t: bytes) returns (next: nat, rest: bytes)
    requires ClosingQuote(s, i) == Some(end) && Unescape(s, i, end) == Some(t)
    requires i < end && s[i] < 0x80
    ensures i < next <= end && ClosingQuote(s, next) == Some(end) && Unescape(s, next, end) == Some(rest)
    ensures IsUtf8(s[i..end]) <==> IsUtf8(s[next..end])
    ensures IsUtf8(t) <==> IsUtf8(rest)
  {
    hide ClosingQuote, Unescape, UnescapeUnit, IsUtf8, IsUtf8Char;
    NotAtQuote(s, i, end);
    QuoteInText(s, i, end);
    UnescapeStep(s, i, end);
    AsciiUnit(s, i);
    var u := UnescapeUnit(s, i);
    next := u.next;
    rest := Unescape(s, next, end).value;
    forall k | i <= k < next ensures s[k] < 0x80 { assert At(s, k) < 0x80; }
    SkipAscii(s, i, next, end);
    PrependChar(u.text, rest);
  }

  /** The processed string is well-formed UTF-8 exactly when the text between the quotes is. */
  lemma {:induction false} UnescapeKeepsUtf8(s: bytes, i: nat, end: nat, t: bytes)
    requires ClosingQuote(s, i) == Some(end) && Unescape(s, i, end) == Some(t)
    ensures IsUtf8(s[i..end]) <==> IsUtf8(t)
    decreases end - i
  {
    if i == end {
      assert s[i..end] == t == [];
    } else if s[i] < 0x80 {
      var next, rest := NarrowStep(s, i, end, t);
      UnescapeKeepsUtf8(s, next, end, rest);
    } else if IsUtf8(s[i..end]) || IsUtf8(t) {
      var n := WideStart(s, i, end, t);
      var rest := WideStep(s, i, n, end, t);
      UnescapeKeepsUtf8(s, i + n, end, rest);
    }
  }

  /** get_quoted_string returns well-formed UTF-8 exactly when well-formed UTF-8 stands between the quotes. */
  lemma QuotedStringUtf8(s: bytes, i: nat)
    requires QuotedString(s, i).Some?
    ensures var (text, end) := QuotedString(s, i).value; IsUtf8(s[i + 1..end - 1]) <==> IsUtf8(text)
  {
    var (text, end) := QuotedString(s, i).value;
    UnescapeKeepsUtf8(s, i + 1, end - 1, text);
  }
}
