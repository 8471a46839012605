/** Reading one HTTP response from a connection, however the stream is cut into reads. */
module HttpFraming {
  import opened Bytes
  import opened HttpBuffer

  const TERMINATOR: bytes := [RETURN, NEWLINE, RETURN, NEWLINE]

  /** "Content-Length: " */
  const CONTENT_LENGTH: bytes :=
    [0x43, 0x6F, 0x6E, 0x74, 0x65, 0x6E, 0x74, 0x2D, 0x4C, 0x65, 0x6E, 0x67, 0x74, 0x68, COLON, SPACE]

  const LONG_MAX: int := 0x7FFF_FFFF_FFFF_FFFF
  const SIZE_LIMIT: nat := 0x1_0000_0000_0000_0000

  // ----- strtol in base 10 -----

  /** Where the digits would start: behind white space and one sign. */
  function DigitsAt(s: bytes, i: nat): (j: nat)
    ensures i <= j && (i <= |s| ==> j <= |s|)
  {
    var k := SkipSpaces(s, i);
    if At(s, k) == MINUS || At(s, k) == PLUS then k + 1 else k
  }

  /** The byte at which strtol stops, which it has to look at. */
  function StopsAt(s: bytes, i: nat): (j: nat)
    ensures i <= j && (i <= |s| ==> j <= |s|)
  {
    SkipDigits(s, DigitsAt(s, i))
  }

  /** The result of strtol, assigned to an int. */
  function ReadLength(s: bytes, i: nat): int
    requires i <= |s|
  {
    var n: int := DigitsValue(s[DigitsAt(s, i)..StopsAt(s, i)]);
    var negative := At(s, SkipSpaces(s, i)) == MINUS;
    var long := if negative then (if n > LONG_MAX + 1 then -LONG_MAX - 1 else -n)
                else if n > LONG_MAX then LONG_MAX else n;
    var low := long % 0x1_0000_0000;
    if low < 0x8000_0000 then low else low - 0x1_0000_0000
  }

  /** content_length + (size_t) header_end. */
  function Total(headerEnd: int, contentLength: int): nat {
    (contentLength + headerEnd) % SIZE_LIMIT
  }

  /** Where the first terminator and the first length field of a stream stand, or -1. */
  function TerminatorAt(s: bytes): int { First(s, TERMINATOR, false) }

  function LengthFieldAt(s: bytes): int { First(s, CONTENT_LENGTH, true) }

  predicate HasBodyLength(s: bytes) {
    TerminatorAt(s) >= 0 && LengthFieldAt(s) >= 0
  }

  /** The end of the header in the whole stream, and the body length its header announces. */
  function HeaderEnd(s: bytes): int {
    if TerminatorAt(s) < 0 then -1 else TerminatorAt(s) + |TERMINATOR|
  }

  function BodyLength(s: bytes): int {
    if HasBodyLength(s) then ReadLength(s, LengthAt(s)) else 0
  }

  /** Where strtol begins to read. */
  function LengthAt(s: bytes): (i: nat)
    requires HasBodyLength(s)
    ensures i <= |s|
  {
    LengthFieldAt(s) + |CONTENT_LENGTH|
  }

  /** How much of the stream shows both the header end and the length field. */
  function LengthSeen(s: bytes): int
    requires HasBodyLength(s)
  {
    if HeaderEnd(s) > LengthAt(s) then HeaderEnd(s) else LengthAt(s)
  }

  /** strtol does not read past what is there. */
  predicate LengthInside(s: bytes) {
    HasBodyLength(s) ==> StopsAt(s, LengthAt(s)) < |s|
  }

  /** No read ends inside or right behind the number, so that strtol always stops inside the buffer. */
  ghost predicate NoCutInLength(chunks: seq<bytes>) {
    forall used :: 0 <= used <= |chunks| ==> LengthInside(Flatten(chunks[..used]))
  }

  // ----- independence of the reads -----

  lemma {:induction false} FlattenSnoc(chunks: seq<bytes>, k: nat)
    requires k < |chunks|
    ensures Flatten(chunks[..k + 1]) == Flatten(chunks[..k]) + chunks[k]
    decreases k
  {
    if k == 0 {
      assert chunks[..1][1..] == [];
    } else {
      assert chunks[..k + 1][1..] == chunks[1..][..k];
      assert chunks[..k][1..] == chunks[1..][..k - 1];
      FlattenSnoc(chunks[1..], k - 1);
    }
  }

  lemma {:induction false} FlattenPrefix(chunks: seq<bytes>, k: nat)
    requires k <= |chunks|
    ensures Flatten(chunks[..k]) <= Flatten(chunks)
    decreases |chunks| - k
  {
    if k == |chunks| {
      assert chunks[..k] == chunks;
    } else {
      FlattenSnoc(chunks, k);
      FlattenPrefix(chunks, k + 1);
    }
  }

  lemma {:induction false} SameDigits(s: bytes, n: nat, i: nat)
    requires n <= |s| && SkipDigits(s[..n], i) < n
    ensures SkipDigits(s[..n], i) == SkipDigits(s, i)
    decreases n - i
  {
    if i < n && IsDigit(s[i]) { SameDigits(s, n, i + 1); }
  }

  lemma {:induction false} SameSpaces(s: bytes, n: nat, i: nat)
    requires n <= |s| && SkipSpaces(s[..n], i) < n
    ensures SkipSpaces(s[..n], i) == SkipSpaces(s, i)
    decreases n - i
  {
    if i < n && IsSpace(s[i]) { SameSpaces(s, n, i + 1); }
  }

  /** What strtol reads depends on nothing behind the byte it stops at. */
  lemma SameNumber(s: bytes, n: nat, i: nat)
    requires i <= n <= |s| && StopsAt(s[..n], i) < n
    ensures StopsAt(s[..n], i) == StopsAt(s, i) && ReadLength(s[..n], i) == ReadLength(s, i)
  {
    SameSpaces(s, n, i);
    var first := DigitsAt(s[..n], i);
    SameDigits(s, n, first);
    assert s[..n][first..StopsAt(s[..n], i)] == s[first..StopsAt(s[..n], i)];
    hide DigitsValue, SkipDigits, SkipSpaces;
  }

  /** A prefix that holds the terminator and the length field shows the same header end and body length as
      the stream, if strtol stops inside it. */
  lemma SameLength(s: bytes, n: nat)
    requires n <= |s| && HasBodyLength(s[..n]) && LengthInside(s[..n])
    ensures HasBodyLength(s) && HeaderEnd(s[..n]) == HeaderEnd(s) && BodyLength(s[..n]) == BodyLength(s)
  {
    FirstInPrefix(s, n, TERMINATOR, false, TerminatorAt(s), TerminatorAt(s[..n]));
    FirstInPrefix(s, n, CONTENT_LENGTH, true, LengthFieldAt(s), LengthFieldAt(s[..n]));
    hide First, ReadLength, StopsAt;
    SameNumber(s, n, LengthAt(s[..n]));
  }

  /** If the number, or whatever stands in its place, begins in the header, no cut does any harm. */
  lemma HeaderLengthIsNeverCut(chunks: seq<bytes>)
    requires var s := Flatten(chunks);
             HasBodyLength(s) ==> LengthAt(s) <= TerminatorAt(s) && SkipSpaces(s, LengthAt(s)) < TerminatorAt(s)
    ensures NoCutInLength(chunks)
  {
    var s := Flatten(chunks);
    forall used | 0 <= used <= |chunks|
      ensures LengthInside(Flatten(chunks[..used]))
    {
      FlattenPrefix(chunks, used);
      var n := |Flatten(chunks[..used])|;
      assert Flatten(chunks[..used]) == s[..n];
      HeaderLengthInside(s, n);
    }
  }

  lemma HeaderLengthInside(s: bytes, n: nat)
    requires HasBodyLength(s) ==> LengthAt(s) <= TerminatorAt(s) && SkipSpaces(s, LengthAt(s)) < TerminatorAt(s)
    requires n <= |s|
    ensures LengthInside(s[..n])
  {
    hide First, IsFirst, StopsAt, SkipSpaces, MatchesAt;
    var p := s[..n];
    if HasBodyLength(p) {
      FirstInPrefix(s, n, TERMINATOR, false, TerminatorAt(s), TerminatorAt(p));
      FirstInPrefix(s, n, CONTENT_LENGTH, true, LengthFieldAt(s), LengthFieldAt(p));
      TerminatorByte(s);
      var h := TerminatorAt(s);
      SpacesWithin(s, n, LengthAt(s), h);
      StopsBefore(p, LengthAt(p), h);
    }
  }

  lemma TerminatorByte(s: bytes)
    requires TerminatorAt(s) >= 0
    ensures TerminatorAt(s) + |TERMINATOR| <= |s| && s[TerminatorAt(s)] == RETURN
  {
    assert SameByte(s[TerminatorAt(s) + 0], TERMINATOR[0], false);
  }

  lemma StopsBefore(p: bytes, i: nat, h: nat)
    requires i <= h < |p| && p[h] == RETURN && SkipSpaces(p, i) < h
    ensures StopsAt(p, i) <= h
  {
    hide SkipSpaces, SkipDigits;
    DigitsWithin(p, DigitsAt(p, i), h);
  }

  /** White space that ends before h in the whole does so in a prefix that reaches beyond h. */
  lemma {:induction false} SpacesWithin(s: bytes, n: nat, i: nat, h: nat)
    requires h < n <= |s| && SkipSpaces(s, i) < h
    ensures SkipSpaces(s[..n], i) == SkipSpaces(s, i)
    decreases h - i
  {
    if i < h && IsSpace(s[i]) { SpacesWithin(s, n, i + 1, h); }
  }

  lemma {:induction false} DigitsWithin(p: bytes, i: nat, h: nat)
    requires i <= h < |p| && !IsDigit(p[h])
    ensures SkipDigits(p, i) <= h
    decreases h - i
  {
    if IsDigit(p[i]) { DigitsWithin(p, i + 1, h); }
  }

  // ----- the two loops -----

  /** What a turn of the first loop finds out about the part of the stream read so far. */
  method Inspect(buffer: Buffer, ghost s: bytes) returns (headerEnd: int, contentLength: int, done: bool)
    requires buffer.Valid() && buffer.size <= |s| && buffer.Contents() == s[..buffer.size]
    requires LengthInside(s[..buffer.size])
    ensures done <==> HasBodyLength(s) && LengthSeen(s) <= buffer.size
    ensures done ==> headerEnd == HeaderEnd(s) && contentLength == BodyLength(s)
    ensures !done ==> contentLength == 0
    ensures !done ==> headerEnd == if HeaderEnd(s) <= buffer.size then HeaderEnd(s) else -1
  {
    hide ReadLength, IsFirst, First, StopsAt;
    contentLength, done := 0, false;
    ghost var n := buffer.size;
    headerEnd := buffer.Find(TERMINATOR, false);
    FirstInPrefix(s, n, TERMINATOR, false, TerminatorAt(s), headerEnd);
    FirstInPrefix(s, n, TERMINATOR, false, TerminatorAt(s), TerminatorAt(s[..n]));
    if headerEnd >= 0 {
      headerEnd := headerEnd + |TERMINATOR|;
      var start := buffer.Find(CONTENT_LENGTH, true);
      FirstInPrefix(s, n, CONTENT_LENGTH, true, LengthFieldAt(s), start);
      FirstInPrefix(s, n, CONTENT_LENGTH, true, LengthFieldAt(s), LengthFieldAt(s[..n]));
      if start < 0 { return; }
      SameLength(s, n);
      start := start + |CONTENT_LENGTH|;
      contentLength := ReadLength(buffer.data[..], start);
      done := true;
    }
  }

  lemma OneMoreRead(chunks: seq<bytes>, used: nat)
    requires used < |chunks|
    ensures Flatten(chunks[..used + 1]) == Flatten(chunks[..used]) + chunks[used]
    ensures Flatten(chunks[..used + 1]) <= Flatten(chunks)
  {
    FlattenSnoc(chunks, used);
    FlattenPrefix(chunks, used + 1);
  }

  /** The stream fits an int, and no read but the last returns nothing. */
  predicate Readable(chunks: seq<bytes>) {
    (forall k :: 0 <= k < |chunks| ==> chunks[k] != []) && |Flatten(chunks)| < 0x8000_0000
  }

  /** One turn of the first loop: the next chunk, and what the bytes read so far then show. */
  method Turn(buffer: Buffer, chunks: seq<bytes>, used: nat) returns (headerEnd: int, contentLength: int, done: bool)
    requires buffer.Valid() && used < |chunks| && buffer.Contents() == Flatten(chunks[..used])
    requires NoCutInLength(chunks)
    modifies buffer
    ensures buffer.Valid() && buffer.data != null && fresh(buffer.data) &&
              buffer.Contents() == Flatten(chunks[..used + 1])
    ensures var s := Flatten(chunks);
            && (done <==> HasBodyLength(s) && LengthSeen(s) <= buffer.size)
            && (done ==> headerEnd == HeaderEnd(s) && contentLength == BodyLength(s))
            && (!done ==> contentLength == 0)
            && (!done ==> headerEnd == if HeaderEnd(s) <= buffer.size then HeaderEnd(s) else -1)
  {
    hide BodyLength, Flatten, HasBodyLength, HeaderEnd;
    OneMoreRead(chunks, used);
    buffer.Add(chunks[used]);
    headerEnd, contentLength, done := Inspect(buffer, Flatten(chunks));
  }

  /** The first loop: read until the header and its length field are there. */
  method ReadHeader(buffer: Buffer, chunks: seq<bytes>) returns (headerEnd: int, contentLength: int, used: nat)
    requires buffer.Valid() && buffer.Contents() == [] && buffer.data == null
    requires Readable(chunks) && NoCutInLength(chunks)
    modifies buffer
    ensures buffer.Valid() && used <= |chunks| && buffer.Contents() == Flatten(chunks[..used])
    ensures buffer.data != null ==> fresh(buffer.data)
    ensures chunks == [] ==> headerEnd == 0 && contentLength == 0
    ensures chunks != [] ==> headerEnd == HeaderEnd(Flatten(chunks)) && contentLength == BodyLength(Flatten(chunks))
    ensures !HasBodyLength(Flatten(chunks)) ==> used == |chunks|
    ensures HasBodyLength(Flatten(chunks)) && used > 0 ==> |Flatten(chunks[..used - 1])| < LengthSeen(Flatten(chunks))
  {
    hide BodyLength, Flatten, HasBodyLength, HeaderEnd, LengthSeen, Readable, NoCutInLength;
    ghost var s := Flatten(chunks);
    HeaderInside(s);
    NothingRead(chunks);
    headerEnd, contentLength, used := 0, 0, 0;
    while used < |chunks|
      invariant used <= |chunks| && buffer.Valid() && (buffer.data != null ==> fresh(buffer.data))
      invariant buffer.Contents() == Flatten(chunks[..used]) && contentLength == 0
      invariant used > 0 ==> headerEnd == if HeaderEnd(s) <= buffer.size then HeaderEnd(s) else -1
      invariant used == 0 ==> headerEnd == 0 && buffer.size == 0
      invariant HasBodyLength(s) ==> buffer.size < LengthSeen(s)
      decreases |chunks| - used
    {
      var done: bool;
      headerEnd, contentLength, done := Turn(buffer, chunks, used);
      used := used + 1;
      if done { return; }
    }
    assert chunks[..used] == chunks;
  }

  lemma NothingRead(chunks: seq<bytes>)
    ensures Flatten(chunks[..0]) == []
  {
  }

  lemma HeaderInside(s: bytes)
    ensures HeaderEnd(s) <= |s|
    ensures HasBodyLength(s) ==> 0 < LengthSeen(s) <= |s|
    ensures !HasBodyLength(s) ==> BodyLength(s) == 0
  {
  }

  /** receive_from_server on the successive results of read; after the last chunk read returns 0.
      The header end and body length are those of the whole stream however it was cut, the response is
      a prefix of the stream that covers both (or all of it), and no read happens after that. */
  method Receive(chunks: seq<bytes>) returns (response: bytes, headerEnd: int, contentLength: int, used: nat)
    requires Readable(chunks) && NoCutInLength(chunks)
    ensures chunks != [] ==> headerEnd == HeaderEnd(Flatten(chunks)) && contentLength == BodyLength(Flatten(chunks))
    ensures used <= |chunks| && response == Flatten(chunks[..used]) + [NUL]
    ensures used == |chunks| || Total(headerEnd, contentLength) < |response|
    ensures !HasBodyLength(Flatten(chunks)) ==> used == |chunks|
    ensures HasBodyLength(Flatten(chunks)) && used > 0 ==>
              |Flatten(chunks[..used - 1])| < Total(headerEnd, contentLength) ||
              |Flatten(chunks[..used - 1])| < LengthSeen(Flatten(chunks))
  {
    hide Readable, NoCutInLength, BodyLength, Flatten, Total, HasBodyLength, HeaderEnd, LengthSeen;
    var buffer := new Buffer();
    headerEnd, contentLength, used := ReadHeader(buffer, chunks);
    var total := Total(headerEnd, contentLength);
    while buffer.size < total && used < |chunks|
      invariant used <= |chunks| && buffer.Valid() && (buffer.data != null ==> fresh(buffer.data))
      invariant buffer.Contents() == Flatten(chunks[..used])
      invariant !HasBodyLength(Flatten(chunks)) ==> used == |chunks|
      invariant HasBodyLength(Flatten(chunks)) && used > 0 ==>
                  |Flatten(chunks[..used - 1])| < total || |Flatten(chunks[..used - 1])| < LengthSeen(Flatten(chunks))
      decreases |chunks| - used
    {
      OneMoreRead(chunks, used);
      buffer.Add(chunks[used]);
      used := used + 1;
    }
    buffer.Add([NUL]);
    response := buffer.data[..];
  }
}
