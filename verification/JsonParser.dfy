/** The recursive-descent parser: what it computes, as functions of the text and an offset. */
module JsonParser {
  import opened Bytes
  import opened JsonValue
  import opened JsonString
  import opened NumberScan
  import T = JsonText

  /** Foreign: a number whose value this model does not hold (a fraction, negative zero, or an integer of
      magnitude above 2^53). */
  datatype Parsed<+T> = Ok(value: T, next: nat) | Err | Foreign

  lemma SkipSpacesTwice(s: bytes, i: nat)
    ensures SkipSpaces(s, SkipSpaces(s, i)) == SkipSpaces(s, i)
  {
  }

  /** is_decimal: behind a leading zero nothing but a point, and none of x, X and NUL, which strchr finds too. */
  predicate IsDecimal(w: bytes) {
    && !(|w| > 1 && w[0] == ZERO && w[1] != DOT)
    && !(|w| > 2 && w[0] == MINUS && w[1] == ZERO && w[2] != DOT)
    && forall k :: 0 <= k < |w| ==> w[k] !in {0x78, 0x58, NUL}
  }

  /** parse_number_value; a '-' with no number behind it converts nothing and reads as 0. */
  function ParseNumber(s: bytes, i: nat): Parsed<Value>
    requires i <= |s|
  {
    match Strtod(s, i)
    case NotFinite => Err
    case Converted(n, end) =>
      if !IsDecimal(s[i..end]) then Err
      else if n.None? then Foreign
      else Ok(Number(n.value), end)
  }

  /** strncmp(token, cursor, |token|) == 0. */
  predicate LooksAt(s: bytes, i: nat, token: bytes) {
    i + |token| <= |s| && s[i..i + |token|] == token
  }

  function ParseBoolean(s: bytes, i: nat): Parsed<Value> {
    if LooksAt(s, i, T.TRUE_TOKEN) then Ok(Boolean(true), i + 4)
    else if LooksAt(s, i, T.FALSE_TOKEN) then Ok(Boolean(false), i + 5)
    else Err
  }

  function ParseNull(s: bytes, i: nat): Parsed<Value> {
    if LooksAt(s, i, T.NULL_TOKEN) then Ok(Null, i + 4) else Err
  }

  function ParseString(s: bytes, i: nat): Parsed<Value> {
    match QuotedString(s, i)
    case None => Err
    case Some((text, next)) => Ok(Str(text), next)
  }

  function ParseValue(s: bytes, start: nat, nesting: nat): (r: Parsed<Value>)
    ensures r.Ok? ==> start <= r.next && (start <= |s| ==> r.next <= |s|)
    decreases |s| - start, 2
  {
    if nesting > MAX_NESTING then Err
    else
      var i := SkipSpaces(s, start);
      var c := At(s, i);
      if c == LBRACE then ParseObject(s, i, nesting + 1)
      else if c == LBRACKET then ParseArray(s, i, nesting + 1)
      else if c == QUOTE then ParseString(s, i)
      else if c == 0x66 || c == 0x74 then ParseBoolean(s, i)
      else if c == MINUS || IsDigit(c) then ParseNumber(s, i)
      else if c == 0x6E then ParseNull(s, i)
      else Err
  }

  function ParseArray(s: bytes, start: nat, nesting: nat): (r: Parsed<Value>)
    requires At(s, start) == LBRACKET
    ensures r.Ok? ==> start < r.next <= |s|
    decreases |s| - start, 1
  {
    var i := SkipSpaces(s, start + 1);
    if At(s, i) == RBRACKET then Ok(Array([]), i + 1)
    else
      match ParseItems(s, i, nesting, [])
      case Ok(items, next) =>
        if At(s, next) != RBRACKET || items == [] then Err else Ok(Array(items), next + 1)
      case Err => Err
      case Foreign => Foreign
  }

  /** The items loop from a cursor at start, with the items already added. */
  function ParseItems(s: bytes, start: nat, nesting: nat, done: seq<Value>): (r: Parsed<seq<Value>>)
    ensures r.Ok? ==> start <= r.next && (start <= |s| ==> r.next <= |s|)
    decreases |s| - start, 3
  {
    if At(s, start) == NUL then Ok(done, SkipSpaces(s, start))
    else
      match ParseValue(s, start, nesting)
      case Ok(v, next) =>
        var i := SkipSpaces(s, next);
        if At(s, i) != COMMA then Ok(done + [v], i)
        else ParseItems(s, SkipSpaces(s, i + 1), nesting, done + [v])
      case Err => Err
      case Foreign => Foreign
  }

  function ParseObject(s: bytes, start: nat, nesting: nat): (r: Parsed<Value>)
    requires At(s, start) == LBRACE
    ensures r.Ok? ==> start < r.next <= |s|
    decreases |s| - start, 1
  {
    var i := SkipSpaces(s, start + 1);
    if At(s, i) == RBRACE then Ok(Object([]), i + 1)
    else
      match ParseMembers(s, i, nesting, [])
      case Ok(ms, next) =>
        if At(s, next) != RBRACE || ms == [] then Err else Ok(Object(ms), next + 1)
      case Err => Err
      case Foreign => Foreign
  }

  /** A key and the offset where its value starts, after the colon. */
  function ParseKey(s: bytes, start: nat): (r: Option<(Name, nat)>)
    ensures r.Some? ==> start < r.value.1 <= |s|
  {
    match QuotedString(s, start)
    case None => None
    case Some((key, afterKey)) =>
      if NUL in key then None
      else
        var i := SkipSpaces(s, afterKey);
        if At(s, i) != COLON then None else Some((key, i + 1))
  }

  function ParseMembers(s: bytes, start: nat, nesting: nat, done: seq<Member>): (r: Parsed<seq<Member>>)
    ensures r.Ok? ==> start <= r.next && (start <= |s| ==> r.next <= |s|)
    decreases |s| - start, 3
  {
    if At(s, start) == NUL then Ok(done, SkipSpaces(s, start))
    else
      match ParseKey(s, start)
      case None => Err
      case Some((key, valueStart)) =>
        match ParseValue(s, valueStart, nesting)
        case Ok(v, next) =>
          if Lookup(done, key).Some? then Err
          else
            var i := SkipSpaces(s, next);
            var ms := done + [Member(key, v)];
            if At(s, i) != COMMA then Ok(ms, i)
            else ParseMembers(s, SkipSpaces(s, i + 1), nesting, ms)
        case Err => Err
        case Foreign => Foreign
  }

  /** json_parse_string: a byte order mark is skipped; anything after the first value is ignored. */
  function Parse(s: bytes): Parsed<Value> {
    if At(s, 0) == 0xEF && At(s, 1) == 0xBB && At(s, 2) == 0xBF then ParseValue(s, 3, 0)
    else ParseValue(s, 0, 0)
  }
}
