/** The parser as the program runs it: one cursor moved along the text by every function. */
module JsonReader {
  import opened Bytes
  import opened JsonValue
  import opened JsonString
  import opened JsonParser
  import opened NumberScan
  import opened JsonObjects
  import opened ObjectMembers
  import T = JsonText

  /** Unread: the text holds a number whose value this model does not hold. */
  datatype Read<+V> = Got(value: V) | Failed | Unread

  class Cursor {
    const text: bytes
    var pos: nat

    constructor (text: bytes, pos: nat)
      ensures this.text == text && this.pos == pos
    {
      this.text, this.pos := text, pos;
    }

    /** What was read, and where the cursor was left, is what the specification says. */
    ghost predicate Agrees<V>(r: Read<V>, spec: Parsed<V>)
      reads this
    {
      match spec
      case Ok(v, next) => r == Got(v) && pos == next
      case Err => r == Failed
      case Foreign => r == Unread
    }

    method SkipWhitespaces()
      modifies `pos
      ensures pos == SkipSpaces(text, old(pos))
      ensures forall k :: old(pos) <= k < pos ==> At(text, k) in {0x09, 0x0A, 0x0B, 0x0C, 0x0D, 0x20}
      ensures At(text, pos) !in {0x09, 0x0A, 0x0B, 0x0C, 0x0D, 0x20}
    {
      while IsSpace(At(text, pos))
        invariant old(pos) <= pos && SkipSpaces(text, pos) == SkipSpaces(text, old(pos))
        invariant forall k :: old(pos) <= k < pos ==> At(text, k) in {0x09, 0x0A, 0x0B, 0x0C, 0x0D, 0x20}
        decreases |text| - pos
      {
        pos := pos + 1;
      }
    }

    /** strncmp(token, cursor, |token|) == 0. */
    method Matches(token: bytes) returns (equal: bool)
      requires NUL !in token
      ensures equal == LooksAt(text, pos, token)
    {
      var k := 0;
      while k < |token| && At(text, pos + k) == token[k]
        invariant 0 <= k <= |token| && (k > 0 ==> pos + k <= |text|)
        invariant forall j :: 0 <= j < k ==> text[pos + j] == token[j]
      {
        assert token[k] in token;
        k := k + 1;
      }
      OtherByte(token, k);
      return k == |token| && pos + k <= |text|;
    }

    lemma OtherByte(token: bytes, k: nat)
      requires k <= |token| && (k > 0 ==> pos + k <= |text|)
      requires forall j :: 0 <= j < k ==> text[pos + j] == token[j]
      requires k < |token| ==> At(text, pos + k) != token[k]
      ensures LooksAt(text, pos, token) <==> k == |token| && pos + k <= |text|
    {
      if k == |token| {
        assert pos + k <= |text| ==> text[pos..pos + k] == token;
      } else {
        assert pos + |token| <= |text| ==> text[pos..pos + |token|][k] == text[pos + k];
      }
    }

    method BooleanValue() returns (r: Read<Value>)
      modifies `pos
      ensures Agrees(r, ParseBoolean(text, old(pos)))
    {
      var isTrue := Matches(T.TRUE_TOKEN);
      if isTrue {
        pos := pos + |T.TRUE_TOKEN|;
        return Got(Boolean(true));
      }
      var isFalse := Matches(T.FALSE_TOKEN);
      if isFalse {
        pos := pos + |T.FALSE_TOKEN|;
        return Got(Boolean(false));
      }
      return Failed;
    }

    method NullValue() returns (r: Read<Value>)
      modifies `pos
      ensures Agrees(r, ParseNull(text, old(pos)))
    {
      var isNull := Matches(T.NULL_TOKEN);
      if !isNull { return Failed; }
      pos := pos + |T.NULL_TOKEN|;
      return Got(Null);
    }

    /** is_decimal on the bytes from the cursor to end; its loop runs backwards. */
    method Decimal(end: nat) returns (decimal: bool)
      requires pos <= end <= |text|
      ensures decimal == IsDecimal(text[pos..end])
    {
      ghost var w := text[pos..end];
      var length := end - pos;
      assert forall k :: 0 <= k < length ==> w[k] == text[pos + k];
      if length > 1 && text[pos] == ZERO && text[pos + 1] != DOT { return false; }
      if length > 2 && text[pos] == MINUS && text[pos + 1] == ZERO && text[pos + 2] != DOT { return false; }
      while length > 0
        invariant 0 <= length <= |w|
        invariant forall k :: length <= k < |w| ==> w[k] !in {0x78, 0x58, NUL}
      {
        length := length - 1;
        if text[pos + length] in {0x78, 0x58, NUL} { return false; }
      }
      return true;
    }

    /** Infinity and NaN are refused by json_value_init_number. */
    method NumberValue() returns (r: Read<Value>)
      requires pos <= |text|
      modifies `pos
      ensures Agrees(r, ParseNumber(text, old(pos)))
    {
      var number := Strtod(text, pos);
      if number.NotFinite? { return Failed; }
      var decimal := Decimal(number.end);
      if !decimal { return Failed; }
      if number.exact.None? { return Unread; }
      pos := number.end;
      return Got(Number(number.exact.value));
    }

    method StringValue() returns (r: Read<Value>)
      modifies `pos
      ensures Agrees(r, ParseString(text, old(pos)))
    {
      var q := GetQuotedString(text, pos);
      if q.None? { return Failed; }
      pos := q.value.1;
      return Got(Str(q.value.0));
    }

    method Value(nesting: nat) returns (r: Read<Value>)
      modifies `pos
      ensures Agrees(r, ParseValue(text, old(pos), nesting))
      decreases |text| - pos, 2
    {
      if nesting > MAX_NESTING { return Failed; }
      SkipWhitespaces();
      var c := At(text, pos);
      if c == LBRACE {
        r := ObjectValue(nesting + 1);
      } else if c == LBRACKET {
        r := ArrayValue(nesting + 1);
      } else if c == QUOTE {
        r := StringValue();
      } else if c == 0x66 || c == 0x74 {
        r := BooleanValue();
      } else if c == MINUS || IsDigit(c) {
        r := NumberValue();
      } else if c == 0x6E {
        r := NullValue();
      } else {
        r := Failed;
      }
    }

    method ArrayValue(nesting: nat) returns (r: Read<Value>)
      requires At(text, pos) == LBRACKET
      modifies `pos
      ensures Agrees(r, ParseArray(text, old(pos), nesting))
      decreases |text| - pos, 1
    {
      hide ParseItems, SkipSpaces;
      pos := pos + 1;
      SkipWhitespaces();
      if At(text, pos) == RBRACKET {
        pos := pos + 1;
        return Got(Array([]));
      }
      var items := Items(nesting);
      if items.Failed? { return Failed; }
      if items.Unread? { return Unread; }
      if At(text, pos) != RBRACKET || |items.value| == 0 { return Failed; }
      pos := pos + 1;
      return Got(Array(items.value));
    }

    /** The loop of parse_array_value, and the white space after it. */
    method Items(nesting: nat) returns (r: Read<seq<Value>>)
      modifies `pos
      ensures Agrees(r, ParseItems(text, old(pos), nesting, []))
      decreases |text| - pos, 3
    {
      hide ParseValue, SkipSpaces;
      ghost var start := pos;
      var items: seq<Value> := [];
      while At(text, pos) != NUL
        invariant start <= pos
        invariant ParseItems(text, start, nesting, []) == ParseItems(text, pos, nesting, items)
        decreases |text| - pos
      {
        var v := Value(nesting);
        if v.Failed? { return Failed; }
        if v.Unread? { return Unread; }
        items := items + [v.value];
        SkipSpacesTwice(text, pos);
        SkipWhitespaces();
        if At(text, pos) != COMMA { break; }
        pos := pos + 1;
        SkipWhitespaces();
      }
      SkipWhitespaces();
      return Got(items);
    }

    method Key() returns (r: Option<Name>)
      modifies `pos
      ensures match ParseKey(text, old(pos))
              case None => r.None?
              case Some((name, next)) => r == Some(name) && pos == next
    {
      var q := GetQuotedString(text, pos);
      if q.None? || NUL in q.value.0 { return None; }
      pos := q.value.1;
      SkipWhitespaces();
      if At(text, pos) != COLON { return None; }
      pos := pos + 1;
      return Some(q.value.0);
    }

    method ObjectValue(nesting: nat) returns (r: Read<Value>)
      requires At(text, pos) == LBRACE
      modifies `pos
      ensures Agrees(r, ParseObject(text, old(pos), nesting))
      decreases |text| - pos, 1
    {
      hide ParseMembers, SkipSpaces, AsMap, DistinctNames, Lookup;
      var output := new JsonObject();
      pos := pos + 1;
      SkipWhitespaces();
      if At(text, pos) == RBRACE {
        pos := pos + 1;
        return Got(Object(output.Members()));
      }
      var status := Members(output, nesting);
      if status.Failed? { return Failed; }
      if status.Unread? { return Unread; }
      if At(text, pos) != RBRACE { return Failed; }
      var trimmed := output.Resize(output.count);
      if !trimmed { return Failed; }
      pos := pos + 1;
      return Got(Object(output.Members()));
    }

    /** One turn of the loop of parse_object_value, up to the white space after the value. */
    method OneMember(output: JsonObject, nesting: nat) returns (status: Read<bool>)
      requires output.Valid()
      modifies `pos, output, output.names, output.values
      ensures output.Valid()
      ensures output.names == old(output.names) || fresh(output.names)
      ensures output.values == old(output.values) || fresh(output.values)
      ensures match ParseKey(text, old(pos))
              case None => status.Failed?
              case Some((name, valueStart)) =>
                match ParseValue(text, valueStart, nesting)
                case Err => status.Failed?
                case Foreign => status.Unread?
                case Ok(v, next) =>
                  var ms := Added(old(output.Members()), name, v);
                  if ms.None? then status.Failed?
                  else status.Got? && output.Members() == ms.value && pos == SkipSpaces(text, next)
      decreases |text| - pos, 2
    {
      hide ParseValue, SkipSpaces, ParseKey, AsMap, DistinctNames, Lookup;
      var key := Key();
      if key.None? { return Failed; }
      var v := Value(nesting);
      if v.Failed? { return Failed; }
      if v.Unread? { return Unread; }
      var added := output.Add(key.value, v.value);
      if !added { return Failed; }
      SkipWhitespaces();
      return Got(true);
    }

    /** The loop of parse_object_value, and the white space after it. */
    method Members(output: JsonObject, nesting: nat) returns (status: Read<bool>)
      requires output.Valid() && output.Members() == []
      modifies `pos, output, output.names, output.values
      ensures output.Valid()
      ensures output.names == old(output.names) || fresh(output.names)
      ensures output.values == old(output.values) || fresh(output.values)
      ensures match ParseMembers(text, old(pos), nesting, [])
              case Ok(ms, next) => status.Got? && output.Members() == ms && pos == next
              case Err => status.Failed?
              case Foreign => status.Unread?
      decreases |text| - pos, 3
    {
      hide ParseMembers, ParseValue, SkipSpaces, ParseKey, AsMap, DistinctNames, Lookup, Added;
      ghost var start := pos;
      while At(text, pos) != NUL
        invariant start <= pos && output.Valid()
        invariant output.names == old(output.names) || fresh(output.names)
        invariant output.values == old(output.values) || fresh(output.values)
        invariant ParseMembers(text, start, nesting, []) == ParseMembers(text, pos, nesting, output.Members())
        decreases |text| - pos
      {
        MemberRead(pos, nesting, output.Members());
        var one := OneMember(output, nesting);
        if !one.Got? { return one; }
        if At(text, pos) != COMMA {
          break;
        }
        pos := pos + 1;
        SkipWhitespaces();
      }
      NoMoreMembers(pos, nesting, output.Members());
      SkipWhitespaces();
      return Got(true);
    }

    lemma NoMoreMembers(start: nat, nesting: nat, done: seq<Member>)
      ensures At(text, start) == NUL ==> ParseMembers(text, start, nesting, done) == Ok(done, SkipSpaces(text, start))
    {
    }

    /** One turn of the members loop, as the specification takes it. */
    lemma MemberRead(start: nat, nesting: nat, done: seq<Member>)
      requires At(text, start) != NUL
      ensures var spec := ParseMembers(text, start, nesting, done);
              match ParseKey(text, start)
              case None => spec == Err
              case Some((name, valueStart)) =>
                match ParseValue(text, valueStart, nesting)
                case Err => spec == Err
                case Foreign => spec == Foreign
                case Ok(v, next) =>
                  var i := SkipSpaces(text, next);
                  var ms := Added(done, name, v);
                  SkipSpaces(text, i) == i && next >= start &&
                  if ms.None? then spec == Err
                  else if At(text, i) != COMMA then spec == Ok(ms.value, i)
                  else i < |text| && spec == ParseMembers(text, SkipSpaces(text, i + 1), nesting, ms.value)
    {
      match ParseKey(text, start)
      case None =>
      case Some((name, valueStart)) =>
        var v := ParseValue(text, valueStart, nesting);
        if v.Ok? { SkipSpacesTwice(text, v.next); }
    }
  }

  /** json_parse_string. */
  method ParseText(text: bytes) returns (r: Read<Value>)
    ensures r == match Parse(text) case Ok(v, _) => Got(v) case Err => Failed case Foreign => Unread
  {
    var start := if At(text, 0) == 0xEF && At(text, 1) == 0xBB && At(text, 2) == 0xBF then 3 else 0;
    var cursor := new Cursor(text, start);
    r := cursor.Value(0);
  }
}
