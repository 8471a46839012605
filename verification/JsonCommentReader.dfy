/** Parsing with comments, on a private copy of the text. */
module JsonCommentReader {
  import opened Bytes
  import opened JsonComments
  import opened JsonCommentFacts
  import opened JsonReader
  import opened JsonValue

  /** json_parse_string_with_comments: both passes run in place on a NUL-terminated copy. */
  method ParseTextWithComments(text: bytes) returns (r: Read<Value>)
    requires NUL !in text
    ensures r == match ParseWithComments(text)
                 case Ok(v, _) => Got(v)
                 case Err => Failed
                 case Foreign => Unread
  {
    hide Strip;
    var n := |text|;
    var copy := new byte[n + 1](i => if 0 <= i < |text| then text[i] else NUL);
    assert copy[..n] == text;
    RemoveComments(copy, n, BLOCK);
    OnlyBlanks(text, START, BLOCK);
    assert forall k :: 0 <= k < n ==> copy[..n][k] == text[k] || copy[..n][k] == SPACE;
    assert NUL !in copy[..n];
    RemoveComments(copy, n, LINE);
    var cursor := new Cursor(copy[..n], 0);
    r := cursor.Value(0);
  }
}
