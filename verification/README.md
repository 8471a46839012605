# Models of a JSON library, a publish/subscribe server, a checksum and an HTTP reader

This project models four parts of the repository and proves what they are for.

* **The JSON library** (`Tema_3/parson.c`). `JsonValue` and `JsonText` give the values and the text the
  serializer prints; `JsonString`, `JsonParser` say what the parser computes and `JsonReader` runs it as the
  program does, one cursor moved by every function. `NumberLiteral` and `NumberScan` are the numbers of C11 and
  strtod's conversion of the longest one. `JsonGrammar` states the language without a parser, and
  `JsonGrammarProof` shows that the parser reads exactly that. `JsonWriter` is the two-pass serializer on a
  real buffer; `JsonLayout` and `JsonSpelling` say what its text looks like, byte by byte. `JsonRoundTrip`
  proves that parser and printer undo each other. `JsonSamples` has known texts. `Utf8`, `JsonStringUtf8` and
  `JsonUnicodeEscape` measure strings and escapes against RFC 3629 and UTF-16. `ObjectMembers` and
  `JsonObjects` are the object container; `DotPath` and `ObjectTree` are dotted paths, as a function and as
  writes into nested objects in the heap. `JsonComments`, `JsonCommentFacts`, `JsonCommentReader` are the
  comment stripper and `JsonCommentedText` says which comments it takes out cleanly. `JsonEquality` is
  equality, deep copy and validation.
* **The publish/subscribe server** (`Tema_2/server.cpp`). `PubSub` is one step per event, with the maps
  walked in `std::map` order, `PubSubServer` the handlers that update the three maps in place, `PubSubRuns`
  the theorems over whole runs, and `PubSubDescriptors` exactly when reused descriptors do harm.
* **The Internet checksum** (`Tema_1/skel.c`) in `Checksum`, and the forwarding step of `Tema_1/router.c`
  with the packets it originates in `Router`.
* **HTTP response framing** (`Tema_3/buffer.c`, `Tema_3/helpers.c`) in `HttpBuffer` and `HttpFraming`;
  `HttpLength` says what is read from the header.

The main results are `TextIff` and `RefusesIff`, `RoundTrip` and `Reparse`; `SerializeToString`,
`PrettyIsLaidOut`, `BareIsCompact` and `SpelledByRule`; `UnescapeKeepsUtf8` and `EscapeAcceptedIff`;
`RunRefinesMap`; `SetSucceedsIff`, `SetThenGet`, `SetLeavesOthers` and `DotGetWalks`;
`EqualsIffSameMeaning` and `ValidateIffConforms`; `IdempotentIff`, `RoundTripWithComments`, `CommentsGo` and
`JsonCommentedText.HarmlessIff`; `RunDelivers`, `PubSubDescriptors.HarmlessIff` and `LegalIff`;
`IpChecksum`, `SameChecksumIff`, `ChecksumVerifies` and `TravelEndsIff`; and `Receive` with `BodyLengthIs`.

Conventions. A byte is an integer in 0..255 and a C string is a byte sequence read through `At`, which gives
NUL at and past its end. Memory allocation succeeds. Number values are integers of magnitude at most 2^53,
which a double holds exactly, however they are written (`1e2`, `2.50e1`); strtod rounds correctly and leaves
errno alone when it converts one of them or nothing. A number of the accepted forms with any other value (a
fraction, -0, a larger integer, or one outside the range of a double, for which errno is set) makes the parser
model answer `Foreign`, and no theorem says what the code then gives; `ForeignValue` proves that nothing else
does. Everything the environment decides (the events that reach the server, the chunks `read` returns, the
alignment of a buffer, the byte order of the host, whether a route exists) is a parameter.

## Where the code and what is said about it differ

* `Tema_3/parson.c:862-872`: a `-` with no number behind it (`-`, `-.`, `-n`, but not `-inf` or `-nan`, which
  strtod converts) converts nothing, so it reads as 0 and the cursor stays on the `-`; RFC 8259 has no such
  number. `BareMinusInput` and `MinusInputs` are such texts. `NumberIff` and `BareMinusIff` say exactly what is
  read and when the cursor stays, and `ParsesIff` that a bare `-` counts only at the top: in an array or object
  it is an error.
* `Tema_3/parson.c:270-283, 862-872`: strtod and is_decimal together accept numbers the RFC does not have, with
  no digit behind the point (`1.`) or, after a `-`, none in front of it (`-.5`), and refuse a lone zero with an
  exponent (`0e1`), which the RFC has. `NumberInputs` and `RefusedInputs` have one of each; `DecimalIff` and
  `RfcNumberRead` say that there are no others.
* The grammar departs from the RFC further in white space (isspace also takes vertical tab and form feed), in
  that strings may hold bytes that are not UTF-8, and in that the names of an object must be distinct.
* `Tema_3/parson.c:339-342`: for a comment that is never closed only the two bytes of its opening token are
  blanked, so a second pass can change the text again. `SecondPassChanges` is such a text, and `IdempotentIff`
  says exactly when it happens.
* `Tema_3/parson.c:1159-1160`: the pass for block comments runs first and also looks into line comments, so a
  `*` right behind `//`, an opening `/*` that is not closed on the line, or an odd quote can keep comments or
  lose text. `JsonCommentedText.HarmlessIff` shows that these are exactly the line comments that can do harm.
* `Tema_1/skel.c:169-219`: the accumulator starts at 0xFFFF, so zero data gives 0 where RFC 1071 gives 0xFFFF.
  `icmp_checksum` gives 0xFFFF there but folds its carries only twice; `SameChecksumIff` says that these are
  the only differences, the second only beyond 65537 words, and `TwoFoldsFallShort` has data on which it shows.
* `Tema_2/server.cpp:262, 271, 286, 303, 315`: records are found by descriptor without looking at `connected`,
  and the operating system reuses closed descriptors. A reused descriptor is harmless (`Harmless`) when every
  other record that still holds it sorts after the new owner's and its client subscribes to nothing; a
  descriptor that no other record holds is the simplest case. `RunDelivers` proves delivery for all runs whose
  connections are harmless. `PubSubDescriptors.HarmlessIff` and `LegalIff` prove that no weaker condition will
  do: after any accepted connection that is not harmless there is a continuation, itself without harm, in
  which some client's messages are not what it is owed. `TakeoverDeliversIff` is a concrete run.

## Model

| member | source | states |
|---|---|---|
| JsonRoundTrip.RoundTrip | Tema_3/parson.c:696-832 | parsing the compact or pretty text of a value, with slashes escaped or not and with any text behind it, gives that value with its key order and leaves the cursor right behind the text, if and only if names are distinct in every object, no node is deeper than 2048, and, for a number, the text behind does not make it longer |
| JsonRoundTrip.Reparse | Tema_3/parson.c:1142-1150 | whatever the parser reads from any text, printing it in any format and parsing again gives the same value and consumes the whole text |
| JsonRoundTrip.ParserProduces | Tema_3/parson.c:721-786 | every value the parser produces has distinct names in each object and respects the nesting limit |
| JsonRoundTrip.ReadValue | Tema_3/parson.c:696-719 | wherever the text of a value stands, at any indentation level, the parser reads exactly that value and stops behind it |
| JsonRoundTrip.ReadNumber | Tema_3/parson.c:862-872 | the decimal text of an integer is read back as that integer, up to its last digit, if and only if nothing behind it makes it longer |
| JsonRoundTrip.ReadQuoted | Tema_3/parson.c:685-694 | an escaped and quoted string, NUL bytes included, is read back byte for byte |
| JsonRoundTrip.ReadEscapedByte | Tema_3/parson.c:639-657 | every escape the serializer writes for a byte is undone in one step |
| JsonGrammarProof.ParsesIff | Tema_3/parson.c:696-832 | the parser answers v and stops at j if and only if, behind white space, the text up to j spells v in the grammar (any white space, any spelling of strings and numbers, distinct names, exact integers) within the nesting limit, or a bare minus sign stands there, v is 0 and the cursor stays on the sign |
| JsonGrammarProof.TextIff | Tema_3/parson.c:1142-1150 | json_parse_string answers v and stops at j if and only if the text has that reading from its start, or from behind EF BB BF if it begins with these bytes |
| JsonGrammarProof.RefusesIff | Tema_3/parson.c:1142-1150 | a text without a number whose value the model does not hold is refused if and only if it has no reading |
| JsonGrammarProof.ForeignValue | Tema_3/parson.c:696-872 | where the model gives no answer, a number of the grammar stands in the text that is not worth an integer the model holds |
| JsonGrammarProof.WhiteIff | Tema_3/parson.c:52 | the white space that is skipped is space, tab, line feed, vertical tab, form feed and return |
| JsonSamples.NestingLimit | Tema_3/parson.c:696-719 | n opening and n closing brackets are read up to n = 2049, the innermost then being at depth 2048, and refused beyond |
| JsonGrammarProof.NumberIff | Tema_3/parson.c:862-872 | the cursor moves on to j and n is the value if and only if from here to j stands a number of the grammar (section 6 of RFC 8259 but for `0e1` and its like, and with `1.` and `-.5`) that is worth the exact integer n and that nothing behind it makes longer |
| JsonGrammarProof.DecimalIff | Tema_3/parson.c:270-283 | of the numbers strtod converts, is_decimal lets pass those of the grammar: no hexadecimal, no leading zero, no exponent behind a lone zero |
| JsonGrammarProof.RfcNumberRead | Tema_3/parson.c:862-872 | of the numbers of RFC 8259 a lone zero with an exponent is refused, and every other one worth an integer the model holds is read to its end |
| JsonGrammarProof.RefusedIff | Tema_3/parson.c:862-872 | where the model answers, it refuses if and only if -inf or -nan or a number outside the grammar stands there |
| JsonSamples.NumberInputs | Tema_3/parson.c:862-872 | `1.` reads as 1 and `-.5e1` as -5 |
| JsonSamples.RefusedInputs | Tema_3/parson.c:862-872 | `0e1`, `0X1`, `-inf` and `-NaN` are refused |
| JsonSamples.ScaledInputs | Tema_3/parson.c:862-872 | `1E2` reads as 100 and `50e-1` as 5 |
| JsonSamples.LookaheadInputs | Tema_3/parson.c:862-872 | `5e` and `5e+` read as 5 and `0xg` as 0, each with the cursor behind the digit |
| JsonSamples.MinusInputs | Tema_3/parson.c:862-872 | `-.` and `-n` read as 0 with the cursor on the sign |
| NumberScan.LiteralEndsIff | Tema_3/parson.c:866 | strtod never ends before the end of a number of the C standard's forms that stands there, and ends with it if and only if the bytes behind do not make it longer |
| NumberScan.ScanStands | Tema_3/parson.c:866 | what it converts is such a number |
| NumberScan.ExactValueIff | Tema_3/parson.c:866 | its value is the integer n if and only if the digits times the power of ten are n |
| JsonGrammarProof.BareMinusIff | Tema_3/parson.c:862-872 | the cursor stays where it is if and only if a minus sign stands there with no number behind it, and then the value is 0 |
| JsonSamples.BareMinusInput | Tema_3/parson.c:1142-1150 | the text - alone is read as 0 |
| JsonGrammarProof.BareMinusInArray | Tema_3/parson.c:806-829 | an array with a bare minus sign among its items is never closed, so it is an error |
| JsonGrammarProof.BareMinusInObject | Tema_3/parson.c:740-783 | nor is an object with a bare minus sign as a value |
| JsonGrammarProof.ArrayWasThere | Tema_3/parson.c:788-832 | whatever is read as an array was an array of the grammar, with no bare minus sign in it |
| JsonGrammarProof.ObjectWasThere | Tema_3/parson.c:721-786 | whatever is read as an object was an object of the grammar, with no bare minus sign in it |
| JsonGrammarProof.StringIff | Tema_3/parson.c:685-694 | a string is read, with this text and up to this quote, if and only if it is one of the grammar of section 7 of RFC 8259 |
| JsonGrammarProof.KeyIff | Tema_3/parson.c:741-757 | a key is read if and only if a string without NUL, white space and a colon stand there |
| JsonGrammarProof.NumberRoundTripIff | Tema_3/parson.c:1009-1022 | a printed number is read back in front of any text if and only if that text does not make it longer |
| JsonParser.ParseValue | Tema_3/parson.c:696-719 | the cursor only moves forward and never past the end of the text |
| JsonParser.ParseArray | Tema_3/parson.c:788-832 | a parsed array ends inside the text, behind its bracket |
| JsonParser.ParseObject | Tema_3/parson.c:721-786 | a parsed object ends inside the text, behind its brace |
| JsonParser.ParseKey | Tema_3/parson.c:741-757 | an accepted key holds no NUL, and its colon lies inside the text |
| JsonReader.Cursor.Value | Tema_3/parson.c:696-719 | the moving cursor of parse_value ends where, and with what, the specification says, for success, failure and foreign numbers |
| JsonReader.Cursor.ArrayValue | Tema_3/parson.c:788-832 | the same for parse_array_value |
| JsonReader.Cursor.Items | Tema_3/parson.c:806-824 | the item loop computes the item list of the specification |
| JsonReader.Cursor.ObjectValue | Tema_3/parson.c:721-786 | the same for parse_object_value, which fills and trims an object container |
| JsonReader.Cursor.OneMember | Tema_3/parson.c:741-771 | one turn of the member loop: key, colon, value, and the refusal of a name already there |
| JsonReader.Cursor.Members | Tema_3/parson.c:740-778 | the member loop leaves in the container the member list of the specification, in text order |
| JsonReader.Cursor.Key | Tema_3/parson.c:741-757 | a key and its colon, or a failure for a NUL in the name or a missing colon |
| JsonReader.Cursor.StringValue | Tema_3/parson.c:834-847 | the string value and the cursor behind its closing quote |
| JsonReader.Cursor.NumberValue | Tema_3/parson.c:862-872 | strtod, the is_decimal test and the cursor give the specified number, failure or foreign number |
| JsonReader.Cursor.Decimal | Tema_3/parson.c:270-283 | is_decimal: behind a leading zero only a point, and no x, X or NUL |
| JsonReader.Cursor.BooleanValue | Tema_3/parson.c:849-860 | true or false, and the cursor behind the token |
| JsonReader.Cursor.NullValue | Tema_3/parson.c:874-881 | null, and the cursor behind the token |
| JsonReader.Cursor.Matches | Tema_3/parson.c:852 | strncmp answers whether the whole token stands at the cursor |
| JsonReader.Cursor.SkipWhitespaces | Tema_3/parson.c:52 | passes over space, tab, line feed, vertical tab, form feed and return, and stops at the first other byte |
| JsonReader.ParseText | Tema_3/parson.c:1142-1150 | json_parse_string, with the byte order mark skipped |
| JsonString.SkipQuotes | Tema_3/parson.c:559-577 | succeeds exactly when there is a closing quote that no backslash protects, and stops behind it |
| JsonString.StopsSameQuote | Tema_3/parson.c:559-577 | from every position the scan passes through it finds the same closing quote |
| JsonString.UnitInStep | Tema_3/parson.c:579-665 | one step of process_string reads from one stop of the quote scan to another and writes at least one byte but no more than it reads |
| JsonString.UnescapeStep | Tema_3/parson.c:638-665 | a step never passes the closing quote, and the rest of the string is processed as if it stood alone |
| JsonString.ProcessString | Tema_3/parson.c:628-681 | before each step and at the end the read cursor rests on a stop of the quote scan no further than the closing quote, and no more bytes are written than read; the result is the unescaped text or a failure, and the writes stay inside input_len + 1 bytes |
| JsonString.GetQuotedString | Tema_3/parson.c:685-694 | the processed text and the position behind the quote, with no write outside the buffer |
| JsonUnicodeEscape.Hex4Iff | Tema_3/parson.c:185-199 | a value is read if and only if four hexadecimal digits of either case spell it there |
| JsonUnicodeEscape.EscapeAcceptedIff | Tema_3/parson.c:579-623 | a \u escape is accepted if and only if the escapes there spell a Unicode scalar value in UTF-16, and what it writes decodes to that value |
| JsonUnicodeEscape.SpelledIsWritten | Tema_3/parson.c:579-623 | every scalar value, spelled as one escape or as a surrogate pair, is written as its UTF-8 encoding and read to the end of its last escape |
| JsonUnicodeEscape.WrittenIsSpelled | Tema_3/parson.c:579-623 | nothing else is accepted: lone or swapped surrogates and broken digits are refused |
| JsonStringUtf8.EscapeWritesChar | Tema_3/parson.c:579-623 | every accepted escape, a surrogate pair included, writes one character of the RFC 3629 grammar |
| JsonStringUtf8.UnescapeKeepsUtf8 | Tema_3/parson.c:628-681 | the processed string is well-formed UTF-8 if and only if the text between the quotes is |
| JsonStringUtf8.QuotedStringUtf8 | Tema_3/parson.c:685-694 | the same for the result of get_quoted_string |
| JsonStringUtf8.TailsAreRaw | Tema_3/parson.c:660-664 | continuation bytes at the start of a result stood in the same place in the input |
| Utf8.VerifiedIsChar | Tema_3/parson.c:216-256 | a sequence the decoder accepts is a character of section 4 of RFC 3629 that lies wholly inside the string |
| Utf8.CharIsVerified | Tema_3/parson.c:216-256 | and every such character is accepted, with its length |
| Utf8.ValidIffUtf8 | Tema_3/parson.c:258-268 | the walk accepts exactly the concatenations of RFC 3629 characters |
| Utf8.IsValidUtf8 | Tema_3/parson.c:258-268 | is_valid_utf8 on a whole NUL-terminated string answers exactly that question |
| Utf8.EncodeVerifies | Tema_3/parson.c:590-614 | what a \u escape writes is one accepted sequence, and decoding it gives the code point back |
| Utf8.EncodeBits | Tema_3/parson.c:590-614 | the bytes written hold the code point as in the table of RFC 3629: the first byte without its mark, then six bits of each other one |
| JsonWriter.Output.SerializeValue | Tema_3/parson.c:894-1031 | appends exactly the text of the value and returns its length, whether there is a buffer or not; every write, the NUL behind each piece included, falls inside the buffer |
| JsonWriter.Output.SerializeArray | Tema_3/parson.c:906-937 | the array case |
| JsonWriter.Output.SerializeItem | Tema_3/parson.c:913-932 | one turn of its loop |
| JsonWriter.Output.SerializeObject | Tema_3/parson.c:938-986 | the object case |
| JsonWriter.Output.SerializeMember | Tema_3/parson.c:945-981 | one turn of its loop |
| JsonWriter.Output.SerializeKey | Tema_3/parson.c:950-965 | indentation, quoted name, colon and, in pretty form, a space |
| JsonWriter.Output.SerializeString | Tema_3/parson.c:1033-1098 | quotes and escapes of any byte string, NUL included, measured and written alike |
| JsonWriter.Output.SerializeByte | Tema_3/parson.c:1038-1095 | one turn of the escaping switch |
| JsonWriter.Output.SerializeNumber | Tema_3/parson.c:1009-1022 | the digits of an integer, in the buffer or in the 64-byte scratch buffer |
| JsonWriter.DecimalFits | Tema_3/parson.c:48 | every number the model prints, with its NUL, fits the scratch buffer |
| JsonWriter.Output.AppendString | Tema_3/parson.c:1109-1114 | appends the string and a NUL behind it, or only measures it |
| JsonWriter.Output.AppendIndent | Tema_3/parson.c:1100-1107 | four spaces a level |
| JsonWriter.SerializationSize | Tema_3/parson.c:1542-1546 | the measuring pass gives the length of the text plus one |
| JsonWriter.SerializeToBuffer | Tema_3/parson.c:1548-1559 | succeeds exactly when text and NUL fit, leaves them there and every byte behind them alone, and leaves a buffer that is too small untouched |
| JsonWriter.SerializeToString | Tema_3/parson.c:1583-1600 | the allocated buffer holds exactly the text and one NUL as its last byte |
| JsonLayout.PrettyIsLaidOut | Tema_3/parson.c:906-986 | the pretty text is the compact text laid out by a formatter that knows only bytes: each element on its own line behind four spaces for every open bracket, one space behind the colon of a name, nothing in empty brackets |
| JsonSpelling.BareIsCompact | Tema_3/parson.c:906-986 | compact text has no white space outside string literals, and pretty text without that white space is the compact text |
| JsonSpelling.SpelledByRule | Tema_3/parson.c:1033-1098 | at every byte of printed text: no control character inside a literal, a slash there behind a backslash if and only if slashes are escaped, and a letter for each of the five control characters that have one |
| JsonSpelling.NumberSpelling | Tema_3/parson.c:1009-1022 | a number is printed as its decimal digits, with no leading zero |
| JsonSamples.PrettySample | Tema_3/parson.c:938-986 | one object printed in the default format, byte by byte |
| ObjectMembers.RunRefinesMap | Tema_3/parson.c:374-464 | any sequence of add, set, remove and clear does to the member list what it does to a finite map, with the same statuses, and keeps names distinct |
| ObjectMembers.AddRefinesMap | Tema_3/parson.c:374-397 | adding fails exactly for a name that is there and extends the map otherwise |
| ObjectMembers.SetRefinesMap | Tema_3/parson.c:1827-1846 | setting updates the map and keeps names distinct |
| ObjectMembers.RemoveRefinesMap | Tema_3/parson.c:443-464 | removal with the last member moved into the gap loses the named pair and no other |
| ObjectMembers.RemovedPlaces | Tema_3/parson.c:454-457 | removal leaves every other member at its index, but for the last one, which takes the removed index |
| ObjectMembers.SetPlaces | Tema_3/parson.c:1833-1840 | an overwrite leaves every member at its index |
| ObjectMembers.AddedPlaces | Tema_3/parson.c:390-395 | a new member stands behind the others |
| JsonObjects.JsonObject.Add | Tema_3/parson.c:374-397 | the parallel arrays then hold the new member list; capacity doubles, or becomes 16, exactly when it was used up |
| JsonObjects.JsonObject.Resize | Tema_3/parson.c:399-427 | growing and trimming keep every pair in order; a capacity of 0 is refused and changes nothing |
| JsonObjects.JsonObject.Get | Tema_3/parson.c:429-441 | the value of the first member with the name |
| JsonObjects.JsonObject.Find | Tema_3/parson.c:431-439 | the index of that member, or the count |
| JsonObjects.JsonObject.Set | Tema_3/parson.c:1827-1846 | overwrites in place or appends, and always succeeds |
| JsonObjects.JsonObject.Remove | Tema_3/parson.c:443-464 | removes in place, in the same arrays |
| JsonObjects.JsonObject.Clear | Tema_3/parson.c:2003-2014 | no members left, capacity and arrays kept |
| DotPath.DotGetWalks | Tema_3/parson.c:1200-1207 | a dotted read goes down member by member along the segments between the dots, through objects only |
| DotPath.HasSegments | Tema_3/parson.c:1200-1207 | every path is made of such segments |
| DotPath.SetThenGet | Tema_3/parson.c:1893-1933 | after a successful dotted write the path reads as the value written |
| DotPath.SetLeavesOthers | Tema_3/parson.c:1893-1933 | a path that is neither a segment-prefix nor an extension of the written one reads as before |
| DotPath.FailedSetChangesNothing | Tema_3/parson.c:1893-1933 | a failed write leaves the tree as it was |
| DotPath.SetSucceedsIff | Tema_3/parson.c:1893-1933 | a write succeeds if and only if no proper segment-prefix of the path reads as something other than an object |
| DotPath.SetKeepsWellFormed | Tema_3/parson.c:1893-1933 | names stay distinct everywhere in the tree |
| ObjectTree.Node.DotSet | Tema_3/parson.c:1893-1933 | the write on objects nested in the heap changes, in place and inside this tree only, what the function on values says, with the same status |
| ObjectTree.Node.DotSetBelow | Tema_3/parson.c:1908-1915 | the step into an existing object leaves its siblings as they were |
| ObjectTree.Node.DotSetInNew | Tema_3/parson.c:1916-1932 | objects for missing segments are added only if the write below them succeeded |
| ObjectTree.Node.Set | Tema_3/parson.c:1827-1846 | json_object_set_value on such an object, which takes the value over |
| ObjectTree.Get | Tema_3/parson.c:429-441 | the lookup in such an object, or nothing for NULL |
| ObjectTree.DotGet | Tema_3/parson.c:1200-1207 | the dotted read computes what the function on values says |
| JsonComments.RemoveComments | Tema_3/parson.c:318-351 | the in-place pass leaves in the text what the specification says and nothing behind its NUL changed |
| JsonComments.BlankComment | Tema_3/parson.c:334-346 | one comment: blanked up to and with its closing token, or only its opening token when it is never closed |
| JsonComments.FindToken | Tema_3/parson.c:339 | the first occurrence of the closing token, or none |
| JsonCommentFacts.FindIff | Tema_3/parson.c:339 | strstr finds the first place where the token stands |
| JsonCommentFacts.CommentTokens | Tema_3/parson.c:1159-1160 | the tokens are `/*`, `*/`, `//` and the line feed |
| JsonCommentFacts.StateIs | Tema_3/parson.c:326-332 | the pass takes itself to be in a literal behind an odd number of quotes that stand behind an even number of backslashes, and the next byte as escaped behind an odd number of backslashes |
| JsonCommentFacts.OnlyBlanks | Tema_3/parson.c:318-351 | a pass keeps the length and changes bytes only into spaces |
| JsonCommentFacts.LiteralsKept | Tema_3/parson.c:318-351 | a byte inside a string literal of the resulting text is unchanged |
| JsonCommentFacts.UnchangedIffNotOpen | Tema_3/parson.c:327-348 | a pass changes nothing exactly when no opening token stands outside string literals |
| JsonCommentFacts.OpensAfterStrip | Tema_3/parson.c:318-351 | after a pass an opening token can only be found behind a comment that was never closed |
| JsonCommentFacts.IdempotentIff | Tema_3/parson.c:318-351 | a second pass changes nothing if and only if no comment was left open, or no opening token stands outside literals behind the one left open |
| JsonCommentFacts.SecondPassChanges | Tema_3/parson.c:318-351 | a text that a second pass does change |
| JsonCommentedText.CommentsGo | Tema_3/parson.c:1152-1165 | both passes turn exactly the comments of a text into spaces, for any clean text between them, any block comments, and line comments that meet the condition |
| JsonCommentedText.HarmlessIff | Tema_3/parson.c:1159-1160 | a line comment meets the condition (no * behind its token, block comments in it closed on the line, quotes balanced as the block pass sees them) if and only if it goes cleanly in front of any good pieces |
| JsonCommentedText.CommentsParse | Tema_3/parson.c:1152-1165 | such text parses to v if and only if the grammar gives v with spaces in place of the comments |
| JsonCommentFacts.TextQuiet | Tema_3/parson.c:1033-1098 | serialized text has slashes only inside string literals, and the escape tracking agrees with its escapes |
| JsonCommentFacts.SerializedTextUntouched | Tema_3/parson.c:1159-1160 | neither pass changes serialized text, whatever its strings hold and with slash escaping on or off |
| JsonCommentFacts.RoundTripWithComments | Tema_3/parson.c:1152-1165 | parsing with comments inverts the serializer on exactly the same values as parsing without |
| JsonCommentReader.ParseTextWithComments | Tema_3/parson.c:1152-1165 | both passes on a copy, then the parser, compute the specified result |
| JsonEquality.EqualsIffSameMeaning | Tema_3/parson.c:2076-2139 | with distinct names two values are equal if and only if they denote the same nested finite map, although only the first one's names are walked |
| JsonEquality.EqualsIsEquivalence | Tema_3/parson.c:2076-2139 | equality is reflexive, symmetric and transitive |
| JsonEquality.ValidateIffConforms | Tema_3/parson.c:2016-2074 | validation depends on meanings only: the early rejection of a value with fewer pairs never changes the verdict |
| JsonEquality.ValidateRespectsEquality | Tema_3/parson.c:2016-2074 | the verdict is the same for schemas and values that are equal but ordered differently |
| JsonEquality.JsonValueEquals | Tema_3/parson.c:2076-2139 | the loops compute the equality that is characterized above |
| JsonEquality.JsonValidate | Tema_3/parson.c:2016-2074 | the loops compute the verdict that is characterized above |
| JsonEquality.DeepCopy | Tema_3/parson.c:1462-1540 | the copy is the value itself, and copying fails exactly when some object holds a name twice |
| PubSubRuns.RunDelivers | Tema_2/server.cpp:122-322 | over any run whose connections are harmless: what was sent to a client followed by what waits for it is exactly, once each and in order, what was published on topics it was subscribed to while it was on line or its stored SF was 1; the copies are in step; the maps refine a table of connections and subscriptions |
| PubSubRuns.NothingWaitsWhileOn | Tema_2/server.cpp:212-219 | a client on line has been sent all it is owed, a client away a prefix of it |
| PubSubRuns.SentStaysSent | Tema_2/server.cpp:122-322 | as the run goes on, what was sent to a client only grows |
| PubSubRuns.ConnectKeepsInvIff | Tema_2/server.cpp:189-247 | from any state with the invariant, a connection keeps it if and only if it is harmless |
| PubSubDescriptors.HarmlessIff | Tema_2/server.cpp:189-247 | after any legal run a connection is harmless (every other record on its descriptor sorts after its own and subscribes to nothing, which can be checked at accept) if and only if no continuation without harm can make any client's account differ from what it is owed |
| PubSubDescriptors.LegalIff | Tema_2/server.cpp:122-322 | over any run the network can produce, all connections were harmless if and only if at no point a continuation without harm could go wrong |
| PubSubDescriptors.TakesSubscription | Tema_2/server.cpp:302-319 | if a stale record on the descriptor sorts first, the new owner's next subscription is taken by it and a message is missed |
| PubSubDescriptors.TakesUnsubscription | Tema_2/server.cpp:285-290 | if a client with a stale record on the descriptor subscribes to a topic, the owner can unsubscribe it, and it misses a message when it is back |
| PubSubDescriptors.InvThroughoutIff | Tema_2/server.cpp:171-247 | over any run the network can produce, the invariant holds all along if and only if all connections were harmless |
| PubSubDescriptors.TakeoverDeliversIff | Tema_2/server.cpp:299-306 | a concrete run that reuses a descriptor: the new client gets its message if and only if its id sorts before that of the client that left |
| PubSubRuns.FirstSfStays | Tema_2/server.cpp:299-320 | a subscription keeps the SF of its first subscribe until the client unsubscribes, through later subscribes and reconnections |
| PubSubRuns.StepKeepsInv | Tema_2/server.cpp:122-322 | every possible event, connections being harmless, keeps it: copies agree with the client table, connected records match open connections, stale records on open descriptors sort last and subscribe to nothing, queues are empty while their client is on line |
| PubSubRuns.StepRefines | Tema_2/server.cpp:122-322 | each event moves the reference table as it should and adds to each client's account just what it is owed |
| PubSubRuns.PublishRefines | Tema_2/server.cpp:130-169 | a publish: one message for each subscriber that is on line or stores, none for others, subscriptions unchanged |
| PubSubRuns.FanOutShares | Tema_2/server.cpp:147-162 | the walk over the subscribers gives each of them its share once and touches nothing else |
| PubSubRuns.ConnectRefines | Tema_2/server.cpp:189-247 | a second connection under a live id changes nothing; a flush neither loses nor adds nor reorders messages |
| PubSubRuns.ExitRefines | Tema_2/server.cpp:255-275 | leaving ends the connection and keeps subscriptions and messages |
| PubSubRuns.SubscribeRefines | Tema_2/server.cpp:291-322 | a subscription is added for the client on the descriptor, or kept with the SF it has |
| PubSubRuns.UnsubscribeRefines | Tema_2/server.cpp:281-290 | just that client's subscription to just that topic goes |
| PubSubRuns.HolderIsPeer | Tema_2/server.cpp:261-267 | while the invariant holds, the first record on an open descriptor is that of the client connected through it |
| PubSubRuns.SubscriberIsPeer | Tema_2/server.cpp:285-290 | and among the subscribers of a topic the first on the descriptor is its owner, or there is none |
| PubSub.LessIff | Tema_2/server.cpp:39 | the order of the keys: the proper beginning first, or the smaller byte where they first differ |
| PubSub.HolderOf | Tema_2/server.cpp:261-267 | of the records on a descriptor the one is found that sorts before all others |
| PubSubServer.Server.HandlePublish | Tema_2/server.cpp:130-169 | takes the server from its history to its history and the publish |
| PubSubServer.Server.HandleConnect | Tema_2/server.cpp:189-247 | the same for an accepted, resumed or refused connection |
| PubSubServer.Server.Reconnect | Tema_2/server.cpp:191-219 | a returning client: its record, its copies in every topic, and its queue |
| PubSubServer.Server.BringBack | Tema_2/server.cpp:200-209 | the nested walk changes the copies of this client in every topic and nothing else |
| PubSubServer.Server.Flush | Tema_2/server.cpp:212-219 | the queue is emptied and what it held is sent in order |
| PubSubServer.Server.HandleExit | Tema_2/server.cpp:255-275 | the same for a client that leaves |
| PubSubServer.Server.SendAway | Tema_2/server.cpp:269-275 | the nested walk marks the copies on the descriptor and nothing else |
| PubSubServer.Server.HandleSubscribe | Tema_2/server.cpp:291-322 | the same for a subscription |
| PubSubServer.Server.Enrol | Tema_2/server.cpp:303-306 | the SF goes into the client's record; the topic gets a copy unless it has one |
| PubSubServer.Server.HandleUnsubscribe | Tema_2/server.cpp:281-290 | the same for the end of a subscription |
| PubSubServer.Server.FindHolder | Tema_2/server.cpp:261-267 | the first record in key order that holds the descriptor |
| PubSubServer.Server.HandleAll | Tema_2/server.cpp:95-327 | any sequence of events leaves the server where its history says |
| PubSubServer.Server.Serve | Tema_2/server.cpp:95-327 | after a legal history the server's own maps satisfy the invariant and every client has been sent, or has waiting, exactly what it is owed |
| Checksum.IpChecksum | Tema_1/skel.c:169-219 | for all four alignments and up to 2^32 words: the complement of the RFC 1071 one's-complement sum, or 0 for zero data; the 64-bit accumulator never overflows |
| Checksum.AddBlocks | Tema_1/skel.c:173-203 | the accumulator is positive and congruent modulo 65535 to the sum of the bytes, weighted by the parity of their address |
| Checksum.FoldCarries | Tema_1/skel.c:205-209 | folding terminates, keeps the sum modulo 65535 and never reaches 0 |
| Checksum.Representative | Tema_1/skel.c:205-218 | the only value in 1..65535 congruent to the data's sum is its one's-complement sum (65535 for zero data) |
| Checksum.WeightedSwap | Tema_1/skel.c:211-215 | moving every byte to the other half of its word multiplies the sum by 256 modulo 65535 |
| Checksum.IcmpChecksum | Tema_1/skel.c:151-166 | for any even length: the complement of two folds of the host-order sum; up to 65537 words: the RFC 1071 checksum in host order |
| Checksum.TwoFoldsExact | Tema_1/skel.c:163-164 | two folds reach the one's-complement representative if and only if the second leaves no carry |
| Checksum.TwoFoldsEnough | Tema_1/skel.c:163-164 | below 2^32 two folds are enough |
| Checksum.SameChecksumIff | Tema_1/skel.c:151-219 | for any even length below 2^32 both functions return the same 16-bit integer, in either byte order of the host, if and only if the data is not all zero and the second fold leaves no carry, and up to 65537 words it never does |
| Checksum.TwoFoldsFallShort | Tema_1/skel.c:163-165 | 65538 words FFFF and a word 1: the second fold carries and the two functions differ |
| Checksum.VerifiesIff | Tema_1/skel.c:169-219 | data checks to 0 if and only if its sum is a multiple of 65535 |
| Checksum.ChecksumVerifies | Tema_1/skel.c:255-258 | writing the checksum into its own zeroed, even-positioned field makes the data check to 0 |
| Checksum.IcmpVerifies | Tema_1/skel.c:260 | up to 65537 words: the bytes the host stores for the result of icmp_checksum in a zeroed, even-positioned field make it give 0 |
| Router.HandleIp | Tema_1/router.c:133-170 | echo reply for an echo request to the address of the interface, whatever TTL and checksum; then time exceeded for a TTL of at most 1, a drop for a wrong checksum, unreachable without a route; only a forwarded packet is changed, and of it only the rewritten IP header |
| Router.Rewrite | Tema_1/router.c:167-170 | the TTL and checksum are rewritten in place and nothing else is touched |
| Router.RewriteVerifies | Tema_1/router.c:168-170 | a rewritten header verifies and differs only in TTL and checksum |
| Router.TravelEndsIff | Tema_1/router.c:133-170 | exactly at which router of a chain a packet ends, and how: an echo request at the first router it is addressed to; otherwise time exceeded where the TTL runs out or unreachable where there is no route, whichever comes first, and time exceeded at a router where both do; dropped only by the first router, with a TTL above 1 and a wrong checksum |
| Router.TravelsIff | Tema_1/router.c:146-170 | a packet passes a chain of routers if and only if it was sound on arrival, all of them had a route, none was asked for an echo, and the TTL exceeds their number |
| Router.TravelKeepsHeader | Tema_1/router.c:146-170 | wherever it ends, a forwarded packet is sound and differs from the original in checksum and in a TTL lower by the number of forwards |
| Router.BuildIp | Tema_1/skel.c:246-258 | the new IP header verifies for every alignment of the struct and has the fields of RFC 791 by their offsets: version and length 45, total length 28, TTL 64, protocol 1, source at 12, destination at 16 |
| Router.BuildIcmpHeader | Tema_1/skel.c:233-260 | the new ICMP header checks to 0 on hosts of either byte order and is otherwise as filled in |
| Router.BuildIcmp | Tema_1/skel.c:228-312 | both headers of an originated packet stand in its payload in this order and verify there, the IP header with these fields and with the length of what follows the Ethernet header |
| HttpBuffer.Buffer.Add | Tema_3/buffer.c:28-39 | the new bytes stand behind the old ones |
| HttpBuffer.Buffer.Find | Tema_3/buffer.c:41-85 | the offset of the first match, exact or ignoring case, or -1 when there is none |
| HttpBuffer.SameByteIff | Tema_3/buffer.c:63-85 | ignoring case, a letter matches itself in either case and any other byte itself |
| HttpBuffer.FirstInPrefix | Tema_3/buffer.c:41-85 | a prefix of a text shows the first match of the text if it contains all of it, and none otherwise |
| HttpFraming.Inspect | Tema_3/helpers.c:93-107 | one turn of the first loop, on any prefix of the stream in which strtol stops, finds the header end and body length of the whole stream or goes on |
| HttpFraming.Turn | Tema_3/helpers.c:81-108 | the same after the next chunk has been appended |
| HttpFraming.ReadHeader | Tema_3/helpers.c:80-108 | the first loop ends with the header end and body length of the whole stream, however it was cut, and reads no more than shows both |
| HttpFraming.Receive | Tema_3/helpers.c:73-126 | the response is a prefix of the stream that covers header and body, or all of it, and a NUL; header end and body length do not depend on the cuts |
| HttpFraming.SameLength | Tema_3/helpers.c:104-105 | a prefix in which strtol stops shows the same header end and body length as the stream |
| HttpFraming.SameNumber | Tema_3/helpers.c:105 | what strtol reads, white space, sign and digits, depends on nothing behind the byte it stops at |
| HttpFraming.HeaderLengthIsNeverCut | Tema_3/helpers.c:93-107 | if what the length field holds begins before the first CRLFCRLF, strtol stops inside the buffer for every way of cutting the stream |
| HttpLength.HeaderFound | Tema_3/helpers.c:93-104 | the searches find the first empty line and, in any case, the first `Content-Length: ` |
| HttpLength.LengthRead | Tema_3/helpers.c:105 | behind white space and a sign or none, the digits that stand there, up to the first other byte, are the number strtol reads; assigned to int it is kept if it fits and reduced modulo 2^32 otherwise, and a number beyond the range of long gives the end of that range |
| HttpLength.BodyLengthIs | Tema_3/helpers.c:93-107 | the header end lies behind the first empty line, and the body length is the number in the length field, if it fits an int |
| HttpLength.TotalIsHeaderPlusBody | Tema_3/helpers.c:109 | what is waited for is the header and that many bytes; a negative length is subtracted, wrapping around in size_t below 0 |

## Left out

- Numbers: values that are fractions, negative zero or integers beyond 2^53 are `Foreign`, those outside the range of a double included, which the code refuses by errno; the printing of other doubles is not modelled, and the epsilon of number equality is equality on integers. strtod is that of C11 in the C locale.
- Allocation failure, freeing, ownership errors and parent pointers in parson.c, and NULL arguments other than the NULL object of a dotted read.
- JsonReader.Cursor.Value: the object under construction is a container in the heap, but a finished value is a tree by value, so sharing of subtrees is not captured; ObjectTree models nesting in the heap for dotted reads and writes only.
- DotPath.SetThenGet: states values; that the very object passed in becomes part of the tree is `ObjectTree.Node.DotSet`, whose precondition is that the value is not part of the tree already.
- JsonEquality.DeepCopy: copies are values, so that the copy shares no memory with the original is not stated.
- JsonWriter.SerializeToString: text of 2^31 bytes or more, where int overflows, is excluded.
- Utf8.IsValidUtf8: a length that cuts a sequence, where the code reads past it, is excluded.
- Arrays of parson as containers (json_array_add, replace, remove), dotted removal, and the typed getters and setters, which would add easier members of the same kind.
- ObjectTree.Node.DotSet: the entries of a nested object are a sequence; that parallel arrays with growth hold such a list is `JsonObjects.JsonObject`, whose contracts use the same functions of `ObjectMembers`.
- JsonComments.RemoveComments: only the two token pairs json_parse_string_with_comments passes.
- PubSubRuns.RunDelivers: send is taken to deliver whole messages in order to the peer of the descriptor; abrupt closing, partial TCP reads, and failures of send are not modelled.
- The server's text splitting (strtok, fixed-size fields, the id read at connection, line ends kept in an unsubscribed topic), stdin, select, and printing: events carry the keys as the maps see them. The byte behind a record's SF, which strcmp reads, is taken as zero padding.
- Checksum.IcmpChecksum: odd lengths, where the code reads one byte past the data, are excluded.
- Router.HandleIp: the routing table is a parameter, as is the address of the interface; ARP, the waiting queue, link-layer addresses and options behind the 20-byte header are not modelled.
- Router.BuildIcmp: the Ethernet header and the sending of the packet.
- HttpFraming.Receive: read errors, streams of 2^31 bytes or more, and reads that end inside or right behind the number of the length field, where strtol reads past the buffer.
- Command loops, requests, cookies, and file and socket handling of the three programs.
