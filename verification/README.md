# Livox driver and RapidJSON: a verified model

The Livox ROS driver reads packets from lidars, buffers their points, hands frames through a lock-free ring to a
polling consumer, and configures itself with a vendored copy of RapidJSON. This project models both parts in Dafny and
proves what they are for.

**JSON.** `Bytes`, `Events` and `Scanning` fix code units, handler events and the lexical level. `Reading` gives the two
parsers of the reader as functions of the text: recursive descent, and the table-driven automaton with its stack.
`ReaderEquivalence` proves them equal for every text and every choice of flags, with the one family of texts where their
error codes differ; `ReaderMirror` says what the stack means; `ReaderCalls` covers event-by-event parsing; `Reader` is
the reader as an object with a cursor, a stack and a handler. `Numbers` settles integers and exponents, `Encodings`
UTF-8 and UTF-16, `DecodedStrings` which strings are decoded to well-formed UTF-8. `Characters`, `StringGrammar`,
`Lexemes` and `JsonGrammar` tell the grammar of the texts (RFC 8259 and what the flags add) without the reader;
`ReaderSound`, `ReaderComplete` and `ReaderGrammar` prove that it reads exactly these, and `Refusals` where and why
others are refused. `Document` is the DOM and the handlers that rebuild it on a stack, `Writing` and `Writer` the plain
and the pretty writer with a level stack and an optional ASCII target, and `Layouts` what their output looks like.
`RoundTrip` and `EventRuns` close the circle: what is written is read back, for values and for arbitrary sequences of
handler calls. `Schemas`, `SchemaVerdict`, `SchemaValidator`, `SchemaProperties` and `SchemaMeaning` treat the streaming
schema validator; `Pointer`, `PointerParser`, `PointerGrammar` and `PointerTree` JSON Pointer (RFC 6901); `MemoryPool`
the pool allocator; `FileReadStreams` the buffered file stream.

**Point clouds.** `Publishing` turns raw packets into frames, and `PublishTiming` tells when, from the inputs alone;
`CacheIndexes` maps lidar handles to slots; `Ring` is the ring queue; `PointCloudProtocol` interleaves the producer and
the polling consumer step by step, with sequentially consistent steps and a slot that is torn while it is written.

Classes carry the fields their C++ counterparts update in place, and each method is proved against a function of the
same name or purpose on values; the theorems are about those functions. Where the code and its documentation differ the
code is followed:

- The parsers report different error codes for a root that starts with a delimiter (`ReaderEquivalence.CodesDiffer`,
  `ReaderEquivalence.ParsersAgree`).
- `IterativeParseNext` goes on after a broken comment, and only then may it answer true despite an error
  (`ReaderCalls.CommentErrorUnnoticed`); `ReaderCalls.UnnoticedErrors` says for which texts.
- An escaped lone low surrogate is accepted (`DecodedStrings.LoneTrailAccepted`), so a decoded string need not be
  well-formed UTF-8; `DecodedStrings.DecodedIsUTF8` says of which texts it is.
- The index of a pointer token can wrap around unnoticed (`Pointer.OverflowUnnoticed`); `Pointer.LargeIndex` says
  for which names.
- A required property is not missed if its schema has a default text (`SchemaProperties.DefaultHidesMissing`,
  `SchemaProperties.Compile`).
- Blocks in a misaligned user buffer are misaligned (`MemoryPool.MisalignedBlock`), all others are aligned
  (`MemoryPool.LiveBlock`). A request gets such a block exactly if that buffer is the only chunk and has room for it
  (`MemoryPool.MemoryPoolAllocator.Malloc`).

## Model

| member | source | states |
|---|---|---|
| ReaderEquivalence.ParsersAgree | src/livox_ros_driver2/3rdparty/rapidjson/reader.h:614-647 | For every text and every flags the automaton and the recursive parser end alike: same verdict, events, counts, position and error; they differ exactly when the root starts with a delimiter, and then only in the code, ValueInvalid against DocumentEmpty, at the same offset |
| ReaderEquivalence.CodesDiffer | src/livox_ros_driver2/3rdparty/rapidjson/reader.h:1664-1664 | For the text ] the recursive parser reports ValueInvalid and the automaton DocumentEmpty |
| ReaderEquivalence.RunValue | src/livox_ros_driver2/3rdparty/rapidjson/reader.h:1872-1896 | Where a value is expected, the automaton from that state equals parsing the value recursively and resuming in the state after it |
| ReaderEquivalence.RunObject | src/livox_ros_driver2/3rdparty/rapidjson/reader.h:798-865 | The automaton inside an object equals the recursive object parser, with the saved state and count restored at the end |
| ReaderEquivalence.RunMembers | src/livox_ros_driver2/3rdparty/rapidjson/reader.h:814-864 | The same from the n-th member on, the count in the frame being that of the members before it |
| ReaderEquivalence.RunMemberValue | src/livox_ros_driver2/3rdparty/rapidjson/reader.h:821-831 | The same from the colon of a member on |
| ReaderEquivalence.RunMemberEnd | src/livox_ros_driver2/3rdparty/rapidjson/reader.h:833-863 | The same after a member value |
| ReaderEquivalence.RunNextMember | src/livox_ros_driver2/3rdparty/rapidjson/reader.h:840-863 | The same after the comma of a member, trailing commas included |
| ReaderEquivalence.RunArray | src/livox_ros_driver2/3rdparty/rapidjson/reader.h:869-913 | The automaton inside an array equals the recursive array parser |
| ReaderEquivalence.RunElements | src/livox_ros_driver2/3rdparty/rapidjson/reader.h:885-912 | The same from the n-th element on |
| ReaderEquivalence.RunElementEnd | src/livox_ros_driver2/3rdparty/rapidjson/reader.h:889-911 | The same after an element |
| ReaderEquivalence.RunNextElement | src/livox_ros_driver2/3rdparty/rapidjson/reader.h:892-911 | The same after the comma of an element, trailing commas included |
| ReaderEquivalence.DelimiterIsNoValue | src/livox_ros_driver2/3rdparty/rapidjson/reader.h:1871-1896 | A delimiter where a value is expected is ValueInvalid for the recursive parser, without events |
| ReaderEquivalence.HaltsAtEnd | src/livox_ros_driver2/3rdparty/rapidjson/reader.h:2012-2186 | At the end of the text no transition is possible from any state |
| ReaderMirror.NextKeepsMirror | src/livox_ros_driver2/3rdparty/rapidjson/reader.h:2192-2350 | Every transition keeps the stack a mirror of the containers the delivered events have left open: one frame each, with the state to return to and the count of completed items modulo 2^32 |
| ReaderMirror.RunMirrors | src/livox_ros_driver2/3rdparty/rapidjson/reader.h:2401-2433 | In a whole run the stack mirrors the containers left open after every round, and going on from there is parsing the text |
| ReaderMirror.TransitEmits | src/livox_ros_driver2/3rdparty/rapidjson/reader.h:2192-2350 | A transition to a delimiter delivers no event, every other successful one exactly one, a failing one none |
| ReaderMirror.CloseKeepsMirror | src/livox_ros_driver2/3rdparty/rapidjson/reader.h:2269-2327 | Closing a container restores the state of the enclosing one and counts the closed one there |
| ReaderCalls.OneEventPerCall | src/livox_ros_driver2/3rdparty/rapidjson/reader.h:676-728 | With every flag: a call that answers true before the root is complete has delivered exactly one event, one that answers false at most one |
| ReaderCalls.CallsFollowParse | src/livox_ros_driver2/3rdparty/rapidjson/reader.h:676-728 | A call that flags no error and answers true leaves the whole parse exactly where the call stands; if it flags an error or answers false the whole parse fails |
| ReaderCalls.CommentErrorUnnoticed | src/livox_ros_driver2/3rdparty/rapidjson/reader.h:676-694 | With comments on, [/] fails as a whole but two calls deliver an empty array and answer true: the call does not look at an error raised while skipping |
| ReaderCalls.ErrorsNoticed | src/livox_ros_driver2/3rdparty/rapidjson/reader.h:676-728 | Without comments no call trips an assertion, and each answers true exactly if it has met no error |
| ReaderCalls.ErrorsUnnoticedWithComments | src/livox_ros_driver2/3rdparty/rapidjson/reader.h:676-728 | Some call answers true despite an error if and only if the reader skips comments |
| ReaderCalls.UnnoticedErrors | src/livox_ros_driver2/3rdparty/rapidjson/reader.h:676-728 | For every text, state and flags: a call answers true despite an error exactly if a comment is broken where only a bracket or a delimiter is looked at next, or behind the root at the end of the text, at once or behind the one delimiter a call may pass |
| ReaderCalls.FlaggedMoves | src/livox_ros_driver2/3rdparty/rapidjson/reader.h:2192-2350 | With an error flagged a transition moves on exactly to a delimiter, into a container, or out of one where that is allowed, and then by one unit |
| ReaderCalls.CallEmits | src/livox_ros_driver2/3rdparty/rapidjson/reader.h:676-728 | With an error flagged before or not, a transition of a call delivers one event if it moves on to anything but a delimiter, and at most one if it stops |
| ReaderCalls.FlaggedEmits | src/livox_ros_driver2/3rdparty/rapidjson/reader.h:1040-1048 | A literal or a number met with an error flagged is delivered all the same, a string or a name is not |
| ReaderCalls.FlagStays | src/livox_ros_driver2/3rdparty/rapidjson/reader.h:106-110 | Once flagged, an error stays flagged to the end of the call |
| Reader.GenericReader.SkipWhitespace | src/livox_ros_driver2/3rdparty/rapidjson/reader.h:289-296 | Skips exactly the leading blanks |
| Reader.GenericReader.SkipWhitespaceAndComments | src/livox_ros_driver2/3rdparty/rapidjson/reader.h:770-794 | The loop over blanks, block and line comments computes the specification of skipping, including the error for a broken comment; the new cursor, events and error are those of the specification |
| Reader.GenericReader.SkipComment | src/livox_ros_driver2/3rdparty/rapidjson/reader.h:774-791 | One comment and the blanks after it; the new cursor, events and error are those of the specification |
| Reader.GenericReader.SkipBlockComment | src/livox_ros_driver2/3rdparty/rapidjson/reader.h:776-784 | The loop to the end of a block comment; the new cursor, events and error are those of the specification |
| Reader.GenericReader.SkipLineComment | src/livox_ros_driver2/3rdparty/rapidjson/reader.h:785-787 | The loop to the end of a line comment; the new cursor, events and error are those of the specification |
| Reader.GenericReader.ParseLiteral | src/livox_ros_driver2/3rdparty/rapidjson/reader.h:916-952 | The remaining letters of null, true and false in order, or ValueInvalid where they break off; the new cursor, events and error are those of the specification |
| Reader.GenericReader.ParseHex4 | src/livox_ros_driver2/3rdparty/rapidjson/reader.h:967-987 | Four hexadecimal digits of either case, or an error at the escape; the new cursor, events and error are those of the specification |
| Reader.GenericReader.ParseUnicode | src/livox_ros_driver2/3rdparty/rapidjson/reader.h:1089-1106 | A \u escape or surrogate pair as a code point; a lone low surrogate passes, a high one without low is an error; the new cursor, events and error are those of the specification |
| Reader.GenericReader.ParseStringToStream | src/livox_ros_driver2/3rdparty/rapidjson/reader.h:1058-1129 | The unit-by-unit loop over a string computes the specification of scanning, escapes and error offsets included; the new cursor, events and error are those of the specification |
| Reader.GenericReader.ParseString | src/livox_ros_driver2/3rdparty/rapidjson/reader.h:1021-1052 | A whole string as one string or name event; the new cursor, events and error are those of the specification |
| Reader.GenericReader.ScanDigits | src/livox_ros_driver2/3rdparty/rapidjson/reader.h:1612-1635 | The digit loop of one width stops before an overflow; the new cursor, events and error are those of the specification |
| Reader.GenericReader.ScanInt | src/livox_ros_driver2/3rdparty/rapidjson/reader.h:1601-1708 | Integer part: 32 bits, then 64, then double; the new cursor, events and error are those of the specification |
| Reader.GenericReader.ScanFraction | src/livox_ros_driver2/3rdparty/rapidjson/reader.h:1710-1752 | Fraction digits with the exponent they imply; the new cursor, events and error are those of the specification |
| Reader.GenericReader.ScanExponent | src/livox_ros_driver2/3rdparty/rapidjson/reader.h:1754-1801 | The exponent loops, including the skipped tail of a huge negative exponent; the new cursor, events and error are those of the specification |
| Reader.GenericReader.ParseNumber | src/livox_ros_driver2/3rdparty/rapidjson/reader.h:1584-1868 | A number as one event of its type; the new cursor, events and error are those of the specification |
| Reader.GenericReader.ParseValue | src/livox_ros_driver2/3rdparty/rapidjson/reader.h:1872-1896 | Dispatch on the first unit; the new cursor, events and error are those of the specification |
| Reader.GenericReader.ParseObject | src/livox_ros_driver2/3rdparty/rapidjson/reader.h:798-865 | The member loop with its count; the new cursor, events and error are those of the specification |
| Reader.GenericReader.MemberEnd | src/livox_ros_driver2/3rdparty/rapidjson/reader.h:833-863 | Comma, end of object or error after a member; the new cursor, events and error are those of the specification |
| Reader.GenericReader.ParseMemberValue | src/livox_ros_driver2/3rdparty/rapidjson/reader.h:821-831 | The colon and the value of a member; the new cursor, events and error are those of the specification |
| Reader.GenericReader.ParseArray | src/livox_ros_driver2/3rdparty/rapidjson/reader.h:869-913 | The element loop with its count; the new cursor, events and error are those of the specification |
| Reader.GenericReader.Parse | src/livox_ros_driver2/3rdparty/rapidjson/reader.h:614-647 | A whole text by recursive descent; the new cursor, events and error are those of the specification |
| Reader.GenericReader.Transit | src/livox_ros_driver2/3rdparty/rapidjson/reader.h:2192-2350 | One transition on the real stack, cursor and handler; the new cursor, events and error are those of the specification |
| Reader.GenericReader.Open | src/livox_ros_driver2/3rdparty/rapidjson/reader.h:2202-2230 | Opening a container saves where to go on; the new cursor, events and error are those of the specification |
| Reader.GenericReader.Close | src/livox_ros_driver2/3rdparty/rapidjson/reader.h:2269-2327 | Closing a container pops its frame and delivers its count; the new cursor, events and error are those of the specification |
| Reader.GenericReader.HandleError | src/livox_ros_driver2/3rdparty/rapidjson/reader.h:2353-2389 | The error of the state that could not go on, unless one is set; the new cursor, events and error are those of the specification |
| Reader.GenericReader.IterativeParse | src/livox_ros_driver2/3rdparty/rapidjson/reader.h:2401-2433 | A whole text by the automaton; the new cursor, events and error are those of the specification |
| Reader.GenericReader.Advance | src/livox_ros_driver2/3rdparty/rapidjson/reader.h:680-690 | One transition of a call with its error handling, with or without an error raised before |
| Reader.GenericReader.EndRoot | src/livox_ros_driver2/3rdparty/rapidjson/reader.h:692-709 | After the root: only blanks may follow unless parsing stops there |
| Reader.GenericReader.IterativeParseNext | src/livox_ros_driver2/3rdparty/rapidjson/reader.h:676-728 | One call, whether or not an error has been raised before: the outcome of NextCall, the stack mirrors the open containers, and without comments true is answered exactly if there is no error |
| DecodedStrings.DecodedIsUTF8 | src/livox_ros_driver2/3rdparty/rapidjson/reader.h:1058-1129 | A decoded string is well-formed UTF-8 if and only if every stretch of plain units between its escapes is, and none of its \u escapes is a lone trail surrogate |
| DecodedStrings.DeliveredIsUTF8 | src/livox_ros_driver2/3rdparty/rapidjson/reader.h:1021-1052 | In a well-formed text, what is delivered for a string or a name is well-formed if and only if no escape of it is a lone trail surrogate |
| DecodedStrings.LoneTrailAccepted | src/livox_ros_driver2/3rdparty/rapidjson/reader.h:1089-1106 | The document "\uDC00" is accepted and delivered as ED B0 80, which is not well-formed UTF-8 |
| DecodedStrings.DecodeAllParts | src/livox_ros_driver2/3rdparty/rapidjson/encodings.h:148-211 | Two texts of which the second begins with no continuation unit are well-formed together exactly if both are |
| DecodedStrings.EncodedFirst | src/livox_ros_driver2/3rdparty/rapidjson/encodings.h:108-125 | A code point encoded in front of a text leaves it well-formed exactly if it is no surrogate |
| Numbers.ScanDigitsExact | src/livox_ros_driver2/3rdparty/rapidjson/reader.h:1612-1635 | The digit loop of a width holds the exact value of all digits read and stops exactly where one more would leave the width |
| Numbers.ScanIntExact | src/livox_ros_driver2/3rdparty/rapidjson/reader.h:1601-1708 | The integer part is 32-bit, 64-bit or double exactly according to its value, and the first two are exact |
| Numbers.IntegerLiteral | src/livox_ros_driver2/3rdparty/rapidjson/reader.h:1601-1701 | Every integer literal is reported exactly, by the 32-bit event of its sign if it fits, else the 64-bit one, and as a double exactly outside [-2^63, 2^64-1] |
| Numbers.ExponentFits | src/livox_ros_driver2/3rdparty/rapidjson/reader.h:1710-1801 | With fewer than 200,000,000 fraction digits no intermediate or final exponent nor its sum with the fraction leaves 32 bits, and an accepted non-negative one sums to at most 308 |
| Numbers.ExponentFitsFraction | src/livox_ros_driver2/3rdparty/rapidjson/reader.h:1754-1801 | The same for the exponent part alone |
| Numbers.PositiveExponentResult | src/livox_ros_driver2/3rdparty/rapidjson/reader.h:1789-1796 | An accepted positive exponent sums with the fraction to at most 308 |
| Numbers.NegativeExponentStays | src/livox_ros_driver2/3rdparty/rapidjson/reader.h:1770-1788 | The loop after a minus never leaves 32 bits however many digits follow |
| Encodings.DecodeAcceptsExactlyUTF8 | src/livox_ros_driver2/3rdparty/rapidjson/encodings.h:148-211 | UTF-8 decoding accepts exactly the productions of section 4 of RFC 3629 and returns the scalar value whose encoding was read |
| Encodings.EncodeIsChar | src/livox_ros_driver2/3rdparty/rapidjson/encodings.h:108-125 | The encoding of every scalar value is one production, and decoding gives the value back |
| Encodings.DecodeEncode | src/livox_ros_driver2/3rdparty/rapidjson/encodings.h:108-211 | Decoding inverts encoding anywhere in a text |
| Encodings.CharIsEncoding | src/livox_ros_driver2/3rdparty/rapidjson/encodings.h:148-211 | Every production is the encoding of one scalar value, the one decoding returns |
| Encodings.DecodeAllEncodeAll | src/livox_ros_driver2/3rdparty/rapidjson/encodings.h:108-211 | Decoding the concatenated encodings of any scalar sequence returns that sequence |
| Encodings.EncodeAllDecodeAll | src/livox_ros_driver2/3rdparty/rapidjson/encodings.h:108-211 | Encoding what was decoded from a whole text returns the text |
| Encodings.AcceptedInside | src/livox_ros_driver2/3rdparty/rapidjson/encodings.h:148-211 | A sequence that is accepted lies inside the text: reading past the end yields a NUL no mask accepts |
| Encodings.Decode16Inverse | src/livox_ros_driver2/3rdparty/rapidjson/encodings.h:355-402 | UTF-16 decoding inverts encoding, surrogate pairs included |
| Encodings.Decode16AcceptsEncodings | src/livox_ros_driver2/3rdparty/rapidjson/encodings.h:388-402 | UTF-16 decoding accepts exactly the encodings of scalar values |
| Encodings.EncodeTo | src/livox_ros_driver2/3rdparty/rapidjson/encodings.h:108-125 | The encoder appends exactly the encoding to the stream |
| Encodings.DecodeFrom | src/livox_ros_driver2/3rdparty/rapidjson/encodings.h:148-211 | The decoder on a stream takes and returns what the specification says |
| Encodings.Validate | src/livox_ros_driver2/3rdparty/rapidjson/encodings.h:214-266 | Validating copies the units it takes and answers as decoding does |
| Document.ConstructorsAgree | src/livox_ros_driver2/3rdparty/rapidjson/document.h:858-900 | A number has the same value and type flags whichever integer event reported it |
| Document.Rebuilds | src/livox_ros_driver2/3rdparty/rapidjson/document.h:2926-3000 | The events of a value, as visited or as read, push exactly that value onto any stack |
| Document.RebuildsItems | src/livox_ros_driver2/3rdparty/rapidjson/document.h:2990-3000 | The events of items push the items, and only them |
| Document.RebuildsMembers | src/livox_ros_driver2/3rdparty/rapidjson/document.h:2973-2988 | The events of members push names and values alternately |
| Document.GenericDocument.OnEvent | src/livox_ros_driver2/3rdparty/rapidjson/document.h:2926-3000 | Each handler does to the stack what the specification says |
| Document.GenericDocument.EndObject | src/livox_ros_driver2/3rdparty/rapidjson/document.h:2982-2988 | Pops the members of the innermost object only |
| Document.GenericDocument.EndArray | src/livox_ros_driver2/3rdparty/rapidjson/document.h:2995-3000 | Pops the elements of the innermost array only |
| Document.GenericDocument.Populate | src/livox_ros_driver2/3rdparty/rapidjson/document.h:2286-2331 | Populating with the events of a value leaves exactly that value |
| Writing.WritesValue | src/livox_ros_driver2/3rdparty/rapidjson/document.h:2286-2331 | Writing the events of a value appends the prefix of its place and its text, and counts it in its level |
| Writing.WritesArray | src/livox_ros_driver2/3rdparty/rapidjson/writer.h:283-296 | An array: brackets around the items with their prefixes, level pushed and popped |
| Writing.WritesObject | src/livox_ros_driver2/3rdparty/rapidjson/writer.h:255-281 | An object: braces around names and values with their prefixes |
| Writing.WritesItems | src/livox_ros_driver2/3rdparty/rapidjson/writer.h:560-579 | Items inside an array, from any count on |
| Writing.WritesMembers | src/livox_ros_driver2/3rdparty/rapidjson/writer.h:560-579 | Members inside an object, from any count on |
| Writing.WriteConcat | src/livox_ros_driver2/3rdparty/rapidjson/writer.h:200-296 | Calls in two parts: the second continues from the first unless that stopped |
| Writing.SequenceBody | src/livox_ros_driver2/3rdparty/rapidjson/writer.h:467-496 | With an ASCII target a UTF-8 sequence becomes the escapes of its code point, a malformed one ends the writing |
| Writer.GenericWriter.WriteString | src/livox_ros_driver2/3rdparty/rapidjson/writer.h:437-520 | The loop over a string appends its escaped text, or answers false at the first malformed sequence of an ASCII target |
| Writer.GenericWriter.WritePiece | src/livox_ros_driver2/3rdparty/rapidjson/writer.h:465-517 | One turn of that loop |
| Writer.GenericWriter.CompactPrefix | src/livox_ros_driver2/3rdparty/rapidjson/writer.h:560-579 | Separator and count of the plain writer |
| Writer.GenericWriter.Scalar | src/livox_ros_driver2/3rdparty/rapidjson/writer.h:200-253 | A scalar or a name: prefix and text |
| Writer.GenericWriter.StartContainer | src/livox_ros_driver2/3rdparty/rapidjson/writer.h:255-288 | Opening: prefix, level and bracket |
| Writer.GenericWriter.EndContainer | src/livox_ros_driver2/3rdparty/rapidjson/writer.h:271-296 | Closing: level popped, layout and bracket |
| Writer.GenericWriter.Call | src/livox_ros_driver2/3rdparty/rapidjson/writer.h:200-296 | Every handler call leaves the output, the levels and the root mark of the specification |
| Writer.GenericWriter.PrettyPrefix | src/livox_ros_driver2/3rdparty/rapidjson/prettywriter.h:263-300 | Separator, line break, indentation and count of the pretty writer |
| Writer.GenericWriter.ArrayPrefix | src/livox_ros_driver2/3rdparty/rapidjson/prettywriter.h:268-280 | The same inside an array, in either array format |
| Writer.GenericWriter.ObjectPrefix | src/livox_ros_driver2/3rdparty/rapidjson/prettywriter.h:281-294 | The same inside an object |
| Writer.GenericWriter.WriteIndent | src/livox_ros_driver2/3rdparty/rapidjson/prettywriter.h:306-311 | The indent character once per level and width |
| Writer.GenericWriter.Accept | src/livox_ros_driver2/3rdparty/rapidjson/document.h:2286-2331 | Visiting a value makes exactly the calls of its events, up to the first that fails |
| Writer.GenericWriter.AcceptArray | src/livox_ros_driver2/3rdparty/rapidjson/document.h:2308-2312 | The loop over elements |
| Writer.GenericWriter.AcceptObject | src/livox_ros_driver2/3rdparty/rapidjson/document.h:2294-2306 | The loop over members |
| RoundTrip.DocumentRoundTrip | src/livox_ros_driver2/3rdparty/rapidjson/document.h:2286-2331 | Visiting any double-free value with any writer, parsing the text with either parser and any flags, and handling the events leaves exactly that value on the stack |
| RoundTrip.ParsesBack | src/livox_ros_driver2/3rdparty/rapidjson/reader.h:614-647 | Both parsers read the text of a value, in any layout and target encoding, as the events of that value and end where the text ends |
| RoundTrip.AcceptWrites | src/livox_ros_driver2/3rdparty/rapidjson/document.h:2286-2331 | Visiting a value writes its text and completes the root |
| RoundTrip.ReadsValue | src/livox_ros_driver2/3rdparty/rapidjson/reader.h:1872-1896 | The text of a value is read back wherever it stands and whatever follows that cannot prolong a number |
| RoundTrip.ReadsString | src/livox_ros_driver2/3rdparty/rapidjson/reader.h:1021-1129 | The text of any byte string is read back as that string, embedded NULs included |
| RoundTrip.ReadsCodePoint | src/livox_ros_driver2/3rdparty/rapidjson/reader.h:1089-1106 | The escape of a code point, alone or as a surrogate pair (section 2 of RFC 2781), is read back as it |
| RoundTrip.ReadsNumber | src/livox_ros_driver2/3rdparty/rapidjson/reader.h:1584-1868 | The decimal text of an integer is read back as that integer |
| RoundTrip.WritesOnlyASCII | src/livox_ros_driver2/3rdparty/rapidjson/writer.h:463-519 | With an ASCII target every unit written for a string is ASCII |
| RoundTrip.WritableIsUTF8 | src/livox_ros_driver2/3rdparty/rapidjson/writer.h:465-472 | An ASCII target can write exactly the well-formed UTF-8 strings |
| EventRuns.CompleteRunIsValue | src/livox_ros_driver2/3rdparty/rapidjson/writer.h:200-296 | Any calls that complete a document write the text of exactly one value, whose events are the calls in normal form, if every container has fewer than 2^32 items |
| EventRuns.CompleteRunReadsBack | src/livox_ros_driver2/3rdparty/rapidjson/writer.h:200-296 | Both parsers read the output of any complete run whose containers have fewer than 2^32 items as exactly its calls in normal form |
| EventRuns.PrettyReadsAsCompact | src/livox_ros_driver2/3rdparty/rapidjson/prettywriter.h:114-311 | For the same calls the pretty output, with any blank indent, width and array format, is complete too and read as the same events as the plain output, for containers of fewer than 2^32 items |
| EventRuns.LayoutOnlyChangesText | src/livox_ros_driver2/3rdparty/rapidjson/prettywriter.h:114-311 | Which calls are accepted, and their normal form, do not depend on the layout |
| EventRuns.NormalizeWritesSame | src/livox_ros_driver2/3rdparty/rapidjson/writer.h:200-296 | A writer cannot tell calls from their normal form: number types, given counts and strings used as names |
| SchemaVerdict.VerdictIsMeaning | src/livox_ros_driver2/3rdparty/rapidjson/schema.h:2247-2342 | A new validator given all events of a value is valid exactly if the value conforms to the schema |
| SchemaVerdict.FeedsValue | src/livox_ros_driver2/3rdparty/rapidjson/schema.h:2247-2342 | Inside any run: accepted exactly if the value conforms to the expected schema; then the validator is back where it was, and the validators beside enclosing values have seen the same events |
| SchemaVerdict.FeedsArray | src/livox_ros_driver2/3rdparty/rapidjson/schema.h:1070-1096 | The same for an array |
| SchemaVerdict.FeedsItems | src/livox_ros_driver2/3rdparty/rapidjson/schema.h:744-767 | The remaining items, each against the schema of its index |
| SchemaVerdict.FeedsObject | src/livox_ros_driver2/3rdparty/rapidjson/schema.h:937-1068 | The same for an object |
| SchemaVerdict.FeedsMembers | src/livox_ros_driver2/3rdparty/rapidjson/schema.h:962-1016 | The remaining members, each against the schema of its name, and the properties seen |
| SchemaVerdict.ParallelVerdicts | src/livox_ros_driver2/3rdparty/rapidjson/schema.h:1301-1339 | The validators created beside a value reach the meaning of their schemas, though each stops at its first failure |
| SchemaVerdict.EndValueMeaning | src/livox_ros_driver2/3rdparty/rapidjson/schema.h:814-854 | The verdicts of the parallel validators combine to what allOf, anyOf, oneOf and not mean |
| SchemaVerdict.AdmitsFirst | src/livox_ros_driver2/3rdparty/rapidjson/schema.h:857-935 | The check of the first event is the check of the value, whichever integer type reports a number |
| SchemaVerdict.FailedStays | src/livox_ros_driver2/3rdparty/rapidjson/schema.h:2247-2248 | A validator that has failed ignores everything after |
| SchemaVerdict.FeedsEnd | src/livox_ros_driver2/3rdparty/rapidjson/schema.h:2322-2342 | The end of a container is accepted exactly if its sizes, required properties and parallel validators allow it |
| SchemaVerdict.SeenIsRequired | src/livox_ros_driver2/3rdparty/rapidjson/schema.h:1018-1027 | The properties marked while streaming are those that members of the whole object have |
| SchemaValidator.GenericSchemaValidator.Parallel | src/livox_ros_driver2/3rdparty/rapidjson/schema.h:2254-2269 | An event goes to every parallel validator of every open value |
| SchemaValidator.GenericSchemaValidator.FeedAllOf | src/livox_ros_driver2/3rdparty/rapidjson/schema.h:2254-2269 | Each parallel validator of a value is called with the event, which ends since their schemas are smaller |
| SchemaValidator.GenericSchemaValidator.BeginValue | src/livox_ros_driver2/3rdparty/rapidjson/schema.h:2430-2464 | The coming value is counted, gets its schema or is disallowed, and its context is pushed |
| SchemaValidator.GenericSchemaValidator.EndValue | src/livox_ros_driver2/3rdparty/rapidjson/schema.h:814-854 | The loops over the parallel validators compute the combined verdict |
| SchemaValidator.GenericSchemaValidator.CountOne | src/livox_ros_driver2/3rdparty/rapidjson/schema.h:831-847 | Exactly one valid, stopping at the second |
| SchemaValidator.GenericSchemaValidator.Open | src/livox_ros_driver2/3rdparty/rapidjson/schema.h:2247-2252 | Context pushed, event checked, parallel validators created |
| SchemaValidator.GenericSchemaValidator.Proceed | src/livox_ros_driver2/3rdparty/rapidjson/schema.h:2254-2277 | Event passed on; a value of one event ends |
| SchemaValidator.GenericSchemaValidator.Close | src/livox_ros_driver2/3rdparty/rapidjson/schema.h:2466-2505 | The value ends and its context goes, or all validation stops |
| SchemaValidator.GenericSchemaValidator.Begin | src/livox_ros_driver2/3rdparty/rapidjson/schema.h:2279-2334 | First event of a value: the new state is that of the specification |
| SchemaValidator.GenericSchemaValidator.Key | src/livox_ros_driver2/3rdparty/rapidjson/schema.h:2313-2320 | A name: the new state is that of the specification |
| SchemaValidator.GenericSchemaValidator.End | src/livox_ros_driver2/3rdparty/rapidjson/schema.h:2322-2342 | End of a container: the new state is that of the specification |
| SchemaValidator.GenericSchemaValidator.FindPropertyIndex | src/livox_ros_driver2/3rdparty/rapidjson/schema.h:1342-1353 | The linear search returns the first property of that name, or their number |
| SchemaValidator.GenericSchemaValidator.Validate | src/livox_ros_driver2/3rdparty/rapidjson/schema.h:2247-2342 | Streaming the events of a value answers whether it conforms |
| SchemaProperties.Gather | src/livox_ros_driver2/3rdparty/rapidjson/schema.h:541-576 | The property table: each name declared or required once, with its last declared schema or the one that accepts everything, required exactly if listed |
| SchemaProperties.AddUnique | src/livox_ros_driver2/3rdparty/rapidjson/schema.h:1185-1190 | A name is added only if it is not there |
| SchemaProperties.Compile | src/livox_ros_driver2/3rdparty/rapidjson/schema.h:541-640 | A schema that takes its properties from the two keywords accepts an object exactly if members with a declared or required name conform to the declaration, others are allowed as additional ones, no required name is missing but those with a default text, and the other keywords hold |
| SchemaProperties.GatheredMeaning | src/livox_ros_driver2/3rdparty/rapidjson/schema.h:937-1035 | The same for any schema whose properties have been gathered |
| SchemaProperties.RequiredNamesAreKnown | src/livox_ros_driver2/3rdparty/rapidjson/schema.h:541-576 | A declared or required name has the schema of its declaration, or one that accepts everything; other names are treated as additional |
| SchemaProperties.MissingMeansAbsent | src/livox_ros_driver2/3rdparty/rapidjson/schema.h:1018-1027 | A required property is missing exactly if no member has its name, and counts only without a default text |
| SchemaProperties.RequiredAsGathered | src/livox_ros_driver2/3rdparty/rapidjson/schema.h:1018-1027 | The check at the end of an object misses nothing and asks for nothing but the required names without a default text |
| SchemaProperties.TypelessAccepts | src/livox_ros_driver2/3rdparty/rapidjson/schema.h:455-500 | The schema without restrictions accepts every value |
| SchemaProperties.DefaultHidesMissing | src/livox_ros_driver2/3rdparty/rapidjson/schema.h:1018-1027 | The empty object lacks a required property and is rejected exactly if the schema of the property has no default text |
| Ring.PowerOf2Meaning | src/livox_ros_driver2/src/comm/ldq.h:35-37 | The bit test recognises exactly the powers of two |
| Ring.RoundupPowerOf2 | src/livox_ros_driver2/src/comm/ldq.h:39-49 | The smallest power of two that is enough, or 2^31 if none fits |
| Ring.MaskIsRemainder | src/livox_ros_driver2/src/comm/ldq.cpp:86-148 | Masking with one less than a power of two takes the remainder |
| Ring.SlotOfNumber | src/livox_ros_driver2/src/comm/ldq.cpp:86-148 | The slot of the n-th packet is n modulo the size across any wraparound of the 32-bit index |
| Ring.UsedIsCount | src/livox_ros_driver2/src/comm/ldq.cpp:120-130 | The wrapped difference of the indices is the number of packets in the queue |
| Ring.SlotsDistinct | src/livox_ros_driver2/src/comm/ldq.cpp:86-148 | Different packets in the queue have different slots |
| Ring.LidarDataQueue.InitQueue | src/livox_ros_driver2/src/comm/ldq.cpp:33-61 | An empty queue whose size is the smallest power of two that is enough, or 2^31 if none in 32 bits is |
| Ring.LidarDataQueue.ResetQueue | src/livox_ros_driver2/src/comm/ldq.cpp:81-84 | An empty queue with the same storage |
| Ring.LidarDataQueue.QueueIsEmpty | src/livox_ros_driver2/src/comm/ldq.cpp:132-134 | Answers whether the contents are empty |
| Ring.LidarDataQueue.QueueIsFull | src/livox_ros_driver2/src/comm/ldq.cpp:128-130 | Answers whether the contents fill the buffer |
| Ring.LidarDataQueue.QueueUsedSize | src/livox_ros_driver2/src/comm/ldq.cpp:120-122 | The length of the contents |
| Ring.LidarDataQueue.QueueUnusedSize | src/livox_ros_driver2/src/comm/ldq.cpp:124-126 | The room left |
| Ring.LidarDataQueue.QueuePrePop | src/livox_ros_driver2/src/comm/ldq.cpp:86-105 | A copy of the oldest packet, or false |
| Ring.LidarDataQueue.QueuePopUpdate | src/livox_ros_driver2/src/comm/ldq.cpp:107-109 | The oldest packet goes |
| Ring.LidarDataQueue.QueuePop | src/livox_ros_driver2/src/comm/ldq.cpp:111-118 | Returns and removes the oldest packet, or leaves an empty queue alone |
| Ring.LidarDataQueue.QueuePushAny | src/livox_ros_driver2/src/comm/ldq.cpp:136-148 | Appends the packet |
| PointCloudProtocol.NoLostWakeup | src/livox_ros_driver2/src/lds.cpp:170-196 | In every reachable state the count is 0 or 1, and while the consumer waits at 0 with a packet in the queue of a sampling lidar the producer is between its push and its signal test |
| PointCloudProtocol.TestSignals | src/livox_ros_driver2/src/lds.cpp:183-195 | From there the producer, the only one able to move, signals within three steps |
| PointCloudProtocol.RefinesFIFO | src/livox_ros_driver2/src/lds.cpp:178-195 | Every step of the threads is a step of a bounded FIFO on each queue; popped is a prefix of pushed; a packet is dropped only when the FIFO is full |
| PointCloudProtocol.IndicesCountContents | src/livox_ros_driver2/src/comm/ldq.cpp:120-134 | The wrapped difference of the running indices is the length of the FIFO, at most the size |
| PointCloudProtocol.CopiesAreSafe | src/livox_ros_driver2/src/comm/ldq.cpp:86-148 | The slot copied from is never the slot being written and never torn |
| PointCloudProtocol.DrainsBeforeLeaving | src/livox_ros_driver2/src/lddc.cpp:162-231 | The pop in the drain loops never finds the queue empty, and a queue is left only empty |
| PointCloudProtocol.AllDelivered | src/livox_ros_driver2/src/lddc.cpp:118-231 | If the producer pauses, the consumer comes to rest at a count of zero with every packet of every sampling lidar delivered in order |
| PointCloudProtocol.ConsumeProgress | src/livox_ros_driver2/src/lddc.cpp:118-231 | Each step of the consumer uses up a signal, removes a packet, moves to the next lidar or comes closer to that |
| PointCloudProtocol.StepKeeps | src/livox_ros_driver2/src/lds.cpp:170-196 | Every step of either thread keeps the invariant |
| PointCloudProtocol.RunKeeps | src/livox_ros_driver2/src/lds.cpp:170-196 | So every reachable state has it |
| PointCloudProtocol.ProduceKeeps | src/livox_ros_driver2/src/lds.cpp:170-196 | The producer, lazy initialisation included, keeps the invariant |
| PointCloudProtocol.ConsumeKeeps | src/livox_ros_driver2/src/lddc.cpp:118-177 | The consumer keeps the invariant |
| PointCloudProtocol.StoreKeeps | src/livox_ros_driver2/src/comm/ldq.cpp:136-146 | Writing the next slot disturbs no packet in the queue |
| PointCloudProtocol.PushKeeps | src/livox_ros_driver2/src/comm/ldq.cpp:136-148 | Advancing the write index appends the packet |
| PointCloudProtocol.PopKeeps | src/livox_ros_driver2/src/comm/ldq.cpp:107-109 | The slot at the read index holds the oldest packet, and advancing removes it |
| PointCloudProtocol.EmptyMeansNone | src/livox_ros_driver2/src/comm/ldq.cpp:132-134 | Equal indices mean no packet, also after wraparound |
| PointCloudProtocol.FullMeansAll | src/livox_ros_driver2/src/comm/ldq.cpp:128-130 | The full test means the buffer holds size packets |
| MemoryPool.AlignIsMask | src/livox_ros_driver2/3rdparty/rapidjson/allocators.h:208-220 | The rounding mask of the 64-bit size is rounding up to a multiple of 8 |
| MemoryPool.LiveBlock | src/livox_ros_driver2/3rdparty/rapidjson/allocators.h:208-220 | A live block lies inside the payload of one chunk, and it is 8-aligned exactly unless it lies in a misaligned user buffer |
| MemoryPool.AllAligned | src/livox_ros_driver2/3rdparty/rapidjson/allocators.h:208-220 | With no user buffer, or an aligned one, all live blocks are 8-aligned |
| MemoryPool.MisalignedBlock | src/livox_ros_driver2/3rdparty/rapidjson/allocators.h:153-168 | The first block of a user buffer at address 12 is aligned to 4 bytes only |
| MemoryPool.TopAligned | src/livox_ros_driver2/3rdparty/rapidjson/allocators.h:213-220 | The next place in the head chunk is aligned exactly unless a misaligned user buffer is the only chunk |
| MemoryPool.PlacedAligned | src/livox_ros_driver2/3rdparty/rapidjson/allocators.h:208-220 | A place in a chunk is 8-aligned exactly unless it is in a misaligned user buffer |
| MemoryPool.EndsAtTopIsLast | src/livox_ros_driver2/3rdparty/rapidjson/allocators.h:234-239 | A block that ends at the top of the head chunk is in the head chunk, even if chunks are adjacent |
| MemoryPool.AboveTopIsFree | src/livox_ros_driver2/3rdparty/rapidjson/allocators.h:236-245 | Room above the top of the head chunk meets no live block |
| MemoryPool.MemoryPoolAllocator.AddChunk | src/livox_ros_driver2/3rdparty/rapidjson/allocators.h:268-281 | The new chunk becomes the head, or nothing changes |
| MemoryPool.MemoryPoolAllocator.Malloc | src/livox_ros_driver2/3rdparty/rapidjson/allocators.h:208-220 | A block disjoint from all live blocks at the top of the head chunk, a new one exactly if there is no room; null exactly for size 0 or a failed chunk; misaligned exactly if it is cut from a user buffer that is the only chunk, has room and is misaligned |
| MemoryPool.MemoryPoolAllocator.Realloc | src/livox_ros_driver2/3rdparty/rapidjson/allocators.h:223-253 | Keeps, extends in place or moves a block; in place exactly if it is large enough or the last of the head chunk with room; contents preserved; other blocks untouched; the result aligned as the block was if it stays, else as a new block is |
| MemoryPool.MemoryPoolAllocator.Resize | src/livox_ros_driver2/3rdparty/rapidjson/allocators.h:228-253 | The same for a live block and a size above 0 |
| MemoryPool.MemoryPoolAllocator.Move | src/livox_ros_driver2/3rdparty/rapidjson/allocators.h:247-252 | Copies into a new block and leaves all other bytes alone |
| MemoryPool.MemoryPoolAllocator.ExtendLast | src/livox_ros_driver2/3rdparty/rapidjson/allocators.h:234-245 | Growing the last block meets no other block |
| MemoryPool.MemoryPoolAllocator.Clear | src/livox_ros_driver2/3rdparty/rapidjson/allocators.h:178-186 | Frees every chunk of the base allocator once and empties the user buffer |
| MemoryPool.MemoryPoolAllocator.FreeChunks | src/livox_ros_driver2/3rdparty/rapidjson/allocators.h:179-183 | The loop over the chunk list |
| Pointer.PointerRoundTrip | src/livox_ros_driver2/3rdparty/rapidjson/pointer.h:1013-1179 | Every pointer that parses, printed and parsed again, is the same: in the plain form always, in the fragment form exactly if all names are well-formed UTF-8, without which it cannot be printed |
| Pointer.PrintedParses | src/livox_ros_driver2/3rdparty/rapidjson/pointer.h:1013-1179 | Printing tokens with proper indices and parsing the text gives the tokens back, in either form |
| Pointer.ParsedCanonical | src/livox_ros_driver2/3rdparty/rapidjson/pointer.h:1100-1127 | The index of a parsed token is a function of its name |
| Pointer.IndexExact | src/livox_ros_driver2/3rdparty/rapidjson/pointer.h:1113-1126 | The index is the number the name denotes exactly if that number fits 32 bits |
| Pointer.LargeIndex | src/livox_ros_driver2/3rdparty/rapidjson/pointer.h:1116-1126 | A number of 2^32 or more is recognised as no index exactly if its running value modulo 2^32 falls at some digit, or ends at the invalid index by chance; else it is taken for the number modulo 2^32 |
| Pointer.FirstLargePrefix | src/livox_ros_driver2/3rdparty/rapidjson/pointer.h:1116-1123 | At the first digit where the number reaches 2^32 it is recognised exactly if the wrapped value is below a tenth of the true one, for names of any length |
| Pointer.TenDigitIndex | src/livox_ros_driver2/3rdparty/rapidjson/pointer.h:1116-1123 | Of the ten-digit numbers of 2^32 or more exactly those up to 4772185883 and those from 8589934591 up to 9544371767 are recognised as no index; the others are taken for a smaller index |
| Pointer.OverflowUnnoticed | src/livox_ros_driver2/3rdparty/rapidjson/pointer.h:1116-1123 | The name 10000000000 becomes the index 1410065408: the overflow test misses it |
| Pointer.TokensPrintable | src/livox_ros_driver2/3rdparty/rapidjson/pointer.h:1158-1176 | The fragment form prints exactly tokens whose names are well-formed UTF-8 |
| Pointer.ReadsSequence | src/livox_ros_driver2/3rdparty/rapidjson/pointer.h:1053-1075 | A UTF-8 sequence printed as percent triplets is read as it, whatever triplets follow |
| PointerParser.Parse | src/livox_ros_driver2/3rdparty/rapidjson/pointer.h:1013-1142 | The in-place parser with its one buffer, as long as the source and never overrun, computes the parse |
| PointerParser.ReadName | src/livox_ros_driver2/3rdparty/rapidjson/pointer.h:1050-1104 | One name into the buffer, never beyond the units consumed |
| PointerParser.ReadPiece | src/livox_ros_driver2/3rdparty/rapidjson/pointer.h:1051-1103 | One unit, escape or percent sequence |
| PointerParser.Validate | src/livox_ros_driver2/3rdparty/rapidjson/pointer.h:1054-1063 | Validating a percent sequence copies all units its lead announces, even after a broken triplet or a wrong unit, into exactly those places of the buffer, and accepts exactly the sequences of whole triplets that decode |
| PointerParser.CopiedFits | src/livox_ros_driver2/3rdparty/rapidjson/pointer.h:1054-1063 | All units validation copies fit the buffer, the zeros behind a broken triplet included |
| PointerParser.AcceptsRun | src/livox_ros_driver2/3rdparty/rapidjson/pointer.h:1054-1063 | The stream is valid and the units are well-formed exactly if the whole triplets that follow each other begin with a well-formed sequence, which is then what was copied |
| PointerParser.LeadAlone | src/livox_ros_driver2/3rdparty/rapidjson/pointer.h:1199-1222 | For #/%F0 four units are copied: F0 and three zeros |
| PointerParser.PercentDecodeStream.Take | src/livox_ros_driver2/3rdparty/rapidjson/pointer.h:1199-1222 | The unit of a triplet, or 0 where one is broken, with the cursor left there and the stream invalid for good |
| PointerParser.ReadIndex | src/livox_ros_driver2/3rdparty/rapidjson/pointer.h:1113-1124 | The 32-bit digit loop |
| PointerParser.MakeToken | src/livox_ros_driver2/3rdparty/rapidjson/pointer.h:1105-1127 | The token of a name in the buffer |
| PointerTree.GetAfterCreate | src/livox_ros_driver2/3rdparty/rapidjson/pointer.h:539-585 | After Create, Get reaches the created or found node if and only if no dash met an array |
| PointerTree.DivergingUnchanged | src/livox_ros_driver2/3rdparty/rapidjson/pointer.h:539-585 | Unless an array with elements has to become an object, every value a pointer reached on a path that parts from the created one is still reached and unchanged |
| PointerTree.LostElement | src/livox_ros_driver2/3rdparty/rapidjson/pointer.h:549-552 | Otherwise something is lost: the first element of that array can no longer be reached |
| PointerTree.CreateExisting | src/livox_ros_driver2/3rdparty/rapidjson/pointer.h:539-585 | Create reports an existing value exactly if Get finds one; then it is that node and the tree is unchanged |
| PointerTree.SelectsPrepared | src/livox_ros_driver2/3rdparty/rapidjson/pointer.h:622-640 | The child Create goes to is the one Get selects, unless it is a dash at an array |
| Publishing.Conservation | src/livox_ros_driver2/src/comm/pub_handler.cpp:164-255 | For up to 32 lidars, any arrival order, clock readings and switching of the sync flag: what was published for a lidar and what is still buffered are together, in order, what was decoded |
| Publishing.FramesWellTimed | src/livox_ros_driver2/src/comm/pub_handler.cpp:164-227 | Every published entry has points and carries the time of its first point |
| Publishing.TimerConserves | src/livox_ros_driver2/src/comm/pub_handler.cpp:164-227 | The timer check moves points from buffers to frames without losing, doubling or reordering any |
| Publishing.PacketAppends | src/livox_ros_driver2/src/comm/pub_handler.cpp:366-455 | A packet adds its points at the end for its own lidar only |
| Publishing.CollectedHasAll | src/livox_ros_driver2/src/comm/pub_handler.cpp:208-222 | Collecting takes every buffer exactly once |
| Publishing.PubHandler.CheckDeviceTime | src/livox_ros_driver2/src/comm/pub_handler.cpp:166-194 | Synchronised time: only the sender, only when due; one frame with its whole buffer |
| Publishing.PubHandler.CheckClock | src/livox_ros_driver2/src/comm/pub_handler.cpp:195-225 | By the clock: the first call only sets the time, a due one publishes all buffers |
| Publishing.PubHandler.CollectAll | src/livox_ros_driver2/src/comm/pub_handler.cpp:208-222 | The loop over all lidars never passes the 32 entries of a frame |
| Publishing.PubHandler.CheckTimer | src/livox_ros_driver2/src/comm/pub_handler.cpp:164-227 | The new state is that of the specification, and the frame is empty afterwards |
| Publishing.PubHandler.PointCloudProcess | src/livox_ros_driver2/src/comm/pub_handler.cpp:366-388 | The decode loop appends the points of a packet with their times |
| Publishing.PubHandler.ProcessPacket | src/livox_ros_driver2/src/comm/pub_handler.cpp:242-253 | One packet: buffer created if needed, points appended, timer checked |
| Publishing.PubHandler.RawDataProcess | src/livox_ros_driver2/src/comm/pub_handler.cpp:229-255 | The processing loop over any packets |
| Publishing.PubHandler.PublishPointCloud | src/livox_ros_driver2/src/comm/pub_handler.cpp:156-162 | The callback gets exactly the entries of the frame |
| FileReadStreams.ReadThrough | src/livox_ros_driver2/3rdparty/rapidjson/filereadstream.h:48-105 | For every file and every buffer of at least 4 bytes, reading yields the characters of the file, then NUL for ever, and Tell the smaller of characters taken and file length |
| FileReadStreams.FileReadStream.Read | src/livox_ros_driver2/3rdparty/rapidjson/filereadstream.h:90-105 | One character further, refilling the buffer in place |
| FileReadStreams.FileReadStream.Fill | src/livox_ros_driver2/3rdparty/rapidjson/filereadstream.h:93-104 | The refill, also when the file ends exactly with the buffer |
| FileReadStreams.FileReadStream.Peek | src/livox_ros_driver2/3rdparty/rapidjson/filereadstream.h:62-62 | The next character of the file, or NUL past its end |
| FileReadStreams.FileReadStream.Take | src/livox_ros_driver2/3rdparty/rapidjson/filereadstream.h:63-67 | The next character, and one further |
| FileReadStreams.FileReadStream.Tell | src/livox_ros_driver2/3rdparty/rapidjson/filereadstream.h:68-70 | The smaller of characters taken and file length |
| FileReadStreams.FileReadStream.Peek4 | src/livox_ros_driver2/3rdparty/rapidjson/filereadstream.h:85-87 | If it answers, the next four characters are those of the file |
| CacheIndexes.KeyInjective | src/livox_ros_driver2/src/comm/cache_index.cpp:64-72 | Different handles have different keys |
| CacheIndexes.FullMeans32 | src/livox_ros_driver2/src/comm/cache_index.cpp:49-61 | All slots are taken exactly if 32 handles are live |
| CacheIndexes.CacheIndex.GetFreeIndex | src/livox_ros_driver2/src/comm/cache_index.cpp:35-62 | A live handle keeps its slot; a new one gets the lowest free; fails exactly for other types and for a new handle with 32 live |
| CacheIndexes.CacheIndex.FindFree | src/livox_ros_driver2/src/comm/cache_index.cpp:49-60 | The search for the lowest free slot |
| CacheIndexes.CacheIndex.GetIndex | src/livox_ros_driver2/src/comm/cache_index.cpp:74-88 | The slot of a live handle, or failure |
| CacheIndexes.CacheIndex.ResetIndex | src/livox_ros_driver2/src/comm/cache_index.cpp:105-119 | The slot is given back and all other handles keep theirs |
| CacheIndexes.CacheIndex.LookUp | src/livox_ros_driver2/src/comm/cache_index.cpp:43-46 | The key of a handle is found exactly if the handle is live |
| ReaderGrammar.ExactlyTheGrammar | src/livox_ros_driver2/3rdparty/rapidjson/reader.h:614-647 | What is read as some events up to a place is exactly blanks, a value that means these events and blanks up to the end; such a text is read if its numbers fit, else it may be given up as NumberTooBig; both parsers agree on it |
| ReaderGrammar.ExactlyAPrefix | src/livox_ros_driver2/3rdparty/rapidjson/reader.h:634-643 | With the flag to stop at the root: the same for blanks and a value, whatever stands behind them |
| ReaderSound.ValueSound | src/livox_ros_driver2/3rdparty/rapidjson/reader.h:1872-1896 | A value that is read is one of the grammar, spelled as the text there, with exactly its events |
| ReaderComplete.ValueComplete | src/livox_ros_driver2/3rdparty/rapidjson/reader.h:1872-1896 | A value of the grammar, spelled anywhere in a text, is read as its events up to its end; only a number that does not fit may be given up |
| Lexemes.BlanksRead | src/livox_ros_driver2/3rdparty/rapidjson/reader.h:770-794 | Blanks before a unit are skipped up to it if and only if they are blanks and, with the flag, comments, none of which begins at that unit |
| Lexemes.NumeralOf | src/livox_ros_driver2/3rdparty/rapidjson/reader.h:1584-1868 | A number with digits wherever it needs some is a numeral of the grammar: no leading zero, no bare period, no bare exponent |
| Lexemes.NumeralPlaces | src/livox_ros_driver2/3rdparty/rapidjson/reader.h:1584-1868 | Every numeral of the grammar ends where it is spelled to end, with the event of its integer or its text |
| Lexemes.NumberFits | src/livox_ros_driver2/3rdparty/rapidjson/reader.h:1754-1801 | A numeral with an exponent of at most 308 and a double that is not too big is read, whatever its fraction |
| StringGrammar.StringsRead | src/livox_ros_driver2/3rdparty/rapidjson/reader.h:1058-1129 | A string is read as some bytes if and only if it is a sequence of plain units, short escapes and escaped code units or pairs, told by their letters and digits, that stands for these bytes, and a quote |
| StringGrammar.EscapeMeaning | src/livox_ros_driver2/3rdparty/rapidjson/reader.h:1060-1069 | The escape table holds exactly the eight letters of section 7 of RFC 8259, each with its character |
| StringGrammar.Hex4Meaning | src/livox_ros_driver2/3rdparty/rapidjson/reader.h:967-987 | Four units are read as a number if and only if they are its hexadecimal digits, of either case |
| StringGrammar.EscapedSolidus | src/livox_ros_driver2/3rdparty/rapidjson/reader.h:1062-1064 | An escaped solidus stands for a solidus |
| StringGrammar.StringRefused | src/livox_ros_driver2/3rdparty/rapidjson/reader.h:1079-1129 | Behind legal pieces, each unit that begins no further one gets its error at its place |
| Characters.HexMeaning | src/livox_ros_driver2/3rdparty/rapidjson/reader.h:971-977 | The value of a hexadecimal digit is its place among the digits of its case |
| Refusals.DigitMissing | src/livox_ros_driver2/3rdparty/rapidjson/reader.h:1664-1664 | A number without a digit is ValueInvalid where the digit should be |
| Refusals.FractionMissing | src/livox_ros_driver2/3rdparty/rapidjson/reader.h:1712-1716 | A period without a digit is refused there |
| Refusals.ExponentMissing | src/livox_ros_driver2/3rdparty/rapidjson/reader.h:1754-1803 | The mark of an exponent, with or without a sign, and no digit is refused there |
| Refusals.WordBroken | src/livox_ros_driver2/3rdparty/rapidjson/reader.h:916-961 | A null, true or false that breaks off is ValueInvalid at the first unit that differs |
| Refusals.NoComment | src/livox_ros_driver2/3rdparty/rapidjson/reader.h:787-788 | A solidus that begins no comment is refused behind it |
| Refusals.CommentUnended | src/livox_ros_driver2/3rdparty/rapidjson/reader.h:775-784 | A block comment that does not end is refused at the end of the text |
| Refusals.RootMissing | src/livox_ros_driver2/3rdparty/rapidjson/reader.h:625-628 | A text of blanks and comments is refused as empty at its end |
| Refusals.SecondRoot | src/livox_ros_driver2/3rdparty/rapidjson/reader.h:634-641 | Behind the root and blanks, any further unit is refused at its place, with the events of the root delivered |
| Layouts.ValueLaid | src/livox_ros_driver2/3rdparty/rapidjson/prettywriter.h:163-311 | The text of a value is that of a layout told on its own: every element and member on a line of its own, indented by its depth times the width, the closing bracket by the depth outside; arrays on one line where so chosen; no blanks from the plain writer |
| Layouts.UnitWritten | src/livox_ros_driver2/3rdparty/rapidjson/writer.h:437-510 | A unit is written as itself, by its short escape, or below 0x20 without one by its two hexadecimal digits |
| Layouts.EscapeOfUnit | src/livox_ros_driver2/3rdparty/rapidjson/writer.h:473-479 | The digits written for a code unit denote it |
| Layouts.CodePointWritten | src/livox_ros_driver2/3rdparty/rapidjson/writer.h:481-495 | A code point beyond 16 bits is written as the pair of its upper and its lower ten bits |
| Layouts.PairOfBits | src/livox_ros_driver2/3rdparty/rapidjson/encodings.h:355-367 | The UTF-16 pair of a code point is that of its upper and its lower ten bits |
| Encodings.EncodedBits | src/livox_ros_driver2/3rdparty/rapidjson/encodings.h:108-125 | The UTF-8 units of a code point are its bits in groups of six behind the lead bits |
| SchemaMeaning.ArrayMeaning | src/livox_ros_driver2/3rdparty/rapidjson/schema.h:744-770 | An array conforms exactly if its size, its type and the combined schemas allow it and every element conforms to the schema of the list, or to that of its place, or is allowed as an additional one |
| SchemaMeaning.ListChecksElements | src/livox_ros_driver2/3rdparty/rapidjson/schema.h:748-749 | A list of integers does not accept an array of a string |
| SchemaMeaning.LengthMeaning | src/livox_ros_driver2/3rdparty/rapidjson/schema.h:909-927 | The length limits count the scalar values that a string encodes |
| SchemaMeaning.MalformedHasAnyLength | src/livox_ros_driver2/3rdparty/rapidjson/schema.h:915-917 | A string that is not well-formed meets every length limit |
| PointerGrammar.PointersRead | src/livox_ros_driver2/3rdparty/rapidjson/pointer.h:1013-1142 | A text is parsed as some tokens if and only if it spells them: solidus and name, with the two tilde escapes, and in a fragment unreserved units and percent triplets of whole UTF-8 sequences |
| PointerGrammar.UnreservedAccepted | src/livox_ros_driver2/3rdparty/rapidjson/pointer.h:996-1000 | A fragment name of letters, digits, minus, period and underscore is the one token of that name |
| PointerGrammar.ReservedRefused | src/livox_ros_driver2/3rdparty/rapidjson/pointer.h:1073-1076 | Any other unit but percent sign, tilde and solidus is refused in a fragment at its place |
| PointerGrammar.PlainUnitsStand | src/livox_ros_driver2/3rdparty/rapidjson/pointer.h:1078-1104 | In the plain form every unit but tilde and solidus stands for itself |
| PointerGrammar.TripletsRefused | src/livox_ros_driver2/3rdparty/rapidjson/pointer.h:1053-1062 | Percent triplets that begin with no UTF-8 sequence are refused at their place |
| PointerGrammar.IndexMeaning | src/livox_ros_driver2/3rdparty/rapidjson/pointer.h:1105-1127 | The empty name, a name with another unit than a digit and a number with a leading zero are no index; zero and every other number below 2^32 is its own |
| PointerTree.CreateShape | src/livox_ros_driver2/3rdparty/rapidjson/pointer.h:539-585 | Every step of Create by what it makes: an index makes an array of what is no container and fills it with nulls, a name an object of one member unless there is an object; all other elements and members stay |
| PointerTree.IndexMakesArray | src/livox_ros_driver2/3rdparty/rapidjson/pointer.h:553-556 | The pointer /0 created on null gives the array of a null |
| PublishTiming.PublishesWhenDue | src/livox_ros_driver2/src/comm/pub_handler.cpp:164-255 | For any inputs and switching of the sync flag: by the clock, an input publishes all buffers exactly if one interval more than frames published by the clock has passed since the first reading; by the device, the sender alone exactly if its time reaches a multiple of the interval and its span the tolerance; otherwise nothing |
| PublishTiming.PointsInTurn | src/livox_ros_driver2/src/comm/pub_handler.cpp:305-455 | What a packet brings, nothing for other lidar or data types; the points of a packet in order: times grow by the interval from that of the packet, lines go round |

## Left out

- SchemaVerdict.VerdictIsMeaning: schemas without enum, uniqueItems, patternProperties, pattern, multipleOf, dependencies and $ref; error reports are not modelled. Sub-validators are values inside the contexts, so their sharing and memory are not captured.
- Pointer.Stringify: the text a failed print leaves behind is not modelled; it ends with the units of the sequence that is not well-formed, which may be those of the next name.
- PointerTree.GetAfterCreate: trees are values and nodes are paths, so update in place and references into the tree are not captured.
- ReaderGrammar.ExactlyTheGrammar: of a number with an exponent above 308 or a double that is too big it says only that the text is read or given up as NumberTooBig.
- Doubles: a double is its literal; whether it is too big is a parameter of the flags. Its value and the double nearest to an integer are arbitrary constants where a schema compares them. Printing and parsing of doubles, NaN and Inf are not modelled, and round trips are about double-free values.
- Parse flags for numbers as strings, full precision, encoding validation and in-situ parsing; SIMD variants of skipping and scanning; handlers that refuse an event.
- Raw values and raw numbers in the writers; the number printers, whose files are not part of this model, are modelled as plain decimal digits.
- Short strings and pointer packing in values, move and copy constructors, and the order-insensitive comparison of objects.
- Text after the end of a buffer: streams and pointer sources answer NUL there.
- Allocation failure other than a failing base allocator; the address a base allocator returns is a parameter, assumed aligned and apart from all chunks.
- 32-bit member and element counts are exact for containers below 2^32; larger ones wrap as in the reader.
- Weak memory: the protocol steps are atomic and sequentially consistent; connect states are fixed and no exit is requested.
- The pcl message format, which under ROS 2 never pops, and the IMU queue.
- Use of a queue after DeInitQueue, which leaves a dangling storage pointer.
- Concurrent calls of GetFreeIndex, which releases its lock between lookup and allocation.
- Coordinates and extrinsic rotation: points keep their raw measurement; the packet callback and its time sources deliver whole packets.
- Publishing of points through pointers: a frame carries the points themselves.
- ROS publishers, configuration callbacks, sockets, bag files and everything outside these components.
