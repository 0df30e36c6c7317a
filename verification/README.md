# SVS stack: proofs about its JSON, its wire protocol and its XML

A Dafny model of four parts of the SVS repository, with proofs of what they promise:

* **JSON** (`svs_common/json/svs_json.c`): the recursive-descent parser, the two printers (one joins exactly sized
  pieces, one writes into a growing buffer), the UTF-16 to UTF-8 string decoder and the in-place minifier. The text
  format is that of sections 2 and 7 of RFC 8259. `Json` and `JsonStrings` hold the text and the trees as functions;
  `JsonBuffer`, `JsonPrinter`, `JsonPlain`, `JsonReader` and `JsonMinify` are the C loops over arrays and over the
  linked nodes of `JsonNodes`, each with those functions as its specification; `JsonDocuments` reads and prints whole
  documents; `JsonMinifyMeaning` and `JsonMinifyExactly` show which minified texts mean the same. `JsonLetters`,
  `JsonNumerals` and `JsonGrammar` describe the accepted language by a grammar of its own, `JsonLayout` the printed
  text, and `JsonParts` what the minifier drops.
* **The client link of the VMS stack** (`svs_extends/vms/svs_vms_client_link.cpp`): framing of received bytes, the
  send queue, the map of requests that wait for a response, heartbeats, and the connection states. `VmsLink` is a
  state machine over the entry points; the results of `recv`, `send` and `time` are chosen by the environment, and
  every entry point is one atomic step. `VmsRuns`, `VmsOutcomes`, `VmsHeartbeat`, `VmsTimeouts`, `VmsTimers` and
  `VmsResponses` prove what every run keeps; `VmsWire`, `VmsSends` and `VmsEvents` say in bytes, numbers and seconds
  what single steps do; and `VmsClient.ClientLink` is the object with its fields and loops, whose `Dispatch` takes
  exactly the machine's steps.
* **TinyXML's writer and containers** (`svs_common/tinyxml/tinyxml.cpp`): entity encoding, the visitor that prints,
  the doubly linked child list, the circular attribute list and the normalising loop of `LoadFile`.
* **TinyXML's reader** (`svs_common/tinyxml/tinyxmlparser.cpp`): entities, both loops of `ReadText`, whitespace
  condensing, row and column tracking, and the element parser. `XmlUnits`, `XmlGrammar` and `XmlAccepts` describe what
  it accepts by a grammar of its own; `XmlNames` and `XmlLayout` say which names are valid and how trees are laid out.

Bytes of the text components are `char`s below 256; a C string is a sequence without NUL, and a read past its
terminator is an outcome of its own (`Overrun`, `Outside`, `Runaway`). Parsers are functions on the text that is left,
and the loops that implement them work on the whole text and a position.

Some properties hold only under a condition. Where it reads "if and only if", the condition is proved to be exact:

* The JSON parser accepts exactly the documents of `JsonGrammar` (`JsonGrammar.AcceptsExactly`, for texts in which the
  parser and a reader of literals agree on where each literal ends), the element parser exactly those of `XmlGrammar`
  (`XmlAccepts.AcceptsExactly`), and the minifier drops exactly the white space and comments of `JsonParts`
  (`JsonParts.MinifiesExactly`).
* A value comes back from `EncodeString` and `ReadText` if and only if it has no `&#x` in it
  (`XmlReferencesLost.ReadUndoesEncodeExactly`).
* A printed element tree with valid names comes back if and only if its texts are not blank and have no space at an
  end and no two together; otherwise what comes back is the tree with its texts condensed
  (`XmlRoundTrip.RoundTripExactly`, `XmlRoundTrip.ParseUndoesPrint`).
* The loop of `Stamp` runs forever if and only if, in UTF-8 and before the stamped position, a character of the text
  behind the cursor begins with a byte 0xEF that is one of the last two of the text; row, column and tab size do not
  matter (`XmlPosition.StuckExactly`; `XmlPosition.EndlessLoop` is a start tag on which it does).
* The walk over attributes by `Next` ends early if and only if some attribute after the first is empty in name and
  value (`XmlAttributes.ShowsAllExactly`).
* An accepted request can be sure not to be lost, whether it goes out at once or through the queue and however its
  sends go, if and only if its number is free when the application hands it over (`VmsOutcomes.LostExactlyWhenTaken`;
  `VmsOutcomes.SharedNumberLosesARequest` is a run in which one is lost). With distinct outstanding numbers every
  request has one outcome.
* The timer can end the wait of a request with a TIMEOUT callback, under a clock that does not go back, if and only if
  its timeout is at most three heartbeat intervals (`VmsTimeouts.TimerEndsExactly`): a longer wait is taken for a
  change of the system clock each time and only a response or the closing of the link ends it
  (`VmsTimeouts.LongWaitNeverExpires`). A timeout that leaves room for one gap between ticks does expire, at the
  latest that gap after its time (`VmsTimeouts.ShortWaitExpires`).
* With the header of a frame of the right version in the buffer, no run delivers another message if and only if the
  frame is longer than the buffer (`VmsRuns.DeafExactlyWhenOversized`); once such a frame has filled the buffer,
  nothing is even received any more (`VmsRuns.FullBufferStays`, `VmsRuns.BufferCanFill`).
* Minifying a text that parses to its end changes nothing for the parser if and only if its string literals are closed
  (`JsonMinifyExactly.MinifyKeepsMeaningExactly`). The parser accepts a string without its closing quote as a whole
  document, and there the minifier runs past the end of the text (`JsonMinifyExactly.OpenIsWhole`,
  `JsonMinifyExactly.UnclosedStringRunsAway`). This is proved for all texts in which the four characters behind a `\u`
  are no quotes and no backslashes, as hex digits are not (`JsonMinifyMeaning.BodyIsSpan`); a quote there is skipped
  by the parser and ends the literal for the minifier (`JsonMinifyExactly.SkippedQuote`).
* Every edit of a child list leaves a tree a tree, except that `ReplaceChild` does so if and only if the new child is
  no document, which the other edits refuse (`XmlNodes.Node.ReplaceChild`).

## Model

| member | source | states |
|---|---|---|
| JsonRoundTrip.ParseUndoesPrint | svs_common/json/svs_json.c:357-403 | parsing the text of any tree, formatted or not and at any depth, gives the equal tree and stops exactly at its end |
| JsonRoundTrip.DocumentRoundTrip | svs_common/json/svs_json.c:323-343 | both print calls are undone by the parse calls, also when nothing may follow the value |
| JsonRoundTrip.ParseSigned | svs_common/json/svs_json.c:96-114 | over exact reals, the decimal text of every integer is read back as that number when no digit, point or exponent follows |
| JsonGrammar.AcceptsExactly | svs_common/json/svs_json.c:357-369 | a text, if it has closed literals and no quote or backslash among the four characters behind a `\u`, is accepted as a document with this tree if and only if a grammar of values, white space, escapes and numbers writes it and gives it this tree; the grammar speaks of digits, letters and code units, not of the parser |
| JsonGrammar.SyntaxReads | svs_common/json/svs_json.c:406-431 | whatever the grammar writes is read as its tree before anything that cannot go on with a number |
| JsonNumerals.NumeralReads | svs_common/json/svs_json.c:96-114 | sign, whole digits, fraction and power, in digits, are read as the number they write: all digits as one positional number, the point and the power shifting it |
| JsonNumerals.NumeralOf | svs_common/json/svs_json.c:96-114 | every number that is read was written so, leading zero, bare minus and empty power included |
| JsonLayout.FormattedIsLaid | svs_common/json/svs_json.c:550-658 | cJSON_Print is cJSON_PrintUnformatted with white space put in by one pass over its characters: a line per member, a tab per open bracket, a tab behind a colon, a space behind a comma of an array |
| JsonLayout.TabsAre | svs_common/json/svs_json.c:580-583 | a depth stands for that many tabs, none below zero |
| JsonLayout.PrintsExactly | svs_common/json/svs_json.c:147-161 | the numbers the round trip covers are exactly the integers of 32 bits |
| JsonLayout.IntegerPrints | svs_common/json/svs_json.c:147-161 | each is printed as a sign and the decimal digits of its amount |
| JsonLayout.DecimalIs | svs_common/json/svs_json.c:147-161 | a natural number is printed in decimal digits whose positional sum it is, without a leading zero |
| JsonLayout.EscapedInLetters | svs_common/json/svs_json.c:282-304 | each character of a text is written as it is, by its short escape, or by a `\u` with four lower-case hex digits that write its code |
| JsonStrings.ScansAgree | svs_common/json/svs_json.c:192-249 | on every token whose \u escapes have four hex digits both scans end at the same quote, the second writes what the token means, and that fits in what the first counted |
| JsonStrings.ParseToken | svs_common/json/svs_json.c:192-249 | such a token is read to its meaning without leaving the text or the allocation |
| JsonStrings.MeaningSpellsPoints | svs_common/json/svs_json.c:216-238 | the bytes read are well-formed UTF-8 of the token's code points whenever the bytes between its \u escapes are well-formed: pairs joined, lone and mismatched surrogates and U+0000 dropped |
| JsonStrings.WellFormedBody | svs_common/json/svs_json.c:199-248 | in a token that is well-formed UTF-8 they are, also where a backslash stands before a character of several bytes |
| JsonStrings.ParseTokenSpells | svs_common/json/svs_json.c:192-249 | so every well-formed UTF-8 token with four-digit escapes is read as the UTF-8 of its code points |
| JsonLetters.ParseLettersSpells | svs_common/json/svs_json.c:192-249 | a token written in bytes, short escapes and four-digit numbers in either letter case is read as the UTF-8 of its code points, pairs joined as 0x10000 + (high - 0xD800) * 0x400 + (low - 0xDC00) |
| JsonLetters.EscapeReads | svs_common/json/svs_json.c:177-217 | any four hex digits of either case with the positional value u, neither 0 nor a surrogate, are read as the UTF-8 of u |
| JsonLetters.PairReads | svs_common/json/svs_json.c:219-225 | two escapes with a high and a low surrogate are read as the UTF-8 of the one code point they stand for |
| JsonLetters.ScalarsArePaired | svs_common/json/svs_json.c:219-225 | the scalar values are exactly the units that are no surrogates and the code points of the pairs |
| JsonLetters.LettersOf | svs_common/json/svs_json.c:192-249 | every literal body with no quote or backslash among the four characters behind a `\u` is written in such letters, the escapes of section 7 of RFC 8259 by its table |
| JsonLetters.OpenReads | svs_common/json/svs_json.c:199-248 | a token that ends with the text instead of a quote is read like one with it |
| JsonLetters.CutAtBackslash | svs_common/json/svs_json.c:197 | a token that ends behind a backslash makes the counting scan step past the terminator |
| JsonLetters.CutInCode | svs_common/json/svs_json.c:217 | one that ends inside the four characters behind a `\u` makes a scan step past it |
| JsonStrings.ParseQuote | svs_common/json/svs_json.c:252-307 | reading undoes quoting for every NUL-free string and stops just past the closing quote |
| JsonStrings.EscapePlain | svs_common/json/svs_json.c:256-270 | the verbatim path and the escaping path write the same text where the verbatim one is taken |
| Utf8.DecodeEncode | svs_common/tinyxml/tinyxmlparser.cpp:66-126 | every scalar value decodes from its bytes, and the lead byte's table entry is their number (section 3 of RFC 3629) |
| Utf8.EncodeDecode | svs_common/json/svs_json.c:229-237 | whatever decodes is spelled in the one way the encoder writes it |
| Utf8.LeadLengthExactly | svs_common/tinyxml/tinyxmlparser.cpp:66-86 | a byte announces n > 1 bytes exactly if some scalar value is written in n bytes behind it |
| JsonReader.PutUtf8 | svs_common/json/svs_json.c:229-237 | the backward fall-through writer puts the encoding behind what was written and touches nothing before it |
| JsonReader.CountScan | svs_common/json/svs_json.c:197 | the counting loop finds the length the specification gives, or that it would pass the terminator |
| JsonReader.SecondScan | svs_common/json/svs_json.c:199-248 | the decoding loop writes the decoded text, or reports that it would leave the text or its allocation |
| JsonReader.ReadString | svs_common/json/svs_json.c:192-249 | the two loops together are the string parser |
| JsonReader.ReadNumber | svs_common/json/svs_json.c:96-114 | the digit loops compute the number of the grammar and stop where it stops |
| JsonReader.ReadValue | svs_common/json/svs_json.c:357-369 | the linked nodes built in place represent the parsed tree, all of them new, and the errors are the parser's |
| JsonReader.ReadArray | svs_common/json/svs_json.c:406-431 | an array's child chain, linked both ways, holds the elements in order |
| JsonReader.ReadObject | svs_common/json/svs_json.c:514-547 | an object's child chain holds the names and values in order, repeated names included |
| JsonDocuments.ReadDocument | svs_common/json/svs_json.c:323-340 | the call returns new nodes that represent the parsed document and where it ended, or null |
| JsonDocuments.ReadIsPrintable | svs_common/json/svs_json.c:192-249 | every text and name that was read is a C string, so a tree that was read is printable exactly if its numbers are integers |
| JsonDocuments.PrintThenRead | svs_common/json/svs_json.c:323-343 | printing the nodes of a tree and parsing the text builds new nodes for an equal tree, and the old ones stay |
| JsonDocuments.ReadThenPrint | svs_common/json/svs_json.c:323-343 | printing the nodes that were read gives the text of the parsed tree, which parses to that tree again |
| Pow2.Pow2GtIsLeast | svs_common/json/svs_json.c:117 | for sizes up to 2^30 the bit smearing gives the least power of two that is not smaller |
| JsonBuffer.PrintBuffer.Ensure | svs_common/json/svs_json.c:121-136 | there is room for the request, all that was in the buffer stays, and it grows only when needed, to less than twice the need |
| JsonBuffer.PrintBuffer.Update | svs_common/json/svs_json.c:138-144 | with the terminator in place the offset moves to the end of the text |
| JsonBuffer.QuoteSize | svs_common/json/svs_json.c:256-279 | the flag is set exactly if something needs an escape, and the length is that of the escaped text |
| JsonBuffer.QuoteInto | svs_common/json/svs_json.c:260-307 | both paths put the quoted text with its terminator behind what is there, inside the counted room |
| JsonPrinter.PrintBuffered | svs_common/json/svs_json.c:372-403 | from any starting buffer the text of what the nodes represent is appended to the text so far, inside the room that was ensured |
| JsonPrinter.PrintItemsBuffered | svs_common/json/svs_json.c:458-465 | the walk along `next` prints the elements in order, with a comma exactly where another one follows |
| JsonPrinter.PrintMembersBuffered | svs_common/json/svs_json.c:576-602 | the walk along `next` prints the members in order, each on its line |
| JsonPlain.PrintPlain | svs_common/json/svs_json.c:372-403 | the joining path allocates enough and produces the text of the tree the nodes represent, with its terminator |
| JsonPlain.PrintArrayPlain | svs_common/json/svs_json.c:434-511 | the summed lengths are enough for all entries, commas and brackets written into the result |
| JsonPlain.PrintObjectPlain | svs_common/json/svs_json.c:550-658 | the summed lengths are enough for all names, entries, tabs and line ends written into the result |
| JsonPlain.PrintDocument | svs_common/json/svs_json.c:342-343 | the unbuffered calls give the text of the tree |
| JsonPlain.PrintDocumentBuffered | svs_common/json/svs_json.c:345-353 | the buffered call gives the same text, whatever the starting size and the format |
| JsonMinify.MinifyInPlace | svs_common/json/svs_json.c:735-750 | the loop rewrites its own buffer into the minified text, never past its read position, or runs past the terminator exactly when a comment or string is unclosed |
| JsonMinify.MinifyPrint | svs_common/json/svs_json.c:735-750 | minifying formatted text at any depth gives the unformatted text and goes on with what follows |
| JsonMinify.MinifyFormatted | svs_common/json/svs_json.c:735-750 | minifying what cJSON_Print wrote gives what cJSON_PrintUnformatted writes |
| JsonMinify.MinifyQuote | svs_common/json/svs_json.c:747 | string literals come through unchanged, escapes included |
| JsonParts.MinifiesExactly | svs_common/json/svs_json.c:735-750 | the minifier leaves t of s if and only if s consists of white space, `//` comments up to their line end, `/*` comments up to their first `*/` (a `/*/` is closed at once), string literals and other characters, and t is the last two kinds; it leaves the text exactly when s is no such sequence |
| JsonMinifyExactly.MinifyKeepsMeaningExactly | svs_common/json/svs_json.c:735-750 | a document that parses to its end, whatever white space it has and as long as no quote or backslash stands among the four characters behind a `\u`, parses to the same tree after minifying if and only if its strings are closed; otherwise the minifier leaves the text |
| JsonMinifyExactly.OpenIsWhole | svs_common/json/svs_json.c:199-248 | the only literal without a closing quote that such a document can have is the document itself |
| JsonMinifyExactly.SkippedQuote | svs_common/json/svs_json.c:217 | a closed literal with a quote among the four characters behind a `\u` means something else after minifying |
| JsonMinifyMeaning.SpanScans | svs_common/json/svs_json.c:192-249 | in all other literals, hex digits or not, both scans of the parser stop at the first quote that is not escaped, and the text depends on the body alone |
| JsonMinifyMeaning.ValuePart | svs_common/json/svs_json.c:735-750 | the minified text of one value inside a longer text is read as that value before anything that can follow one |
| JsonMinifyMeaning.NumberPart | svs_common/json/svs_json.c:96-114 | the parser stops at the same end of a number when the white space behind it is gone |
| JsonMinifyExactly.UnclosedStringRunsAway | svs_common/json/svs_json.c:747 | a string without its closing quote is accepted by the parser and leads the minifier past the end |
| VmsFrames.SplitResumes | svs_extends/vms/svs_vms_client_link.cpp:874-990 | framing can stop after any bytes and go on from the rest alone, and a bad frame stays bad |
| VmsFrames.SplitExact | svs_extends/vms/svs_vms_client_link.cpp:874-990 | frames and rest put together are the stream, the frames are complete, and the rest holds none |
| VmsFrames.ChunkingDoesNotMatter | svs_extends/vms/svs_vms_client_link.cpp:572-598 | however the stream is cut, framing chunk by chunk gives the frames, the first bad frame and the rest of one-shot framing |
| VmsWire.FramingUndoesWriting | svs_extends/vms/svs_vms_client_link.cpp:874-990 | the bytes of any messages, type, number and payload written in little-endian order behind the version, followed by part of another, are cut back into exactly these messages and that part |
| VmsWire.FrameIsWritten | svs_extends/vms/svs_vms_client_link.cpp:874-990 | every frame that is cut off is the writing of a message |
| VmsWire.RefusesExactly | svs_extends/vms/svs_vms_client_link.cpp:920-952 | what is refused are an announced length below twelve and a complete frame whose first two bytes are not 00 01 |
| VmsRuns.RunDelivers | svs_extends/vms/svs_vms_client_link.cpp:492-599 | in every run the messages delivered are the non-heartbeat frames of all bytes received and the buffer holds exactly the rest, or the link closed at the first bad frame |
| VmsRuns.DeliveryIgnoresChunking | svs_extends/vms/svs_vms_client_link.cpp:492-599 | two runs that received the same bytes delivered the same messages |
| VmsRuns.RoomLeft | svs_extends/vms/svs_vms_client_link.cpp:525-537 | while frames are at most as long as the buffer there is room for the next bytes |
| VmsRuns.FullBufferStays | svs_extends/vms/svs_vms_client_link.cpp:525-537 | from a full buffer without a complete frame, no run receives or delivers anything again |
| VmsRuns.OversizedAppends | svs_extends/vms/svs_vms_client_link.cpp:572-598 | bytes behind a header that announces more than the buffer holds are only kept |
| VmsRuns.DeafExactlyWhenOversized | svs_extends/vms/svs_vms_client_link.cpp:525-598 | with the header of a frame of the right version in the buffer, no run delivers another message exactly when that frame is longer than the buffer |
| VmsRuns.BufferCanFill | svs_extends/vms/svs_vms_client_link.cpp:525-598 | a run of one chunk leaves a connected link with such a full buffer |
| VmsRuns.RunConserves | svs_extends/vms/svs_vms_client_link.cpp:334-459 | in every run the bytes sent followed by the unsent parts of the queue are the accepted messages in order, the queue keeps its bound, and write interest is registered exactly while the link is connecting or connected with a queue |
| VmsSends.RefusedExactly | svs_extends/vms/svs_vms_client_link.cpp:334-459 | a message is refused exactly when the link is not connected, bytes 8 to 11 do not hold its length, the socket is broken, or 2000 messages are queued; then nothing changes but, for a broken socket, the flag |
| VmsSends.TakenExactly | svs_extends/vms/svs_vms_client_link.cpp:334-459 | an accepted message is behind all earlier ones, on the wire or in the queue, and counts as a request exactly with a timeout and a number below 0x8000 |
| VmsEvents.ConnectsExactly | svs_extends/vms/svs_vms_client_link.cpp:616-652 | a connection that completes starts both heartbeat clocks, one that fails closes the link |
| VmsEvents.ReceivingResets | svs_extends/vms/svs_vms_client_link.cpp:523 | a readable connected link resets its miss counter, whatever is received |
| VmsEvents.ChunkMovesTheClock | svs_extends/vms/svs_vms_client_link.cpp:946-960 | the receive clock starts anew exactly when a chunk completes a frame of type 2 |
| VmsEvents.ClosesExactly | svs_extends/vms/svs_vms_stack.cpp:340-370 | a step closes a link exactly when it stops it, reports an error, or finds it given up, its connection failed, its socket broken or a frame unacceptable |
| VmsEvents.ClosingReports | svs_extends/vms/svs_vms_client_link.cpp:1021-1096 | closing reports each queued request as failed and each waiting one as timed out, number by number, and answers none |
| VmsOutcomes.RunBalances | svs_extends/vms/svs_vms_client_link.cpp:1265-1312 | in every run the accepted requests are, number by number, the answered, timed out, failed, lost and outstanding ones |
| VmsOutcomes.CarefulRun | svs_extends/vms/svs_vms_client_link.cpp:1265-1276 | with free numbers only, no request is lost and no number is outstanding twice |
| VmsOutcomes.OneOutcome | svs_extends/vms/svs_vms_client_link.cpp:1021-1096 | with distinct outstanding numbers every request has one outcome at most, exactly one once the link is closed, and nothing is left in queue and map |
| VmsOutcomes.ClosingRetiresAll | svs_extends/vms/svs_vms_client_link.cpp:248-283 | a closing step leaves nothing outstanding and every request accounted for |
| VmsOutcomes.ClosedAbsorbs | svs_extends/vms/svs_vms_client_link.cpp:1153-1168 | nothing that happens after CLOSED changes anything |
| VmsOutcomes.SharedNumberLosesARequest | svs_extends/vms/svs_vms_client_link.cpp:1273 | two requests under one number: one of them never gets an outcome |
| VmsOutcomes.LostExactlyWhenTaken | svs_extends/vms/svs_vms_client_link.cpp:334-459 | an accepted request is safe from being lost, in every run in which the application sends no more, exactly when its number was free; both the direct and the queued path are covered |
| VmsResponses.MessageRetiresExactly | svs_extends/vms/svs_vms_client_link.cpp:975-1312 | when a chunk completes a message, request k stops waiting and is answered once exactly if the message is no heartbeat and has the number k + 0x8000; otherwise its entry stays as it is |
| VmsResponses.ChunkRetiresExactly | svs_extends/vms/svs_vms_client_link.cpp:975-1312 | the same for any chunk, by bytes 2 to 7 of the frames it completes |
| VmsResponses.RunAnswersExactly | svs_extends/vms/svs_vms_client_link.cpp:492-599 | in every run without sends in which the link stays open, a tracked request is answered exactly if a message with its number and the high bit is delivered before the timer ends its wait, never twice and never besides a timeout |
| VmsHeartbeat.RunTimed | svs_extends/vms/svs_vms_client_link.cpp:1331-1347 | under a clock that does not go back, each counted miss is at least an interval after the one before, in every run |
| VmsHeartbeat.TimeoutIsLate | svs_extends/vms/svs_vms_client_link.cpp:1331-1377 | a link is given up no sooner than three intervals after the miss counter was last reset |
| VmsHeartbeat.BoundIsMet | svs_extends/vms/svs_vms_client_link.cpp:1331-1377 | that bound cannot be improved: a run from the start, under a monotone clock, is given up exactly three intervals after its last reset |
| VmsTimers.TickCountsExactly | svs_extends/vms/svs_vms_client_link.cpp:1331-1377 | a tick counts a miss exactly when at least an interval and at most three of them less three seconds have passed since the last heartbeat or count, and the fourth miss gives the link up |
| VmsTimers.TickBeatsExactly | svs_extends/vms/svs_vms_client_link.cpp:1379-1402 | a heartbeat, twelve given bytes, is handed out exactly when the last one is an interval old or the clock went back |
| VmsTimers.ZeroInterval | svs_extends/vms/svs_vms_client_link.cpp:1337-1346 | with an interval of zero no miss is ever counted and every tick hands out a heartbeat |
| VmsTimeouts.TimerEndsExactly | svs_extends/vms/svs_vms_client_link.cpp:1408-1479 | from the present on, under a clock that does not go back, the timer can end a wait, the link staying up and no response coming, exactly when the timeout is at most three heartbeat intervals |
| VmsTimeouts.LongWaitNeverExpires | svs_extends/vms/svs_vms_client_link.cpp:1434-1440 | a longer wait goes on, in every run, until a response comes or the link is closed |
| VmsTimeouts.ShortWaitExpires | svs_extends/vms/svs_vms_client_link.cpp:1434-1448 | under a monotone clock and ticks at most a gap apart, a request whose timeout and one gap fit into three intervals is timed out within that gap, if no response comes and the link stays up |
| VmsTimers.TickEndsExactly | svs_extends/vms/svs_vms_client_link.cpp:1434-1448 | a tick that does not give the link up ends the wait of request k with a callback if and only if timeout <= the seconds since it was sent <= three intervals; else it waits on with its message and timeout, counted anew after more than three intervals |
| VmsTimers.NeverEarly | svs_extends/vms/svs_vms_client_link.cpp:1408-1479 | in every run under a clock that does not go back, no timer callback comes before timeout seconds have passed since the send time |
| VmsTimers.RequestHasItsTime | svs_extends/vms/svs_vms_client_link.cpp:401-459 | so a request sent at a time is not timed out for timeout seconds from then on |
| VmsTimers.DrainedWaitsFromNow | svs_extends/vms/svs_vms_client_link.cpp:616-746 | a queued request waits from when its last byte went out |
| VmsClient.ClientLink.constructor | svs_extends/vms/svs_vms_client_link.cpp:42-114 | a new link is idle and holds nothing |
| VmsClient.ClientLink.StartConn | svs_extends/vms/svs_vms_client_link.cpp:131-245 | an immediate, a pending and a failed connect lead to the three states the protocol starts from |
| VmsClient.ClientLink.SendMsg | svs_extends/vms/svs_vms_client_link.cpp:334-459 | a wrong handle changes nothing, and otherwise the object takes the machine's step with its result code |
| VmsClient.ClientLink.SendMsgToPeer | svs_extends/vms/svs_vms_client_link.cpp:1213-1263 | the bytes the socket takes are the next ones of the message |
| VmsClient.ClientLink.HandleSend | svs_extends/vms/svs_vms_client_link.cpp:616-746 | the draining loop is the machine's step for any results of its send calls |
| VmsClient.ClientLink.HandleRecv | svs_extends/vms/svs_vms_client_link.cpp:492-599 | receiving into the array, parsing and moving the rest to the front is the machine's step |
| VmsClient.ClientLink.ParseData | svs_extends/vms/svs_vms_client_link.cpp:874-990 | the loop takes exactly the frames of one-shot framing out of the buffer and reports exactly the rest |
| VmsClient.ClientLink.DelWaitRespMsg | svs_extends/vms/svs_vms_client_link.cpp:1279-1312 | a response retires the request of its number and no other message does anything |
| VmsClient.ClientLink.AddWaitRespMsg | svs_extends/vms/svs_vms_client_link.cpp:1265-1276 | a free number starts to wait, a taken one keeps its old message and the new one is lost |
| VmsClient.ClientLink.SetConnFlag | svs_extends/vms/svs_vms_client_link.cpp:1153-1168 | any state but CLOSED can be left |
| VmsClient.ClientLink.NotifyLeftMessage | svs_extends/vms/svs_vms_client_link.cpp:1021-1057 | every queued request is reported as failed, once, and the queue is empty |
| VmsClient.ClientLink.NotifyTimeoutMessage | svs_extends/vms/svs_vms_client_link.cpp:1060-1096 | every waiting request is reported as timed out, once, and the map is empty |
| VmsClient.ClientLink.ShutdownSock | svs_extends/vms/svs_vms_client_link.cpp:285-317 | the link is CLOSED and without write interest, and a closed link is left alone |
| VmsClient.ClientLink.HandleClose | svs_extends/vms/svs_vms_client_link.cpp:804-858 | the first close retires everything, later ones do nothing |
| VmsClient.ClientLink.StopConn | svs_extends/vms/svs_vms_client_link.cpp:248-283 | with the right handle the link closes and retires everything, with a wrong one nothing changes |
| VmsClient.ClientLink.CheckHearbeatMsg | svs_extends/vms/svs_vms_client_link.cpp:1331-1405 | the miss counter and both times move as the machine's, and a heartbeat goes out when the machine sends one |
| VmsClient.ClientLink.CheckRespMsg | svs_extends/vms/svs_vms_client_link.cpp:1408-1479 | the two passes report and remove exactly the expired requests and restamp exactly those the clock jumped over |
| VmsClient.ClientLink.HandleTimeout | svs_extends/vms/svs_vms_client_link.cpp:763-788 | a timer tick is the machine's step |
| VmsClient.ClientLink.Dispatch | svs_extends/vms/svs_vms_stack.cpp:340-370 | every event, with the close that follows a failing handler, is one step of the machine, so all run properties hold of the object |
| XmlText.ReadUndoesEncode | svs_common/tinyxml/tinyxmlparser.cpp:574-637 | reading without trimming returns the encoded value and stops just past the quote, for any bytes in legacy mode and any whole characters in UTF-8 |
| XmlReferencesLost.ReadUndoesEncodeExactly | svs_common/tinyxml/tinyxml.cpp:51-132 | that holds if and only if the value has no "&#x" in it |
| XmlReferencesLost.ReadShrinks | svs_common/tinyxml/tinyxml.cpp:60-82 | if reading ends right behind the quote, what comes back is not longer than the value, and shorter when a reference passed through |
| XmlBytes.WellFormedIsClean | svs_common/tinyxml/tinyxmlparser.cpp:66-86 | well-formed UTF-8 falls into the steps the byte table gives |
| XmlReferences.SumIsPositional | svs_common/tinyxml/tinyxmlparser.cpp:464-499 | the right-to-left sum with a wrapping multiplier is the written number modulo 2^32, in any base and for any digit count |
| XmlReferences.HexReference | svs_common/tinyxml/tinyxmlparser.cpp:451-511 | a hexadecimal reference of any length yields its value modulo 2^32 and is consumed through its semicolon |
| XmlReferences.DecimalReference | svs_common/tinyxml/tinyxmlparser.cpp:478-511 | a decimal reference below 2^32 yields its value, whatever zeros lead |
| XmlReferences.ReferenceDecodes | svs_common/tinyxml/tinyxmlparser.cpp:88-126 | for a scalar value the bytes decode to it and the lead byte announces their number |
| XmlReferences.NamedReads | svs_common/tinyxml/tinyxmlparser.cpp:513-523 | the five names are written for their characters and read back |
| XmlReferences.ReferenceIsByte | svs_common/tinyxml/tinyxmlparser.cpp:502-511 | in legacy encoding a reference is the byte with the low eight bits of its value; beyond 21 bits it is nothing in UTF-8 |
| XmlUnits.UnitReads | svs_common/tinyxml/tinyxmlparser.cpp:438-531 | each character, name, reference in hexadecimal or decimal digits behind whatever is skipped, and stray ampersand is read as its value up to its end |
| XmlUnits.ReadsExactly | svs_common/tinyxml/tinyxmlparser.cpp:582-595 | a value is read up to its quote if and only if it consists of such units, none beginning with the quote; the result is the sequence of their values |
| XmlUnits.UnendedExactly | svs_common/tinyxml/tinyxmlparser.cpp:582-637 | the pointer steps over the terminator if and only if the whole rest of the text consists of such units, the quote missing |
| XmlUnits.TextReadsExactly | svs_common/tinyxml/tinyxmlparser.cpp:596-637 | a text is read up to the next `<` if and only if it consists of such units; the result is its words, white space given by its codes, with one space between them |
| XmlReader.EncodeStringLoop | svs_common/tinyxml/tinyxml.cpp:51-132 | the index loop with its inner pass-through loop produces the specified text |
| XmlReader.ScanLeft | svs_common/tinyxml/tinyxmlparser.cpp:462-499 | the leftward loop yields the sum of the digits behind the last mark, or fails at the first that is no digit |
| XmlReader.GetEntityAt | svs_common/tinyxml/tinyxmlparser.cpp:438-531 | bytes, next position and null pointer are those of the specification on the text from there on |
| XmlReader.GetCharAt | svs_common/tinyxml/tinyxml.h:334-367 | one character or entity is taken, or the step over the terminator is reported |
| XmlReader.ReadTextKeeping | svs_common/tinyxml/tinyxmlparser.cpp:582-595 | the loop that keeps whitespace ends where the specification ends, with its text |
| XmlReader.ReadTextTrimming | svs_common/tinyxml/tinyxmlparser.cpp:596-637 | the loop with the pending-space flag ends where the specification ends, with its text |
| XmlReader.SkipWhiteSpace | svs_common/tinyxml/tinyxmlparser.cpp:314-362 | whitespace, and in UTF-8 the sequences of no width, are skipped and nothing else |
| XmlReader.ReadName | svs_common/tinyxml/tinyxmlparser.cpp:401-436 | the longest name at the position is taken, if one starts there |
| XmlNames.NameReadWhole | svs_common/tinyxml/tinyxmlparser.cpp:127-154 | a name of ASCII letters of either case, underscores, and behind the first digits, hyphens, points and colons is read whole before any other ASCII character |
| XmlCondense.RawTextCondenses | svs_common/tinyxml/tinyxmlparser.cpp:596-637 | text without markup is read as its words with single spaces between them |
| XmlCondense.CondensedIsFixed | svs_common/tinyxml/tinyxmlparser.cpp:596-637 | taking the words of the result changes nothing |
| XmlCondense.ReadingAgainChangesNothing | svs_common/tinyxml/tinyxmlparser.cpp:596-637 | in legacy encoding, reading the result as text once more gives it again |
| XmlCondense.PrintedTextCondenses | svs_common/tinyxml/tinyxmlparser.cpp:596-637 | of an encoded value only the spaces are condensed, and whitespace before the next tag goes |
| XmlCondense.SurvivesExactly | svs_common/tinyxml/tinyxmlparser.cpp:596-637 | a value survives condensing exactly when no space stands at an end or next to another |
| XmlRoundTrip.ParseUndoesPrint | svs_common/tinyxml/tinyxml.cpp:1769-1857 | at any depth and with any whitespace for indent and line break the parser rebuilds the tree with its texts condensed and leaves what follows |
| XmlRoundTrip.RoundTripExactly | svs_common/tinyxml/tinyxmlparser.cpp:1049-1246 | in default and stream mode the same tree comes back if and only if its texts are not blank and survive condensing |
| XmlNames.AsciiTreeIsValid | svs_common/tinyxml/tinyxmlparser.cpp:1049-1246 | every tree with such names, distinct attribute names and ASCII values without "&#x", no two texts in a row, is one that the round trip covers |
| XmlRoundTrip.SettledExactly | svs_common/tinyxml/tinyxmlparser.cpp:1209-1212 | condensing changes a tree exactly if some text is blank or has a space it would take |
| XmlRoundTrip.AttrReads | svs_common/tinyxml/tinyxmlparser.cpp:1389-1464 | a printed attribute is read back whichever quote it was printed in |
| XmlPrinter.Printer.constructor | svs_common/tinyxml/tinyxml.h:1742-1743 | a new printer indents by four spaces and breaks lines |
| XmlPrinter.Printer.SetStreamPrinting | svs_common/tinyxml/tinyxml.h:1773-1775 | indent and line break become empty |
| XmlPrinter.Printer.DoIndent | svs_common/tinyxml/tinyxml.h:1787-1790 | the indent is appended once for each level |
| XmlPrinter.Printer.PrintAttributes | svs_common/tinyxml/tinyxml.cpp:1775-1779 | the attributes the walk shows are appended, each quoted so that its value can be read back |
| XmlPrinter.Printer.VisitEnter | svs_common/tinyxml/tinyxml.cpp:1769-1803 | the start tag is appended, the depth grows, and the flag says whether one text is all there is inside |
| XmlPrinter.Printer.VisitExit | svs_common/tinyxml/tinyxml.cpp:1806-1829 | the end tag is appended and depth and flag are back |
| XmlPrinter.Printer.VisitText | svs_common/tinyxml/tinyxml.cpp:1832-1857 | the encoded text is appended, on its own line unless the flag is set |
| XmlPrinter.Printer.Accept | svs_common/tinyxml/tinyxml.cpp:846-857 | the calls of one visit together append the text of the tree and leave depth and flag as they were |
| XmlLayout.PrintedAndStreamed | svs_common/tinyxml/tinyxml.cpp:1769-1857 | printing puts each row of a tree on its own line, indented by four spaces a level; stream printing puts the same rows on one line with nothing between |
| XmlLayout.AttrQuoted | svs_common/tinyxml/tinyxml.cpp:1215-1240 | a value stands in double quotes exactly if it holds none |
| XmlLayout.WrittenAs | svs_common/tinyxml/tinyxml.cpp:51-132 | five characters are written by their names, control characters by two upper-case hex digits, all others as they are |
| XmlLayout.PassesThrough | svs_common/tinyxml/tinyxml.cpp:60-82 | what begins with "&#x" passes through up to and including its semicolon |
| XmlLayout.PassesToTheLast | svs_common/tinyxml/tinyxml.cpp:60-82 | without a semicolon it passes through up to the last character, which is written like any other |
| XmlParser.ParseAttrAt | svs_common/tinyxml/tinyxmlparser.cpp:1389-1464 | name, value, end position and errors are those of the specification, quoted or not |
| XmlParser.ParseTagAt | svs_common/tinyxml/tinyxmlparser.cpp:1090-1172 | the attribute loop collects distinct attributes up to the end of the tag and fails on a repeated one |
| XmlParser.ParseElementAt | svs_common/tinyxml/tinyxmlparser.cpp:1049-1174 | the parser on positions builds the specified tree and ends where it ends |
| XmlParser.ParseContentAt | svs_common/tinyxml/tinyxmlparser.cpp:1177-1246 | texts and elements are collected in order up to the next end tag, blank texts dropped |
| XmlAccepts.AcceptsExactly | svs_common/tinyxml/tinyxmlparser.cpp:1049-1246 | the parser accepts an element with this tree at the front of a text if and only if a grammar writes it there: gaps, whole names, distinct attributes in either quote or bare, texts and elements, and the end tag of its own name; the grammar speaks of characters, digits and code points, not of the parser |
| XmlPosition.ParsingData.Stamp | svs_common/tinyxml/tinyxmlparser.cpp:196-311 | the loop moves row, column and stamp to where the walk arrives, and does nothing for a tab size below one |
| XmlPosition.StampSplit | svs_common/tinyxml/tinyxmlparser.cpp:196-311 | stopping on the way leaves no trace, even inside a line end or a character |
| XmlPosition.StuckExactly | svs_common/tinyxml/tinyxmlparser.cpp:261-283 | the loop never ends exactly when, in UTF-8 and before the stamped position, a character begins with a byte 0xEF that has fewer than two bytes after it |
| XmlPosition.EndlessLoop | svs_common/tinyxml/tinyxmlparser.cpp:261-283 | on a start tag with such a byte before its end, stamped there, it never ends, wherever the cursor stood |
| XmlPosition.CleanArrives | svs_common/tinyxml/tinyxmlparser.cpp:196-311 | it ends on every text of whole characters and on every legacy text |
| XmlPosition.WalkCountsCodePoints | svs_common/tinyxml/tinyxmlparser.cpp:196-311 | in well-formed UTF-8 the cursor counts code points, the three without width excepted |
| XmlPosition.WalkCountsBytes | svs_common/tinyxml/tinyxmlparser.cpp:196-311 | in legacy encoding it counts bytes |
| XmlPosition.RowsAreLineFeeds | svs_common/tinyxml/tinyxmlparser.cpp:224-259 | without CR the row is the number of line feeds, and on one line the column is that of a text editor: tabs go to the next multiple of the tab size, the points without width do not count |
| XmlPosition.TabGoesToItsStop | svs_common/tinyxml/tinyxmlparser.cpp:253-259 | over a tab the row stays and the column becomes a multiple of the tab size, larger than before by at most the tab size |
| XmlPosition.LastLineDecides | svs_common/tinyxml/tinyxmlparser.cpp:224-259 | only the line the cursor stands on matters for its column |
| XmlPosition.WalkCountsLineFeeds | svs_common/tinyxml/tinyxmlparser.cpp:196-311 | in both encodings, walked to the end of a text without CR, the row grows by its line feeds |
| XmlNodes.Node.Clone | svs_common/tinyxml/tinyxml.cpp:824-868 | the copy is a tree of the same shape, all of its nodes new and its lists well linked, and the original stays |
| XmlNodes.Node.LinkEndChild | svs_common/tinyxml/tinyxml.cpp:184-208 | the child list grows by the node at its end, or not at all for a document |
| XmlNodes.Node.Adopt | svs_common/tinyxml/tinyxml.cpp:184-208 | linking a subtree with new nodes to a tree makes a tree with that subtree last |
| XmlNodes.Node.InsertEndChild | svs_common/tinyxml/tinyxml.cpp:211-223 | a new copy of the whole tree is appended, or nothing changes for a document; a tree is a tree afterwards, with that subtree last |
| XmlNodes.Node.InsertBeforeChild | svs_common/tinyxml/tinyxml.cpp:226-255 | a new copy of the whole tree stands right before the given child, or nothing changes for a stranger or a document; a tree stays a tree, down to the last level |
| XmlNodes.Node.InsertAfterChild | svs_common/tinyxml/tinyxml.cpp:258-287 | a new copy of the whole tree stands right after the given child, or nothing changes for a stranger or a document; a tree stays a tree, down to the last level |
| XmlNodes.Node.ReplaceChild | svs_common/tinyxml/tinyxml.cpp:290-315 | a new copy of the whole tree takes the child's place and no other changes; a tree stays one exactly if the copy is no document |
| XmlNodes.Node.RemoveChild | svs_common/tinyxml/tinyxml.cpp:318-338 | the child is gone and its neighbours are linked; what is left of a tree is a tree without its nodes |
| XmlNodes.Node.Clear | svs_common/tinyxml/tinyxml.cpp:167-181 | no child is left, and a tree becomes one of a single node |
| XmlNodes.Node.FirstChildOf | svs_common/tinyxml/tinyxml.cpp:340-349 | walking `next` from the front finds the first child of a value |
| XmlNodes.Node.LastChildOf | svs_common/tinyxml/tinyxml.cpp:352-361 | walking `prev` from the back finds the last child of a value |
| XmlAttributes.RunIsAMap | svs_common/tinyxml/tinyxml.cpp:717-744 | after any run of sets and removals each name is there once and finds the value set last |
| XmlAttributes.EditIsMapUpdate | svs_common/tinyxml/tinyxml.cpp:717-744 | an edit changes what its own name finds and nothing else |
| XmlAttributes.EditKeepsOrder | svs_common/tinyxml/tinyxml.cpp:717-744 | overwriting keeps every place, a new name goes to the end, a removal closes the gap |
| XmlAttributes.ShowsAllExactly | svs_common/tinyxml/tinyxml.cpp:1175-1182 | the walk by Next shows every attribute exactly when none after the first is empty in name and value |
| XmlAttributes.AttributeSet.constructor | svs_common/tinyxml/tinyxml.cpp:1503-1507 | a new set is a ring of its sentinel alone |
| XmlAttributes.AttributeSet.Add | svs_common/tinyxml/tinyxml.cpp:1517-1530 | a fresh name is linked in before the sentinel and the ring stays whole |
| XmlAttributes.AttributeSet.Remove | svs_common/tinyxml/tinyxml.cpp:1532-1548 | the node leaves the ring and only its pair leaves the map |
| XmlAttributes.AttributeSet.Find | svs_common/tinyxml/tinyxml.cpp:1576-1584 | the node of that name, or none when no attribute has it |
| XmlAttributes.AttributeSet.SetAttribute | svs_common/tinyxml/tinyxml.cpp:717-744 | the set becomes the map with the name set |
| XmlAttributes.AttributeSet.RemoveAttribute | svs_common/tinyxml/tinyxml.cpp:416-429 | the set becomes the map without the name |
| XmlAttributes.AttributeSet.List | svs_common/tinyxml/tinyxml.cpp:1175-1182 | the pairs the printer's walk sees |
| XmlLineEnds.Load | svs_common/tinyxml/tinyxml.cpp:1034-1078 | the segment-copying loop produces the normalised text of the file up to its first NUL |
| XmlLineEnds.NormalIsJoinedLines | svs_common/tinyxml/tinyxml.cpp:1034-1078 | normalising keeps the lines of the text, whatever ended them, and puts one line feed between them (section 2.11 of XML 1.0) |
| XmlLineEnds.NormalHasNoCr | svs_common/tinyxml/tinyxml.cpp:1034-1078 | the result has no CR, a text changes only if it has one, and normalising again changes nothing |

## Left out

- JSON numbers with fractions or exponents are parsed over exact reals and not printed: the formats `%f`, `%e` and `pow`'s rounding are floating point.
- JsonRoundTrip.ParseSigned: the reals are exact, so integers above 2^53, which a double rounds, come back here; the trees of the round trip hold only integers in int range.
- JsonReader.ReadNumber: does not model the overflow of `subscale` and of `valueint`, nor the sign of zero.
- JsonReader.ReadValue: `valueint` is not kept, and after an error the partly built nodes are not described.
- JsonReader.ReadArray: the loop over elements is a recursion per element, because each turn moves on to a new node; order of allocation and links are the same.
- JsonReader.ReadObject: the loop over members is a recursion per member, for the same reason.
- JsonBuffer.PrintBuffer.Ensure: sizes stay below 2^30, where `int` sums and the size doubling do not overflow.
- JsonPlain.PrintPlain: sizes are unbounded integers, so the overflow of `len` on texts of 2 GB is not modelled.
- JsonPlain.PrintDocumentBuffered: the text and its slack stay below 2^30, for the same reason.
- Allocation failures, the allocation hooks and the freeing of memory.
- `cJSON` create, get, detach and duplicate calls: short list operations.
- Bit operations on code points are written as division and remainder, which is what they compute on these ranges.
- Of a `\u` with a quote or backslash among its four characters it is not described what text it gives, and of truncated UTF-8 not which code points; JsonLetters covers all other escapes, four characters that are no hex digits included.
- Threads: each method of CClientLink is one atomic step, so interleavings inside a method are not covered; a step reads the clock once.
- Sockets, epoll, locks, logging and address handling; event callbacks and the closing NULL message are not recorded.
- VmsOutcomes.OneOutcome: outcomes are counted per transaction number; the order of TIMEOUT callbacks within one sweep is not modelled.
- VmsClient.ClientLink.NotifyLeftMessage: the callbacks for queued messages that are no requests are not recorded.
- VmsClient.ClientLink.SendMsg: a message is at least a header long, as callers build it; null pointers are not modelled.
- VmsClient.ClientLink.CheckHearbeatMsg: the 8-bit miss counter is a number, which the limit of four keeps small.
- VmsHeartbeat.TimeoutIsLate: the interval is one for which the 32-bit products do not wrap; the clock differences are not truncated to 32 bits.
- The packed header is read in little-endian order, as on the machines the stack runs on.
- `svs_vms_server_link.cpp` and the link factory, except for the close after a failing handler.
- XmlRoundTrip.RoundTripExactly: covers elements and texts; names are valid, attribute names differ, values have no `&#x`, no two texts are adjacent, and in UTF-8 no name or text begins with a sequence of no width, since the reader skips it.
- XmlParser.ParseContentAt: comments, CDATA, declarations and unknown tags end the model's parse with an outcome of its own; children are collected in a sequence, and the linked list they go to is the one of XmlNodes.
- XmlParser.ParseElementAt: after an error the partly built tree and the error location are not modelled.
- XmlReader.ScanLeft: `unsigned long` is taken to be 64 bits wide.
- XmlNodes.Node.Clone: copies type, value and children; the attributes of an element are the lists of XmlAttributes and are not copied here, nor is userData.
- XmlNodes.Node.InsertBeforeChild: a node that names this one as its parent has to be in its list, which InsertAfterChild, ReplaceChild and RemoveChild assume as well.
- XmlNodes.Node.LinkEndChild: the node is no child yet and not the parent itself.
- XmlNodes.Node.RemoveChild: a deleted node simply is no child any more; the same holds of ReplaceChild and Clear.
- XmlPosition.ParsingData.Stamp: positions lie inside the text, so the branch for the terminator is never reached.
- XmlReader.SkipWhiteSpace: the null pointer for an empty text is the end position; callers treat both alike, and ReadTextTrimming, which does not, has a branch of its own.
- XmlReader.ReadTextKeeping: ignoring case and switching condensing off are not modelled, since neither parser of elements uses them.
- STL streaming, opening and saving files, TiXmlHandle, TiXmlString and the FILE printers.
