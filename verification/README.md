# Verified model of the event socket client

This project models the four stateful parts of the FreeSWITCH event socket
client library and proves what each of them promises.

* **JSON.** `JSON_Object` is an open-addressed hash table with linear probing,
  backward-shift removal and growth by rehashing. `Probing` holds the probing
  argument on sequences, `ObjectTable` the class with the five arrays, and
  `Members` the ordered member list that the table stands for. On top of it are
  the string code (`Utf8`, `JsonStrings`), the parser (`JsonGrammar` as functions,
  `JsonParser` as the cursor that fills hash tables), the two-pass serializer
  (`JsonText` as functions, `JsonSerializer` as the buffer code), their round trip
  (`JsonRoundTrip`), which texts the parser takes (`JsonLayout`), how the printing
  styles differ (`JsonStyles`), dotted paths (`DotPaths`), copying and equality
  (`CopyAndEquals`, with the numbers of a C `double` in `Doubles`). Hash values are
  computed as in the source; `hash & (cap - 1)` is `hash % cap`, because capacities
  are powers of two.
* **Event headers.** `EventHeaders` says what adding and deleting does to the
  header sequence, `EventStore` is the linked list with its tail pointer that does
  it, and `ArrayText` is the `ARRAY::a|:b` notation with its in-place splitter.
  `EventDup`, `EventSerialize`, `EventJson`, `EventJsonStore` and
  `EventJsonRoundTrip` are the four things done with whole events.
* **Packets.** `PacketBuffer` is the sliding window and its packet scans;
  `Framing` is the receive loop over it, with the socket as a sequence of
  non-empty chunks.
* **Replies and events.** `Demultiplexer` is the queue of events that arrive while
  a command waits for its reply.

The end-to-end statement is `EventJsonRoundTrip.EventJsonRoundTrip`: it rests on
the header list, the hash table, the pretty printer, the string escaper, the UTF-8
check and the parser.

Texts are sequences of bytes; a C string (`cstr`) has no NUL in it, and reading
one past its end gives 0. `size_t` sums are unbounded numbers except where a bound
is what a check in the source tests. Methods with `modifies` are proved against
the functions of the same part, and the lemmas are about those functions.

The frames of `Framing` are those the receive loop itself cuts: the newline that
ends a header block stays in the stream, so a body starts with it and ends one
byte before the sender's body does (`Framing.BodyIsShifted`).

Some results show where the code does less than one might expect. Each is an
if-and-only-if, with an input that falls on the wrong side of it:

* Copying an event is faithful unless the unique-headers flag is set and names
  repeat (`EventDup.DupIsFaithful`, `EventDup.RepeatedNamesAreLost`).
* A rendered array can be added again only if no item holds `|:` and the first
  item is neither empty nor holds `ARRAY::` (`EventHeaders.RenderedArrayRoundTrip`,
  `EventHeaders.SeparatorItemIsLost`).
* The plain serializer cuts an event exactly when a value does not fit into the
  buffer for values, or the text buffer just misses the body
  (`EventSerialize.ReachableIsComplete`). The first happens to long arrays of mostly
  empty items (`EventSerialize.EmptyItemsAreCut`), the second to bodies of a million
  bytes and more (`EventSerialize.LongBodyIsCut`).
* An event comes back from JSON exactly when every header has a JSON member of its
  own and can be read back (`Portable`), and the text is within the parser's limit
  (`EventJsonRoundTrip.EventJsonRoundTrip`). `EventJsonRoundTrip.RepeatedNameDoesNotReturn`
  fails the first, `EventJsonRoundTrip.FullBodyDoesNotReturn` the second: a body of the
  largest size is serialized to a text that is refused.
* A value nested deeper than 2048 levels is printed but refused by the parser
  (`JsonRoundTrip.TextRoundTrip`, `JsonRoundTrip.DeepArraysAreRefused`).
* Equality of JSON values is transitive from a value exactly when every number in it
  is beyond 2^33 in size, where neighbouring doubles are farther apart than the
  tolerance (`CopyAndEquals.TransitiveIffLarge`,
  `CopyAndEquals.SmallNumbersAreNotTransitive`).
* A stream can be cut so that the backlog limit drops the connection, exactly when a
  header block, a body or the tail comes too close to the limit
  (`Framing.NoCutReachesLimitIffBacklogFits`; `Framing.BadCut` makes the cut).

## Model
| member | source | states |
|---|---|---|
| Bytes.LowerJoinsCases | src/esl_event.c:313-353 | two characters are alike when they are the same or the two cases of one letter |
| Bytes.DecimalIsNumeral | src/esl_event.c:1156-1158 | the digits printed for a length stand for that number, without a leading zero |
| Probing.EmptyCellExists | src/parson.c:493 | fewer items than cells always leave an empty cell, so every probe ends |
| Probing.Insert | src/parson.c:649-654 | a new item written to the first empty cell of its probe keeps the table sound: cells and item indices stay mutual inverses and no probe crosses an empty cell |
| Probing.OpenHole | src/parson.c:712-720 | moving the last item into the removed one's place leaves a table that is sound but for one hole |
| Probing.MayMoveMeansBefore | src/parson.c:729-730 | the cyclic test of the shift loop is exactly "the probe of that item meets the hole before its own cell" |
| Probing.ShiftMove | src/parson.c:730-734 | moving such an item back closes the hole and opens the next one |
| Probing.ShiftStay | src/parson.c:724-735 | an item that fails the test can stay: the hole does not cut it off |
| Probing.CloseHole | src/parson.c:726-736 | at the next empty cell the hole may be marked empty and the whole table is sound again |
| Members.PutIsMapUpdate | src/parson.c:2310-2353 | setting a member keeps names distinct and is an update of the map |
| Members.PutInPlace | src/parson.c:2310-2353 | a new value is written where the old one stood, and every other member stays in its place |
| Members.PutBehind | src/parson.c:2310-2353 | a new member goes behind all others |
| Members.RemoveIsMapRemove | src/parson.c:711-720 | removal that moves the last member into the hole keeps names distinct and removes exactly one key from the map |
| Members.RemoveMovesLast | src/parson.c:711-720 | the last member takes the place of the removed one, and every other member stays in its place |
| Members.RemoveKeepsTheRest | src/parson.c:711-720 | only the removed member is missing afterwards, whatever happens to the order |
| Members.LookupAfterRemove | src/parson.c:660-677 | after removal the key is absent and every other key has its old value |
| Members.RunRefinesMap | src/parson.c:623-738 | over every run of add, set, remove and clear the member list refines a plain map with distinct keys |
| ObjectTable.HashString | src/parson.c:444-461 | the loop computes the 64-bit hash of the name |
| ObjectTable.HashIsNumeral | src/parson.c:444-461 | the hash is the number with the base-33 digits of the name behind 5381, modulo 2^64 |
| ObjectTable.NextIsCapacity | src/parson.c:562-566 | doubling from 16 yields powers of two, and the item capacity strictly grows |
| ObjectTable.JsonObject.Init | src/parson.c:479-525 | a new table is sound and empty |
| ObjectTable.JsonObject.GetCellIx | src/parson.c:589-621 | probing finds a key exactly when it is stored, and else ends on the first empty cell of its probe |
| ObjectTable.JsonObject.AbsentAtEmptyCell | src/parson.c:602-607 | a probe that meets an empty cell before the key proves the key absent |
| ObjectTable.JsonObject.GetnValue | src/parson.c:660-677 | lookup is lookup in the member list |
| ObjectTable.JsonObject.Store | src/parson.c:649-654 | writing the five arrays appends the member and keeps the invariant |
| ObjectTable.JsonObject.Add | src/parson.c:623-658 | adds exactly when the name is new and there is room or growth is possible; else nothing changes |
| ObjectTable.JsonObject.GrowAndRehash | src/parson.c:556-587 | growing keeps the items in order, and the nested adds never grow again |
| ObjectTable.JsonObject.SetValue | src/parson.c:2310-2353 | overwrites in place or appends |
| ObjectTable.JsonObject.Clear | src/parson.c:2532-2549 | leaves a sound empty table |
| ObjectTable.JsonObject.GetMembers | src/parson.c:1673-1689 | iteration by index yields the members in order |
| ObjectTable.JsonObject.MoveLastInto | src/parson.c:704-720 | the first half of removal: the items are those after removal and the table has one hole |
| ObjectTable.JsonObject.ShiftBack | src/parson.c:722-736 | the shift loop closes the hole, keeps every item and ends before it has gone round |
| ObjectTable.JsonObject.RemoveInternal | src/parson.c:679-738 | succeeds exactly when the key is stored and leaves the table sound, with the last item moved into the gap |
| ObjectTable.Replay | src/parson.c:556-738 | any run of calls on a real table, however long, ends with the members, and the map, of the same run on lists and maps, as long as it never holds about 2^58 members at once |
| Utf8.IsValidUtf8 | src/parson.c:416-427 | the loop accepts a text exactly when it is a sequence of accepted characters |
| Utf8.SequenceIsUtf8Char | src/parson.c:372-414 | a sequence of k bytes is accepted exactly when it is a UTF8-char of section 4 of RFC 3629 |
| Utf8.ValidIsRfc3629 | src/parson.c:372-427 | the accepted texts are exactly the UTF8-octets of section 4 of RFC 3629 |
| Utf8.ParseHex4ReadsNumerals | src/parson.c:330-356 | four bytes are read as a number exactly when they are its base-16 digits, in either letter case |
| Utf8.EscapeEncodesScalar | src/parson.c:856-904 | an escape is accepted, with bytes that decode to a scalar value, exactly when its digits are those of the value (section 7 of RFC 8259) or of its surrogates (section 2.1 of RFC 2781); every value and no other escape |
| JsonStrings.SkipQuotes | src/parson.c:836-854 | the scanner finds the closing quote or fails |
| JsonStrings.ProcessString | src/parson.c:908-979 | the unescaping loop never writes past its buffer and yields the unescaped text |
| JsonStrings.GetQuotedString | src/parson.c:983-993 | scanner and unescaper together read one quoted string |
| JsonStrings.StepAgreesWithScan | src/parson.c:836-979 | one step of the unescaper, a surrogate pair included, stays in step with the scanner |
| JsonStrings.UnescapeEndsOnQuote | src/parson.c:836-979 | the unescaper stops exactly on the quote the scanner found and has written no more than it has read |
| JsonStrings.EscapeAllRoundTrip | src/parson.c:1408-1541 | scanning and unescaping what the escaper wrote gives the bytes back, for all 256 byte values |
| JsonStrings.StringRoundTrip | src/parson.c:983-1541 | reading a serialized string gives back its bytes and stops right behind it |
| JsonStrings.UnescapeKeepsUtf8 | src/parson.c:908-979 | well-formed UTF-8 between the quotes unescapes to well-formed UTF-8 |
| JsonLayout.QuotedIsString | src/parson.c:836-993 | a quoted string is read to its bytes and its end exactly when it spells them character by character: plain characters from 0x20 on, the eight short escapes, and escapes with digits |
| JsonParser.Parser.ParseValue | src/parson.c:995-1028 | the cursor code computes the grammar function and stops where it says |
| JsonParser.Parser.ParseArrayValue | src/parson.c:1104-1153 | the same for arrays, trailing commas included |
| JsonParser.Parser.ParseMembers | src/parson.c:1052-1101 | the member loop fills a hash table whose members are those of the grammar, and refuses repeated names and names with NUL |
| JsonParser.ParseString | src/parson.c:1566-1574 | a text is parsed, behind an optional byte order mark, to the value of the grammar |
| JsonLayout.ParsesExactlyLayouts | src/parson.c:995-1153 | a value is parsed, and the cursor stops, exactly where a layout of it lies: its tokens in order with any white space in front of each, and at most one comma in front of a closing bracket; names are distinct and levels limited |
| JsonLayout.TextParsesExactlyLayouts | src/parson.c:1566-1574 | the same for whole texts, behind an optional byte order mark |
| JsonLayout.MeetsOnlyNumbers | src/parson.c:995-1028 | a number is only met where a sign or digit stands |
| JsonSerializer.SerializationBuffer.AppendLiteral | src/parson.c:1217-1231 | the next piece of the output is written behind what is there, inside the buffer, and counted |
| JsonSerializer.SerializationBuffer.Advance | src/parson.c:1267-1332 | the count of a nested call moves both the cursor and the total |
| JsonSerializer.SerializeString | src/parson.c:1408-1541 | both passes count, and the second writes, the escaped text and its terminator |
| JsonSerializer.SerializeToBufferR | src/parson.c:1239-1406 | both passes return the length of the same text when it fits in an int, and the second writes exactly that text and a NUL inside the buffer |
| JsonSerializer.SerializeArray | src/parson.c:1256-1291 | the array case of the same |
| JsonSerializer.SerializeObject | src/parson.c:1292-1344 | the object case of the same |
| JsonSerializer.SerializationSize | src/parson.c:2007-2077 | the null-buffer pass returns the length of the text and one more for the terminator |
| JsonSerializer.SerializeToBuffer | src/parson.c:2015-2091 | writes the whole text exactly when the buffer is large enough, else leaves it alone |
| JsonSerializer.SerializeToString | src/parson.c:2052-2134 | the allocated buffer holds exactly the text and its terminator |
| JsonStyles.StylesOfText | src/parson.c:1239-1541 | escaping slashes puts a backslash in front of each; the compact text is the pretty one without white space outside strings; the pretty text is the compact one with line ends behind opening brackets and commas and in front of closing ones, four spaces for each bracket around a line, and a space behind colons |
| JsonStyles.EscapedSizes | src/parson.c:1408-1541 | which bytes are written as themselves, as short escapes and as six bytes |
| JsonRoundTrip.ValueRoundTrip | src/parson.c:995-1406 | wherever the text of a number-free value stands, parsing gives the value back, members in order, and stops at its end, exactly when the nesting stays within 2048 levels |
| JsonRoundTrip.TextRoundTrip | src/parson.c:1239-1574 | the same for whole texts, compact or pretty, with or without escaped slashes; the text has no NUL |
| JsonRoundTrip.DeepArraysAreRefused | src/parson.c:995-1153 | n arrays within one another are printed for every n and read back exactly up to 2048 |
| JsonRoundTrip.ParsedIsPrintable | src/parson.c:995-1153 | what the parser accepts has distinct names and is never nested too deep to be read again |
| JsonRoundTrip.ReprintedTextParsesSame | src/parson.c:995-1574 | serialize after parse is a normal form: it parses to the same value |
| DotPaths.DotGetFollowsSegments | src/parson.c:1630-1642 | a dotted lookup follows the segments of the path one by one |
| DotPaths.SegmentsAreBetweenDots | src/parson.c:1630-1642 | the segments are what stands between the dots |
| DotPaths.GetAfterSet | src/parson.c:2405-2457 | what was set under a path is read back under it |
| DotPaths.GetUnrelatedAfterSet | src/parson.c:2405-2457 | a set changes nothing under paths that lead neither through nor to its own |
| DotPaths.SetChangesAlongPath | src/parson.c:2405-2457 | at each level a set changes the member of that segment alone, where it stands or as a new last one; all others keep their values and places |
| DotPaths.SetRefusedIffBlocked | src/parson.c:2423-2432 | a set is refused exactly when an intermediate value exists and is no object |
| DotPaths.RefusedSetChangesNothing | src/parson.c:2405-2457 | a refused set leaves the object, and every object in it, as it was |
| DotPaths.DotSetIsSound | src/parson.c:2405-2457 | a set keeps the names of every object distinct |
| DotPaths.GetAfterRemove | src/parson.c:740-758 | removal succeeds exactly when there is something under the path, which is then gone |
| DotPaths.GetUnrelatedAfterRemove | src/parson.c:740-758 | removal changes nothing under unrelated paths |
| DotPaths.RemoveChangesAlongPath | src/parson.c:740-758 | at each level but the last a removal changes the member of that segment alone, where it stands; at the last one the last member takes the place of the removed one, and an object that gets empty stays |
| DotPaths.RefusedRemoveChangesNothing | src/parson.c:740-758 | a removal that finds nothing leaves everything as it was |
| DotPaths.DotRemoveIsSound | src/parson.c:740-758 | removal keeps the names of every object distinct |
| CopyAndEquals.DeepCopyValue | src/parson.c:1915-2005 | the copying loops compute the copy function |
| CopyAndEquals.DeepCopyIsSame | src/parson.c:1915-2005 | the copy is the same tree with members in the same order, although values are looked up by name; it fails exactly on trees with repeated names |
| CopyAndEquals.ValueEquals | src/parson.c:2617-2681 | the comparing loops compute the equality predicate |
| CopyAndEquals.EqualsReflexive | src/parson.c:2617-2681 | equality is reflexive |
| CopyAndEquals.EqualsSymmetric | src/parson.c:2617-2681 | equality is symmetric although only the names of one side are looked up |
| CopyAndEquals.EqualsIsSameMeaning | src/parson.c:2617-2681 | without numbers, values are equal exactly when they differ in member order at most |
| CopyAndEquals.TransitiveIffSettled | src/parson.c:2617-2681 | over any set of representable numbers, equality goes on from a value over any equal value to the next exactly when around none of its numbers two steps below the tolerance reach the tolerance |
| CopyAndEquals.TransitiveIffLarge | src/parson.c:2617-2681 | over the doubles, that is exactly when every number in the value is beyond 2^33 in size; without numbers it always holds |
| CopyAndEquals.SmallNumbersAreNotTransitive | src/parson.c:2671-2673 | from any double up to 2^33 in size equality is not transitive |
| Doubles.SettledIffLarge | src/parson.c:2671-2673 | among the doubles the tolerance reaches no neighbour exactly beyond 2^33; up to there two steps below it lead away by it |
| ArrayText.FindIsFirst | src/esl.c:1738 | the substring search finds the first occurrence and misses none |
| ArrayText.CountSeparators | src/esl_event.c:495-505 | the counting loop counts the separators |
| ArrayText.SeparateInPlace | src/esl.c:1719-1747 | overwriting separators with terminators leaves every piece as a string at the returned position |
| ArrayText.SeparateIsSplit | src/esl_event.c:495-518 | the count and the splitter agree: all separators are cut and the pieces join to the whole text |
| ArrayText.SplitLeavesNoSeparator | src/esl.c:1737-1744 | no piece holds a separator |
| ArrayText.SplitJoin | src/esl_event.c:518-527 | splitting a joined text gives the pieces back when none of them holds a separator |
| EventHeaders.EqualNamesEqualHashes | src/esl_event.c:313-353 | names equal up to case have equal hashes, so the hash filter hides no match |
| EventHeaders.HashIsNumeral | src/esl_event.c:313-334 | the hash is the number with the lower-case letters as base-33 digits, modulo 2^32 |
| EventHeaders.DeleteKeepsSound | src/esl_event.c:384-426 | deleting removes exactly the matching headers, and only first headers of a name stay arrays |
| EventHeaders.DeletesOneByOne | src/esl_event.c:405-424 | each header goes or stays by itself: it goes if its name is equal up to case and its value is the one asked for, if one is |
| EventHeaders.AddKeepsSound | src/esl_event.c:535-810 | every add, failed or not, keeps the header invariant: rendered values match their arrays, only the first header of a name is an array, first items are plain |
| EventHeaders.AddArrayKeepsSound | src/esl_event.c:482-533 | the same for texts in array notation, whose recursion ends because the data gets shorter |
| EventHeaders.ReachableIsSound | src/esl_event.c:384-870 | the invariant holds after every run of adds, array adds, deletes, body and flag changes |
| EventHeaders.ReachableBodyFits | src/esl_event.c:535-870 | after every run the body is no longer than an add or `esl_event_set_body` accepts |
| EventHeaders.PushExtends | src/esl_event.c:691-769 | a push to a name that is there changes its first header alone: a scalar becomes the array of its value and the new item, an array gets one item more, and the value shows all of them |
| EventHeaders.AddThenPush | src/esl_event.c:535-845 | a text added and another pushed to its name make the array of both |
| EventHeaders.AddAppends | src/esl_event.c:663-795 | a plain text goes behind all headers; under the unique-headers flag those of its name go first |
| EventHeaders.AddEmptyDeletes | src/esl_event.c:663-669 | an empty text deletes the headers of that name |
| EventHeaders.AddMarkedIsArray | src/esl_event.c:671-682 | a text with the array marker is added as an array |
| EventHeaders.AddBodySetsBody | src/esl_event.c:552-556 | the name `_body` stands for the body, which has a limit; no header changes |
| EventHeaders.AddLeavesOthers | src/esl_event.c:482-845 | no add, array texts included, touches a header of another name, the event id or the flag |
| EventHeaders.PushedItemsRebuild | src/esl_event.c:691-769 | pushing the items of a sound array one by one rebuilds its header |
| EventHeaders.RenderedArrayRoundTrip | src/esl_event.c:482-769 | adding the rendered value of two or more items rebuilds the array exactly when no item holds the separator and the first can start a header |
| EventHeaders.SeparatorItemIsLost | src/esl_event.c:482-769 | an array made by two pushes, the second of the separator, is not rebuilt from its value |
| EventStore.CiHashOf | src/esl_event.c:313-334 | the loop computes the case-insensitive hash |
| EventStore.HeaderNode.PushItem | src/esl_event.c:691-769 | appends an item, turning a scalar into an array first, and renders the value anew |
| EventStore.HeaderNode.Redraw | src/esl_event.c:734-769 | the rendering loop yields the marker and the joined items |
| EventStore.EslEvent.GetHeaderPtr | src/esl_event.c:336-353 | the walk with its hash filter returns the first header of that name |
| EventStore.EslEvent.Unlink | src/esl_event.c:409-418 | a node is taken out of the list, which stays acyclic and ended by the tail pointer |
| EventStore.EslEvent.DelHeaderVal | src/esl_event.c:384-426 | the list afterwards is the list without the matching headers |
| EventStore.EslEvent.Append | src/esl_event.c:785-793 | a node is linked behind the tail |
| EventStore.EslEvent.AddNew | src/esl_event.c:684-795 | a new header with its hash and value is made and linked |
| EventStore.EslEvent.AddHeaderString | src/esl_event.c:535-845 | the add on the linked list does what the add on the header sequence does |
| EventStore.EslEvent.AddArrayString | src/esl_event.c:482-533 | the array add, through copy, splitter and pushes, does the same |
| EventDup.DupEvent | src/esl_event.c:951-1002 | the copying walk builds a separate list with the headers of the copy function |
| EventDup.DupIsFaithful | src/esl_event.c:951-1002 | the copy of a reachable event is the event, repeated names and arrays included, exactly when the unique-headers flag is clear or names are distinct |
| EventDup.RepeatedNamesAreLost | src/esl_event.c:951-1002 | two adds of one name and then the flag: the copy differs |
| EventSerialize.LineIsComplete | src/esl_event.c:1066-1121 | from any state of the buffers a line is complete exactly when its value fits into the value buffer and, for an empty value, the undercounted `_undef_` is not just missed; else it is shorter |
| EventSerialize.BodyIsComplete | src/esl_event.c:1127-1164 | from any state of the buffers the final block is complete exactly when the growth rule does not just miss the line end, or the room for the digits of the length |
| EventSerialize.SerializedIsComplete | src/esl_event.c:1004-1168 | for any headers and body, the text is the lines and the body block exactly when every value fits into the value buffer and the text buffer, whose size follows from the header sizes alone, just misses neither an `_undef_` nor the body block |
| EventSerialize.ReachableIsComplete | src/esl_event.c:384-1168 | after every run of adds, array adds, deletes, body and flag changes the text is complete exactly when every value fits and the body block is not just missed |
| EventSerialize.ArrayFits | src/esl_event.c:1041-1090 | which rendered arrays fit: the room counts one byte for an item where rendering takes two |
| EventSerialize.TextReadsBack | src/esl_event.c:1041-1164 | a reader that splits lines at the first colon gets the names and values in order, the length of the body and the body, if no name holds a colon and no name or value a line feed |
| EventSerialize.ReachableIsSerializedCompletely | src/esl_event.c:1004-1168 | a reachable event with non-empty items and a body below 1,000,000 bytes is never cut |
| EventSerialize.EmptyItemsAreCut | src/esl_event.c:1041-1090 | one push of `x` and 800 empty pushes make an event that is cut |
| EventSerialize.LongBodyIsCut | src/esl_event.c:1127-1164 | two adds, of 1,000,000 and 2,000 bytes, and a body of 1,002,037 bytes make an event whose body is cut |
| EventSerialize.WriteHeader | src/esl_event.c:1041-1121 | one turn of the header loop on its two growing buffers |
| EventSerialize.Serialize | src/esl_event.c:1004-1168 | the walk over the list with both buffers produces the modelled text |
| EventNames.FindEventName | src/esl_event.c:196-213 | finds the first event type whose name matches, also behind 13 characters |
| EventNames.MatchesAloneOrPrefixed | src/esl_event.c:204-210 | a name matches when it is that of the type up to case, or that behind 13 characters of any kind |
| EventJsonStore.CreateEventJson | src/esl_event.c:1177-1303 | parsing and adding member by member builds the event of the creation function |
| EventJsonStore.AddTextTo | src/esl_event.c:1228-1263 | a text member becomes the body, an event name or a header |
| EventJsonStore.HeadersToMembers | src/esl_event.c:1327-1370 | the header loop fills a hash table with one member for each header name, or refuses |
| EventJsonStore.SerializeEventJson | src/esl_event.c:1305-1401 | the text is the pretty print of that object and its body members, and is refused exactly when a name, value or body is too long or not UTF-8 |
| EventJsonRoundTrip.PortableReturns | src/esl_event.c:1177-1401 | a portable event is rebuilt, with only a Content-Length header added for a body |
| EventJsonRoundTrip.ReturnsOnlyIfPortable | src/esl_event.c:1177-1401 | no other event is rebuilt, by counting the headers that members can make |
| EventJsonRoundTrip.EventJsonRoundTrip | src/esl_event.c:1177-1401 | a reachable event that can be serialized comes back from its JSON text with the same headers in order, the same arrays and the same body, exactly when it is portable and the text is no longer than 16,777,216 bytes |
| EventJsonRoundTrip.SerializesIffTextsFit | src/esl_event.c:1305-1401 | serialization is refused exactly for a name above 1024 bytes, or a value, item or body that is above 16,777,216 bytes or not UTF-8 |
| EventJsonRoundTrip.FullBodyDoesNotReturn | src/esl_event.c:1177-1401 | a body of 16,777,216 letters is accepted and serialized, and the text is refused although the event is portable |
| EventJsonRoundTrip.RepeatedNameDoesNotReturn | src/esl_event.c:1177-1401 | an event with two headers of one name is serialized and does not come back |
| EventJsonRoundTrip.CreatedIsSound | src/esl_event.c:1177-1303 | whatever the text, a created event satisfies the header invariant |
| EventJsonRoundTrip.CreatedIdIsNamed | src/esl_event.c:1237-1250 | the type of a created event is the one that the last event-name member names |
| EventJsonRoundTrip.CreatedMembersAreAcceptable | src/esl_event.c:1205-1298 | nothing is created from an object with a name, text, array, item or event name that is refused |
| EventJsonRoundTrip.OtherMembersAreIgnored | src/esl_event.c:1227-1298 | a member that is neither a text nor an array leaves no trace |
| PacketBuffer.FindIsStable | src/esl_buffer.c:211-278 | a packet end found in a window is the one found in every longer window |
| PacketBuffer.FindOnPrefix | src/esl_buffer.c:211-278 | a packet end found in a window is found in every part of it that reaches past that end |
| PacketBuffer.FindsFirstBlankLine | src/esl_buffer.c:243-278 | a packet ends at the first newline that follows a newline, with at most a carriage return between, if no NUL comes first |
| PacketBuffer.CountsBlankLines | src/esl_buffer.c:211-241 | without such a newline no packet is counted; else one, and those in the bytes behind it |
| PacketBuffer.PacketIffCounted | src/esl_buffer.c:211-278 | with room for a byte, a packet is handed out exactly when the count is not zero |
| PacketBuffer.Buffer.constructor | src/esl_buffer.c:52-91 | an empty buffer, with the defaults for start length and block size |
| PacketBuffer.Buffer.AcceptsWhatFits | src/esl_buffer.c:280-340 | bytes are refused exactly when they pass the maximum or the address range |
| PacketBuffer.Buffer.Write | src/esl_buffer.c:280-362 | appends exactly the given bytes through compaction and regrowth, or refuses and keeps what is pending |
| PacketBuffer.Buffer.Read | src/esl_buffer.c:167-183 | takes the front bytes, and all bytes removed and pending are those accepted |
| PacketBuffer.Buffer.Toss | src/esl_buffer.c:185-209 | drops the front bytes in the same way |
| PacketBuffer.Buffer.Zero | src/esl_buffer.c:364-371 | drops everything |
| PacketBuffer.Buffer.Seek | src/esl_buffer.c:118-137 | restarts the window at an offset, which can bring bytes back |
| PacketBuffer.Buffer.ReadLoop | src/esl_buffer.c:139-158 | reads on from the start of the data while loops are left; what is read, what stays pending and what is removed are given in both cases |
| PacketBuffer.Buffer.PacketCount | src/esl_buffer.c:211-241 | counts the complete packets in the window |
| PacketBuffer.Buffer.ReadPacket | src/esl_buffer.c:243-278 | hands out the bytes in front of the newline that ends the first packet; that newline stays |
| Framing.FirstFrameIsCut | src/esl.c:1234-1395 | a frame is the bytes in front of the first empty line, as many as the read buffer takes, and as many more as they announce; with the rest they are the stream |
| Framing.NoFirstFrame | src/esl.c:1234-1395 | without an empty line there is no frame yet |
| Framing.FramesAreAPrefix | src/esl.c:1234-1395 | the frames one behind the other are a prefix of the stream: nothing is dropped between them |
| Framing.BodyIsShifted | src/esl_buffer.c:243-278 | a body behind a whole header block is the newline that ended the block and all but the last byte of the body sent, which stays |
| Framing.ReceiveFollowsStream | src/esl.c:1234-1395 | one call delivers the first frame of the byte stream however it was cut, or fails because there is none, unless the backlog passes the limit |
| Framing.RunDeliversFrames | src/esl.c:1234-1395 | a connection delivers the frames of its stream, or the first of them if the limit is reached |
| Framing.ShortStreamsNeverReachLimit | src/esl.c:1321-1327 | a stream within the limit never reaches it, whatever the size of the chunks |
| Framing.NoCutReachesLimitIffBacklogFits | src/esl.c:1234-1395 | no way of cutting a stream into reads reaches the limit exactly when, frame by frame, the bytes waited with and one more read fit: a condition on the stream alone |
| Framing.SmallFramesFit | src/esl.c:1234-1395 | that holds of streams of any length whose header blocks and bodies stay one read below the limit, with a tail within it |
| Framing.ShortStreamFits | src/esl.c:1321-1327 | and of every stream within the limit |
| Framing.ChunkingDoesNotMatter | src/esl.c:1234-1395 | two ways of cutting the same stream into reads deliver the same frames, those of the stream, when the backlog fits |
| Framing.Handle.ReceiveChunk | src/esl.c:1304-1327 | one more chunk is appended to the backlog, or the limit is reached |
| Framing.Handle.RecvEvent | src/esl.c:1210-1395 | the two loops on the real buffer end as the loop functions say and leave what they leave |
| Demultiplexer.TakesFirstReply | src/esl.c:1668-1704 | the first arrival that is no event ends the wait, as the reply if it is a message; the events in front of it are queued in order and what comes behind it stays |
| Demultiplexer.AwaitReplyIsFaithful | src/esl.c:1668-1704 | waiting for a reply queues the events that arrive first, in order, behind those already queued |
| Demultiplexer.EventsAreConserved | src/esl.c:1210-1717 | over every run, events handed out followed by those queued are exactly the arrivals not taken as replies, in order, only reply types are taken, and no arrival disappears |
| Demultiplexer.QueueIsServedFirst | src/esl.c:1230-1236 | as many receives as there are queued events hand them out in order and leave the connection alone |
| Demultiplexer.EmptyQueueReceives | src/esl.c:1230-1236 | with an empty queue a receive hands out the next message, whatever its type |
| Demultiplexer.Handle.SendRecvTimed | src/esl.c:1644-1717 | the loop on the handle is the reply function, and returns the reply it took |
| Demultiplexer.Handle.RecvEvent | src/esl.c:1230-1236 | the queue is served before the connection |

## Left out
- Sockets, polling, connecting, authentication, logging, threads and locks. The demultiplexer is a single thread's view; the moment between unlock and lock at src/esl.c:1694-1695 is not modelled.
- Numbers in JSON text: a text with a number where a value is expected ends with an outcome of its own, and the codec theorems are about number-free values. In equality numbers are the finite doubles, but their difference and the tolerance are exact, where the program rounds them.
- How the accepted texts compare with the grammar of RFC 8259: JsonLayout states them on their own, with trailing commas, vertical tabs and form feeds as white space, and text behind the value.
- Allocation failure, ownership and `parent` pointers. The size checks in front of `realloc` calls in the event code (sums near SIZE_MAX) are not modelled either; sums are unbounded there.
- `ESL_STACK_TOP`, `ESL_STACK_UNSHIFT` and indexed names `Name[i]`. Names with `[` are excluded by the type of header names, and creating an event from a JSON member with such a name ends with an outcome of its own.
- Subclass events, priorities, keys and user data of events.
- URL-encoded serialization, configuration files, comment stripping, `json_validate`, typed getters and setters, the JSON array API: they would add easy members only.
- Loop counters of type `unsigned int` that run up to a `size_t` bound are unbounded numbers.
- `PARSON_FORCE_HASH_COLLISIONS` is taken as undefined, and so are assertions (src/esl_event.c:403).
- Dotted paths work on value trees: a nested object is written back into its parent, where the program updates it in place. Copying and equality also work on trees.
- JsonParser.Parser.ParseValue: number tokens end with an outcome of their own, and texts are limited to 2^58 bytes, below the sizes at which a table refuses to grow.
- JsonParser.Parser.ParseArrayValue: the same limits.
- JsonParser.Parser.ParseMembers: the same limits.
- JsonParser.ParseString: the same limits.
- JsonSerializer.SerializeToBufferR: counts are claimed only for output that fits in an `int`. The count of a member value is added without a check (src/parson.c:1332), which could overflow a signed integer for longer output. Values are without numbers.
- JsonSerializer.SerializeArray: the same limits.
- JsonSerializer.SerializeObject: the same limits.
- JsonSerializer.SerializationSize: the same limits.
- JsonSerializer.SerializeToBuffer: requires output that fits in an `int` and a value without numbers, for the same reason.
- JsonSerializer.SerializeToString: requires the same.
- ObjectTable.Replay: runs that hold 2^58 - 1 members or more at once are left out; there a table can refuse to grow, and the refusal is in the contracts of the table's methods.
- EventHeaders.AddKeepsSound: `ESL_STACK_TOP`, `ESL_STACK_UNSHIFT` and indexed names are not modelled.
- EventHeaders.ReachableIsSound: runs are of the modelled actions only.
- EventStore.EslEvent.AddHeaderString: the same adds as in the header sequence.
- EventStore.EslEvent.DelHeaderVal: the returned status is not modelled; it is `ESL_SUCCESS`, which is 0, whether or not a header matched.
- EventDup.DupEvent: subclass, key and user data are not copied in the model.
- EventJsonStore.CreateEventJson: texts with numbers and indexed names end with outcomes of their own.
- EventJsonStore.SerializeEventJson: requires output that fits in an `int`, and fewer headers than would make the hash table refuse to grow.
- Framing.ReceiveFollowsStream: what the header block says is left open (any function from the block to a body length). The check for an oversized header at src/esl.c:1245-1249 is left out because PacketBuffer.PacketIffCounted shows that it never fires.
- Framing.Handle.ReceiveChunk: empty polls and timeouts are not modelled.
- Framing.Handle.RecvEvent: reading the header block is a parameter, and the parsing of an event text behind the body is not modelled.
- Demultiplexer.Handle.SendRecvTimed: sending the command and the check for a lost connection are not modelled.
- PacketBuffer.Buffer.ReadPacket: the scans look at one byte before they test the end of the window; the model tests first, with the same result. The newline that ends a packet stays in the buffer, as in the source.
- `esl_event_create_json` reports status 0 without an event for text that is no JSON object; the model has an outcome for that.
