# Verification of the shared core of the retail client

A Dafny model of the parts of this repository that carry its data: the JSON library every
message goes through, the logger's lock-free ring, the H.264 stream parser, face box
suppression, message framing, image scaling and update download. Each part states what the
code promises over every input, every run or every interleaving.

`dafny verify dfyconfig.toml` checks the whole project.

## How it is built

| files | part |
|---|---|
| `Bytes` | bytes, C strings, powers of two |
| `JsonValue`, `JsonGrammar` | trees, the text the printer should give, the parser as functions of the unread input |
| `JsonRoundTrip`, `JsonLiteral`, `JsonText` | parsing undoes printing; room for decoded strings and \u sequences; parsing any JSON text |
| `JsonAccepted` | the texts that the parser takes, exactly |
| `JsonNumber`, `JsonLayout` | what a number denotes; printed text as JSON text, its white space and escapes |
| `JsonList`, `JsonForest`, `JsonNodes` | nodes on the heap: list operations, trees put together from lists, the nodes that stand for a value |
| `JsonParser`, `JsonPrinter` | the cursor that builds nodes and the growing buffer that is printed into, statement by statement |
| `JsonDuplicate`, `JsonCompare`, `JsonNodeCompare` | copying and comparing trees of nodes |
| `LogRing`, `LogRingInvariant`, `LogRingQueue` | the ring as one atomic step after another, its invariant, the queue it implements |
| `H264Bits`, `H264Sps`, `H264Feed`, `H264Stream`, `H264Statistics` | bit reading, parameter sets, the feed loop, splitting and joining, statistics of whole runs |
| `Suppression`, `Framing`, `Resize`, `OtaDownload` | the four client components |

Code that changes state is a class or a method over arrays, proved against a function; the
theorems are then about that function. The ring is a state machine whose steps are single
loads, stores, compare-and-swaps, lock attempts and copied words of any number of threads.

## Where the code differs from what is said about it

- `PrintPreallocated`: the header advises five spare bytes (common/cjson/cJSON.h:162); the code needs exactly
  two bytes more than the text, the terminator being one of them.
- `AddItem`: an item that still has a `next` is linked in with it; the list is then no list
  (common/cjson/cJSON.c:1974-2005). The exact condition is proved.
- `InsertIntoItself`: adding a list to itself is refused, but inserting it before one of its own children is not
  (common/cjson/cJSON.c:2281-2313).
- `InsertItemInArray`, `ReplaceItemViaPointer`: an item that already is a child leaves no list; but the first child put in
  the place of the last, of three or more, leaves the well-formed list of that child alone.
- `CompareIsSameMeaning`: an object that repeats a key with two values is equal to itself but not to its own copy.
- `NumberReadExactly`: numbers longer than 63 bytes are not read whole.
- `ReadAsNulExactly`: a \u sequence with a digit that is none is not refused but taken for U+0000, which cuts the
  string (common/cjson/cJSON.c:623-656); `OddDigitsCutString` is an instance.
- `FormReads`: a JSON text with an unpaired surrogate escape, such as "\uD800", is refused
  (common/cjson/cJSON.c:678-715); RFC 8259 has it in its grammar.
- `AcceptedExactly`: so the language taken is neither larger nor smaller than that of RFC 8259.  Beside its texts, any
  byte up to 32 is white space, and the predicates `AcceptedName` and `AcceptedNumber` say what else is taken.
- `AcceptedBeginning`: what follows the value is ignored unless the terminator is asked for.
- `ScalarsParse`: a literal with \u0000 is cut there, as the result is a C string.
- `SizeIsStandardExactly`: crop offsets are always taken in units of two samples, which is right for 4:2:0 only.
- `SplitPadded`: trailing_zero_8bits of section B.1, which belong to no unit, are handed over with the unit before them,
  but for one where a three-byte start code follows.
- `FrameNumReadExactly`: the standard counts profile 135 among those with high-profile fields, the code does not
  (client/core/h264_parser.c:92-97), so such a set is read one field off.
- `SegmentationIndependence`: after a bad length the result depends on how the stream was cut, as only
  the bytes that had arrived are dropped (client/core/networkmanager.cpp:190-195).
- `RunDiesExactly`: a chunk announced with a total of zero reaches a division by it
  (client/services/otaupdater.cpp:126, client/services/clientservice.cpp:289-300).
- `ProgressIsPercentage`: the total is unchecked, so the progress shown can be 200 or -100
  (client/services/otaupdater.cpp:126-128).
- `SendReceive`: the sender writes frames of any length; the receiver accepts 1 to 65536 bytes.
- `EmptyWhenTailReadFirst`: C leaves the order of the two loads in `ring_empty` open (common/logger.c:94-98). Agreement
  means that the ring was empty in the order in which they are written only; `LeftWhenHeadReadFirst` says what it
  means in the other, and `HeadFirstMisleads` gives a run in which the ring was never empty.
- `RingSize`: a request above 2^30 slots makes the doubling overflow.

## Model

| member | source | states |
|---|---|---|
| JsonRoundTrip.PrintParse | common/cjson/cJSON.c:1325-1843 | For every tree of null, booleans, 32-bit integers, NUL-free strings, arrays and objects, in both layouts and with or without the terminator check: parsing the printed text gives the same tree and ends right behind the text if the tree nests at most 1000 deep, and fails if it nests deeper |
| JsonRoundTrip.ValueRoundTrip | common/cjson/cJSON.c:1325-1843 | The same inside a larger text: at any depth of open brackets a printed value followed by a delimiter is read back whole, and what follows is left unread, exactly when the limit is kept |
| JsonRoundTrip.NumberRoundTrip | common/cjson/cJSON.c:307-381 | The decimal text of a 32-bit integer, before anything that is not part of a number, is read back as that number |
| JsonRoundTrip.StringRoundTrip | common/cjson/cJSON.c:781-1030 | The quoted form of a NUL-free string, before any text, is read back as that string and the text behind it is left unread |
| JsonRoundTrip.EscapeRoundTrip | common/cjson/cJSON.c:832-882 | Decoding the escapes of a NUL-free string gives the string |
| JsonRoundTrip.LiteralEndAfterEscape | common/cjson/cJSON.c:795-817 | The first pass over a printed string stops at its own closing quote, not at an escaped one |
| JsonRoundTrip.RenderNulFree | common/cjson/cJSON.c:1380-1843 | Printed text never contains a terminator of its own |
| JsonLayout.RenderIsJson | common/cjson/cJSON.c:1380-1843 | Printed text is a JSON text of RFC 8259, in both layouts and at any depth, and its value is the tree that was printed |
| JsonLayout.RenderStripped | common/cjson/cJSON.c:1380-1843 | In both layouts the printed text is the compact one with white space put in between, none of it inside a string and nothing else different |
| JsonLayout.UnformattedIsCompact | common/cjson/cJSON.c:1380-1843 | Printed without format there is no white space outside of strings |
| JsonLayout.FormattedExample | common/cjson/cJSON.c:1552-1843 | One formatted text: a line and tabs for each member, a tab behind the colon, a space behind the comma of an array, an empty object over two lines |
| JsonLayout.EscapeIsShortest | common/cjson/cJSON.c:938-1026 | No spelling of a byte that RFC 8259 has is shorter than the one printed |
| JsonLayout.ControlByte | common/cjson/cJSON.c:1017-1021 | Other control bytes are written with four hexadecimal digits in lower case |
| JsonText.FormReads | common/cjson/cJSON.c:307-1729 | Every JSON text of RFC 8259, with any white space, escapes and numbers of its grammar, at any depth of open brackets and, for a number, before any delimiter: it is read as its value, and what follows is left unread, exactly when it nests at most 1000 deep, no number in it is longer than 63 bytes, and every \u sequence for a surrogate has its other half beside it |
| JsonText.LoneSurrogateRefused | common/cjson/cJSON.c:659-715 | The JSON text "\uD800" is refused |
| JsonText.TextReads | common/cjson/cJSON.c:1088-1181 | The same for a whole C string with white space around the value and a byte order mark in front or not, with the terminator required or not: the tree and where it ends, or a failure; only a number by itself that is too long is taken in part when no terminator is required |
| JsonText.NameReads | common/cjson/cJSON.c:781-908 | A string in any accepted spelling is read as its UTF-8 bytes up to the first NUL when its surrogates come in pairs, and refused when they do not |
| JsonText.NumberReads | common/cjson/cJSON.c:307-381 | Sign, digits, fraction and exponent are converted to the number they denote, and all their bytes are used |
| JsonNumber.NumberMeans | common/cjson/cJSON.c:307-381 | What a number means: the number read is the integer that its digits write by their places, before and behind the point, times ten to the power of the exponent less the digits behind the point, below zero as the sign has it; powers of ten are products of tens, and below zero the number is what times the product gives the integer |
| JsonNumber.DigitsArePlaces | common/cjson/cJSON.c:352-358 | Reading digits from the left gives the integer that they write by their places, leading zeros or not |
| JsonNumber.BalanceRead | common/cjson/cJSON.c:307-381 | 88.50 is read as 88.5, with 88 as its integer |
| JsonNumber.ValueIntExactly | common/cjson/cJSON.c:362-375 | The integer beside the number is cut off toward zero and at the ends of the 32-bit range |
| JsonText.NumberCharacters | common/cjson/cJSON.c:318-343 | The bytes taken for a number are the digits, +, -, the point, e and E |
| JsonText.EscapeTable | common/cjson/cJSON.c:835-866 | The letters behind a backslash, and what each stands for |
| JsonText.Keywords | common/cjson/cJSON.c:1331-1349 | The keywords are null, false and true |
| JsonText.DeepestNesting | common/cjson/cJSON.c:1454-1465 | A text of n opening and n closing brackets is parsed exactly when n is at most 1000 |
| JsonText.NumberReadExactly | common/cjson/cJSON.c:316-348 | A number, with or without sign, fraction and exponent, is read as what it denotes with nothing of it left exactly when it has at most 63 bytes |
| JsonText.AcceptedReads | common/cjson/cJSON.c:307-1729 | The same for every text of the larger grammar that the code goes by: any byte up to 32 as white space, control bytes in strings, \u sequences with odd digits, leading zeros, digits missing on one side of the point |
| JsonAccepted.FormOf | common/cjson/cJSON.c:1325-1729 | Conversely, whatever the parser reads as a value is a text of that grammar, followed by what it leaves unread, whose value is the one read, and which keeps all three limits |
| JsonAccepted.AcceptedExactly | common/cjson/cJSON.c:1088-1181 | The language of the parser with the terminator required: a C string is parsed to a tree exactly when it is an accepted spelling of that tree's value that keeps the limits, and then to its end |
| JsonAccepted.AcceptedBeginning | common/cjson/cJSON.c:1088-1181 | The language without the terminator required, as cJSON_Parse asks: exactly when the string begins, behind mark and white space, with such a spelling, a number being the longest that stands there; what follows is ignored |
| JsonAccepted.NumberExactly | common/cjson/cJSON.c:307-381 | Among the accepted numbers of at most 63 bytes that a text begins with, the one read is the longest |
| JsonAccepted.NameOf | common/cjson/cJSON.c:781-908 | Whatever is read as a string is a quoted sequence of accepted pieces with surrogates in pairs, closed at the quote the first pass finds, whose bytes up to the first NUL are the string |
| JsonAccepted.NumberTaken | common/cjson/cJSON.c:307-381 | Whatever is read as a number is one of at most 63 bytes, digits on at least one side of the point |
| JsonValue.EscapeLength | common/cjson/cJSON.c:938-1026 | The bytes counted by the first pass of the string printer are the bytes written by its second pass |
| JsonLiteral.OutputFits | common/cjson/cJSON.c:794-882 | For every string literal, well formed or not, decoding writes at most the bytes that the first pass of the parser counted, even where the two passes disagree on which backslash begins an escape |
| JsonLiteral.Skip | common/cjson/cJSON.c:795-815 | When the second pass has read k bytes the first pass stands at the same byte or one further, and has counted at least one unit for every two bytes |
| JsonLiteral.ScalarsDecode | common/cjson/cJSON.c:659-778 | For every list of Unicode scalar values written as \uXXXX or surrogate pairs, hexadecimal digits in either case, decoding gives their UTF-8 encodings one after the other |
| JsonLiteral.ScalarsParse | common/cjson/cJSON.c:781-908 | Parsing such a literal gives that encoding as a C string, and the whole of it exactly when U+0000 is not among the values |
| JsonLiteral.Utf8Inverts | common/cjson/cJSON.c:716-769 | The bytes produced are UTF-8: reading them as section 3 of RFC 3629 says gives the scalar values back |
| JsonParser.MeasureLiteral | common/cjson/cJSON.c:794-817 | The sizing loop finds the closing quote of the literal if there is one and counts the escape pairs before it |
| JsonParser.WriteUtf8 | common/cjson/cJSON.c:716-769 | The byte loop that runs from the last byte to the first appends the UTF-8 encoding to what the buffer held, within the buffer |
| JsonParser.ParseHex4 | common/cjson/cJSON.c:623-656 | The digit loop gives the value of four hexadecimal digits, or 0 when one of them is not a digit |
| JsonParser.Utf16ToUtf8 | common/cjson/cJSON.c:660-778 | Decodes one unit or a surrogate pair in place, with the number of input bytes used; refuses a low surrogate by itself, a high one without a low one behind it, and a sequence cut short, while digits that are none make the unit 0 |
| JsonLiteral.ReadAsNulExactly | common/cjson/cJSON.c:623-686 | A six-byte sequence is taken for U+0000 exactly when its digits are 0000 or one of them is not hexadecimal |
| JsonLiteral.OddDigitsCutString | common/cjson/cJSON.c:623-908 | A string with such a sequence in it is accepted and cut there |
| JsonParser.DecodeLiteral | common/cjson/cJSON.c:825-908 | The decoding loop fills an output buffer of the counted size with the decoded bytes, or stops at the first malformed escape |
| JsonParser.ParseBuffer.SkipWhitespace | common/cjson/cJSON.c:1047-1070 | The cursor moves over bytes up to 32 and steps back to the last byte when the input runs out |
| JsonParser.ParseBuffer.SkipBom | common/cjson/cJSON.c:1073-1086 | A byte order mark is skipped only when more than four bytes are there |
| JsonParser.ParseBuffer.ParseNumber | common/cjson/cJSON.c:307-381 | At most 63 number bytes are copied; the node gets the number and its saturated integer, the cursor moves by what the conversion used, or both stay when it used nothing |
| JsonParser.ParseBuffer.ParseString | common/cjson/cJSON.c:781-908 | Both passes together: the node gets the decoded text up to its first NUL and the cursor stands behind the quote, or it stands at the byte that failed; every write lies inside the allocation |
| JsonParser.ParseBuffer.ParseValue | common/cjson/cJSON.c:1325-1377 | For any input: succeeds exactly when the grammar does, with its cursor and depth, and fails at its position; on success the node is the root of a tree of new nodes that stands for the grammar's value, its sibling links untouched |
| JsonParser.ParseBuffer.ParseArray | common/cjson/cJSON.c:1454-1549 | The bracket, depth limit and empty-array cases and the element loop fill the node with the array the grammar gives, or fail at the same byte |
| JsonParser.ParseBuffer.ParseElems | common/cjson/cJSON.c:1485-1520 | The loop over comma separated elements links new nodes one behind the other that stand, in order, for the elements the recursive grammar gives |
| JsonParser.ParseBuffer.ParseObject | common/cjson/cJSON.c:1614-1729 | The same for objects |
| JsonParser.ParseBuffer.ParseElement | common/cjson/cJSON.c:1489-1520 | One turn of the loop: a new node linked behind the others, then filled |
| JsonParser.ParseBuffer.ParseMember | common/cjson/cJSON.c:1649-1701 | One turn of the member loop: a new node linked behind the others, then given its name and, behind the colon, its value; the position of the first failure |
| JsonParser.ParseBuffer.ParseMembers | common/cjson/cJSON.c:1644-1704 | The loop over members links new nodes that stand, in order, for the members the recursive grammar gives |
| JsonParser.ParseWithLength | common/cjson/cJSON.c:1104-1181 | For any bytes: a new tree of nodes, every list in it well formed, that stands for the value the grammar gives, and where it ended; or where parsing failed |
| JsonParser.ParseWithOpts | common/cjson/cJSON.c:1088-1101 | The same for the C string at the start of the given memory, terminator included |
| JsonPrinter.PrintBuffer.Ensure | common/cjson/cJSON.c:447-530 | Succeeds exactly when cursor, needed bytes and one more stay within the limit (the buffer when preallocated, else INT_MAX); what was written stays; the buffer is the old one or a new one |
| JsonPrinter.PrintBuffer.UpdateOffset | common/cjson/cJSON.c:533-543 | The lazy length count moves the cursor exactly to the end of the pending text |
| JsonPrinter.PrintBuffer.CountEscapes | common/cjson/cJSON.c:938-962 | The first pass counts the extra bytes of all escapes |
| JsonPrinter.PrintBuffer.WriteEscaped | common/cjson/cJSON.c:987-1024 | The second pass appends the escaped text and ends where the count said |
| JsonPrinter.PrintBuffer.PrintString | common/cjson/cJSON.c:911-1030 | Appends the quoted, escaped string with its terminator; succeeds exactly when it and one spare byte fit |
| JsonPrinter.PrintBuffer.PrintNumber | common/cjson/cJSON.c:553-620 | Appends the decimal text of a 32-bit integer under the same exact condition |
| JsonPrinter.PrintBuffer.PrintStringPtr | common/cjson/cJSON.c:924-936 | A null pointer prints as an empty string, any other string quoted and escaped |
| JsonPrinter.PrintBuffer.PrintValue | common/cjson/cJSON.c:1380-1451 | For every node, depth and buffer: succeeds exactly when the rendered text of the value it stands for, its terminator and one byte more stay within the limit, and then the text follows what was written before, with depth as it was |
| JsonPrinter.PrintBuffer.PrintArray | common/cjson/cJSON.c:1552-1611 | The array case of the same contract, with the loop that follows the next links |
| JsonPrinter.PrintBuffer.PrintObject | common/cjson/cJSON.c:1732-1843 | The object case of the same contract, member loop with tabs, key, colon, comma and newline included |
| JsonPrinter.Print | common/cjson/cJSON.c:1196-1261 | Starting from 256 bytes: the rendered text and its terminator, exactly sized, or nothing exactly when the text is too long for an int |
| JsonPrinter.PrintBuffered | common/cjson/cJSON.c:1274-1303 | Every initial size gives the same C string |
| JsonPrinter.PrintPreallocated | common/cjson/cJSON.c:1305-1322 | Succeeds exactly when the memory has two bytes more than the text, and the text is that of the growing buffer |
| JsonPrinter.PrintAndParse | common/cjson/cJSON.c:1088-1322 | Printing a tree of nodes and parsing the buffer succeeds exactly when the text fits an int and nests at most 1000 deep, and gives a new tree of nodes that stands for the same value |
| JsonNodes.BuiltInjective | common/cjson/cJSON.c:1325-1729 | Different values, or the same under different keys, have different nodes |
| JsonList.ChildrenAreDistinct | common/cjson/cJSON.c:1946-2005 | In a well-formed list no node occurs twice |
| JsonList.ChildrenAreUnique | common/cjson/cJSON.c:1946-2005 | The links determine the sequence of children |
| JsonList.GetArraySize | common/cjson/cJSON.c:1846-1867 | Counts the children |
| JsonList.GetArrayItem | common/cjson/cJSON.c:1869-1896 | The child at the index, or null for a negative index, beyond the end and without a list |
| JsonList.GetObjectItem | common/cjson/cJSON.c:1898-1928 | The first child whose key is equal to the name byte by byte, up to the case of ASCII letters where that does not count; minding the case, a child without a key ends the search |
| Bytes.FoldsAgreeExactly | common/cjson/cJSON.c:133-155 | Two keys count as the same when they have one length and at each place the same byte, or, where case does not count, the same letter in upper and lower case |
| JsonList.AddItem | common/cjson/cJSON.c:1974-2005 | Refuses null arguments and a list put into itself; else the item becomes the last child, and behind other children the list is well formed, under any reading of it, exactly when the item was no child already and its own next was null |
| JsonList.DetachItemViaPointer | common/cjson/cJSON.c:2205-2239 | Refuses null arguments; else the child is taken out of the sequence and points nowhere, and the rest is a well-formed list |
| JsonList.DetachItemFromArray | common/cjson/cJSON.c:2241-2249 | The same by index; nothing changes when there is no such child |
| JsonList.InsertItemInArray | common/cjson/cJSON.c:2281-2313 | The item, the list itself included, comes to stand before the child at the index, and the list is well formed, under any reading of it, exactly when the item was no child already; beyond the end it is appended; a negative index, null arguments and a list appended to itself are refused |
| JsonList.InsertIntoItself | common/cjson/cJSON.c:2281-2313 | Inserted before one of its own children, a list becomes its own child |
| JsonList.ReplaceItemViaPointer | common/cjson/cJSON.c:2315-2362 | Refuses null arguments; else the replacement stands where the child stood and the child points nowhere; the list is well formed, under any reading of it, exactly when the replacement was no other child, or was the first of three or more put in the place of the last, which leaves it alone in the list |
| JsonList.ReplacedChildBreaks | common/cjson/cJSON.c:2315-2362 | The case of another child of the list, from the links as the code leaves them |
| JsonList.ReplaceItemInArray | common/cjson/cJSON.c:2364-2372 | The same by index; succeeds exactly when there is such a child |
| JsonList.InsertThenDetach | common/cjson/cJSON.c:2205-2313 | On the links: detaching at the index undoes inserting there, and the item points nowhere |
| JsonDuplicate.Duplicate | common/cjson/cJSON.c:2729-2810 | The copy is a tree of new nodes only, every list in it well formed and no node a child twice; it holds what the original holds, or only the node's own data when not recursive; nothing that existed before changes |
| JsonDuplicate.CopyChildren | common/cjson/cJSON.c:2773-2793 | The loop over the children links complete, disjoint copies in order |
| JsonForest.CloseList | common/cjson/cJSON.c:2796-2799 | Setting the first child's prev completes the list, and the new node stands over a tree |
| JsonForest.Attach | common/cjson/cJSON.c:2781-2793 | Linking one more complete copy leaves the copies gathered so far well formed |
| JsonForest.LinkItem | common/cjson/cJSON.c:1656-1668 | Linking a new, still empty node leaves the trees gathered so far well formed |
| JsonForest.Complete | common/cjson/cJSON.c:1709-1720 | Closing the list and hanging it under a node makes one tree that holds the contents in order |
| JsonNodeCompare.DuplicateAndCompare | common/cjson/cJSON.c:2729-3132 | A tree of 32-bit integers compares equal to its duplicate exactly when no object repeats a key with a different meaning, and always when keys are unique |
| JsonNodeCompare.CompareNodes | common/cjson/cJSON.c:3009-3132 | For nodes of any trees, whether or not they share nodes, and both case modes: the answer is the comparison of the two values in which one and the same node is equal to itself whatever it holds |
| JsonNodeCompare.SameIsCompare | common/cjson/cJSON.c:3009-3132 | That is the comparison of the values alone for trees that share no node, and for any trees of 32-bit integers that repeat no key with a different meaning; in all others it says yes at least where that does |
| JsonNodeCompare.CompareItems | common/cjson/cJSON.c:3009-3014 | The same with null pointers, which nothing is equal to, and in terms of the values |
| JsonNodeCompare.CompareChildren | common/cjson/cJSON.c:3067-3089 | The loop over two lists of elements |
| JsonNodeCompare.CoverMembers | common/cjson/cJSON.c:3095-3108 | One of the two passes over members |
| JsonNodeCompare.CoverMember | common/cjson/cJSON.c:3095-3103 | One turn of it: the member is looked up in the other object and compared with what is found |
| JsonNodeCompare.NamedIsLookup | common/cjson/cJSON.c:1898-1928 | The child that the search finds stands for the first member whose key counts as the same |
| JsonCompare.CompareIsSameMeaning | common/cjson/cJSON.c:3009-3132 | Two trees of 32-bit integers compare equal exactly when they are equal with member order forgotten and neither repeats a key with a different meaning |
| JsonCompare.CompareUnique | common/cjson/cJSON.c:3009-3132 | With unique keys, comparing is equality up to member order |
| JsonCompare.CopyAccepted | common/cjson/cJSON.c:3009-3132 | A tree equals itself exactly when no key is repeated with a different meaning; always when keys are unique |
| JsonCompare.CompareIsPartialEquivalence | common/cjson/cJSON.c:3009-3132 | Comparing is symmetric and transitive on integer trees |
| JsonCompare.RepeatedKeyRejected | common/cjson/cJSON.c:3091-3127 | An object that repeats a key with two values is not equal to its own copy |
| JsonCompare.IntegersCompareExactly | common/cjson/cJSON.c:546-550 | The relative tolerance separates any two different 32-bit integers |
| JsonCompare.CompareDoubleExactly | common/cjson/cJSON.c:546-550 | Numbers are equal when they differ by at most one part in 2^52 of the larger magnitude |
| JsonCompare.ToleranceIsNotTransitive | common/cjson/cJSON.c:546-550 | On other numbers the tolerance makes comparing intransitive |
| LogRing.RingSize | common/logger.c:9-30 | The size is the least power of two not below the request; the doubling leaves the 32-bit range exactly when the request is above 2^30 |
| LogRing.MaskIsRemainder | common/logger.c:20-21 | Masking a counter with size minus one is the remainder by the size |
| LogRingInvariant.InitHolds | common/logger.c:9-30 | The empty ring satisfies the invariant |
| LogRingQueue.StepKeeps | common/logger.c:41-91 | Every step of every thread keeps the invariant: window, slots, ready flags, copies in progress and the consumer's hands |
| LogRingInvariant.SwapWins | common/logger.c:45-56 | A compare-and-swap that succeeds finds room at that instant and a slot whose ready flag is 0 |
| LogRingQueue.FirstInFirstOut | common/logger.c:41-91 | In every interleaving of any number of producers and consumers the entries popped are a prefix of the entries in winning order, all but at most the ring and one entry in hand have come out, and tail <= head <= tail + size |
| LogRingQueue.PublishedIsNotLost | common/logger.c:41-91 | Once a push has returned 0 its entry is in its slot and ready, in a consumer's hands, or popped at its own position |
| LogRingQueue.SlotsAreExclusive | common/logger.c:55-60 | Producers that are still copying hold different slots, none of them ready |
| LogRingQueue.StepRefinesQueue | common/logger.c:41-91 | Every step appends to, removes from the front of, or leaves alone a bounded queue |
| LogRingQueue.RefusalIsGenuine | common/logger.c:45-50 | With a current load of head a push is refused exactly when the ring is full |
| LogRingQueue.PushEndsTwoWays | common/logger.c:41-61 | Every push ends in one of two ways: its record is published, or the unsigned difference of the head it loaded and the tail is at least the size; until then, however many swaps it loses, it goes on with the same record |
| LogRingQueue.LostPushSucceeds | common/logger.c:45-61 | A push that has lost a swap and is disturbed no more loads head again, wins the next slot and publishes its record, where there is room |
| LogRingQueue.PopEndsTwoWays | common/logger.c:64-91 | Every pop that gets the lock returns the record it copied, or nothing after it found the ring empty or the oldest slot not ready |
| LogRingQueue.StaleHeadIsRefused | common/logger.c:45-50 | A head older than the tail makes the unsigned difference wrap, and the push is only refused |
| LogRingQueue.EmptyWhenTailReadFirst | common/logger.c:94-98 | When tail is loaded before head and they agree, the ring was empty at the first load |
| LogRingQueue.LeftWhenHeadReadFirst | common/logger.c:94-98 | When head is loaded before tail and they agree, everything that had won a slot by the first load has left the ring, returned by pops but for one entry in hand |
| LogRingQueue.HeadFirstMisleads | common/logger.c:94-98 | In that order they can agree although the ring was occupied at every moment: a run from any occupied, not full ring with producers at rest |
| LogRingQueue.FirstPushIsEnough | common/logger.c:41-60 | One push into an empty ring of two or more slots leads to such a state |
| LogRingQueue.UndisturbedPush | common/logger.c:41-60 | A push that runs undisturbed while there is room puts its entry behind all others and changes no other thread |
| LogRingQueue.FlushReturnsReady | common/logger.c:64-91 | Pops one after the other up to the first that fails, the loop of logger_flush (common/logger.c:409), with the other threads standing still anywhere outside a pop: they return exactly the entries up to the first that is not published, in order, and leave the rest as it was |
| LogRingQueue.FlushReturnsEverything | common/logger.c:400-424 | With no push between its swap and its return, that loop returns everything that ever went in |
| H264Bits.UeRoundTrip | client/core/h264_parser.c:57-67 | Reading undoes the unsigned Exp-Golomb code of section 9.1 of ITU-T H.264 and uses exactly its bits |
| H264Bits.SeRoundTrip | client/core/h264_parser.c:70-77 | The same for the signed code of section 9.1.1 |
| H264Bits.FieldsRoundTrip | client/core/h264_parser.c:35-77 | Any sequence of fixed-length, flag, unsigned and signed fields is read back with the bits behind it left over |
| H264Bits.Bitstream.ReadBit | client/core/h264_parser.c:35-45 | The byte and bit cursor takes the next bit, or 0 at the end |
| H264Bits.Bitstream.ReadBits | client/core/h264_parser.c:47-54 | The bit loop takes the next n bits, most significant first |
| H264Bits.Bitstream.ReadUnsigned | client/core/h264_parser.c:57-67 | The zero-counting loop and the suffix read together give the code that the specification function gives, with the cursor behind it |
| H264Bits.Bitstream.ReadSigned | client/core/h264_parser.c:70-77 | The same for the signed code |
| H264Sps.ParseSps | client/core/h264_parser.c:79-174 | The parser on the cursor computes the specification function, for any payload; it fails exactly on an empty one |
| H264Sps.SpsRoundTrip | client/core/h264_parser.c:79-174 | For every parameter set of any profile but 135 written as section 7.3.2.1.1 of ITU-T H.264 says, with scaling lists, any picture order count type and any cropping, the parsed fields are the encoded ones and width and height are the cropped size in units of two samples |
| H264Sps.FrameNumReadExactly | client/core/h264_parser.c:89-124 | For every profile, profile, level and identifier are read back, and log2_max_frame_num_minus4 is exactly when the profile is not 135 or chroma_format_idc has the same value |
| H264Sps.FrameNumIsChromaFormat | client/core/h264_parser.c:89-124 | With profile 135, whose high-profile fields the code does not expect, it is the chroma format that is taken for it |
| H264Sps.Profile135Misread | client/core/h264_parser.c:89-124 | A parameter set of that profile that is misread |
| H264Sps.SizeIsStandardExactly | client/core/h264_parser.c:161-171 | For every profile but 135 the size is the one the standard defines exactly when the crop unit is two (4:2:0) or nothing is cropped on that axis |
| H264Sps.CropUnitTable | client/core/h264_parser.c:161-171 | The crop units of the standard: two and two for 4:2:0, two and one for 4:2:2, one and one for the others |
| H264Sps.Wrap32Exactly | client/core/h264_parser.c:89-171 | An unsigned value in a signed 32-bit field is the congruent one in range |
| H264Sps.CRemainderExactly | client/core/h264_parser.c:110-118 | The remainder of C goes with the sign of the dividend |
| H264Sps.ScalingListSkipped | client/core/h264_parser.c:110-118 | A scaling list of either length is skipped to its last bit |
| H264Feed.FindStartCode | client/core/h264_parser.c:283-298 | The scan finds the first three-byte or four-byte start code, or none |
| H264Feed.Parser.Feed | client/core/h264_parser.c:300-433 | The loop hands over the units of the data in order, counts those accepted, updates parameter sets and statistics as the unit-by-unit definition says, and terminates; no data gives -1 and changes nothing |
| H264Feed.Parser.Handle | client/core/h264_parser.c:335-430 | One unit: its type, reference level and frame kind for the callback, and the state after it |
| H264Stream.SplitJoin | client/core/h264_parser.c:283-333 | Splitting a stream of units without inner start codes or trailing zeros, each behind a three-byte or four-byte code, gives back exactly those units with their codes |
| H264Stream.SplitPadded | client/core/h264_parser.c:283-333 | With any number of zero bytes before, between and behind the units, each comes out with all the zero bytes that follow it but those of the next start code, which takes three at most |
| H264Stream.FeedDeliversPadded | client/core/h264_parser.c:300-433 | Feeding such a stream calls back exactly these units in order |
| H264Stream.FeedDeliversUnits | client/core/h264_parser.c:300-433 | Feeding such a stream calls back exactly those units in order and returns their number |
| H264Stream.FeedInPieces | client/core/h264_parser.c:300-433 | If the first piece ends in a non-zero byte and the second begins with a start code, feeding them in turn gives the callbacks, state and total count of feeding both at once |
| H264Stream.HeaderRead | client/core/h264_parser.c:335-415 | From the header byte written as section 7.3.1 of ITU-T H.264 says: the unit is dropped exactly when its forbidden bit is set; otherwise the callback is given that type and reference level, and types 7, 8, 5 and 6 are parameter sets, IDR pictures and SEI |
| H264Stream.UnitCounted | client/core/h264_parser.c:335-428 | What one unit does, by the type in its header: which counter goes up, bytes and units in total, the parameter sets kept, the group of pictures begun anew or one longer |
| H264Stream.SliceHeaderRead | client/core/h264_parser.c:214-241 | A unit of type 1 to 4 whose slice header begins as section 7.3.3 says is told apart as P, B or I, slice types 5 to 9 as 0 to 4 |
| H264Statistics.RunStatistics | client/core/h264_parser.c:352-429 | After any run of feeds and resets every count, byte total and GOP figure is that of the units accepted since the last reset: the last, largest and smallest closed non-empty group, the slices of the open one, and the picture size of the last parameter set |
| H264Statistics.RunTotals | client/core/h264_parser.c:352-429 | In every run the counts by kind sum to at most the number of units, and IDR, I and P bytes to at most the total, which is at most the bytes fed since the last reset |
| H264Statistics.UnitsFit | client/core/h264_parser.c:300-333 | The units cut from a piece of data, with their start codes, fit into it |
| H264Statistics.Play | client/core/h264_parser.c:300-483 | A run on the parser object is the run of the state machine |
| Suppression.Collect | client/core/facemanager.cpp:546-569 | The candidate loop keeps the likely and large boxes in anchor order, as many as there are priors |
| Suppression.CandidatesAreGood | client/core/facemanager.cpp:546-569 | Every candidate has the score, the size and lies inside the image |
| Suppression.DecodeInverts | client/core/facemanager.cpp:550-565 | A box inside the image, coded relative to its prior with both scales within the clamp of 5, that is with sides within a factor e of the prior's, is decoded corner by corner |
| Suppression.CornersExactly | client/core/facemanager.cpp:550-566 | The centre is off the prior's by a tenth of its side for each unit, each side is the prior's times the exponential of a fifth of the scale, limited to 5 either way, and the box is cut off at the edges of the image |
| Suppression.CandidateExactly | client/core/facemanager.cpp:546-569 | An anchor gives a candidate exactly when its score is at least 0.7 and both sides are longer than 10 pixels |
| Suppression.Suppress | client/core/facemanager.cpp:574-593 | The marking loops output exactly the candidates that overlap no earlier kept one |
| Suppression.GreedyIsKept | client/core/facemanager.cpp:574-593 | That is the recursion: take the first box, strike out what it overlaps, go on |
| Suppression.KeptAreApart | client/core/facemanager.cpp:574-593 | Kept boxes overlap pairwise by at most 0.3 |
| Suppression.DroppedAreCovered | client/core/facemanager.cpp:571-593 | Every dropped box is overlapped by a kept one of no smaller score |
| Suppression.IouBasics | client/core/facemanager.cpp:583-591 | The overlap is symmetric, from 0 to below 1, and a large box overlaps itself |
| Suppression.IouExactly | client/core/facemanager.cpp:583-591 | The overlap times the area of both boxes together, 0.000001 added to it, is the area they share; one suppresses the other when that is more than three tenths |
| Suppression.CommonIsIntersection | client/core/facemanager.cpp:583-587 | The length two sides share is that of the interval of points in both, or 0 |
| Suppression.SquaresOverlap | client/core/facemanager.cpp:583-591 | Squares of side 20 overlap when shifted by 10 and do not when shifted by 11 |
| Suppression.RectInImage | client/core/facemanager.cpp:577-580 | After truncation every rectangle lies inside the image and is at least 10 by 10 |
| Suppression.RectExactly | client/core/facemanager.cpp:577-580 | Position and size of a face are those of its box cut off to whole pixels |
| Suppression.DecodeOutputs | client/core/facemanager.cpp:527-595 | From outputs to faces, for any sorting routine: the greedy result, inside the image |
| Framing.Receiver.ReadyRead | client/core/networkmanager.cpp:180-221 | The loop signals the messages of all complete frames in the buffer and leaves the rest, for any buffer and any read |
| Framing.ConnectionsAreSeparate | client/core/networkmanager.cpp:136-221 | Over any run of reads and connection changes the messages are those of each connection's own reads in turn, and what is left is that of the last |
| Framing.CutFramesAreDropped | client/core/networkmanager.cpp:136-221 | When every connection brings whole frames and part of another, however cut, the messages are those of the whole frames: a frame that a lost connection cut short joins nothing that the next one brings |
| Framing.Listen | client/core/networkmanager.cpp:136-221 | Any sequence of reads and connection changes on the object is the run of the specification |
| Framing.SegmentationIndependence | client/core/networkmanager.cpp:180-221 | A byte stream gives the same messages and remainder however it is cut exactly when it meets no bad length before its very end |
| Framing.LeftIsIncomplete | client/core/networkmanager.cpp:184-201 | What stays buffered is less than one complete frame |
| Framing.FramesArrive | client/core/networkmanager.cpp:180-221 | Frames of valid length followed by part of another give, under any segmentation, their messages in order, a frame that does not decrypt losing only itself, and leave that part |
| Framing.SendReceive | client/core/networkmanager.cpp:112-124 | One message arrives as sent exactly when its encryption is 1 to 65536 bytes long and it holds no NUL |
| Framing.SendReceiveAll | client/core/networkmanager.cpp:101-221 | Any number of such messages arrive in order under any segmentation |
| Resize.BilinearResize | client/core/face_image_utils.c:14-57 | The nested loops fill the target with the scaled image, row by row, and write nothing behind it; every index is in bounds |
| Resize.AxisInBounds | client/core/face_image_utils.c:20-43 | For all positive sizes both source indices are inside, next to each other, and the weight lies between 0 and 1 |
| Resize.AxisIsMiddle | client/core/face_image_utils.c:20-43 | The two indices and the weight make up the middle of the output position in the source, ((2d + 1) src - dst) / (2 dst), cut off at the borders |
| Resize.SampleIsBilinear | client/core/face_image_utils.c:20-54 | What bilinear scaling is: every output byte is the rounded value, at that place, of the surface that is straight along both axes through the pixels around it |
| Resize.FourFromTwo | client/core/face_image_utils.c:14-57 | Two pixels of 0 and 100 scaled to four give 0, 25, 75 and 100 |
| Resize.SampleIsBetween | client/core/face_image_utils.c:45-54 | Every output byte lies between any bounds of the four bytes it is blended from |
| Resize.ScaledIdentity | client/core/face_image_utils.c:14-57 | Scaling to the same size is the identity |
| Resize.CopyRows | client/core/face_image_utils.c:80-97 | The row copies cut the region out of the image |
| Resize.CroppedPixel | client/core/face_image_utils.c:80-97 | A pixel of the region cut out is the one that far from the region's corner |
| Resize.ClippedIsIntersection | client/core/face_image_utils.c:66-76 | Clipping keeps exactly the pixels of the region that the image has |
| Resize.EmptyHasNone | client/core/face_image_utils.c:72-76 | A region is refused when it has no pixel |
| Resize.CropResize | client/core/face_image_utils.c:61-103 | Refuses exactly the empty regions; otherwise both the copying and the scaling path give the cropped image scaled to the target |
| OtaDownload.OtaUpdater.StartTcpDownload | client/services/otaupdater.cpp:44-87 | The state after a start, opened file or not |
| OtaDownload.OtaUpdater.ReceiveChunk | client/services/otaupdater.cpp:89-195 | The state after a chunk, through every exit of the slot, or the death of the process by a division by zero |
| OtaDownload.StepDividesByZero | client/services/otaupdater.cpp:89-126 | An event divides by zero exactly when it is a chunk with a total of zero, a download is under way, the chunk is the one expected, and it was stored |
| OtaDownload.RunDiesExactly | client/services/otaupdater.cpp:44-195 | A run dies exactly when one of its events is such a chunk, as the order of the events before it tells |
| OtaDownload.ZeroTotalKills | client/services/otaupdater.cpp:44-126 | A start and one chunk with a total of zero are enough |
| OtaDownload.FileIsChunks | client/services/otaupdater.cpp:44-195 | In every run that does not die the updater is downloading exactly when the events since the last start are its next chunks, wholly written and not the last, and then the temporary file is their concatenation |
| OtaDownload.ScheduledExactly | client/services/otaupdater.cpp:124-195 | In every such run an event schedules an installation exactly when it completes such a download with the declared count, size and hash, and the file is then all chunks in order |
| OtaDownload.SameHashExactly | client/services/otaupdater.cpp:163-174 | The hash is accepted exactly when it can be computed and is equal to the announced one as a C string, up to the case of letters |
| OtaDownload.KindExactly | client/services/otaupdater.cpp:44-87 | Kind 1 is a system update, every other an application update |
| OtaDownload.EndsCleanly | client/services/otaupdater.cpp:89-195 | A chunk during a download continues it, schedules its installation, or ends it with the file removed and a failure signalled; out of order always the last |
| OtaDownload.GoodDownloadIsInstalled | client/services/otaupdater.cpp:44-195 | Whatever run came before, a start and all chunks in order keep the process alive and schedule one installation, of the file that holds them all, exactly when they have the declared size and hash, and else none |
| OtaDownload.ProgressShown | client/services/otaupdater.cpp:126-128 | In a run that does not die a chunk that is stored shows one progress, (index + 1) * 100 over the total it announces, toward zero; no other event shows any |
| OtaDownload.PercentExactly | client/services/otaupdater.cpp:126-126 | That is from 0 to 100 exactly when the total is positive and more than 100/101 of the chunks received, or below minus a hundred times their number; and 100 exactly when it is also positive and at most that number |
| OtaDownload.QuotientExactly | client/services/otaupdater.cpp:126-126 | Division is toward zero |
| OtaDownload.ProgressIsPercentage | client/services/otaupdater.cpp:44-195 | The progress shown is from 0 to 100 throughout a run exactly when every chunk that is stored announces such a total |
| OtaDownload.ProgressOffTheScale | client/services/otaupdater.cpp:44-195 | Two runs that show 200 and -100 |
| OtaDownload.Play | client/services/otaupdater.cpp:44-195 | A run on the updater object is the run of the state machine |

## Left out

JSON
- Numbers that are not 32-bit integers are parsed over exact reals, without the rounding of `strtod` and without its infinity for numbers too large, and are not printed (`%g`).
- Locale decimal points, allocation failure and allocator hooks, raw and reference nodes, `cJSON_Minify`, patching and file helpers.
- JsonParser.ParseBuffer.ParseArray: nodes thrown away by a failed parse are not freed, and nothing is said of what they hold.
- JsonPrinter.PrintBuffer.PrintObject: the loops that write tabs are one copy of that many tabs.
- JsonList.ReplaceItemViaPointer: freeing the replaced node is not modelled.
- JsonDuplicate.Duplicate: the reference and constant-key flags of a node are not modelled; allocation does not fail.

Logger
- Memory ordering weaker than sequential consistency and signal handlers interrupting a thread.
- The 64-bit counters do not reach their maximum.
- Formatting, files, rotation, and of the flush thread its waiting, its budget of 256 pops and its four idle tries (common/logger.c:218-285); `FlushReturnsReady` is about a loop that runs by itself.

H.264
- The fields of picture parameter sets: only that one was seen is kept (client/core/h264_parser.c:176-212).
- Emulation prevention bytes, VUI, ratios and time stamps.
- A shift by 32, undefined in C, is taken as the shift by 0 that common processors make; width and height that overflow, undefined too, as a wrap.
- Statistics counters do not overflow.

Faces
- Rounding of floating point; the exponential and the sorting routine are parameters.
- `computeIoU` on integer rectangles, the image scaling by nearest neighbour and everything that talks to the accelerator.

Network
- Encryption is a pair of functions of which the second undoes the first; sockets, timers, reconnecting and the conversion between UTF-8 and UTF-16.

Scaling
- Rounding of floating point; failure to allocate the cropped image.

Update download
- The delayed installation itself and a second download started before it; buffered writes that fail on closing; truncation of the manifest's strings.
- 32-bit overflow of the progress, from 21 million chunks on.
