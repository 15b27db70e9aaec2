# Verified model of the detector DAQ's algorithms

This project models, in Dafny, the self-contained algorithms of the DAQ: its JSON library, the measurement-driven
searches for thresholds and discriminator settings, the packet protocol between host, XL3 crates and MTC, the
relocation of boards in the configuration document, the pedestal masks and serially loaded registers, and the
locking of links. `dafny verify dfyconfig.toml` checks all of it.

## How it is laid out

**JSON** (`src/db/Json.cpp`).

- `Utf8` holds the UTF-8 codec, the surrogate arithmetic and the hexadecimal digits, on bit vectors.
- `JsonGrammar` states the grammar of RFC 8259, sections 2, 6 and 7, as concrete syntax trees with a spelling and a
  meaning. It knows nothing of the parser. `JsonParse` is the recursive-descent parser as functions, with the proof that
  it accepts exactly the grammar. `JsonPrint` says which spelling the printers choose and proves the round trip.
  `JsonTexts` and `JsonPrinted` say the same of the bytes themselves, without the concrete syntax.
- `JsonTree` is the doubly linked tree of nodes. A `Forest` is the ghost view of all live nodes at once; its invariant is
  that every pointer field encodes the sequences of children. `JsonMeaning` says which value a node stands for and what an
  edit does to every tree of the forest. `JsonApi`, `JsonCopy` and `JsonReplace` are the operations on it, `JsonPath`
  the ways into a value and to its nodes.
- `JsonScanner`, `JsonParser`, `StringBuffers`, `JsonPrinter` and `JsonText` are the code that runs: cursors into a
  terminated text, a growing buffer, and the node tree. They are proved against the functions above, so that the theorems
  about the grammar and the round trip hold for them. `JsonText.StringifyThenDecode` is the round trip as a whole.
- `JsonSound` says what `json_check` asks of a tree and what every edit does to that. `JsonCheck` is `json_check` itself, on
  nodes of whose pointers nothing is known; whether it returns at all is stated of the function `Checks`, which has a bound
  for the depth of the calls.

The C library's `sprintf("%.16g")` and `strtod` are two arbitrary functions; the round trip says what is needed of them.

**Searches** (`FindNoise`, `NoiseTuning`, `TTot`). Readings are arbitrary functions of the measurement, so a theorem holds for
every history, also a contradictory one. Each channel or chip is a state machine; the loops over arrays are proved to run
these machines side by side, and the theorems are about every run of a machine.

**Packets** (`Words`, `XL3Link`, `XL3Wire`, `MTCLink`, `XL3Model`, `XL3Protocol`). The state of a link is a function of the bytes
received, which is what makes it independent of chunks. `XL3Wire` is what an XL3 writes, and that the link reads just that.
`XL3Protocol` is a state machine of host, queues and XL3.

**Configuration** (`DbConfig`, `DbDocument`, `DbBoards`, `DbTree`, `DbUpdate`). `DbConfig` is about positions and the boards at
them, and what an update makes of that. `DbDocument` says where the positions are in the document's JSON value, and `DbBoards`
what an update comes to there, path by path. `DbTree` does one change on the document's node tree, and `DbUpdate` is
`RemoveFromConfig` and `UpdateLocation` on it.

**Masks, registers, locks** (`Bits`, `TriggerScan`, `MTCModel`, `Globals`).

## Findings

Where the code does not do what it seems to promise.

- The printer escapes control characters below 0x1F (`src/db/Json.cpp:1180`) and the parser rejects them up to 0x1F
  (`src/db/Json.cpp:867`), so a string with U+001F does not come back (`JsonPrint.RoundTrip`,
  `JsonPrint.UnitSeparatorBreaksRoundTrip`).
- `json_mkcopy` copies the key of its root (`src/db/Json.cpp:1416`), and `json_check` then refuses an array to which the copy is
  appended (`JsonSound.CopiedMemberSpoilsArray`, `JsonCheck.CopiedMemberIsRefused`).
- `json_check` follows children without looking for its own ancestors (`src/db/Json.cpp:1353`). On two containers that are each
  other's only child it does not return, and the assertions of `json_append_element` let them come about
  (`JsonCheck.MutualChildren`, `JsonCheck.AppendToEachOther`). It returns for a node exactly when the calls inside it do not
  come back to that node (`JsonCheck.CheckNode`, `JsonCheck.NeverReturns`).
- The same assertions let an array be appended to itself, which `json_check` then never accepts (`JsonCheck.AppendToItself`).
- In `GetMultiFCResults` the flag `started` is never set, so that acknowledgements of other packets are dropped everywhere, not
  only in front (`XL3Model.WhenCollected`).
- A read request numbered 65535 is looked up as packet -1 and always times out (`XL3Model.Model.ReadOutBundles`,
  `XL3Model.WrapIsUnlucky`).
- The check for a packet number that is too high never fires on anything but a stale answer (`XL3Protocol.TooHighIsStale`),
  and an answer 65536 commands old is taken for the right one (`XL3Protocol.StaleRun`).
- The limit in `SetPulserFrequency`, 167772216, is about ten times 2^24, presumably a slip of the pen
  (`MTCModel.MTC.SetPulserFrequency`, `MTCModel.TooSlowIsAccepted`).
- A length word that is cut in two is read with zeros in place of the missing bytes (`MTCLink.SplitWord`). A single byte that
  is zero then makes the loop push empty packets without end (`MTCLink.LoneZeroByte`); it does so exactly when it comes to
  a length that is read as 0 (`MTCLink.EndlessExactly`).
- `RemoveFromConfig` leaves a FEC whose id matches two entries of the list with two members of the name, and a board that is
  put there afterwards is not found (`DbConfig.TargetUpdated`, `DbConfig.ListedTwice`).
- `CheckLock` reports a link that is not connected before one that is busy, which breaks exclusion for `sbc == 2`
  (`Globals.SharedMtc`, `Globals.SharedMtcRun`).

## Model

| member | source | states |
|---|---|---|
| JsonParse.DecodeIsTheGrammar | src/db/Json.cpp:361-377 | json_decode returns a value exactly for the texts of the grammar of RFC 8259 (sections 2, 6 and 7; well-formed UTF-8, no \u0000, no unpaired surrogate escape), and the value is the meaning of the text |
| JsonParse.ValueComplete | src/db/Json.cpp:623-691 | every spelling of a value is read back to its meaning and no further, whatever follows it, unless a control character stands for itself inside a string: then it is refused |
| JsonParse.ValueSound | src/db/Json.cpp:623-691 | whatever the parser accepts is the spelling of a well-formed value with that meaning, followed by what it left |
| JsonParse.NumberComplete | src/db/Json.cpp:918-964 | every number of section 6 of RFC 8259 is consumed whole |
| JsonParse.NumberSound | src/db/Json.cpp:918-964 | whatever parse_number consumes is a number of section 6 |
| JsonParse.CharsComplete | src/db/Json.cpp:817-897 | every sequence of raw and escaped characters up to the closing quotation mark is read to the bytes it means, or refused for a raw control character |
| JsonParse.CharsSound | src/db/Json.cpp:817-897 | whatever parse_string accepts is such a sequence |
| JsonParse.DecodeSpelling | src/db/Json.cpp:361-377 | white space around a value changes nothing, and only a raw control character makes the text of a value fail |
| JsonTexts.WordsDecode | src/db/Json.cpp:628-642 | in the bytes of the text: json_decode gives null, true or false exactly for those words, with blanks, tabs and line ends around them |
| JsonTexts.NumbersDecode | src/db/Json.cpp:908-964 | and a number exactly for a text of section 6 of RFC 8259, sign, digits without a leading zero, fraction and exponent, of which strtod is given all and nothing else |
| JsonTexts.StringsDecode | src/db/Json.cpp:793-906 | and a string exactly for quotation marks around characters that stand for themselves, the eight escapes of one letter, four hexadecimal digits of either case and surrogate pairs |
| JsonTexts.ArraysDecode | src/db/Json.cpp:693-735 | and an array exactly for brackets around texts with commas between them that are decoded to its elements in order |
| JsonTexts.ObjectsDecode | src/db/Json.cpp:737-791 | and an object exactly for braces around members with commas between them: a text of the name, a colon, a text of the value |
| JsonTexts.CaseDoesNotMatterToDecode | src/db/Json.cpp:1268-1295 | no text is decoded differently when the letters among its hexadecimal digits are made capitals |
| JsonParser.Decode | src/db/Json.cpp:361-377 | the executable parser builds a new detached tree for the value of the text and touches nothing else, or returns NULL and leaves no node behind; it returns a tree exactly for the texts of the grammar |
| JsonParser.Validate | src/db/Json.cpp:433-446 | json_validate is true exactly for the texts of the grammar, which is when json_decode is not NULL; it makes no node and never reads behind the terminator |
| JsonParser.Value | src/db/Json.cpp:623-691 | parse_value on the text and its cursor: same result and same remaining text as the recursive parser, which never looks behind the terminator |
| JsonParser.LeafValue | src/db/Json.cpp:627-690 | the cases without children |
| JsonParser.NextElement | src/db/Json.cpp:711-716 | one element is parsed and appended to the array under construction; when that fails the array is as it was |
| JsonParser.ArrayValue | src/db/Json.cpp:693-735 | parse_array, including the deletion of the partial array on failure |
| JsonParser.ScanKey | src/db/Json.cpp:757-763 | a member name, its colon and the space around it |
| JsonParser.NextMember | src/db/Json.cpp:757-771 | one member is parsed and appended under its name |
| JsonParser.ObjectValue | src/db/Json.cpp:737-791 | parse_object, including the deletion of the partial object on failure; member order and repeated names are kept |
| JsonParser.Discard | src/db/Json.cpp:731-734 | json_delete of a partial tree leaves the forest as it was before the parse |
| JsonScanner.ScanNumber | src/db/Json.cpp:918-964 | parse_number on the cursor: success and position are those of the pattern |
| JsonScanner.ScanString | src/db/Json.cpp:793-906 | parse_string on the cursor, with the buffer reservations of the building mode and the four-byte buffer of the validating mode |
| JsonScanner.ParseCharInto | src/db/Json.cpp:817-880 | one turn of the loop writes the bytes of one character, at most four |
| JsonScanner.ScanUnicode | src/db/Json.cpp:845-867 | a \u escape, or two for a surrogate pair; NUL and lone surrogates are refused |
| JsonScanner.ParseHex16 | src/db/Json.cpp:1268-1295 | four hexadecimal digits of either case, and their value |
| JsonScanner.ValidateAt | src/db/Json.cpp:151-203 | utf8_validate_cz looks at a byte only when the ones before it show that the text has not ended |
| JsonScanner.ScanSpaces | src/db/Json.cpp:966-972 | all white space is skipped, and nothing else |
| JsonScanner.ExpectLiteral | src/db/Json.cpp:1252-1262 | succeeds exactly when the word is there |
| JsonScanner.ParsedHasNoNul | src/db/Json.cpp:105-110 | a parsed string holds no NUL, so the assertion in sb_finish holds |
| JsonPrint.RoundTrip | src/db/Json.cpp:379-405 | decoding what json_encode or json_stringify (with any white space to indent with) wrote gives back the tree if and only if no string holds U+001F and every number survives its 16 digits |
| JsonPrint.IntegerTreesRoundTrip | src/db/Json.cpp:379-405 | all trees of strings without U+001F and of integers below 10^15 make the round trip, member order and repeated names included |
| JsonPrint.DecodePrinted | src/db/Json.cpp:379-405 | what decoding a printed tree gives in every case: the tree with its numbers as printed, or NULL |
| JsonPrint.UnitSeparatorBreaksRoundTrip | src/db/Json.cpp:1180-1181 | the concrete tree whose text is refused: the printer escapes only below 0x1F, the parser rejects up to 0x1F |
| JsonPrint.SpellingIsPrinted | src/db/Json.cpp:974-1104 | both printers write spellings of the grammar, clean exactly when no string holds U+001F |
| JsonPrint.CharSpelling | src/db/Json.cpp:1127-1214 | every character is spelled so that it means itself, under either setting of escape_unicode |
| JsonPrint.StringSpelling | src/db/Json.cpp:1106-1223 | the spelling of a whole string means the string |
| JsonPrint.EncodedStringParses | src/db/Json.cpp:384-392 | the text of json_encode_string is read back to the string, or refused exactly for U+001F |
| JsonPrint.IntegerDigits | src/db/Json.cpp:1225-1240 | the decimal text of an integer is a JSON number and reads back |
| JsonPrinted.CharPrinted | src/db/Json.cpp:1127-1214 | in bytes: which characters get a letter behind a backslash, which get four digits or twice four, and which are written as they are |
| JsonPrinted.StringPrinted | src/db/Json.cpp:1106-1223 | the text of a string is that of its characters, one behind the other, and the quotation mark |
| JsonPrinted.NumberPrinted | src/db/Json.cpp:1225-1240 | the text of a number is what sprintf made of it when that is a number of section 6 of RFC 8259, and null otherwise |
| JsonPrinted.ArrayPrinted | src/db/Json.cpp:1028-1063 | brackets around the texts of the elements: in the compact layout with commas between them, in the indented one each on its line, one step further in than the brackets |
| JsonPrinted.ObjectPrinted | src/db/Json.cpp:1065-1104 | braces around the members likewise, each with a colon, and in the indented layout a blank, behind its name |
| JsonPrinter.EmitChar | src/db/Json.cpp:1127-1214 | the switch of emit_string, which looks at one byte, writes the right spelling of the whole character within twelve bytes |
| JsonPrinter.EmitString | src/db/Json.cpp:1106-1223 | emit_string appends the spelling of the string; the reservations of 14 bytes cover every write |
| JsonPrinter.EmitNumber | src/db/Json.cpp:1225-1240 | a number, or null when its text is not a JSON number |
| JsonPrinter.EmitValue | src/db/Json.cpp:974-999 | walking the node tree, the compact printer appends the spelling of the value the tree stands for |
| JsonPrinter.EmitArray | src/db/Json.cpp:1028-1039 | the brackets and commas of an array |
| JsonPrinter.EmitObject | src/db/Json.cpp:1065-1078 | the braces, names, colons and commas of an object |
| JsonPrinter.EmitValueIndented | src/db/Json.cpp:1001-1026 | the indented printer appends the spelling with line breaks and indentation |
| JsonPrinter.EmitArrayIndented | src/db/Json.cpp:1041-1063 | an array over several lines, or [] for an empty one |
| JsonPrinter.EmitObjectIndented | src/db/Json.cpp:1080-1104 | an object over several lines, or {} for an empty one |
| JsonPrinter.StoreHex16 | src/db/Json.cpp:1301-1311 | the four digits of a 16-bit value |
| JsonText.Stringify | src/db/Json.cpp:394-405 | the text is the printed spelling, holds no NUL and is a C string that json_decode may be given |
| JsonText.StringifyThenDecode | src/db/Json.cpp:361-405 | the round trip on node trees: json_decode of the text of a tree makes a new, disjoint tree, which stands for the same value exactly when all numbers survive their 16 digits, or returns NULL, exactly when a string holds U+001F |
| JsonText.StringifyCopy | src/db/Json.cpp:1414-1456 | a tree and its json_mkcopy have the same text |
| JsonText.EncodeString | src/db/Json.cpp:384-392 | json_encode_string, with its inverse |
| JsonText.TextHasNoNul | src/db/Json.cpp:105-110 | no text of the printers holds a NUL, so the assertion in sb_finish holds |
| JsonText.DecodedIsTreeOk | src/db/Json.cpp:1106-1112 | whatever json_decode returns satisfies what emit_string asserts of its strings |
| JsonText.DecodeEncodeDecode | src/db/Json.cpp:361-405 | decode, encode, decode gives the first value back exactly when no string holds U+001F and the numbers survive |
| StringBuffers.StringBuffer.Grow | src/db/Json.cpp:71-85 | the reservation fits, the contents stay, and the room at least doubles |
| StringBuffers.StringBuffer.Need | src/db/Json.cpp:64-69 | afterwards there is room for the reservation |
| StringBuffers.StringBuffer.Put | src/db/Json.cpp:87-103 | the bytes are appended |
| StringBuffers.StringBuffer.PutC | src/db/Json.cpp:94-98 | one byte is appended |
| StringBuffers.StringBuffer.Finish | src/db/Json.cpp:105-110 | the contents as a C string; its assertion is the requirement |
| Utf8.ValidatorIsExact | src/db/Json.cpp:151-203 | utf8_validate_cz accepts n bytes exactly when they are what utf8_write_char writes for some scalar value (section 4 of RFC 3629) |
| Utf8.WriteRead | src/db/Json.cpp:226-293 | reading what was written gives the character and its length, whatever follows |
| Utf8.ReadWrite | src/db/Json.cpp:226-293 | writing what was read gives the same bytes |
| Utf8.DecodeEncode | src/db/Json.cpp:206-293 | whole strings: decoding inverts encoding |
| Utf8.EncodeDecode | src/db/Json.cpp:206-293 | and encoding inverts decoding |
| Utf8.ValidStringsAreEncodings | src/db/Json.cpp:206-217 | utf8_validate accepts exactly the concatenated encodings of scalar values |
| Utf8.ReadInNumbers | src/db/Json.cpp:226-259 | what is read is, in numbers, what section 3 of RFC 3629 says: each byte behind the first counts six bits, most significant first |
| Utf8.SplitThenJoin | src/db/Json.cpp:302-327 | joining the surrogates of a character gives the character |
| Utf8.JoinThenSplit | src/db/Json.cpp:302-327 | splitting a joined pair gives the pair |
| Utf8.PairInNumbers | src/db/Json.cpp:302-311 | in numbers: a pair is a high half from 0xD800 and a low half from 0xDC00, and the high one counts in units of 0x400 |
| Utf8.WriteHexParseHex | src/db/Json.cpp:1268-1311 | parse_hex16 inverts write_hex16 |
| Utf8.ParseHexWriteHex | src/db/Json.cpp:1268-1311 | write_hex16 gives back the digits exactly when they are in capitals |
| Utf8.DigitsByValue | src/db/Json.cpp:1268-1295 | which digits there are, and what each is worth, of either case |
| Utf8.HexInNumbers | src/db/Json.cpp:1268-1295 | four digits are worth their sum by position, most significant first |
| Utf8.CaseDoesNotMatter | src/db/Json.cpp:1268-1311 | the value does not depend on the case, and what is written back are the capitals |
| JsonTree.AppendNode | src/db/Json.cpp:536-547 | append_node is sequence append, for a parent anywhere in the forest; every link of every node stays sound and nothing else changes; the pointers it sets are stated for a node appended to itself as well |
| JsonTree.PrependNode | src/db/Json.cpp:549-560 | prepend_node puts the child first, likewise |
| JsonTree.RemoveFromParent | src/db/Json.cpp:601-621 | json_remove_from_parent takes the node out of its parent's sequence, at whatever place, and clears its links and key |
| JsonMeaning.AppendMeans | src/db/Json.cpp:536-599 | a container to which a detached tree is appended stands for its value with that tree's value behind it |
| JsonMeaning.PrependMeans | src/db/Json.cpp:549-599 | the same in front |
| JsonMeaning.RemoveMeans | src/db/Json.cpp:601-621 | after a removal the container stands for its value without that child, and the child still for its own |
| JsonMeaning.EditExchanges | src/db/Json.cpp:536-621 | an edit at a node exchanges the value at that node in every tree that contains it |
| JsonMeaning.EditKeeps | src/db/Json.cpp:536-621 | and leaves every tree that does not contain it as it was |
| JsonMeaning.DenotesUnique | src/db/Json.cpp:479-484 | a node stands for one value only |
| JsonMeaning.Disjoint | src/db/Json.cpp:536-621 | trees that do not contain each other's roots share no node |
| JsonMeaning.NotBelowItself | src/db/Json.cpp:536-621 | no node is below itself |
| JsonApi.AppendElement | src/db/Json.cpp:568-574 | append for arrays, under the function's assertions and no more |
| JsonApi.PrependElement | src/db/Json.cpp:576-582 | prepend for arrays |
| JsonApi.AppendMember | src/db/Json.cpp:562-590 | append for objects, under the given name |
| JsonApi.PrependMember | src/db/Json.cpp:592-599 | prepend for objects |
| JsonApi.FindElement | src/db/Json.cpp:448-463 | the child at the index, or NULL |
| JsonApi.FindMember | src/db/Json.cpp:465-477 | the first child with the name, or NULL when there is none |
| JsonApi.FirstChild | src/db/Json.cpp:479-484 | the first of the sequence, or NULL |
| JsonApi.NumMems | src/db/Json.cpp:1400-1411 | the length of the sequence, or -1 for what is no container |
| JsonApi.Delete | src/db/Json.cpp:407-431 | json_delete frees the nodes of the subtree, each once, takes the root out of its parent's sequence and keeps all other nodes |
| JsonApi.DeleteChildren | src/db/Json.cpp:412-421 | the loop that saves the next pointer before it frees |
| JsonCopy.MkCopy | src/db/Json.cpp:1414-1456 | json_mkcopy makes a disjoint tree of new nodes for the same value; the root carries the original's key |
| JsonCheck.Check | src/db/Json.cpp:1313-1381 | on nodes of whose pointers nothing is known, json_check is true exactly when they spell out a value below the node, linked forwards, backwards and upwards, with strings and keys in UTF-8, keys on members and none on elements |
| JsonCheck.EncodedLinks | src/db/Json.cpp:1343-1377 | what acceptance means for head, tail, next, prev, parent and key of every child |
| JsonCheck.CheckNode | src/db/Json.cpp:1313-1381 | called for any node it returns, and with that answer, unless the calls inside it come back to that node |
| JsonCheck.NeverReturns | src/db/Json.cpp:1313-1381 | and when they do come back, it does not return, however deep the calls may go |
| JsonCheck.MutualChildren | src/db/Json.cpp:1343-1373 | on two containers that are each other's only child it does not return |
| JsonCheck.AppendToEachOther | src/db/Json.cpp:568-574 | a run that makes two such arrays, with every assertion of json_append_element holding |
| JsonCheck.AppendToItself | src/db/Json.cpp:568-574 | an array that is appended to itself, which the assertions let through, is never accepted by json_check |
| JsonCheck.CheckTree | src/db/Json.cpp:1313-1381 | in a forest json_check returns for every node that stands for a value, and says whether its strings and keys are sound |
| JsonCheck.CheckChildren | src/db/Json.cpp:1344-1373 | the walk along the children meets no node twice and so ends, whatever the pointers are; its answer is that of the loop as a function |
| JsonCheck.VisitedIsBounded | src/db/Json.cpp:1344-1353 | children that point back to each other are distinct, and no more than there are nodes |
| JsonCheck.ForestEncodes | src/db/Json.cpp:1313-1381 | in a soundly linked forest json_check can only find fault with strings and keys |
| JsonSound.AppendSound | src/db/Json.cpp:536-599 | a container that json_check accepts is still accepted after an append exactly when the appended tree is sound and its key suits the container |
| JsonSound.PrependSound | src/db/Json.cpp:549-599 | the same for a prepend |
| JsonSound.RemoveSound | src/db/Json.cpp:601-621 | json_check accepts a container exactly when it accepts what a removal leaves of it and what was taken out, and the key was all right |
| JsonSound.ExchangeSound | src/db/Json.cpp:536-621 | a tree that json_check accepts is still accepted after an edit at one of its nodes exactly when that node is |
| JsonSound.CopiedMemberSpoilsArray | src/db/Json.cpp:1414-1456 | a copy of a member that is appended to an array makes the array unsound, whatever else there is |
| JsonCheck.AppendCopy | src/db/Json.cpp:1414-1456 | the same as a call: after json_append_element of a copied member, json_check refuses the array |
| JsonCheck.CopiedMemberIsRefused | src/db/Json.cpp:1414-1456 | a run in any forest: json_check accepts a new array before and refuses it after |
| JsonReplace.ReplaceElement | src/db/DB.cpp:1024-1041 | detaching all elements and appending them again with one exchanged replaces just that element, on the node tree |
| JsonReplace.ReplaceMember | src/db/DB.cpp:945-952 | looking a member up, detaching it and appending another of its name replaces just that member, which comes last |
| JsonReplace.ElsewhereExchanges | src/db/DB.cpp:1013-1054 | such an exchange in a container exchanges the container's value in every tree around it |
| FindNoise.AtRest | src/tests/FindNoise.cpp:184-207 | a channel the main loop is finished with is at 0 or 255 with an error, or was quiet in that very pass at one count above a threshold at which it was measured noisy, for every history of readings |
| FindNoise.Meaning | src/tests/FindNoise.cpp:325-382 | what the flags found_below and done say about the past, after every number of passes |
| FindNoise.WhyGivenUp | src/tests/FindNoise.cpp:195-355 | a channel is given up exactly when its zero is 255 or more, or it was noisy at a threshold of at least 254 (it ends at 255), or quiet at 1 (it ends at 0) |
| FindNoise.FindsOnset | src/tests/FindNoise.cpp:210-406 | a channel that is noisy exactly below some threshold settles after exactly so many passes: at that threshold, without an error, if it is from 2 to 254, else at 0 or 255 with one |
| FindNoise.NoisyMeans | src/tests/FindNoise.cpp:284-327 | in numbers: more counts than an eighth of a second of pulses and one more, or a count that went back |
| FindNoise.OnlyUp | src/tests/FindNoise.cpp:374-377 | from MAX_ITERATIONS on a threshold that has been below its noise is only stepped up |
| FindNoise.StartsOver | src/tests/FindNoise.cpp:362-377 | before that, noise on a finished channel starts its search again |
| FindNoise.StepDescends | src/tests/FindNoise.cpp:325-382 | from MAX_ITERATIONS on every pass lowers the potential of every channel that has not settled |
| FindNoise.TotalDescends | src/tests/FindNoise.cpp:311-403 | and so the sum over the selected channels |
| FindNoise.SettlesBy | src/tests/FindNoise.cpp:214-406 | passes without an end use up the potential |
| FindNoise.Search.constructor | src/tests/FindNoise.cpp:184-207 | all flags clear and the threshold 25 above zero, or the channel given up at once when zero is 255 or more |
| FindNoise.Search.Measure | src/tests/FindNoise.cpp:248-309 | the noise of a pass is the difference of two counts, or 0xFFFFFFFF when the count went back |
| FindNoise.Search.Adjust | src/tests/FindNoise.cpp:318-386 | one channel takes the step of the state machine, the others none |
| FindNoise.Search.Pass | src/tests/FindNoise.cpp:214-405 | every selected channel takes its step, and the loop ends exactly when all have settled |
| FindNoise.Search.Run | src/tests/FindNoise.cpp:210-406 | the loop ends, within a fixed number of passes, after the first pass that leaves every selected channel settled; then each is given up, for leaving the range at that end, or was quiet in the last pass one count above a threshold at which it was noisy; one that is noisy exactly below some threshold from 2 to 254 is at that threshold |
| NoiseTuning.Tune | src/tests/FindNoise.cpp:433-515 | at most four measurements; a channel that was quiet ends at the lowest value that was measured quiet, with the reason why no lower one was taken; the value leaves eight bits exactly when a channel that is tried has a zero above 250 |
| NoiseTuning.Raise | src/tests/FindNoise.cpp:550-612 | from any threshold at most five steps up, each from one that was measured firing, and why it stops |
| NoiseTuning.InNumbers | src/tests/FindNoise.cpp:469-602 | what is measured, around the end of the counter's range, and the three limits, in numbers |
| TTot.StepDescends | src/tests/TTot.cpp:192-254 | every measurement that does not end a chip's search lowers a lexicographic measure, whatever was measured |
| TTot.GoingIsBounded | src/tests/TTot.cpp:192-254 | no chip is measured more often than a fixed bound |
| TTot.LowerBound | src/tests/TTot.cpp:195-251 | the lower bound of an unfinished chip is the floor or has failed at its VSI, and every larger VSI failed at the top |
| TTot.NextMeasured | src/tests/TTot.cpp:197-250 | what is measured next, in numbers: half-way to the other bound; one more when the upper bound, which had passed, failed; 145 at the next VSI when 180 failed |
| TTot.PassesMeans | src/tests/TTot.cpp:205-206 | a chip passes when all of its four channels do |
| TTot.FinishedWasMeasured | src/tests/TTot.cpp:200-212 | a finished chip was measured passing with its recorded settings, one RMP count lower failed or is the floor, and every larger VSI failed at the top |
| TTot.FailedEverywhere | src/tests/TTot.cpp:220-241 | a chip that aborts the slot failed at the top of the range at every VSI |
| TTot.LeastPassing | src/tests/TTot.cpp:192-267 | for a deterministic, monotone chip the result is the least passing RMP above 110, at the first VSI of 120, 118, ..., 50 at which the largest RMP, 180, passes |
| TTot.FinishesWhenItCan | src/tests/TTot.cpp:192-267 | such a chip finishes exactly when some VSI lets the largest RMP pass |
| TTot.MiddleIsRoundedHalf | src/tests/TTot.cpp:248-250 | the float expression is the upward half |
| TTot.Slot.Adjust | src/tests/TTot.cpp:197-250 | the bracket of one chip takes the step of the state machine |
| TTot.Slot.Turn | src/tests/TTot.cpp:195-251 | one chip's turn records a finished chip and changes no other |
| TTot.Slot.RecordUnfinished | src/tests/TTot.cpp:231-241 | an abort records every chip as it is |
| TTot.Slot.Pass | src/tests/TTot.cpp:192-252 | one turn of the loop: every chip has one more measurement, or chip f has failed and the slot is aborted |
| TTot.Slot.MarkTriggers | src/tests/TTot.cpp:168-175 | the check before the search marks exactly the channels without triggers |
| TTot.Slot.Search | src/tests/TTot.cpp:192-267 | the loop ends; every chip has recorded settings, and only a failed chip's channels get another mark |
| XL3Link.BlocksAreTheStream | src/xl3/XL3Link.cpp:41-70 | the packets and the remainder, one behind the other, are the stream |
| XL3Link.Continue | src/xl3/XL3Link.cpp:41-70 | more bytes continue the packet that has been started |
| XL3Link.Link.RecvCallback | src/xl3/XL3Link.cpp:41-70 | whatever the chunks, what was processed are the successive 1444-byte blocks of the stream, what is held is its remainder, and fTempBytes + fBytesLeft is 0 or 1444 |
| XL3Link.Link.TakeWhole | src/xl3/XL3Link.cpp:43-48 | a block that is in the chunk as a whole |
| XL3Link.Link.TakeRest | src/xl3/XL3Link.cpp:54-63 | a block that is completed |
| XL3Link.Link.KeepAll | src/xl3/XL3Link.cpp:49-54 | the start of a block is held back, or added to one |
| XL3Link.Link.ProcessPacket | src/xl3/XL3Link.cpp:73-217 | the packet's contribution to the packet queue, the acknowledgement queue and the answers to pings |
| XL3Link.Link.GetNextPacket | src/xl3/XL3Link.cpp:228-260 | packets come out in the order of the stream, each once, the number in host order |
| XL3Link.Link.GetNextCmdAck | src/xl3/XL3Link.cpp:262-293 | the same for acknowledgements |
| XL3Link.Link.CheckQueue | src/xl3/XL3Link.cpp:295-310 | which of its results tells what |
| XL3Link.ChunksDoNotMatter | src/xl3/XL3Link.cpp:41-70 | links that received the same bytes in different chunks hold the same |
| XL3Wire.EverythingArrives | src/net/XL3PacketTypes.h:90-128 | a link that received, in whatever chunks, packets written field by field in the order of the structures, has exactly the acknowledged commands and the answers in its queues, less those taken, and has sent exactly the pongs |
| XL3Wire.AllAreRead | src/net/XL3PacketTypes.h:90-128 | the same of the stream: its blocks contribute what was written into them, and nothing is left |
| XL3Wire.NumberIsRead | src/xl3/XL3Link.cpp:255-256 | the number of a packet is read as it was written |
| Words.WrittenIsRead | src/core/Globals.cpp:118-146 | the words of the network and of the host are read as they were written |
| Words.ReadIsWritten | src/core/Globals.cpp:118-146 | and written as they were read |
| XL3Model.Model.SendCommand | src/xl3/XL3Model.cpp:54-83 | how the loop ends is decided by the queue, within 101 packets, and without a wanted response there is none; the request got the next number modulo 65536 |
| XL3Model.WhenItReturns | src/xl3/XL3Model.cpp:68-81 | exactly when it returns, times out, gives up, or finds a number too high |
| XL3Model.ReturnsExactly | src/xl3/XL3Model.cpp:68-81 | the same without names for the conditions: it returns exactly when one of the first hundred packets has the awaited type and number and none before it a higher number less than 5000 commands back |
| XL3Model.OneEnd | src/xl3/XL3Model.cpp:68-81 | there is only one such end |
| XL3Model.Model.GetMultiFCResults | src/xl3/XL3Model.cpp:93-119 | the results are the data of the request's acknowledgements, in order, whatever lies between them |
| XL3Model.WhenCollected | src/xl3/XL3Model.cpp:93-119 | it succeeds exactly when the first acknowledgements with the packet number are numbered from zero; the flag started is never set |
| XL3Model.CRemainderMeans | src/xl3/XL3Model.cpp:95 | the remainder of the packet number, with the sign it has in C |
| XL3Model.Model.ReadWords | src/xl3/XL3Model.cpp:300-331 | the buffer ends up with the first words of the FIFO, in order, each once, however the XL3 splits the requests and whatever stale acknowledgements come between, unless a request that queued reads had the number 65535 |
| XL3Model.Model.ReadSome | src/xl3/XL3Model.cpp:302-330 | one request |
| XL3Model.Model.ReadOutBundles | src/xl3/XL3Model.cpp:272-339 | the number of bundles, all in the buffer; it throws exactly when the first or the last command does not return, or in the one case |
| XL3Model.WrapIsUnlucky | src/xl3/XL3Model.cpp:326 | that case: one request of number 65535, served as it should be, for any three words |
| XL3Model.Level | src/xl3/XL3Model.cpp:283-299 | whole bundles, as many as there are or as expected |
| XL3Model.LuckyStart | src/xl3/XL3Model.cpp:326 | what a caller can check beforehand |
| XL3Protocol.RunKeepsInv | src/xl3/XL3Model.cpp:54-83 | in every run of host, queues and XL3 every answer is returned at most once, for a request with its type and its number modulo 65536, never before it |
| XL3Protocol.RunReturnsOwn | src/xl3/XL3Model.cpp:54-83 | while no queued answer is 65536 or more commands old, every SendCommand that returns holds the answer to its own request |
| XL3Protocol.ReceivesItsOwn | src/xl3/XL3Model.cpp:68-81 | a single return is the request's own exactly when the answer is young enough |
| XL3Protocol.TooHighIsStale | src/xl3/XL3Model.cpp:77-78 | the check for a high number fires exactly on stale answers from before the wrap that are less than 5000 commands old |
| XL3Protocol.StaleAnswerIsReturned | src/xl3/XL3Model.cpp:68-81 | an answer exactly 65536 commands old is taken for the request's own |
| XL3Protocol.StaleRun | src/xl3/XL3Model.cpp:54-83 | a run in which that happens |
| XL3Protocol.WaitIsSteps | src/xl3/XL3Model.cpp:68-81 | what the loop of SendCommand does with a queue are steps of the protocol, one for each packet, and the end |
| XL3Protocol.SendCommandInRun | src/xl3/XL3Model.cpp:54-83 | so a call in any run continues that run, and while no answer is too old what it returns is the answer to its own request |
| DbUpdate.RemoveFromConfig | src/db/DB.cpp:1086-1148 | on the node tree: every position is cleared of the ids, a FEC with one more null for each id that matches, and no other position has changed |
| DbUpdate.ClearCrate | src/db/DB.cpp:1089-1145 | the body of its loop over the crates |
| DbUpdate.PlaceBoard | src/db/DB.cpp:998-1054 | one board replaces what stood at its target, which is returned |
| DbUpdate.UpdateLocation | src/db/DB.cpp:986-1060 | on the node tree: what the document has at every position when the update and its clean-up are over; and by paths, when no FEC had two ids and no id is listed twice: the listed boards at theirs alone, the displaced nowhere, the others where they were |
| DbBoards.BoardsMoved | src/db/DB.cpp:986-1060 | in the JSON value, by the paths that are written out there: every listed board is the string at the end of its path and nowhere else, those displaced are nowhere, all others are where they were |
| DbBoards.ReadByPath | src/db/DB.cpp:998-1054 | what is read at a position is what is at the end of its path: crates, index, fecs, slot, id or dbs and card, or pmtics and slot |
| DbTree.ExchangeBoard | src/db/DB.cpp:1008-1054 | the calls into the JSON library at one position exchange just that one: a member of the FEC, or an element of its array |
| DbTree.ClearBoard | src/db/DB.cpp:1093-1101 | the comparison of one position with all the ids, on the node tree |
| DbDocument.ChangeIsOneSlot | src/db/DB.cpp:998-1054 | a change of the value at one position of the document is a change of that position and no other |
| DbDocument.ShowsOne | src/db/DB.cpp:1088-1093 | a document of the shape says one thing for every position |
| DbConfig.UpdateIsRight | src/db/DB.cpp:986-1060 | what is read at every position after an update: the listed boards at their targets, unless a null hides them, nothing of the listed and displaced ones elsewhere |
| DbConfig.TargetUpdated | src/db/DB.cpp:1093-1101 | a target is read as the board that was put there exactly when it is no FEC whose old id matches two ids of the list |
| DbConfig.ListedTwice | src/db/DB.cpp:1093-1101 | that case: a board listed twice, for its own FEC and another one |
| DbConfig.UpdateKeepsSingle | src/db/DB.cpp:986-1060 | updates that list no board twice can follow each other: nothing gets doubled |
| DbConfig.ListedExactlyThere | src/db/DB.cpp:986-1060 | every listed id stands at its target and nowhere else |
| DbConfig.DisplacedNowhere | src/db/DB.cpp:1059-1060 | every displaced id stands nowhere |
| DbConfig.UniqueKept | src/db/DB.cpp:986-1060 | ids that were unique stay unique |
| DbConfig.SameIdMeans | src/db/DB.cpp:1097 | two ids are the same when their first four characters are, as far as they go |
| MTCLink.PacketsAreTheStream | src/mtc/MTCLink.cpp:83-125 | the packets and the remainder are the stream |
| MTCLink.PacketsHaveTheirLength | src/mtc/MTCLink.cpp:86 | every packet has the length it says |
| MTCLink.Continue | src/mtc/MTCLink.cpp:83-125 | more bytes continue the packet that has been started |
| MTCLink.SplitWord | src/mtc/MTCLink.cpp:86 | a length word of which only some bytes have come is read correctly exactly when the missing bytes are zero |
| MTCLink.EndlessExactly | src/mtc/MTCLink.cpp:83-125 | for any bytes the loop goes on for ever exactly when it comes to a length that is read as 0 |
| MTCLink.ZeroLength | src/mtc/MTCLink.cpp:86-104 | such a length takes nothing off the chunk: every turn queues another empty packet |
| MTCLink.ReadAsZero | src/mtc/MTCLink.cpp:86 | a length is read as 0 exactly when no byte of it that has come is anything else |
| MTCLink.LoneZeroByte | src/mtc/MTCLink.cpp:83-104 | that case: a link with nothing held gets a single zero byte |
| MTCLink.FramedArrive | src/mtc/MTCLink.cpp:83-125 | packets that start with their length, least significant byte first, are the packets of the stream |
| MTCLink.EverythingArrives | src/mtc/MTCLink.cpp:83-125 | a link that received them has exactly those in its queue, less those taken, each with zeros behind it |
| MTCLink.Link.RecvCallback | src/mtc/MTCLink.cpp:68-128 | for chunks with usable lengths the queue holds exactly the packets of the stream, in order, each padded with zeros, and the loop ends |
| MTCLink.Link.TakeFromStart | src/mtc/MTCLink.cpp:85-104 | a packet from the chunk, or its start held back |
| MTCLink.Link.TakeFromHeld | src/mtc/MTCLink.cpp:105-124 | a packet completed, or added to |
| MTCLink.Link.GetNextPacket | src/mtc/MTCLink.cpp:142-183 | packets come out in the order of the stream, each once |
| TriggerScan.Scan.Reset | src/tests/TriggerScan.cpp:61-67 | all selected FECs off, in the shadow and in the registers, and counted |
| TriggerScan.Scan.SetNhit | src/tests/TriggerScan.cpp:105-154 | whatever the masks were: exactly the first inhit channels of the selected FECs are on, bit by bit, and the shadow equals what was written |
| TriggerScan.WantedBits | src/tests/TriggerScan.cpp:107-112 | the channel of a FEC is on when there are fewer than inhit before it, 32 for every selected FEC in front |
| TriggerScan.RankIsCount | src/tests/TriggerScan.cpp:114-117 | how many selected FECs are in front |
| TriggerScan.Scan.SetFec | src/tests/TriggerScan.cpp:117-151 | the eight cases for one FEC |
| TriggerScan.EnabledIsNhit | src/tests/TriggerScan.cpp:105-154 | the enabled channels add up to inhit as far as the FECs reach |
| TriggerScan.Scan.Leftovers | src/tests/TriggerScan.cpp:110-112 | the mask with the first channels on |
| MTCModel.MTC.LoadMTCADacsByCounts | src/mtc/MTCModel.cpp:245-285 | replayed on the shift registers, the writes leave every one of the 14 DACs with the low 12 bits of its count |
| MTCModel.MTC.Gather | src/mtc/MTCModel.cpp:272-277 | shift_value has each DAC's bit, and neither select nor clock |
| MTCModel.MTC.SetGTCounter | src/mtc/MTCModel.cpp:379-398 | the counter holds the low 24 bits of count, the pulser and the control register are as they were |
| MTCModel.MTC.SetPulserFrequency | src/mtc/MTCModel.cpp:416-447 | which frequencies are accepted, that the register holds the low 24 bits of the value, and that it holds the value itself exactly below 2^24: the limit in the code is larger |
| MTCModel.PulserValueFits | src/mtc/MTCModel.cpp:424-431 | which frequencies lead to a value that 24 bits are enough for, in single precision |
| MTCModel.TooSlowIsAccepted | src/mtc/MTCModel.cpp:424-431 | a frequency that is accepted although they are not |
| MTCModel.MTC.SendAll | src/mtc/MTCModel.cpp:379-447 | after any sequence of the two calls each register holds what was last sent to it |
| MTCModel.MTC.Load | src/mtc/MTCModel.cpp:390-393 | read, set, write, read, clear, write: one load, and the control register as before |
| MTCModel.LowBits | src/mtc/MTCModel.cpp:384-389 | the bits of a number, most significant first, hold its remainder |
| MTCModel.BitsInNumbers | src/mtc/MTCModel.cpp:384-389 | each bit for itself, the most significant first |
| MTCModel.MasksOfBits | src/mtc/MTCRegisters.h:46-84 | the masks of the registers |
| Globals.Connections.LockConnections | src/core/Globals.cpp:62-102 | 0 exactly when nothing that is looked at is busy or missing, and then the flags of all requested links are set and no others; otherwise no flag has changed, and the result tells busy from not connected |
| Globals.Connections.UnlockConnections | src/core/Globals.cpp:104-116 | the flags of the requested links are cleared, and no others |
| Globals.Connections.CheckLock | src/xl3/XL3Model.cpp:44-52 | not connected comes before busy |
| Globals.RunKeepsInv | src/core/Globals.cpp:62-116 | in every interleaving of clients no crate, nor the MTC when requested with sbc == 1, is held by two clients, connections coming and going |
| Globals.HoldersAreApart | src/core/Globals.cpp:62-116 | the same of the requests: of two holders, no crate below 20 is in both lists, nor did both ask for the MTC |
| Globals.SharedMtc | src/core/Globals.cpp:74-77 | with sbc == 2 the MTC is shared exactly when it is locked and not connected |
| Globals.SharedMtcRun | src/core/Globals.cpp:62-102 | a run in which that happens: it is locked, disconnects, and another client locks it |

## Left out

- Foreign I/O: libevent, sockets, threads and their time-outs, CouchDB, PostgreSQL, ssh. Bytes that have arrived, queues and
  readings stand for them.
- The reads into `input + strlen(input)`: the model starts when the bytes of a chunk are there.
- Memory that cannot be had, and the freeing of strings and buffers; of nodes the freeing is modelled.
- JsonParser.NumberValue: strtod is given the number only, not all that is left of the text. The two differ for a text like
  0x10, which json_decode refuses for what is behind the 0.
- The replacement character that emit_string would write with assertions switched off.
- The values that share a union in a node are separate fields.
- FindNoise.Search: 32 flags of a word are 32 booleans, and loading the DACs is left to the hardware's counts.
- FindNoise.Limit: real arithmetic instead of floating point, and the same for the other rates.
- TTot: the settings with which the check before the search is made, and the final timing measurements.
- XL3Link.Link.ProcessPacket: messages, mega bundles and error packets are only printed; the model ignores them.
- XL3Model.Model.SendCommand: the waits are not modelled; the queue holds what comes before they are over.
- XL3Model.Model.ReadOutBundles: of the register access that fetches the FIFO's pointer and of the request that deselects the
  FECs only counts whether they return, and what the first one does.
- GetCaldTestResults compares packet numbers in a similar way and would add nothing harder.
- DbUpdate.UpdateLocation: arrays of exactly 4 daughterboards and 16 PMTICs, at least 16 FECs with an id, and a crate with the
  number, as the code assumes; the boards go to different positions; positions other than 0 to 5 are not modelled. The numbers of
  the crates are given as integers, in the order of the list.
- MTCLink.Link: the copy of a packet into the queue reads four bytes beyond the buffer, because the structure is that much
  longer; the model's packets are as long as the buffer.
- TriggerScan: the thresholds and the trigger counts around the masks.
- MTCModel.PulserValueFits: of single precision it takes that the order is kept, that integers below 2^24 are exact and that from
  there to 2^25 the numbers are the even integers.
- MTCLink.Turn: a copy beyond the buffer, or of a length that is negative as a signed number, ends the model's loop.
- The lockout, prescale, pedestal and delay registers of the MTC are loaded by the same read-modify-write and would add only easy
  members.
- The pedestal statistics and the secant search of CrateCBal, the command dispatch of ControllerLink, and the test drivers that only
  pack a request and post a document.
