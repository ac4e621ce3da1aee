# A verified model of axodox-common

axodox-common is a C++ utility library. This project models the parts of it that carry real algorithms and
protocols, in Dafny, and proves properties of the model that no single function body shows. `dafny verify
dfyconfig.toml` checks all of it.

* **JSON text** (`JsonGaps`, `JsonStrings`, `Utf8`, `JsonParser`, `JsonGrammar`, `JsonLanguage`,
  `JsonPrinter`, `JsonRoundTrip`). The recursive-descent parser shrinks a view, skipping blanks and comments;
  the printer keeps a deferred-indentation state. The grammar is a concrete syntax with every gap, escape and
  optional comma in it. The parser accepts exactly its texts, and the printed text of a document is one of
  them; so printing and parsing is the identity exactly on documents without a NUL, however they are indented
  and ordered.
* **Typed JSON** (`TypedJson`, `TypedJsonText`, `JsonPointers`, `TypeFamilies`, `NamedEnums`,
  `EnumDefinitions`). Fields of described objects, nested through vectors, optionals and objects, with omitted
  defaults, and enumerations by name. A value comes back under an exact condition on the value and on the
  object that is read into; so does an object behind a pointer, with its dynamic type. Enumeration items are
  read from a declaration of numbers, names, `~`, `-` and `|` as the language means it, unless it has octal
  numbers; any other operand of the language is refused.
* **Binary schema** (`Bytes`, `BinaryValues`, `BinaryStreams`, `BinaryObjects`, `BinaryPointers`,
  `TypeFamilies`, `TypeRegistry`). Nested numbers, strings, sequences, sets and maps; versioned objects, older
  payloads, and pointers to a family of types told apart by their ids.
* **Messaging** (`BlockingCollections`, `MessagePromises`, `SocketStreams`, `TcpMessaging`, `MessagingRuns`,
  `MessagingLoops`). The queue, the promises, the stream over partial transfers and the two loops of a channel
  are classes; all their interleavings are a state machine, with its invariant kept by every step, and every
  turn that the loops of a channel take, from any state the machine can reach, is a run of that machine.
* **Event handlers** (`EventHandlers`). A collection that its own handlers may change while it runs them
  refines a plain map: every call, however deeply nested, comes to what it asks for; tokens wrap at 32 bits.
* **Sorted list update** (`ObservableUpdate`). Three loops that edit a shown list in place end with the list
  that rebuilding it would give, for any order of the items.
* **Buffer allocator** (`BufferAllocator`). First fit with alignment gaps, swap-and-pop removal and joining of
  neighbours keep a partition of the buffer, in 64-bit arithmetic.
* **Base64** (`Base64`). The text form in section 4 of RFC 4648, in both directions.

Text is a `string` whose characters stand for bytes. Bytes are naturals below 256, and shifts and masks are
written as divisions and remainders. What the program changes in place is a class or a loop here; each of
these is proved equal to a function of its inputs, and the lemmas are about these functions. The formats are
also told apart from the functions that follow them: by tables of characters, by the bytes of a number one by
one, by ranges of versions and letters written out, and by the shortest text there is.

## Where the program does not do what it is meant to

* `deallocate` keeps a pointer to the next slot across a swap that may move that slot. It keeps the free list
  a partition exactly when the slot is not confused with another one (`BufferAllocator.ReleaseIsSafe`, with a
  concrete failure that three allocations reach in `BufferAllocator.ConfusedIsReached`). With the pointer
  following the swap it always does (`BufferAllocator.ReleaseKeeps` and `BufferAllocator.RunKeepsPartition`
  with `relocate`).
* A string ends at its first NUL when it is escaped (`JsonStrings.EscapeRoundTrip`, with a string that is lost
  in `JsonStrings.NulIsLost`).
* A negative value of an enumeration without a name is written as a number that is not read back
  (`NamedEnums.TextParses`, with such a value in `NamedEnums.MinusOneIsNotRead`). An octal number in a
  declaration is read right exactly when it is less than eight as a decimal number
  (`EnumDefinitions.OctalIsRead`, with a concrete failure in `EnumDefinitions.OctalTenIsReadAsTen`).
* An engaged optional that holds an absent optional is read as absent, and an omitted property is read as
  whatever the object had (`TypedJson.ComesBack`, with such an optional in `TypedJson.EngagedAbsentIsLost`).
* An object of a derived type that has its own discriminator, or the name of its base type, is read as the
  base type (`JsonPointers.PointerComesBack`).
* A type whose id is all ones, or equals the id of its base type, is not told apart
  (`BinaryPointers.PointerRoundTrip`).
* The length of a message, a string or a container is narrowed to 32 bits (`SocketStreams.FrameRoundTrip`,
  `BinaryValues.RoundTripIsExact`).
* The serializer of pointer fields has no meaning for a null pointer, as it looks at the type of the object
  first, although the descriptor has a case for null (`JsonPointers.FieldComesBack`).
* A complete collection may lose the signal that wakes the threads that wait for it, exactly when its last
  item is taken afterwards and nothing sets the event again (`BlockingCollections.CompletionIsLost`).
* A canceled message that is in the queue already is still sent: canceling only decides the promise
  (`MessagingRuns.CancelingChangesNothingElse`, with a run in `MessagingRuns.CanceledIsStillSent`).
* A message that passed the check for completion before the queue was completed may be pushed after the queue
  was cleared for the last time, and exactly then it stays there (`MessagingRuns.QueuedTooLate`, with a run in
  `MessagingRuns.LateMessageStays`).

## Model

| member | source | states |
|---|---|---|
| JsonGaps.SkipWhitespace | Axodox.Common.Shared/Json/JsonValue.cpp:46-83 | Whitespace and comments are skipped from the front of the view, an unclosed comment to its end; the view becomes the text that the recursive definition leaves. |
| JsonGaps.SkipsClosedGap | Axodox.Common.Shared/Json/JsonValue.cpp:46-83 | Every sequence of blanks, newline-ended line comments and closed block comments is skipped in full, whatever follows it. |
| JsonGaps.SkippedIsGap | Axodox.Common.Shared/Json/JsonValue.cpp:46-83 | The converse: what was skipped is such a sequence unless the text ended in it, and what is left starts with none. |
| JsonGaps.WhitespaceIsSkipped | Axodox.Common.Shared/Json/JsonValue.cpp:50-80 | The four whitespace characters of section 2 of RFC 8259 are skipped, and no other character is but the slash of a comment. |
| JsonStrings.EscapeString | Axodox.Common.Shared/Json/JsonString.cpp:92-139 | The loop over the characters returns the escaped form, which ends at the first NUL. |
| JsonStrings.UnescapeString | Axodox.Common.Shared/Json/JsonString.cpp:166-212 | The loop over the characters returns the unescaped text, or nothing for a cut-off or malformed escape. |
| JsonStrings.ReadUnicodeEscape | Axodox.Common.Shared/Json/JsonString.cpp:49-77 | Appends the UTF-8 form of the escaped code point and moves to the last digit read, pairs of surrogates included. |
| JsonStrings.StringFromString | Axodox.Common.Shared/Json/JsonString.cpp:141-164 | The quote scan stops at the first quote that no backslash escapes; the view moves past it, and stays as it was on failure. |
| JsonStrings.UnescapeEscaped | Axodox.Common.Shared/Json/JsonString.cpp:92-212 | Unescaping an escaped string gives the string up to its first NUL. |
| JsonStrings.EscapeRoundTrip | Axodox.Common.Shared/Json/JsonString.cpp:92-212 | The round trip is exact if and only if the string has no NUL. |
| JsonStrings.NulIsLost | Axodox.Common.Shared/Json/JsonString.cpp:92-212 | A string that is lost: a single NUL comes back empty. |
| JsonStrings.EscapedIsPrintable | Axodox.Common.Shared/Json/JsonString.cpp:92-139 | Escaping leaves no control character in the text, and adds no capital letter: its hex digits are small ones. |
| JsonStrings.EscapeIsShortest | Axodox.Common.Shared/Json/JsonString.cpp:92-139 | No literal without control characters that is read as the string is shorter than its escaped form. |
| JsonStrings.SimpleEscapeDecodes | Axodox.Common.Shared/Json/JsonString.cpp:182-208 | Each two-character escape of section 7 of RFC 8259 is read as its character, an escaped 0 as NUL, and any other letter but u as itself. |
| JsonStrings.CodeUnitReads | Axodox.Common.Shared/Json/JsonString.cpp:9-15 | Four hex digits, each in either letter case, are read as the number for which they are written. |
| JsonStrings.CodeUnitIsHexText | Axodox.Common.Shared/Json/JsonString.cpp:9-15 | The converse: whatever is read as a code unit is four such digits. |
| JsonStrings.EscapedStringParses | Axodox.Common.Shared/Json/JsonString.cpp:87-164 | A quoted escaped string followed by anything is read up to its first NUL, and what follows is left alone. |
| JsonStrings.QuoteAfterLiteral | Axodox.Common.Shared/Json/JsonString.cpp:145-161 | The scan stops right after a literal whose quotes are all escaped, whatever follows. |
| JsonStrings.LiteralBeforeQuote | Axodox.Common.Shared/Json/JsonString.cpp:145-161 | The converse: what the scan stopped at is a quote after such a literal. |
| Utf8.EncodeIsUnit | Axodox.Common.Shared/Json/JsonString.cpp:17-41 | The bytes written for a scalar value are one valid unit of section 4 of RFC 3629, and stand for that value. |
| Utf8.UnitIsEncoded | Axodox.Common.Shared/Json/JsonString.cpp:17-41 | The converse: every valid unit is what is written for the scalar value that it stands for. |
| JsonStrings.UnicodeEscapeDecodes | Axodox.Common.Shared/Json/JsonString.cpp:49-77 | Every scalar value, written in hex digits of any letter cases as one \u escape or as the pair of its surrogates (section 7 of RFC 8259), is read as its UTF-8 form. |
| JsonStrings.UnpairedSurrogateDecodes | Axodox.Common.Shared/Json/JsonString.cpp:56-75 | A surrogate that is low, or high without the escape of a low one after it, is read as U+FFFD. |
| JsonStrings.UnescapeKeepsUtf8 | Axodox.Common.Shared/Json/JsonString.cpp:166-212 | Unescaping well-formed UTF-8 gives well-formed UTF-8. |
| JsonParser.ValueFromString | Axodox.Common.Shared/Json/JsonValue.cpp:22-44 | The dispatch on the first character returns what the recursive definition reads, and leaves the view at what it leaves, also on failure. |
| JsonParser.ArrayFromString | Axodox.Common.Shared/Json/JsonArray.cpp:60-86 | The same for the array loop; commas are optional. |
| JsonParser.ObjectFromString | Axodox.Common.Shared/Json/JsonObject.cpp:82-116 | The same for the object loop; a later member replaces an earlier one of the same name. |
| JsonParser.ParseLeavesSuffix | Axodox.Common.Shared/Json/JsonValue.cpp:22-44 | Parsing ends on every input and leaves a suffix of its text, a strictly shorter one when it read a value. |
| JsonParser.NumbersAreWhole | Axodox.Common.Shared/Json/JsonNumber.cpp:25-38 | A number of at most fifteen digits is read as itself when neither a fraction nor an exponent follows. |
| Strings.NoLeadingZero | Axodox.Common.Shared/Json/JsonNumber.cpp:13-23 | A number is written without leading zeros. |
| JsonGrammar.DocParses | Axodox.Common.Shared/Json/JsonValue.cpp:22-44 | Every document in concrete syntax, with any escapes, any closed gaps between its tokens and any optional commas, is read as the value it stands for, leaving what follows (which must not extend a number). |
| JsonGrammar.ItemsParse | Axodox.Common.Shared/Json/JsonArray.cpp:64-85 | The rest of an array, from any item on, adds its items to those read before. |
| JsonGrammar.MembersParse | Axodox.Common.Shared/Json/JsonObject.cpp:86-115 | The rest of an object, from any member on, sets its members over those read before. |
| JsonGrammar.DocParsesAfterGap | Axodox.Common.Shared/Json/JsonValue.cpp:22-83 | The same with a gap in front of the document. |
| JsonGrammar.RenderAppends | Axodox.Common.Shared/Json/JsonValue.cpp:22-44 | What follows a document is only appended to its text. |
| JsonLanguage.AcceptedExactly | Axodox.Common.Shared/Json/JsonValue.cpp:22-83 | A text is accepted with a value and a rest if and only if it is a gap, a document of that value, and that rest. |
| JsonLanguage.ItemsAreDocs | Axodox.Common.Shared/Json/JsonArray.cpp:60-86 | Whatever the array loop accepts is a list of documents with gaps, separated so that numbers do not run into one. |
| JsonLanguage.MembersAreDocs | Axodox.Common.Shared/Json/JsonObject.cpp:82-116 | Whatever the object loop accepts is a list of named documents with gaps. |
| JsonLanguage.ValueIsUnique | Axodox.Common.Shared/Json/JsonValue.cpp:22-83 | However a text is taken apart into a document, its value and its rest are the same. |
| JsonPrinter.JsonStream.Write | Axodox.Common.Shared/Json/JsonStream.h:28-33 | Writes the pending indentation, if a line starts, and then the text. |
| JsonPrinter.JsonStream.WriteLine | Axodox.Common.Shared/Json/JsonStream.h:35-44 | Ends the line only in indented output, and defers the indentation of the next one. |
| JsonPrinter.Print | Axodox.Common.Shared/Json/JsonString.cpp:87-90 | Appends the text of any document to what the stream holds and leaves the indentation counter as it found it. |
| JsonPrinter.PrintArray | Axodox.Common.Shared/Json/JsonArray.cpp:24-58 | The same for the loop over the items. |
| JsonPrinter.PrintObject | Axodox.Common.Shared/Json/JsonObject.cpp:43-80 | The same for the loop over the members in iteration order. |
| JsonPrinter.ToString | Axodox.Common.Shared/Json/JsonValue.cpp:15-20 | The text of a document in a new stream. |
| JsonRoundTrip.EmitRenders | Axodox.Common.Shared/Json/JsonStream.cpp:18-40 | What is printed is a document of the concrete syntax, whose gaps are the line breaks and the deferred indentation. |
| JsonRoundTrip.PrintedTextParses | Axodox.Common.Shared/Json/JsonObject.cpp:43-116 | Printed text is read back as the value of the document, names and strings up to their first NUL, for every indentation, depth, whitespace line ending and rest. |
| JsonRoundTrip.RoundTripIsExact | Axodox.Common.Shared/Json/JsonArray.cpp:24-86 | Printing and parsing is the identity if and only if no string and no name holds a NUL. |
| JsonRoundTrip.MemberOrderDoesNotMatter | Axodox.Common.Shared/Json/JsonObject.cpp:54-76 | Two iteration orders of the same members stand for the same value. |
| EventHandlers.PassedTokensAreUsed | Axodox.Common.Shared/Infrastructure/Events.h:132-135 | While fewer than 2^32 tokens are in use, the wrapping search for a token ends before it is back where it started. |
| EventHandlers.TokensWrap | Axodox.Common.Shared/Infrastructure/Events.h:132-142 | Tokens have 32 bits, and after the last one comes zero. |
| EventHandlers.EventHandlerCollection.Add | Axodox.Common.Shared/Infrastructure/Events.h:128-147 | The token is the first one not in use from the next token on; the handler goes to the live ones outside of an invoke, and to the pending ones inside. |
| EventHandlers.EventHandlerCollection.Remove | Axodox.Common.Shared/Infrastructure/Events.h:149-165 | Answers whether the handler is live; a pending one cannot be removed. Inside an invoke the removal is only marked. |
| EventHandlers.EventHandlerCollection.Invoke | Axodox.Common.Shared/Infrastructure/Events.h:167-189 | Each invoke, nested ones included, calls exactly the handlers that were live when the outermost one began, once each, and each of these makes all of its calls, which come to what they ask for; afterwards the handlers are those, with one new token for each handler added, without what was removed. |
| EventHandlers.EventHandlerCollection.CallAll | Axodox.Common.Shared/Infrastructure/Events.h:128-189 | Over any sequence of calls, with any calls nested in handlers: an add comes to a new token for its handler, a remove tells whether its token is live, an invoke calls the live handlers with all their calls; and the collection is the plain map that these outcomes change, one after the other. |
| EventHandlers.EventHandlerCollection.TakeStep | Axodox.Common.Shared/Infrastructure/Events.h:128-189 | A call from inside a running handler comes to what it asks for while the handlers stay the same, and only what is pending changes. |
| EventHandlers.EventHandlerCollection.CallHandlers | Axodox.Common.Shared/Infrastructure/Events.h:170-174 | The loop over the handlers calls each one once, in some order, and lets it make all of its calls. |
| EventHandlers.MergeTells | Axodox.Common.Shared/Infrastructure/Events.h:167-189 | What two parts of a nested run tell about pending additions and removals adds up, with no token issued twice. |
| ObservableUpdate.UpdateObservableCollection | Axodox.Common.Shared/Collections/ObservableExtensions.h:8-90 | The target ends as the mapped source in sorted order, whatever it held before; a target that is this list already is not edited at all. The mapper is asked for nothing beyond the items concerned. |
| ObservableUpdate.AnyOrderIsCoherent | Axodox.Common.Shared/Collections/ObservableExtensions.h:22-50 | A mapper that compares by any order of the items concerned, such as one of numbers or of texts, orders them by keys, as the update asks. |
| ObservableUpdate.RebuildSorts | Axodox.Common.Shared/Collections/ObservableExtensions.h:8-90 | The list it is compared with is sorted and a permutation of the mapped source. |
| ObservableUpdate.Upsert | Axodox.Common.Shared/Collections/ObservableExtensions.h:22-69 | One round shows one more source item: it leaves its old place when its key changed, and goes into its new place. |
| ObservableUpdate.DeleteStale | Axodox.Common.Shared/Collections/ObservableExtensions.h:72-89 | The last loop keeps exactly the items whose id is not to be deleted, in order. |
| ObservableUpdate.SortedIsUnique | Axodox.Common.Shared/Collections/ObservableExtensions.h:8-90 | Only one strictly sorted list has given elements, so being sorted and complete is being the rebuilt list. |
| BufferAllocator.WordsWrap | Axodox.Common.Shared/Infrastructure/BufferAllocator.cpp:112-117 | Sums and differences of addresses wrap around at 64 bits. |
| BufferAllocator.Aligned | Axodox.Common.Shared/Infrastructure/BufferAllocator.cpp:112-117 | Where the sum fits 64 bits, the result is the smallest multiple of the alignment that is not below the offset. |
| BufferAllocator.CarveKeeps | Axodox.Common.Shared/Infrastructure/BufferAllocator.cpp:35-69 | An allocation is aligned and was wholly free, no step of the arithmetic wraps, and free and live segments stay a partition without adjacent free segments. |
| BufferAllocator.BufferAllocator.TryAllocate | Axodox.Common.Shared/Infrastructure/BufferAllocator.cpp:19-70 | Succeeds exactly when some slot fits, taking the first one; the new segment is aligned, of the requested size, and was not live. |
| BufferAllocator.EnoughFits | Axodox.Common.Shared/Infrastructure/BufferAllocator.cpp:28-48 | A request succeeds whenever some free slot has at least size + alignment - 1 bytes. |
| BufferAllocator.ReleaseKeeps | Axodox.Common.Shared/Infrastructure/BufferAllocator.cpp:72-105 | Giving a segment back keeps the partition whenever the next slot is not the last one with both neighbours free, or when its pointer follows the swap. |
| BufferAllocator.ReleaseIsSafe | Axodox.Common.Shared/Infrastructure/BufferAllocator.cpp:87-104 | For the code as it is, giving a segment back keeps the partition if and only if the next slot is not confused: not last with a previous slot, or the previous slot is right before it with the same size. |
| BufferAllocator.ConfusedExample | Axodox.Common.Shared/Infrastructure/BufferAllocator.cpp:87-104 | A concrete free list for which the code lists 140 free bytes in a buffer of 100, and the relocated pointer 100. |
| BufferAllocator.ConfusedIsReached | Axodox.Common.Shared/Infrastructure/BufferAllocator.cpp:19-105 | This free list comes up in a new buffer of 100 bytes: three allocations, then the first and the last segment given back, and then the middle one. |
| BufferAllocator.BufferAllocator.Deallocate | Axodox.Common.Shared/Infrastructure/BufferAllocator.cpp:72-105 | The loop and the two swap-and-pop removals do what the specification says, and the invariant survives exactly when the next slot is not confused. |
| BufferAllocator.RunKeepsPartition | Axodox.Common.Shared/Infrastructure/BufferAllocator.cpp:19-105 | Through any allocations and frees that never confuse the next slot, or with the relocated pointer, free and live tile the buffer, no two free segments touch, and freeing everything in any order restores the one segment. |
| BufferAllocator.SizesAddUp | Axodox.Common.Shared/Infrastructure/BufferAllocator.cpp:19-105 | The sizes of the free and live segments add up to the size of the buffer. |
| BufferAllocator.NothingLive | Axodox.Common.Shared/Infrastructure/BufferAllocator.cpp:72-105 | With nothing live, the free list is the one segment of the whole buffer. |
| Base64.EncodeBase64 | Axodox.Common.Shared/Infrastructure/Text.cpp:68-103 | The loop over groups of three bytes and the two endings give the padded digits. |
| Base64.TryDecodeBase64 | Axodox.Common.Shared/Infrastructure/Text.cpp:105-152 | The loop with its 32-bit group, which wraps, reads what the definition without the wrap reads. |
| Base64.GroupKeepsBits | Axodox.Common.Shared/Infrastructure/Text.cpp:138-144 | Losing the high bits of the group never touches bits that are still to be read. |
| Base64.EncodesByGroups | Axodox.Common.Shared/Infrastructure/Text.cpp:68-108 | One, two and three bytes are written as the characters of the alphabet for their six-bit groups, most significant first, and padded to four; longer data is written three bytes at a time. |
| Base64.DecodeEncoded | Axodox.Common.Shared/Infrastructure/Text.cpp:68-152 | Decoding undoes encoding, for every byte sequence. |
| Base64.DecodesExactly | Axodox.Common.Shared/Infrastructure/Text.cpp:105-152 | A text decodes to some data if and only if it is the digits of the data with any padding, or, after whole groups, with one extra A before the padding. |
| NamedEnums.ToText | Axodox.Common.Shared/Infrastructure/NamedEnum.h:81-109 | The name of the value, or the joined names of its single bits, or its number. |
| NamedEnums.JoinFlags | Axodox.Common.Shared/Infrastructure/NamedEnum.h:93-105 | The loop takes each single-bit name whose bit no earlier one took, and leaves the bits that have no name. |
| NamedEnums.TryParse | Axodox.Common.Shared/Infrastructure/NamedEnum.h:111-147 | The loops over the parts and over the names read what the definition reads. |
| NamedEnums.SplitText | Axodox.Common.Shared/Infrastructure/Text.cpp:28-48 | The parts between delimiters; nothing after the last delimiter is not a part. |
| NamedEnums.FlagsMakeUpTheValue | Axodox.Common.Shared/Infrastructure/NamedEnum.h:94-105 | The flags found and the bits left over make up the value, and what is left over is what no single-bit item has. |
| NamedEnums.JoinParses | Axodox.Common.Shared/Infrastructure/NamedEnum.h:117-130 | Joined names of flags, split, trimmed and looked up again, are read as the union of their values. |
| NamedEnums.NameParsesInAnyCase | Axodox.Common.Shared/Infrastructure/NamedEnum.h:111-147 | A name is read as the item that has the same letters in whatever case, and as nothing if there is none. |
| NamedEnums.WhitespaceIsTrimmed | Axodox.Common.Shared/Infrastructure/Text.cpp:50-57 | Exactly the six whitespace characters are trimmed off, at both ends. |
| NamedEnums.SingleBitIsPowerOfTwo | Axodox.Common.Shared/Infrastructure/NamedEnum.h:81-109 | The values that the loop over the flags takes into account are the powers of two. |
| NamedEnums.SignedIs | Axodox.Common.Shared/Infrastructure/NamedEnum.h:81-109 | The number that is written for a value is the one of 32 bits in two's complement. |
| NamedEnums.TextParses | Axodox.Common.Shared/Infrastructure/NamedEnum.h:81-147 | Text gives the value back if and only if the value is named, or is a union of named single bits of flags, or is not negative as a number. |
| NamedEnums.MinusOneIsNotRead | Axodox.Common.Shared/Infrastructure/NamedEnum.h:81-147 | A value that is not read back: -1 without a name. |
| EnumDefinitions.ParseDefinition | Axodox.Common.Shared/Infrastructure/NamedEnum.h:173-195 | The loop over the entries of a declaration: names, explicit values, and one more than the value before. |
| EnumDefinitions.EvaluateValue | Axodox.Common.Shared/Infrastructure/NamedEnum.h:202-210 | The union of the operands of an expression, or nothing where the library throws. |
| EnumDefinitions.OperandReads | Axodox.Common.Shared/Infrastructure/NamedEnum.h:212-239 | A complement, a negation, a decimal or hexadecimal number with a suffix, or a name is read as its value, or as nothing for an unknown name or a number that does not fit 64 bits. |
| EnumDefinitions.OperandsReadExactly | Axodox.Common.Shared/Infrastructure/NamedEnum.h:212-239 | An operand is read if and only if it is a complement or negation of an operand, a number with a suffix that fits, or a known name. |
| EnumDefinitions.OtherOperandsAreRefused | Axodox.Common.Shared/Infrastructure/NamedEnum.h:212-239 | An operand with any character beside letters, digits, underscores, blanks, `~` and `-` is refused, as are parentheses, shifts, sums, characters and separated numbers. |
| EnumDefinitions.HexNumbersRead | Axodox.Common.Shared/Infrastructure/NamedEnum.h:217-229 | Hex digits in any letter cases are read as their number if it fits 64 bits and only an integer suffix follows. |
| EnumDefinitions.DecimalNumbersRead | Axodox.Common.Shared/Infrastructure/NamedEnum.h:217-229 | Decimal digits are read as their number if it fits 64 bits and only an integer suffix follows. |
| EnumDefinitions.EitherHasBits | Axodox.Common.Shared/Infrastructure/NamedEnum.h:202-210 | The union of operands has the bits that either one has. |
| EnumDefinitions.ComplementHasBits | Axodox.Common.Shared/Infrastructure/NamedEnum.h:214 | A complement has the bits that its operand does not have. |
| EnumDefinitions.NegationCancels | Axodox.Common.Shared/Infrastructure/NamedEnum.h:215 | A value and its negation cancel out in 64 bits. |
| EnumDefinitions.WidenIsSigned | Axodox.Common.Shared/Infrastructure/NamedEnum.h:231-235 | The value of a name is that of its item in two's complement of 64 bits. |
| EnumDefinitions.DeclarationReads | Axodox.Common.Shared/Infrastructure/NamedEnum.h:173-239 | A declaration, with any blanks and with or without a last comma, is read as its items with all digits taken as decimal; refused exactly when it uses a name not declared before or a number that does not fit. These are the items that the language declares when no octal number in it is eight or more as a decimal number. |
| EnumDefinitions.DeclaredValues | Axodox.Common.Shared/Infrastructure/NamedEnum.h:173-195 | Each item has the low 32 bits of its own value, or of one more than the value before it in 64 bits, or of zero if it is the first. |
| EnumDefinitions.NamesCount | Axodox.Common.Shared/Infrastructure/NamedEnum.h:173-195 | A declaration of names alone gives them the values from zero on. |
| EnumDefinitions.DeclaredNames | Axodox.Common.Shared/Infrastructure/NamedEnum.h:173-195 | When the declared names differ in more than case, the items read from the declaration can be told apart, as the round trip of values needs. |
| EnumDefinitions.OctalIsRead | Axodox.Common.Shared/Infrastructure/NamedEnum.h:217-229 | A number with a leading zero, which is octal in the language, is read as the right value if and only if it is less than eight as a decimal number. |
| EnumDefinitions.OctalTenIsReadAsTen | Axodox.Common.Shared/Infrastructure/NamedEnum.h:217-229 | The octal number 010 stands for eight and is read as ten. |
| TypedJson.WriteObject | Axodox.Common.Shared/Json/JsonSchema.h:277-285 | Adds the members of the properties that are not left out, in order. |
| TypedJson.WriteValue | Axodox.Common.Shared/Json/JsonSerializer.h:214-224 | Booleans, integers, strings, enumerations, vectors, optionals and nested objects as JSON. |
| TypedJson.WriteItems | Axodox.Common.Shared/Json/JsonArray.h:30-41 | The loop over the items of a vector. |
| TypedJson.ReadObject | Axodox.Common.Shared/Json/JsonSchema.h:313-332 | Members that are there are read over the fields, a missing one fails only if it is required, and a failing one fails the object. |
| TypedJson.ReadValue | Axodox.Common.Shared/Json/JsonSerializer.h:226-247 | Reads a value over the one that is there, or fails. |
| TypedJson.ReadItems | Axodox.Common.Shared/Json/JsonArray.h:43-66 | Items that cannot be read are dropped. |
| TypedJson.EnumBack | Axodox.Common.Shared/Json/JsonNumber.h:76-117 | An enumeration value comes back through JSON if and only if its text reads, or it has no names. |
| TypedJson.ComesBack | Axodox.Common.Shared/Json/JsonSchema.h:277-332 | A value of any nested type that is written and read over another one comes back if and only if every property left out has that value already, every enumeration text can be read, and no engaged optional holds an absent one. |
| TypedJson.NewObjectComesBack | Axodox.Common.Shared/Json/JsonSchema.h:250-332 | When the properties that may be left out are newly made in new objects, at any depth, every value with readable enumerations and no engaged absent optional comes back in a new object, whatever is left out. |
| TypedJson.DefaultIsFresh | Axodox.Common.Shared/Json/JsonBoolean.cpp:42-45 | A number, text, boolean, enumeration, vector or optional is default if and only if it is what a newly made one is. |
| TypedJson.FieldsAreReadExactly | Axodox.Common.Shared/Json/JsonSchema.h:312-333 | An object is read if and only if each member that is there can be read and each required one is there; then each field is what was read, or what it was. |
| TypedJson.EngagedAbsentIsLost | Axodox.Common.Shared/Json/JsonSerializer.h:214-247 | A value that does not come back: an engaged optional that holds an absent one. |
| TypedJson.MembersAre | Axodox.Common.Shared/Json/JsonSchema.h:250-285 | The members written are one for each property not left out, under its name, with its value. |
| TypedJson.FormOfFields | Axodox.Common.Shared/Json/JsonSchema.h:277-285 | The JSON value of a list of objects with a boolean, a text and an absent or engaged optional number. |
| TypedJson.DefaultIsEmpty | Axodox.Common.Shared/Json/JsonSchema.h:287-292 | An object is default if and only if it is written without members. |
| TypedJsonText.TypedTextRoundTrip | Axodox.Common.Shared/Json/JsonSchema.h:277-332 | The same through text: written, printed in any way and member order, parsed, and read. |
| JsonPointers.PointerComesBack | Axodox.Common.Shared/Json/JsonSchema.h:300-360 | An object behind a pointer comes back with its dynamic type if and only if it has the base type, or another name than the base type under the same discriminator, and its fields are recoverable over a new object. |
| TypeFamilies.ReaderOfWriter | Axodox.Common.Shared/Json/JsonSchema.h:346-356 | The key of a type, an id or a name, leads back to the type if and only if it is not that of the base type, or the type is the base type; otherwise it leads to another type. |
| TypeFamilies.ReaderIs | Axodox.Common.Shared/Storage/BinarySchema.h:327-356 | A key stands for the base type if it is its key, or else for a derived type with that key; any other key stands for none. |
| JsonPointers.PickedByWriter | Axodox.Common.Shared/Json/JsonSchema.h:346-356 | The written object is read as its dynamic type under exactly the condition on discriminators and names, and otherwise as another type. |
| JsonPointers.FieldsAreRead | Axodox.Common.Shared/Json/JsonSchema.h:305-309 | The discriminator in the written object does not get in the way of reading its fields. |
| JsonPointers.OnlyNullIsReadAsNull | Axodox.Common.Shared/Json/JsonSchema.h:303-343 | What a descriptor writes is read as null if and only if it was written for null, whatever family reads it: an object may fail to be read, but is not lost silently. |
| JsonPointers.FieldComesBack | Axodox.Common.Shared/Json/JsonSchema.h:769-783 | A pointer field comes back if and only if it is not null, its type is registered, and its object comes back; for a null pointer the field serializer has no meaning. |
| Bytes.NumberRoundTrip | Axodox.Common.Shared/Storage/Stream.h:53-71 | The bytes of a number give it back modulo its width. |
| Bytes.ByteOf | Axodox.Common.Shared/Storage/Stream.h:53-71 | The bytes of a number are its digits in base 256, the least significant one first. |
| BinaryStreams.MemoryStream.Write | Axodox.Common.Shared/Storage/MemoryStream.cpp:8-18 | Overwrites what follows the position and grows the buffer as needed. |
| BinaryStreams.MemoryStream.Read | Axodox.Common.Shared/Storage/MemoryStream.cpp:20-40 | Reads exactly so many bytes, or fails without moving. |
| BinaryStreams.WriteValue | Axodox.Common.Shared/Storage/BinarySchema.h:10-21 | Appends the binary form of a number, a string, or a container of any nesting. |
| BinaryStreams.WriteItems | Axodox.Common.Shared/Storage/BinarySchema.h:45-53 | The loop over the items of a sequence or a set. |
| BinaryStreams.WriteEntries | Axodox.Common.Shared/Storage/BinarySchema.h:83-93 | The loop over the entries of a map. |
| BinaryStreams.WriteNumbers | Axodox.Common.Shared/Storage/Stream.h:43-51 | The memory of a vector of trivially copyable items, written at once, is their forms one by one. |
| BinaryStreams.ReadValue | Axodox.Common.Shared/Storage/BinarySchema.h:10-21 | Reads a value of a type, or fails, leaving the bytes after it. |
| BinaryStreams.ReadItems | Axodox.Common.Shared/Storage/BinarySchema.h:55-73 | The loop that appends the items read. |
| BinaryStreams.ReadSet | Axodox.Common.Shared/Storage/BinarySchema.h:55-73 | The loop that inserts the items read; a repeated item is inserted once. |
| BinaryStreams.ReadMap | Axodox.Common.Shared/Storage/BinarySchema.h:95-109 | The loop that emplaces the pairs read; a repeated key keeps its first value. |
| BinaryStreams.NumbersAtOnce | Axodox.Common.Shared/Storage/Stream.h:30-41 | Taking the bytes of all numbers at once reads the same numbers as taking them one by one, and fails in the same cases. |
| BinaryValues.RoundTripIsExact | Axodox.Common.Shared/Storage/BinarySchema.h:40-110 | A value of any nested type comes back, before any suffix and in any listing order of its sets and maps, if and only if every string and container has fewer than 2^32 items. |
| BinaryValues.LayoutOfMap | Axodox.Common.Shared/Storage/BinarySchema.h:44-104 | The bytes of a map from a text to numbers, one by one: sizes of four bytes, the key before what it is mapped to, items in order. |
| BinaryObjects.SerializeObject | Axodox.Common.Shared/Storage/BinarySchema.h:287-297 | Writes the version and the properties of that version in order. |
| BinaryObjects.DeserializeObject | Axodox.Common.Shared/Storage/BinarySchema.h:299-309 | Reads the version and then, in place, the properties of that version. |
| BinaryObjects.AnyVersionIsRead | Axodox.Common.Shared/Storage/BinarySchema.h:287-309 | A payload of another version is read correctly whenever writer and reader agree on the types of the properties of that version: these take the written values, and all others stay as they were. |
| BinaryObjects.ObjectRoundTrip | Axodox.Common.Shared/Storage/BinarySchema.h:287-309 | An object comes back, before any suffix, if and only if the sizes of the fields of its version fit; its other fields keep their defaults. |
| BinaryObjects.WrittenExactly | Axodox.Common.Shared/Storage/BinarySchema.h:287-297 | The bytes of an object are its version, and then exactly the fields whose first and last version enclose it, both included, in order. |
| BinaryPointers.SerializePointer | Axodox.Common.Shared/Storage/BinarySchema.h:313-331 | Writes the id of the dynamic type and then the object, an all-ones id for null, and fails for a type that is not registered. |
| BinaryPointers.DeserializePointer | Axodox.Common.Shared/Storage/BinarySchema.h:335-357 | Finds the type by its id, makes a new object, and reads it; fails for an unknown id or a type without a default constructor. |
| BinaryPointers.PointerRoundTrip | Axodox.Common.Shared/Storage/BinarySchema.h:313-357 | An object comes back with its dynamic type if and only if the id of the type is not all ones and differs from that of the base type, unless it has the base type. |
| BinaryPointers.NullRoundTrip | Axodox.Common.Shared/Storage/BinarySchema.h:327-356 | A null pointer comes back as one. |
| BinaryPointers.NullBytes | Axodox.Common.Shared/Storage/BinarySchema.h:311-325 | The bytes of a null pointer are an id of all ones. |
| TypeRegistry.DescriptorRegistry.AddDerived | Axodox.Common.Shared/Storage/BinarySchema.h:267-284 | Makes a type known to a base and all its bases; fails exactly when one of them knows another type of the same id, having told only some of them. |
| TypeRegistry.RegisteringIsConsistent | Axodox.Common.Shared/Storage/BinarySchema.h:267-284 | After a registration every base knows every type derived from it, directly or not, and the ids of these differ, if and only if no base knew another type of the same id. |
| BlockingCollections.BlockingCollection.Add | Axodox.Common.Shared/Threading/BlockingCollection.h:21-28 | Adds the item behind all others unless the collection was complete when it was looked at; what others do before the lock is taken is a parameter. |
| BlockingCollections.BlockingCollection.TryGet | Axodox.Common.Shared/Threading/BlockingCollection.h:30-52 | Takes the first item, at once or after one wait in which others act; comes back empty only when there was nothing at that moment. |
| BlockingCollections.ItemsLeaveInOrder | Axodox.Common.Shared/Threading/BlockingCollection.h:21-61 | Under any interleaving of pushes, takes, clears and completion, items leave in the order in which they came; none is lost or doubled. |
| BlockingCollections.StaysReady | Axodox.Common.Shared/Threading/BlockingCollection.h:21-68 | Under any interleaving, whenever the lock is free, something in the queue means that the event is set. |
| BlockingCollections.CompletionIsLost | Axodox.Common.Shared/Threading/BlockingCollection.h:30-68 | A complete collection stays complete; its event is unset if and only if its last item was taken and nothing has set the event since, or nothing has ever set it. Setting the flag and setting the event are two steps. |
| MessagePromises.MessagePromise.Cancel | Axodox.Common.Shared/Networking/Messaging/MessageTask.cpp:17-26 | Decides the outcome as a failure if it is still open; the future never gets a second value. |
| MessagePromises.MessagePromise.Finish | Axodox.Common.Shared/Networking/Messaging/MessageTask.cpp:33-41 | Decides the outcome if it is still open; the future never gets a second value. |
| MessagePromises.MessagePromise.Destroy | Axodox.Common.Shared/Networking/Messaging/MessageTask.cpp:58-65 | Gives the future a failure if it has no value yet, and never a second value. |
| MessagePromises.FirstCallDecides | Axodox.Common.Shared/Networking/Messaging/MessageTask.cpp:17-65 | In any order of finish and cancel calls the first one alone decides the outcome, and destruction decides it as a failure when none was made. |
| SocketStreams.FrameRoundTrip | Axodox.Common.Shared/Networking/Messaging/TCP/TcpMessagingChannel.cpp:53-64 | A frame before anything is read as its message, leaving what follows, if and only if the message is shorter than 2^32 bytes. |
| SocketStreams.FrameBytes | Axodox.Common.Shared/Networking/Messaging/TCP/TcpMessagingChannel.cpp:53-64 | The bytes of a frame: those of the magic number and of the length in 32 bits, least significant first, and the message. |
| SocketStreams.WholeIsFrame | Axodox.Common.Shared/Networking/Messaging/TCP/TcpMessagingChannel.cpp:88-101 | Bytes are read as a message only when they start with the frame of that message. |
| SocketStreams.PartOfFrameIsShort | Axodox.Common.Shared/Networking/Messaging/TCP/TcpMessagingChannel.cpp:88-101 | A proper part of a frame is neither taken for a message nor rejected. |
| SocketStreams.SocketStream.Write | Axodox.Common.Shared/Networking/Sockets/SocketStream.cpp:14-21 | However the socket splits it, as much of the buffer is sent as the connection transfers before it fails, which is all of it or a proper part. |
| SocketStreams.SocketStream.Read | Axodox.Common.Shared/Networking/Sockets/SocketStream.cpp:23-33 | However the bytes arrive, the bytes read are those asked for, in order, unless the connection fails first; exactly as many are taken as it transfers. A partial read takes one transfer. |
| SocketStreams.SocketStream.WriteVector | Axodox.Common.Shared/Storage/Stream.h:43-51 | The length and the bytes, as far as the connection transfers them. |
| SocketStreams.SocketStream.ReadVector | Axodox.Common.Shared/Storage/Stream.h:30-41 | A length and as many bytes; it fails only when the connection does, with fewer bytes taken than these. |
| TcpMessaging.TcpMessagingChannel.SendMessage | Axodox.Common.Shared/Networking/Messaging/TCP/TcpMessagingChannel.cpp:24-30 | A new promise behind all others in the queue, unless the queue is complete. |
| TcpMessaging.TcpMessagingChannel.SendMessages | Axodox.Common.Shared/Networking/Messaging/TCP/TcpMessagingChannel.cpp:44-80 | The frames of the messages taken, with heartbeats in between, are sent in order, as far as the connection transfers them, the last one perhaps in part; exactly the promises of the messages sent as a whole are fulfilled; then the queue is complete and empty. |
| TcpMessaging.TcpMessagingChannel.ReceiveMessages | Axodox.Common.Shared/Networking/Messaging/TCP/TcpMessagingChannel.cpp:82-113 | As many bytes are taken as the turns and the connection allow; the non-empty messages of the whole frames in these are delivered, in order, and what is left over is a proper part of a frame or a wrong magic number. |
| TcpMessaging.TcpMessagingChannel.ReceiveFrame | Axodox.Common.Shared/Networking/Messaging/TCP/TcpMessagingChannel.cpp:90-96 | What the connection brings of a frame decides how the turn ends: a message, a mismatch, or a failure. |
| MessagingRuns.DeliveredInOrder | Axodox.Common.Shared/Networking/Messaging/TCP/TcpMessagingChannel.cpp:24-113 | In every run of callers, sender, network and receiver, with messages shorter than 2^32 bytes, what was delivered is a prefix, in order, of the non-empty messages queued, and the receiver never meets a wrong magic number. |
| MessagingRuns.QuietMeansDelivered | Axodox.Common.Shared/Networking/Messaging/TCP/TcpMessagingChannel.cpp:24-113 | When nothing waits and no byte is under way, every non-empty message queued has been delivered. |
| MessagingRuns.PromisesTellTheTruth | Axodox.Common.Shared/Networking/Messaging/TCP/TcpMessagingChannel.cpp:50-77 | In every run, a future that tells of success belongs to a message whose whole frame was handed to the socket, a destroyed promise has given its future a value, and a value once given never changes. |
| MessagingRuns.NoWakeUpIsLost | Axodox.Common.Shared/Threading/BlockingCollection.h:21-68 | In every run, after every step, a message in the queue means that the event is set, and messages leave the queue in order. |
| MessagingRuns.NothingIsSentTwice | Axodox.Common.Shared/Networking/Messaging/TCP/TcpMessagingChannel.cpp:24-66 | In every run, no message is queued twice, and none is sent twice. |
| MessagingRuns.NoneMadeOnceComplete | Axodox.Common.Shared/Threading/BlockingCollection.h:21-24 | Once the queue is complete, no message is made any more, and it stays complete. |
| MessagingRuns.CancelingChangesNothingElse | Axodox.Common.Shared/Networking/Messaging/MessageTask.cpp:17-26 | Without its cancels, any run is a run that queues, sends and delivers the same: canceling decides promises and nothing else. |
| MessagingRuns.CanceledIsStillSent | Axodox.Common.Shared/Networking/Messaging/TCP/TcpMessagingChannel.cpp:50-65 | A run in which a queued message is canceled, its future tells of failure, and its whole frame is sent. |
| MessagingRuns.QueuedTooLate | Axodox.Common.Shared/Networking/Messaging/TCP/TcpMessagingChannel.cpp:76-79 | Once the sender has ended, nothing more is started or sent, and a message is in the queue at the end if and only if it was queued or pushed and the queue was not cleared after that. |
| MessagingRuns.LateMessageStays | Axodox.Common.Shared/Threading/BlockingCollection.h:21-28 | A run in which a message that passed the check for completion is pushed after the queue was completed and cleared, and stays there. |
| MessagingLoops.SenderTakesSteps | Axodox.Common.Shared/Networking/Messaging/TCP/TcpMessagingChannel.cpp:51-65 | Every turn of a sender, whatever others push while it waits and whatever the connection takes of its frame, is a run of the state machine. |
| MessagingLoops.TakeSenderTurn | Axodox.Common.Shared/Networking/Messaging/TCP/TcpMessagingChannel.cpp:51-65 | A turn of the sender loop of a channel whose queue, promises and sent bytes are those of a state that keeps the invariant leaves them as a run of the state machine does; a failure ends the sender there. |
| MessagingLoops.TakeReceiverTurn | Axodox.Common.Shared/Networking/Messaging/TCP/TcpMessagingChannel.cpp:88-101 | A turn of the receiver loop on the bytes under way leaves those that a run of the state machine leaves, and brings the message that the run delivers. |
| MessagingLoops.ReceiverTakesSteps | Axodox.Common.Shared/Networking/Messaging/TCP/TcpMessagingChannel.cpp:88-101 | Every turn of a receiver, whatever it finds, is a run of the state machine. |
| MessagingRuns.InvariantStays | Axodox.Common.Shared/Networking/Messaging/TCP/TcpMessagingChannel.cpp:24-113 | Every step of any of the threads keeps the invariant that these rest on. |

## Left out

- JsonParser.ParseNumber: reads integers of magnitude below 10^15 only. Fractions, exponents, larger numbers, the infinities and NaN that the standard library may also accept, and locale are not part of this model, nor is the sign of zero.
- JsonParser.ValueFromString: the same restriction of numbers.
- JsonLanguage.AcceptedExactly: is about texts without such numbers, for the same reason: the text of floating-point numbers is up to the standard library.
- TypedJson.BitsOf: a number outside the range of the underlying type wraps, where the conversion from floating point is undefined in the program.
- TypedJson.FromJson: integer fields hold every number of the model; narrower integer, floating-point, duration, base64 and pointer fields, schemas and validation are not modelled. What a failing object was changed to before it failed is not kept.
- NamedEnums.Definition: enumerations have a 32-bit signed underlying type; other widths would only change a constant.
- EnumDefinitions.DeclarationReads: is about declarations of numbers, names, `~`, `-` and `|`; shifts, parentheses, sums, binary and separated numbers and characters are legal in the language too, and refused (`EnumDefinitions.OperandsReadExactly`).
- MessagingLoops.TakeSenderTurn: what others do while the sender waits is pushing; the other steps of the machine are not taken within a turn.
- EnumDefinitions.Operand: the exception for an unsupported value is an empty result.
- BufferAllocator.AlignMemoryOffset: an alignment of zero, which divides by zero, is excluded; requests and buffers have a positive size.
- BufferAllocator.Release: the memory of a popped slot stays readable, as on the platforms of the library; the language leaves it undefined.
- ObservableUpdate.UpdateObservableCollection: ids differ in the source and in the target, sort keys differ in the source, the target starts sorted, and the comparison orders the items concerned, as the algorithm needs.
- EventHandlers.EventHandlerCollection: handlers return normally, and one thread runs at a time; the recursive lock and its owner are left out. Fewer than 2^32 tokens are ever in use.
- JsonPointers.PointerComesBack: properties named like the discriminator are excluded.
- JsonPointers.OnlyNullIsReadAsNull: is about the descriptor; what the serializer of pointer fields does with null is undefined in the language, and has no value in `JsonPointers.WriteField`.
- BinaryValues.Decode: custom converters are not modelled. Whether a set or a map lists an item twice is decided by equality, not by a custom order or hash.
- BinaryStreams.MemoryStream: partial reads, seeking and `read_line` are left out.
- TypeRegistry.DescriptorRegistry.AddDerived: the order of static initialisation is assumed to describe bases before the types derived from them.
- SocketStreams.Socket: a plan says how many bytes each call transfers and when the connection fails; transfers of no bytes are allowed, but not for ever.
- TcpMessaging.TcpMessagingChannel.SendMessages: what other threads do to the queue happens while the sender waits for it; every other interleaving is in `MessagingRuns`. The destruction of dropped promises is in `MessagingRuns` only.
- MessagingRuns.LateMessageStays: the destruction of the queue with the channel, which also destroys the promises of messages left in it, is not a step of the model.
- MessagingRuns.QuietMeansDelivered: liveness, timeouts, the reconnecting client and the server are not modelled.
- Graphics, user interface, files, dispatchers and thread pools: calls into the platform.
- The older property registration by offsets: it serializes like the descriptors do, only always.
- Geometry, lifetimes, expected values and traits: they would add easy members only.
