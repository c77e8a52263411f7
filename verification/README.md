# ArduinoJson, the relay session and the checksum: a model in Dafny

Three parts of the repository are modelled and verified.

**The JSON document engine** (`external/ArduinoJson`). A document is a memory pool, strings growing from its left end
and slots from its right, and a root variant. Slots form lists through relative links; strings are shared.

- `Values`, `Unicode`, `Numbers`, `JsonText` say what the parser computes on a whole input with unlimited memory: one
  function for each parsing or skipping member of the deserializer, filters, nesting limit and positions included.
- `JsonGrammar` is the grammar of RFC 8259 in literal bytes, `MsgPackFormat` the format of MessagePack, `JsonSelection` what a
  filter selects of a document, path by path, and `JsonRepeats` what it leaves under repeated keys. `JsonTexts`,
  `JsonWritten`, `JsonCut` and the lemmas beside these tie the functions to them.
- `JsonReading`, `JsonSkipping`, `JsonFilter`, `JsonDepth`, `JsonUnicode`, `JsonPrinter` and `Decimals` prove what this is
  for: skipping agrees with parsing, filtering commutes with parsing, the depth limit is exact, escapes decode to UTF-8,
  printing and parsing are inverse, decimal text keeps its value. `MsgPack` does the same for the binary format.
- `Heap` and `Trees` say which value the slots and characters in memory denote, and how the tree may change; `StringRoom`
  what room a set of strings takes.
  `MemoryPool`, `StringCopier`, `Collections` and `Elements` are the mutable pool and the operations on slot lists, proved
  to act on the denoted value as a sequence operation.
- `JsonDeserializer` and `MsgPackDeserializer` are the two decoders over a bounded pool. They refine the pure functions:
  success means that the tree built denotes the pure result, NoMemory that the pool overflowed, which a pool with a slot
  for each byte of the input (and a terminator, for MessagePack) never does.
- `Document` is shrinkToFit with its two relocation distances, `DeepCopy` copying and memoryUsage, `Serializers` the three
  serializers over slots, `Equality` and `Comparison` the comparison operators.

**The download direction of the TCP relay session** (`src/session`). `TcpSession` is the object with its sliding buffer and
four sequence pointers, proved against a description without buffer; `TcpStream` puts it in a system with a network that
loses, repeats, delays and reorders, and a client that takes bytes in order, and proves invariants of all its runs;
`TcpEnding` says what the client can still get when the session has ended.
The variables are those of section 3.3.1 of RFC 9293.

**The Internet checksum** (`src/TCPRaw.c`, sections 1 and 2 of RFC 1071) is in `Checksum`.

Some promises do not hold of the code without a condition. Each has a concrete case and the exact condition:

- filtering commutes with parsing exactly when no array or object is hidden by a later value of another kind under its key;
- `==` holds both ways exactly when no string holds a NUL, missing members are null and repeated keys agree, and passes over
  an equal value exactly when each null member of the last is null or missing in the first;
- a copy into the capacity of its source fits exactly when its strings, saved in its own order, do, and always without NULs;
- a decimal number, cut off after the digits that fit, keeps its magnitude exactly when the first 20 significant digits of
  its whole part are not from 2^64 to 2^64+3, and is else read ten times too large; it becomes infinity or zero exactly
  when the magnitude of its exponent part and the exponent of its digits add up to more than 308, so that 0e309 is infinity
  and 100e-309 is zero;
- a text of the JSON grammar is accepted exactly when its numbers have at most 63 characters, it nests within the limit and
  a number at the root is followed by the end; its keys are kept exactly when they hold no NUL;
- a printed text is one of RFC 8259 exactly when no string holds a control character without a short escape;
- every MessagePack object is decoded but an extension of 2^32-1 bytes, which is not skipped;
- a download is cut short exactly by a step that closes the session with something unsent: a reset, the fourth timeout, or
  a read or flush when the upload has ended first;
- a change of one word goes unnoticed by the checksum exactly when 0x0000 and 0xFFFF are exchanged among other words.

Other behaviour is modelled as it is in the code: hexadecimal escapes also accept the characters from `:` to `?` as 10
to 15 and the backquote as 9, a low surrogate pairs with the last high one however far before it, an integer filter of
1 counts as `true`, keys end at their first NUL, the pretty printer keeps its depth modulo 256, and `rand() % 2 ^ 31`
makes the initial sequence number 30 or 31, since `^` is an exclusive or.

Assumptions, where the code relies on them: sequence numbers do not wrap around 2^32 within a session; the MSS is positive;
the server's socket returns at most the bytes asked for, and only the end after the end; an allocator that is asked for
memory returns an aligned address and keeps the bytes it moves; slots are 32 bytes and alignment is 8, as on a 64-bit target.
That the client acknowledges only what was sent is assumed by the session object and proved of the whole system.

## Model

| member | source | states |
|---|---|---|
| `JsonTexts.TextIsRead` | external/ArduinoJson/src/ArduinoJson/Json/JsonDeserializer.hpp:29-44 | for every text of the grammar of RFC 8259, given byte by byte, with white space before it and anything after it: it is accepted if and only if its numbers have at most 63 characters, it nests within the limit, and a number at the root is followed by the end; it is then read as its meaning, keys cut at a NUL; a text that only nests too deeply is TooDeep |
| `JsonTexts.TextParses` | external/ArduinoJson/src/ArduinoJson/Json/JsonDeserializer.hpp:29-44 | an accepted text of the grammar without repeated keys is parsed to its meaning, and under any filter to the projection of its meaning |
| `JsonGrammar.TextStands` | external/ArduinoJson/src/ArduinoJson/Json/JsonDeserializer.hpp:62-112 | wherever a text of the grammar stands in an input, it is read as its meaning and reading stops right after it |
| `JsonGrammar.NumberParses` | external/ArduinoJson/src/ArduinoJson/Numbers/parseNumber.hpp:20-143 | every number of the grammar, with E or e, signs and leading zeros: an integer when it is written as one and fits 64 bits, else the decimal number cut off to the digits that fit |
| `JsonWritten.AcceptedIsWritten` | external/ArduinoJson/src/ArduinoJson/Json/JsonDeserializer.hpp:29-44 | nothing else is accepted: every accepted input begins, after white space, with a text of this grammar, where a number may lack digits on one side of its point or in its exponent, and an escape holds any code unit in what decodeHex takes for digits |
| `JsonWritten.NumberShape` | external/ArduinoJson/src/ArduinoJson/Numbers/parseNumber.hpp:20-143 | a token that parseNumber accepts is a sign, digits, a point and digits, not both runs missing with the point, and an exponent, after whose digits anything may follow once they are too large |
| `JsonTexts.PrintsText` | external/ArduinoJson/src/ArduinoJson/Json/JsonSerializer.hpp:21-99 | what either printer writes is a text of the grammar that means the value |
| `JsonTexts.PrintsRfc` | external/ArduinoJson/src/ArduinoJson/Json/TextFormatter.hpp:39-65 | it is a text of the RFC if and only if no string or key holds a control character without a short escape, which is written raw |
| `JsonTexts.WrongSeparator` | external/ArduinoJson/src/ArduinoJson/Json/JsonDeserializer.hpp:189-204 | after an element nothing but white space, a comma or a bracket is accepted, and after a comma no bracket |
| `JsonTexts.ColonNeeded` | external/ArduinoJson/src/ArduinoJson/Json/JsonDeserializer.hpp:264-270 | after a key nothing but white space and a colon is accepted |
| `JsonTexts.BlankIsEmpty` | external/ArduinoJson/src/ArduinoJson/Json/JsonDeserializer.hpp:583-598 | white space alone is empty input |
| `JsonCut.CutTextIsIncomplete` | external/ArduinoJson/src/ArduinoJson/Json/JsonDeserializer.hpp:583-598 | an accepted text cut anywhere before the place where parsing stops is incomplete input, or empty input when only white space is left, unless the last byte left may belong to a number |
| `JsonSelection.ParsedSelection` | external/ArduinoJson/src/ArduinoJson/Deserialization/Filter.hpp:14-38 | for every accepted text, filter and path: the value, array, object or mere place at the path is in the filtered result if and only if it is in the whole one and the filter selects the path: a key by its first member that is not null, else by the one named "*", an index by the first element, and `true` or 1 everything; for texts that repeat no key or are kindly |
| `JsonSelection.ProjectionShows` | external/ArduinoJson/src/ArduinoJson/Deserialization/Filter.hpp:14-38 | the same of the projection of any value |
| `JsonSelection.DecidesIsSubFilter` | external/ArduinoJson/src/ArduinoJson/Deserialization/Filter.hpp:32-38 | the filter for a key is its first member of that name when that is not null, else the first one named "*" |
| `JsonRepeats.TextGrants` | external/ArduinoJson/src/ArduinoJson/Json/JsonDeserializer.hpp:62-319 | for every accepted text of the grammar, every filter and every path, keys repeated or not: what is seen of the parsed document is what the text grants, where under each key the last value counts that the filter for the key lets through, or null when none is |
| `JsonRepeats.ApplyShows` | external/ArduinoJson/src/ArduinoJson/Json/JsonDeserializer.hpp:279-303 | the same of any value as it is written |
| `JsonSelection.NestingIsDepth` | external/ArduinoJson/src/ArduinoJson/Variant/VariantFunctions.hpp:96-111 | the nesting of a value is the length of the longest way down to an array or object, that one included |
| `JsonFilter.FilteringCommutes` | external/ArduinoJson/src/ArduinoJson/Json/JsonDeserializer.hpp:62-319 | for every text that the unfiltered parser accepts and whose objects repeat no key, parsing under any filter succeeds at the same position and gives the recursive projection of the unfiltered value |
| `JsonFilter.ParseAppliesFilter` | external/ArduinoJson/src/ArduinoJson/Json/JsonDeserializer.hpp:62-319 | the same for every accepted text, repeated keys included: the filter is applied member by member in text order |
| `JsonFilter.VariantIsFiltered` | external/ArduinoJson/src/ArduinoJson/Json/JsonDeserializer.hpp:62-112 | at every position, limit and starting value: what the plain reading accepts, the filtered parser accepts with the filter applied; under an all-true filter the errors agree too |
| `JsonFilter.ApplyIsProject` | external/ArduinoJson/src/ArduinoJson/Deserialization/Filter.hpp:16-38 | on values with unique keys, applying a filter in text order is the structural projection: "*" fallback, first element of an array filter, null for a kind mismatch |
| `JsonFilter.AllowAllProjectsToItself` | external/ArduinoJson/src/ArduinoJson/Deserialization/Filter.hpp:28-38 | the filter `true` projects every value to itself |
| `JsonFilter.CommutesExactly` | external/ArduinoJson/src/ArduinoJson/Json/JsonDeserializer.hpp:62-319 | for every accepted text: all filters give the projection of the unfiltered result if and only if its reading is kindly, that is, each array or object under a repeated key is followed by a last non-null value of the same kind, recursively in the values that survive; unique keys are kindly |
| `JsonFilter.KindlyCommutes` | external/ArduinoJson/src/ArduinoJson/Deserialization/Filter.hpp:16-38 | a kindly value, keys repeated or not, filtered in text order is the projection of the unfiltered value |
| `JsonFilter.UnkindlyDoesNot` | external/ArduinoJson/src/ArduinoJson/Deserialization/Filter.hpp:16-38 | any other value has a filter, selecting an array or an object, for which it is not |
| `JsonFilter.ApplyIsFolded` | external/ArduinoJson/src/ArduinoJson/Json/JsonDeserializer.hpp:279-303 | the object that a filter makes of members with repeated keys: each allowed key where it came first, with the last value permitted under it |
| `JsonPrinter.RepeatedKeysDoNotCommute` | external/ArduinoJson/src/ArduinoJson/Json/JsonDeserializer.hpp:284-303 | on the bytes of {"a":[1],"a":2} the filter {"a":[]} gives {"a":[]}, and the projection of the unfiltered result is another |
| `JsonFilter.UnfilteredIsReading` | external/ArduinoJson/src/ArduinoJson/Json/JsonDeserializer.hpp:29-44 | the unfiltered parser accepts exactly what the plain grammar reads, except that a number at the root must be followed by a NUL; errors agree |
| `JsonSkipping.ArraySkips` | external/ArduinoJson/src/ArduinoJson/Json/JsonDeserializer.hpp:202-232 | whenever parseArray succeeds, under any filter, skipArray from the same position succeeds and stops at the same character |
| `JsonSkipping.ObjectSkips` | external/ArduinoJson/src/ArduinoJson/Json/JsonDeserializer.hpp:321-377 | the same for parseObject and skipObject |
| `JsonSkipping.VariantSkips` | external/ArduinoJson/src/ArduinoJson/Json/JsonDeserializer.hpp:114-146 | the same for any value that is not cut off inside a number |
| `JsonReading.SkipQuotedAgrees` | external/ArduinoJson/src/ArduinoJson/Json/JsonDeserializer.hpp:484-502 | skipping a quoted string stops where parsing it does, for every escape sequence |
| `JsonReading.SkipNumericAgrees` | external/ArduinoJson/src/ArduinoJson/Json/JsonDeserializer.hpp:530-537 | skipping a number stops where the 63-character token does, when that token is not cut short |
| `JsonDepth.DepthLimitIsExact` | external/ArduinoJson/src/ArduinoJson/Deserialization/NestingLimit.hpp:18-25 | a text accepted under some limit is accepted with the same result under another exactly when its value nests no deeper, and is TooDeep otherwise |
| `JsonDepth.ResultFitsLimit` | external/ArduinoJson/src/ArduinoJson/Json/JsonDeserializer.hpp:155-156 | under any filter, an accepted result nests no deeper than the limit |
| `JsonText.ParseQuoted` | external/ArduinoJson/src/ArduinoJson/Json/JsonDeserializer.hpp:402-454 | a string that is accepted was closed inside the input; recursion is on the remaining input |
| `JsonText.ParseVariant` | external/ArduinoJson/src/ArduinoJson/Json/JsonDeserializer.hpp:62-112 | total on every input, with a position inside it; terminates on remaining input |
| `JsonText.SkipVariant` | external/ArduinoJson/src/ArduinoJson/Json/JsonDeserializer.hpp:114-146 | total on every input, with a position inside it; terminates on remaining input |
| `JsonText.SkipKeyword` | external/ArduinoJson/src/ArduinoJson/Json/JsonDeserializer.hpp:649-660 | succeeds exactly when the keyword stands at the position |
| `JsonText.NumberEnd` | external/ArduinoJson/src/ArduinoJson/Json/JsonDeserializer.hpp:513-523 | the token has at most 63 characters and, when shorter, ends where no number character follows |
| `JsonPrinter.RoundTrip` | external/ArduinoJson/src/ArduinoJson/Json/JsonSerializer.hpp:21-99 | for every value without floats, with unique NUL-free keys and nesting within the limit, parsing the compact or the pretty text gives the value back; under a filter, its projection |
| `JsonPrinter.StringReadBack` | external/ArduinoJson/src/ArduinoJson/Json/TextFormatter.hpp:39-65 | every byte string, NULs included, is read back from its escaped text |
| `JsonPrinter.VariantReadBack` | external/ArduinoJson/src/ArduinoJson/Json/PrettyJsonSerializer.hpp:21-69 | wherever the text of a value stands in an input, in either style, the reader gets the value and stops right after it |
| `JsonPrinter.IntegerReadBack` | external/ArduinoJson/src/ArduinoJson/Json/TextFormatter.hpp:102-129 | a printed 64-bit integer is read back as a number token |
| `JsonPrinter.Layout` | external/ArduinoJson/src/ArduinoJson/Json/PrettyJsonSerializer.hpp:21-69 | two values in both styles, byte by byte |
| `Numbers.ReadNumber` | external/ArduinoJson/src/ArduinoJson/Numbers/parseNumber.hpp:21-144 | the loops over mantissa, offset and position compute the specified result |
| `Numbers.ReadFloat` | external/ArduinoJson/src/ArduinoJson/Numbers/parseNumber.hpp:85-144 | the part after the integer digits, against its specification |
| `Numbers.ReadExponent` | external/ArduinoJson/src/ArduinoJson/Numbers/parseNumber.hpp:108-143 | the exponent loop, with its early infinity or zero |
| `Numbers.IntegerTextIsExact` | external/ArduinoJson/src/ArduinoJson/Numbers/parseNumber.hpp:28-83 | a signed digit string of any length is an integer if and only if its value is at most 2^64-1, or its magnitude at most 2^63 when negative, and then with exactly that value |
| `Numbers.MantissaIsExact` | external/ArduinoJson/src/ArduinoJson/Numbers/parseNumber.hpp:60-69 | the accumulation stops at the first digit that would overflow and is exact before it |
| `Numbers.PrintedIntegerParses` | external/ArduinoJson/src/ArduinoJson/Json/TextFormatter.hpp:102-129 | printing any 64-bit integer and parsing the text is the identity, and at most 20 digits are written |
| `Numbers.ExponentStaysInTable` | external/ArduinoJson/src/ArduinoJson/Numbers/parseNumber.hpp:85-140 | for every token of at most 63 characters the exponent handed to make_float is below 512 in magnitude |
| `Decimals.LargeIntegers` | external/ArduinoJson/src/ArduinoJson/Numbers/parseNumber.hpp:28-95 | an integer text of any length that 64 bits cannot hold, signed or not, is truncated to the mantissa, and its exponent counts the dropped digits in an int16_t, one more when the digits begin with a number from 2^64 to 2^64+3 |
| `Decimals.LargeIntegersAreExact` | external/ArduinoJson/src/ArduinoJson/Numbers/parseNumber.hpp:60-95 | up to 32767 digits, the exponent is the right one if and only if the digits do not begin so; else the number read is ten times too large |
| `Decimals.DoubledIsTwentyDigits` | external/ArduinoJson/src/ArduinoJson/Numbers/parseNumber.hpp:60-69 | the digits begin with a number from 2^64 to 2^64+3 if and only if their first 20 significant ones, leading zeros aside, are such a number |
| `Decimals.DecimalTextIsTruncated` | external/ArduinoJson/src/ArduinoJson/Numbers/parseNumber.hpp:53-143 | any decimal text, with a sign, a whole part and a fraction of any length and an exponent part or none: all digits as one integer, cut off after those that fit the mantissa, with the exponent that belongs to them in an int16_t, one more when the whole part begins doubled; infinity or zero when the exponent is too large |
| `Decimals.DecimalsAreExact` | external/ArduinoJson/src/ArduinoJson/Numbers/parseNumber.hpp:53-143 | up to 32766 digits: the number read is the value of the text, divided by the power of ten of the digits cut off and rounded down, if and only if the whole part does not begin doubled; else ten times that |
| `Decimals.LostMeansFull` | external/ArduinoJson/src/ArduinoJson/Numbers/parseNumber.hpp:85-106 | digits are cut off only when the mantissa is at least 450359962737049, that is when 15 digits are kept |
| `Decimals.SmallIntegers` | external/ArduinoJson/src/ArduinoJson/Numbers/parseNumber.hpp:54-83 | digits whose value fits 64 bits are read as that integer |
| `Decimals.AllKept` | external/ArduinoJson/src/ArduinoJson/Numbers/parseNumber.hpp:97-106 | a fraction is taken whole if and only if there is room for its last digit |
| `Decimals.DecimalTextIsExact` | external/ArduinoJson/src/ArduinoJson/Numbers/parseNumber.hpp:53-143 | in particular nothing is cut off when the digits fit the mantissa |
| `Decimals.ExponentTooLarge` | external/ArduinoJson/src/ArduinoJson/Numbers/parseNumber.hpp:120-132 | a text with an exponent part is read as infinity, or as zero when the exponent is negative, if and only if its magnitude and the exponent of the digits add up to more than 308 |
| `Decimals.ExponentCases` | external/ArduinoJson/src/ArduinoJson/Numbers/parseNumber.hpp:120-132 | 0e309 is read as infinity, and 100e-309 as zero |
| `Decimals.ScaledTextIsTruncated` | external/ArduinoJson/src/ArduinoJson/Numbers/parseNumber.hpp:85-143 | the same for digits of any length and an exponent part without a point |
| `Decimals.TwentyOneDigits` | external/ArduinoJson/src/ArduinoJson/Numbers/parseNumber.hpp:60-69 | forty integers of 21 digits that are read ten times too large |
| `Numbers.MakeFloat` | external/ArduinoJson/src/ArduinoJson/Numbers/FloatTraits.hpp:195-210 | over exact reals, for exponents below 512 in magnitude, the table loop computes m times ten to the e and never indexes past entry 8 |
| `Numbers.TableHoldsPowers` | external/ArduinoJson/src/ArduinoJson/Numbers/FloatTraits.hpp:32-64 | each of the nine literal entries of either table is ten to the plus or minus 2^i |
| `Unicode.DecodeHex` | external/ArduinoJson/src/ArduinoJson/Json/JsonDeserializer.hpp:576-581 | a character passes for a hexadecimal digit if and only if it is one or from `:` to `?` or the backquote |
| `JsonUnicode.UnitsParse` | external/ArduinoJson/src/ArduinoJson/Json/Utf16.hpp:29-50 | escapes of any code units, paired or not: a low surrogate makes a code point with the last high one before it, even if that was used already, or with none |
| `JsonUnicode.EscapesParseToUtf8` | external/ArduinoJson/src/ArduinoJson/Json/JsonDeserializer.hpp:402-454 | for every sequence of scalar values written as \uXXXX escapes, surrogate pairs included and with hex digits of either case, the string parsed is their UTF-8 encoding |
| `JsonUnicode.EscapedStringParses` | external/ArduinoJson/src/ArduinoJson/Json/JsonDeserializer.hpp:539-552 | a document that is one such string parses to the UTF-8 encoding, which determines the code points |
| `JsonUnicode.Utf8IsDecodable` | external/ArduinoJson/src/ArduinoJson/Json/Utf8.hpp:13-44 | a decoder written from section 3 of RFC 3629 gets the code points back from the bytes |
| `JsonUnicode.PairIsCodepoint` | external/ArduinoJson/src/ArduinoJson/Json/Utf16.hpp:36-50 | the two units of a surrogate pair assemble to their code point |
| `Copier.CodepointBuilder.Append` | external/ArduinoJson/src/ArduinoJson/Json/Utf16.hpp:36-50 | the new surrogate bits and, for a complete unit, the assembled code point |
| `Copier.StringCopier.EncodeCodepoint` | external/ArduinoJson/src/ArduinoJson/Json/Utf8.hpp:13-44 | the reversed buffer is appended as the UTF-8 bytes of the code point; the pool overflows exactly when they and a terminator do not fit |
| `Copier.ReversedUtf8` | external/ArduinoJson/src/ArduinoJson/Json/Utf8.hpp:19-42 | the buffer holds the UTF-8 bytes last first behind a terminator, none of them zero |
| `Unicode.ScanForByte` | external/ArduinoJson/src/ArduinoJson/Json/EscapeSequence.hpp:14-20 | the table scan finds the escape letter of a byte, or none |
| `Unicode.ScanForLetter` | external/ArduinoJson/src/ArduinoJson/Json/EscapeSequence.hpp:23-32 | the table scan finds the byte of an escape letter, or none |
| `Pool.MemoryPool.constructor` | external/ArduinoJson/src/ArduinoJson/Memory/MemoryPool.hpp:39-48 | a pool over an aligned buffer, empty |
| `Pool.MemoryPool.AllocVariant` | external/ArduinoJson/src/ArduinoJson/Memory/MemoryPool.hpp:204-216 | a new cleared slot just below the others, no older slot touched; or NULL and the overflow flag, nothing else changed |
| `Pool.MemoryPool.FindString` | external/ArduinoJson/src/ArduinoJson/Memory/MemoryPool.hpp:177-190 | the scan ends before the string frontier; it finds a copy exactly when one starts the characters or follows a NUL, and the pointer denotes the exact bytes and a terminator |
| `Pool.MemoryPool.SaveString` | external/ArduinoJson/src/ArduinoJson/Memory/MemoryPool.hpp:72-91 | the pointer denotes the bytes with a terminator; a saved string is not stored twice; failure exactly when there is no copy and no room, and then nothing changes |
| `Pool.MemoryPool.SaveStringFromFreeZone` | external/ArduinoJson/src/ArduinoJson/Memory/MemoryPool.hpp:98-110 | the same for a string already in the free zone |
| `Pool.MemoryPool.Clear` | external/ArduinoJson/src/ArduinoJson/Memory/MemoryPool.hpp:116-120 | an empty pool with a null root |
| `Pool.MemoryPool.Squash` | external/ArduinoJson/src/ArduinoJson/Memory/MemoryPool.hpp:146-158 | slots and bounds move down to the padded strings, each slot keeping its bytes; a second squash reclaims nothing |
| `Pool.MemoryPool.Reallocate` | external/ArduinoJson/src/ArduinoJson/Document/BasicJsonDocument.hpp:113-114 | the new buffer holds the same bytes |
| `Pool.MemoryPool.MovePointers` | external/ArduinoJson/src/ArduinoJson/Memory/MemoryPool.hpp:160-167 | every bound and slot address moves by the distance between the buffers; the pool stays well laid out |
| `Pool.EverySaveIsKept` | external/ArduinoJson/src/ArduinoJson/Memory/MemoryPool.hpp:72-110 | over any run of saves every string ever saved is still found, and saving it again adds nothing |
| `Pool.PointersStay` | external/ArduinoJson/src/ArduinoJson/Memory/MemoryPool.hpp:72-110 | a pointer to a saved string keeps denoting exactly that string whatever is saved or allocated later |
| `Pool.SaveOrderMatters` | external/ArduinoJson/src/ArduinoJson/Memory/MemoryPool.hpp:177-190 | two strings take 4 or 6 bytes depending on the order of their saves |
| `StringRoom.PairOrder` | external/ArduinoJson/src/ArduinoJson/Memory/MemoryPool.hpp:177-190 | for two strings of any bytes, the order of their saves matters if and only if they differ and one of them is a piece of the other between NULs or its ends |
| `StringRoom.OrderDoesNotMatter` | external/ArduinoJson/src/ArduinoJson/Memory/MemoryPool.hpp:72-110 | strings without NUL take, in any order and however often saved, exactly the room of the set of them: length and terminator each |
| `StringRoom.SavesFit` | external/ArduinoJson/src/ArduinoJson/Memory/MemoryPool.hpp:177-190 | strings without NUL that a pool holds fit, saved anew in any order, in as many characters as it has |
| `Pool.PaddingShifts` | external/ArduinoJson/src/ArduinoJson/Memory/Alignment.hpp:21-24 | padding commutes with a shift by a multiple of the alignment |
| `Pool.LaidOutShifts` | external/ArduinoJson/src/ArduinoJson/Memory/MemoryPool.hpp:146-167 | bounds and slots moved together stay aligned and in bounds |
| `Copier.StringCopier.StartString` | external/ArduinoJson/src/ArduinoJson/StringStorage/StringCopier.hpp:15-20 | an empty string in the free zone; the overflow flag when there is no room for a terminator |
| `Copier.StringCopier.Append` | external/ArduinoJson/src/ArduinoJson/StringStorage/StringCopier.hpp:39-44 | one character more, never reaching the slots; the overflow flag exactly when the character and a terminator do not fit; saved strings untouched |
| `Copier.StringCopier.Save` | external/ArduinoJson/src/ArduinoJson/StringStorage/StringCopier.hpp:22-27 | the pointer denotes the string built, deduplicated |
| `Copier.StringCopier.Str` | external/ArduinoJson/src/ArduinoJson/StringStorage/StringCopier.hpp:54-59 | the string in place, read up to its first NUL |
| `Deserializer.DeserializeJson` | external/ArduinoJson/src/ArduinoJson/Deserialization/deserialize.hpp:39-49 | for every input, filter, limit and pool: success means the root denotes exactly the pure parse and nothing overflowed; NoMemory means the overflow flag, and only a pool smaller than one slot per input character; any other error is the pure one |
| `Deserializer.JsonDeserializer.Parse` | external/ArduinoJson/src/ArduinoJson/Json/JsonDeserializer.hpp:29-44 | the same from a cleared document, with the check on what follows a root number |
| `Deserializer.JsonDeserializer.ParseVariant` | external/ArduinoJson/src/ArduinoJson/Json/JsonDeserializer.hpp:62-112 | the variant denotes the pure parse over its own old slots or new ones; strings and slots only grew and no other slot changed; or the pure error, or an overflow; the room taken is at most a slot per character read, and an overflow means the characters ahead could not be paid for |
| `Deserializer.JsonDeserializer.ParseArray` | external/ArduinoJson/src/ArduinoJson/Json/JsonDeserializer.hpp:148-200 | the array built denotes the pure parse of the whole text, element by element |
| `Deserializer.JsonDeserializer.ParseElements` | external/ArduinoJson/src/ArduinoJson/Json/JsonDeserializer.hpp:172-199 | the loop, against the pure parse of the remaining elements |
| `Deserializer.JsonDeserializer.ParseElement` | external/ArduinoJson/src/ArduinoJson/Json/JsonDeserializer.hpp:173-188 | an element is added and parsed, or skipped when the filter excludes it |
| `Deserializer.JsonDeserializer.ParseObject` | external/ArduinoJson/src/ArduinoJson/Json/JsonDeserializer.hpp:234-258 | the object built denotes the pure parse |
| `Deserializer.JsonDeserializer.ParseMembers` | external/ArduinoJson/src/ArduinoJson/Json/JsonDeserializer.hpp:257-318 | the loop, against the pure parse of the remaining members |
| `Deserializer.JsonDeserializer.ParseMember` | external/ArduinoJson/src/ArduinoJson/Json/JsonDeserializer.hpp:259-303 | one key, colon and value: a repeated key overwrites in place, except that null leaves the old value |
| `Deserializer.JsonDeserializer.GetOrAddKey` | external/ArduinoJson/src/ArduinoJson/Json/JsonDeserializer.hpp:279-294 | the slot of the member with that key, or a new one whose key was saved first; older slots keep their meaning |
| `Deserializer.JsonDeserializer.ParseQuotedString` | external/ArduinoJson/src/ArduinoJson/Json/JsonDeserializer.hpp:402-454 | the string under construction is the pure string; saved strings and slots untouched; an overflow only when the quoted text is longer than the free zone |
| `Deserializer.JsonDeserializer.ParseNonQuotedString` | external/ArduinoJson/src/ArduinoJson/Json/JsonDeserializer.hpp:456-474 | the key is the longest run of key characters |
| `Deserializer.JsonDeserializer.ParseHex4` | external/ArduinoJson/src/ArduinoJson/Json/JsonDeserializer.hpp:539-552 | the four digits, or the pure error |
| `Deserializer.JsonDeserializer.ParseStringValue` | external/ArduinoJson/src/ArduinoJson/Json/JsonDeserializer.hpp:388-400 | the variant denotes the string parsed, saved in the pool |
| `Deserializer.JsonDeserializer.ParseNumericValue` | external/ArduinoJson/src/ArduinoJson/Json/JsonDeserializer.hpp:513-528 | the variant denotes the number of the token |
| `Deserializer.JsonDeserializer.SkipVariant` | external/ArduinoJson/src/ArduinoJson/Json/JsonDeserializer.hpp:114-146 | the latch stops where the pure skip stops, or gives its error |
| `Deserializer.JsonDeserializer.SkipArray` | external/ArduinoJson/src/ArduinoJson/Json/JsonDeserializer.hpp:202-232 | the same for arrays |
| `Deserializer.JsonDeserializer.SkipObject` | external/ArduinoJson/src/ArduinoJson/Json/JsonDeserializer.hpp:321-377 | the same for objects |
| `Deserializer.JsonDeserializer.SkipQuotedString` | external/ArduinoJson/src/ArduinoJson/Json/JsonDeserializer.hpp:484-502 | the same for quoted strings |
| `Deserializer.JsonDeserializer.SkipSpaces` | external/ArduinoJson/src/ArduinoJson/Json/JsonDeserializer.hpp:583-647 | the same for white space; the end of the input is EmptyInput or IncompleteInput |
| `Deserializer.JsonDeserializer.SkipKeyword` | external/ArduinoJson/src/ArduinoJson/Json/JsonDeserializer.hpp:649-660 | the same for keywords |
| `Deserializer.Latch.Current` | external/ArduinoJson/src/ArduinoJson/Json/Latch.hpp:28-46 | the byte at the position, read once; nothing is read after the end |
| `Heap.LinkedIsUnique` | external/ArduinoJson/src/ArduinoJson/Variant/VariantSlot.hpp:40-56 | a slot list determines its slots |
| `Heap.DenotesFrame` | external/ArduinoJson/src/ArduinoJson/Variant/VariantData.hpp:16-62 | a structure keeps its value while its own slots and the saved strings stay |
| `Comparison.DenotesOneValue` | external/ArduinoJson/src/ArduinoJson/Variant/VariantData.hpp:28-62 | what lies in memory denotes one value, over one set of slots |
| `Collections.AddSlot` | external/ArduinoJson/src/ArduinoJson/Collection/CollectionImpl.hpp:14-30 | the list with the new slot at its end: tail is the last slot, no repetition, only the old tail's link and the owner changed |
| `Collections.GetSlotAt` | external/ArduinoJson/src/ArduinoJson/Collection/CollectionImpl.hpp:90-94 | the slot of that index, or NULL |
| `Collections.GetPreviousSlot` | external/ArduinoJson/src/ArduinoJson/Collection/CollectionImpl.hpp:96-105 | the slot before a slot of the list, or NULL for the head |
| `Collections.RemoveSlot` | external/ArduinoJson/src/ArduinoJson/Collection/CollectionImpl.hpp:149-160 | the list without the slot, head and tail adjusted; only links before it changed |
| `Collections.GetMember` | external/ArduinoJson/src/ArduinoJson/Collection/CollectionImpl.hpp:77-88 | the first member with the key, or NULL |
| `Collections.AddChild` | external/ArduinoJson/src/ArduinoJson/Collection/CollectionImpl.hpp:32-34 | the value with one null element more, or NULL when the pool is full and then nothing changed |
| `Elements.AddMember` | external/ArduinoJson/src/ArduinoJson/Collection/CollectionImpl.hpp:36-45 | the object with one null member more; when slot or key do not fit, the same members as before; never more room than slot and key copy |
| `Elements.GetOrAddMember` | external/ArduinoJson/src/ArduinoJson/Collection/CollectionImpl.hpp:113-126 | the member with the key, added at the end if absent; saved strings stay, and of the older slots only the ends of the object and the links of its members change |
| `Elements.GetOrAddElement` | external/ArduinoJson/src/ArduinoJson/Collection/CollectionImpl.hpp:133-147 | element number index, with nulls before it when the array is shorter; NULL exactly when they do not all fit, and then some were added; nothing else changes |
| `Elements.RemoveElement` | external/ArduinoJson/src/ArduinoJson/Collection/CollectionImpl.hpp:162-164 | the array without that element; nothing but its ends and links changes |
| `Elements.RemoveMember` | external/ArduinoJson/src/ArduinoJson/Collection/CollectionImpl.hpp:149-160 | the object without the first member of that key; nothing but its ends and links changes |
| `Elements.OthersStay` | external/ArduinoJson/src/ArduinoJson/Collection/CollectionImpl.hpp:14-30 | a value with no slot in common with an edited collection keeps its meaning |
| `Elements.NestedEdit` | external/ArduinoJson/src/ArduinoJson/Collection/CollectionImpl.hpp:14-30 | a collection nested in another may be edited in place: the outer value has the new child and is else the same |
| `Elements.VariantNesting` | external/ArduinoJson/src/ArduinoJson/Variant/VariantFunctions.hpp:96-111 | the loop with its running maximum computes the nesting of the value |
| `Trees.ReplaceKid` | external/ArduinoJson/src/ArduinoJson/Json/JsonDeserializer.hpp:279-299 | rewriting one child in place replaces that child of the value and nothing else |
| `Document.ShrinkToFit` | external/ArduinoJson/src/ArduinoJson/Document/BasicJsonDocument.hpp:108-121 | after moving the slots down and reallocating to any address the root denotes the same value; the pool is cut to what it uses; a second call changes nothing |
| `Document.MovePointers` | external/ArduinoJson/src/ArduinoJson/Variant/VariantData.hpp:280-285 | every pointer of the tree is moved exactly once, by its own distance, and no other slot changes |
| `Document.MoveSlots` | external/ArduinoJson/src/ArduinoJson/Collection/CollectionImpl.hpp:189-195 | the loop over the slots, against the same |
| `Document.MoveSlot` | external/ArduinoJson/src/ArduinoJson/Variant/VariantSlot.hpp:102-109 | key, string and children of one slot moved |
| `Document.MovedDenotes` | external/ArduinoJson/src/ArduinoJson/Document/BasicJsonDocument.hpp:117-120 | with strings and slots moved by two different distances and pointers adjusted by them, the value denoted is unchanged |
| `DeepCopy.CopyDocument` | external/ArduinoJson/src/ArduinoJson/Document/BasicJsonDocument.hpp:63-81 | a copy into a new pool of the padded memory usage never overflows and denotes the same value |
| `DeepCopy.CopyVariant` | external/ArduinoJson/src/ArduinoJson/Variant/VariantImpl.hpp:86-105 | a copy denotes the same value if and only if there is room for its slots and for its owned strings, saved in the order of the copy; it takes exactly that room; else it overflows |
| `DeepCopy.UsageSuffices` | external/ArduinoJson/src/ArduinoJson/Collection/CollectionImpl.hpp:166-174 | that room is never more than the memory usage of the source |
| `DeepCopy.CopyAssign` | external/ArduinoJson/src/ArduinoJson/Document/BasicJsonDocument.hpp:154-157 | copying a document into its own capacity succeeds if and only if its slots and strings, saved in the order of the copy, fit; always when no string holds a NUL |
| `DeepCopy.NulFreeFits` | external/ArduinoJson/src/ArduinoJson/Document/BasicJsonDocument.hpp:49-52 | a value whose strings hold no NUL fits, copied, in the memory that its pool has in use |
| `DeepCopy.KeyComesFirst` | external/ArduinoJson/src/ArduinoJson/Collection/CollectionImpl.hpp:57-75 | the key of a member is saved before its string |
| `DeepCopy.CopyOfSharedString` | external/ArduinoJson/src/ArduinoJson/Document/BasicJsonDocument.hpp:49-52 | a document of two strings, one the end of the other after a NUL and saved second, whose copy into the same capacity overflows |
| `DeepCopy.CopyCollection` | external/ArduinoJson/src/ArduinoJson/Collection/CollectionImpl.hpp:57-75 | the loop over the slots, against the same |
| `DeepCopy.MemoryUsage` | external/ArduinoJson/src/ArduinoJson/Variant/VariantData.hpp:225-238 | slots, and owned strings and keys with their terminators |
| `DeepCopy.UsageIsSum` | external/ArduinoJson/src/ArduinoJson/Collection/CollectionImpl.hpp:166-174 | the usage is 32 bytes for each slot and, for each owned string and key, its length and a terminator |
| `DeepCopy.CollectionUsage` | external/ArduinoJson/src/ArduinoJson/Collection/CollectionImpl.hpp:166-174 | the loop over the slots sums the usage of the children |
| `Serializers.TextFormatter.WriteString` | external/ArduinoJson/src/ArduinoJson/Json/TextFormatter.hpp:47-53 | the escaped text of the bytes, between quotes |
| `Serializers.TextFormatter.WriteChar` | external/ArduinoJson/src/ArduinoJson/Json/TextFormatter.hpp:55-65 | the escape of a byte, or the byte |
| `Serializers.TextFormatter.WriteUnsigned` | external/ArduinoJson/src/ArduinoJson/Json/TextFormatter.hpp:115-129 | the decimal digits, built from the end of a 22-byte buffer that they never leave |
| `Serializers.TextFormatter.WriteInteger` | external/ArduinoJson/src/ArduinoJson/Json/TextFormatter.hpp:102-113 | the same with a sign, over the whole signed range |
| `Serializers.JsonSerializer.Visit` | external/ArduinoJson/src/ArduinoJson/Json/JsonSerializer.hpp:21-99 | the compact text of the value that the variant denotes is appended |
| `Serializers.JsonSerializer.VisitCollection` | external/ArduinoJson/src/ArduinoJson/Json/JsonSerializer.hpp:21-59 | the loop over the slots writes every element or member, with commas between |
| `Serializers.PrettyJsonSerializer.Visit` | external/ArduinoJson/src/ArduinoJson/Json/PrettyJsonSerializer.hpp:21-69 | the pretty text is appended, and the depth is as before |
| `Serializers.PrettyJsonSerializer.Indent` | external/ArduinoJson/src/ArduinoJson/Json/PrettyJsonSerializer.hpp:66-69 | two spaces per level of the eight-bit depth |
| `Serializers.MsgPackSerializer.Visit` | external/ArduinoJson/src/ArduinoJson/MsgPack/MsgPackSerializer.hpp:47-176 | the encoding of the value that the variant denotes is appended |
| `Serializers.MsgPackSerializer.WriteInteger` | external/ArduinoJson/src/ArduinoJson/MsgPack/MsgPackSerializer.hpp:191-195 | the bytes of the integer, the highest first |
| `Serializers.FixEndianess` | external/ArduinoJson/src/ArduinoJson/MsgPack/endianess.hpp:16-38 | the swaps reverse the bytes |
| `Serializers.BigIsLittleReversed` | external/ArduinoJson/src/ArduinoJson/MsgPack/endianess.hpp:16-38 | the big-endian bytes are the little-endian ones reversed |
| `MsgPack.RoundTrip` | external/ArduinoJson/src/ArduinoJson/MsgPack/MsgPackDeserializer.hpp:35-224 | for every value without floats, with NUL-free keys, 32-bit sizes and nesting within the limit, decoding its encoding followed by any bytes gives the value and consumes exactly the encoding |
| `MsgPack.ReadBack` | external/ArduinoJson/src/ArduinoJson/MsgPack/MsgPackDeserializer.hpp:412-517 | the same wherever the encoding stands in an input |
| `MsgPack.DepthLimitIsExact` | external/ArduinoJson/src/ArduinoJson/MsgPack/MsgPackDeserializer.hpp:418-419 | an encoded value is decoded exactly when it nests within the limit, and is TooDeep otherwise |
| `MsgPack.EncodingIsPrefixFree` | external/ArduinoJson/src/ArduinoJson/MsgPack/MsgPackSerializer.hpp:47-176 | no encoding is the beginning of another; equal encodings come from equal values |
| `MsgPack.IntReadBack` | external/ArduinoJson/src/ArduinoJson/MsgPack/MsgPackSerializer.hpp:110-166 | every 64-bit integer, signed or unsigned, is read back from the format chosen for it |
| `MsgPack.CountReadBack` | external/ArduinoJson/src/ArduinoJson/MsgPack/MsgPackSerializer.hpp:47-80 | every count below 2^32 is read back from the header chosen for it |
| `MsgPackFormat.FormatDecodes` | external/ArduinoJson/src/ArduinoJson/MsgPack/MsgPackDeserializer.hpp:35-224 | for any spelling of any object in the format, given by its code bytes, every integer, float, string, binary, extension, array and map under every header that can carry it, followed by any bytes: its value, keys cut at a NUL, and the position right after it, or TooDeep when it nests deeper than the limit |
| `MsgPackFormat.FormatStands` | external/ArduinoJson/src/ArduinoJson/MsgPack/MsgPackDeserializer.hpp:35-224 | the same wherever the object stands in an input |
| `MsgPackFormat.LongestExtension` | external/ArduinoJson/src/ArduinoJson/MsgPack/MsgPackDeserializer.hpp:545-555 | an extension of 2^32-1 bytes is not skipped, for its length is incremented in 32 bits |
| `MsgPackFormat.RejectedCodes` | external/ArduinoJson/src/ArduinoJson/MsgPack/MsgPackDeserializer.hpp:60-61 | the code 0xC1 and a map key that is no string are invalid input |
| `MsgPackFormat.EncodingIsFormat` | external/ArduinoJson/src/ArduinoJson/MsgPack/MsgPackSerializer.hpp:47-176 | what the encoder writes is a spelling of the value |
| `MsgPackFormat.EncodingIsShortest` | external/ArduinoJson/src/ArduinoJson/MsgPack/MsgPackSerializer.hpp:47-176 | no spelling of the value is shorter |
| `MsgPackFormat.CutInputIsIncomplete` | external/ArduinoJson/src/ArduinoJson/MsgPack/MsgPackDeserializer.hpp:226-251 | every beginning of an input that decodes, up to where decoding stops, is incomplete input, and the empty one empty input |
| `MsgPackReader.MsgPackDeserializer.Parse` | external/ArduinoJson/src/ArduinoJson/MsgPack/MsgPackDeserializer.hpp:27-32 | for every input, limit and pool: success means the root denotes the pure decoding and nothing overflowed; NoMemory means the overflow flag, and only a pool smaller than one slot and a terminator per input byte; any other error is the pure one |
| `MsgPackReader.MsgPackDeserializer.ParseVariant` | external/ArduinoJson/src/ArduinoJson/MsgPack/MsgPackDeserializer.hpp:35-224 | the variant denotes the pure decoding over new slots, or the pure error, or an overflow |
| `MsgPackReader.MsgPackDeserializer.ReadArray` | external/ArduinoJson/src/ArduinoJson/MsgPack/MsgPackDeserializer.hpp:412-451 | the counting loop, against the pure decoding |
| `MsgPackReader.MsgPackDeserializer.ReadObject` | external/ArduinoJson/src/ArduinoJson/MsgPack/MsgPackDeserializer.hpp:467-517 | the same for objects; a repeated key makes a second member |
| `MsgPackReader.MsgPackDeserializer.ReadBytes` | external/ArduinoJson/src/ArduinoJson/MsgPack/MsgPackDeserializer.hpp:378-396 | the string under construction is the bytes read |
| `MsgPackReader.MsgPackDeserializer.ReadInteger` | external/ArduinoJson/src/ArduinoJson/MsgPack/MsgPackDeserializer.hpp:253-264 | the integer whose bytes stand at the position |
| `Equality.EqualIsSame` | external/ArduinoJson/src/ArduinoJson/Variant/VariantCompare.hpp:128-191 | on documents with unique keys, no null members, no floats and no NULs, == holds exactly of values that are the same up to member order and bool-integer coercion |
| `Equality.EqualityIsEquivalence` | external/ArduinoJson/src/ArduinoJson/Variant/VariantCompare.hpp:201-205 | so == is reflexive, symmetric and transitive there |
| `Equality.SameKeys` | external/ArduinoJson/src/ArduinoJson/Object/JsonObjectConst.hpp:116-122 | the one-sided lookup and the count suffice: as many members, each found in the other object, makes the same keys |
| `Equality.ArithmeticCompareIsExact` | external/ArduinoJson/src/ArduinoJson/Numbers/arithmeticCompare.hpp:48-77 | across the signed and unsigned 64-bit ranges and bool, the overloads with their wrapping casts compare mathematically |
| `Equality.NumbersAreOrdered` | external/ArduinoJson/src/ArduinoJson/Variant/VariantCompare.hpp:158-171 | the reversed double dispatch through the overloads and their casts orders numbers as numbers |
| `Equality.NumbersByValue` | external/ArduinoJson/src/ArduinoJson/Numbers/arithmeticCompare.hpp:18-106 | less, greater and equal are those of the values, false counting as 0 and true as 1 |
| `Equality.OrderedKinds` | external/ArduinoJson/src/ArduinoJson/Variant/VariantCompare.hpp:128-191 | two strings, or two numbers with the booleans, are less, equal or greater; no other two values are less or greater than each other |
| `Equality.StringCompare` | external/ArduinoJson/src/ArduinoJson/Strings/StringAdapters.hpp:20-36 | zero exactly for equal remainders |
| `Equality.StringsAreOrdered` | external/ArduinoJson/src/ArduinoJson/Variant/VariantCompare.hpp:29-37 | a string is less than another if and only if, up to its first NUL, it ends where they part or has the smaller byte there as a signed char; greater is the mirror image |
| `Equality.NulBreaksSymmetry` | external/ArduinoJson/src/ArduinoJson/Variant/VariantCompare.hpp:148-151 | a concrete pair of strings with a NUL on which == is not symmetric |
| `Equality.NullMembersBreakSymmetry` | external/ArduinoJson/src/ArduinoJson/Object/JsonObjectConst.hpp:116-122 | a concrete pair of objects with a null member on which == is not symmetric |
| `Equality.RepeatedKeysBreakSymmetry` | external/ArduinoJson/src/ArduinoJson/Object/JsonObjectConst.hpp:116-122 | a concrete pair of objects with a repeated key on which == is not symmetric |
| `Equality.NullMembersBreakTransitivity` | external/ArduinoJson/src/ArduinoJson/Object/JsonObjectConst.hpp:116-122 | three concrete objects with null members on which == is not transitive |
| `Equality.EqualBothWays` | external/ArduinoJson/src/ArduinoJson/Variant/VariantCompare.hpp:128-191 | for all values without floats, one that equals another is equalled by it if and only if its strings hold no NUL, its members missing there are null, and its repeated ones equal what is there, recursively |
| `Equality.NullMembersDecide` | external/ArduinoJson/src/ArduinoJson/Object/JsonObjectConst.hpp:108-122 | without NULs and repeated keys, == holds both ways if and only if matched objects have equally many null members |
| `Equality.RepeatedKeysDecide` | external/ArduinoJson/src/ArduinoJson/Object/JsonObjectConst.hpp:108-122 | without NULs and null members, == holds both ways if and only if matched objects have equally many different keys and members equal the first of their key |
| `Equality.EqualsItself` | external/ArduinoJson/src/ArduinoJson/Variant/VariantCompare.hpp:201-205 | a value equals itself if and only if it is reversible with itself |
| `Equality.SelfEqualIsNulFree` | external/ArduinoJson/src/ArduinoJson/Variant/VariantCompare.hpp:148-151 | with unique keys, a value equals itself if and only if none of its strings holds a NUL |
| `Equality.EqualPassesOver` | external/ArduinoJson/src/ArduinoJson/Variant/VariantCompare.hpp:128-191 | for all values without floats: when one equals a second and that a third, the first equals the third if and only if each null member of the third is null or missing in the first, recursively |
| `Equality.EqualIsTransitive` | external/ArduinoJson/src/ArduinoJson/Variant/VariantCompare.hpp:128-191 | so without null members on the right == is transitive, repeated keys and NULs or not |
| `Comparison.CompareVariants` | external/ArduinoJson/src/ArduinoJson/Variant/VariantCompare.hpp:128-205 | the comparison of any two variants without floats in memory, of two pools or of one document, is that of the values they denote; one and the same collection is equal at once |
| `Comparison.ShortcutAgrees` | external/ArduinoJson/src/ArduinoJson/Object/JsonObjectConst.hpp:108-110 | that shortcut says what the members would if and only if the value is reversible with itself |
| `Comparison.TreeNeverMeets` | external/ArduinoJson/src/ArduinoJson/Array/JsonArrayConst.hpp:47-68 | walking down from two different variants of one document side by side never comes to one slot on both sides, so the shortcut is met by the two given variants or never |
| `Comparison.OneDocument` | external/ArduinoJson/src/ArduinoJson/Variant/VariantCompare.hpp:194-205 | any two variants of one document without floats may be compared |
| `Comparison.CompareScalars` | external/ArduinoJson/src/ArduinoJson/Variant/VariantCompare.hpp:140-175 | strings, null, and numbers as they are stored, signed or unsigned, through the overloads and their casts |
| `Comparison.EqualArrays` | external/ArduinoJson/src/ArduinoJson/Array/JsonArrayConst.hpp:47-68 | equal exactly when they are one and the same array or the two iterators side by side find equal elements to the end |
| `Comparison.EqualObjects` | external/ArduinoJson/src/ArduinoJson/Object/JsonObjectConst.hpp:108-122 | equal exactly when they are one and the same object or the lookups and the count say so |
| `StreamRuns.RunsAreSafe` | src/session/TCPSession.cpp:246-275 | in every state of every run: unacknowledged, next and end of stream are in order; every segment ever sent carries the server's bytes at its sequence number; the client holds a prefix; no acknowledgement exceeds what was sent |
| `StreamRuns.SegmentsMatchTheStream` | src/session/TCPSession.cpp:331-355 | a segment sent at any time, first or again and across any trims, carries the bytes that the final stream has at its place; a FIN sits right after the last byte |
| `StreamRuns.CompleteMeansReceived` | src/session/TCPSession.h:174-176 | when the session counts the download as complete, the client has the whole stream and its FIN; a client that saw the FIN has the whole stream |
| `StreamRuns.ResendCatchesUp` | src/session/TCPSession.cpp:358-371 | in every reachable state a resend from the oldest unacknowledged byte, delivered in order, brings the client fully up to date |
| `StreamRuns.RunsExtend` | src/session/TCPSession.cpp:246-275 | what was sent, written by the server or taken by the client stays so; nothing follows the end of the stream |
| `StreamRuns.FlushCloses` | src/session/TCPSession.cpp:359-384 | a read or a flush closes an open, incomplete download exactly after the fourth timeout in a row or when the upload is complete |
| `StreamRuns.FlushLeaves` | src/session/TCPSession.cpp:372-381 | a session that stays open has at most a segment unsent after a read or a flush, and nothing when the server has ended its stream |
| `StreamRuns.TimeoutResends` | src/session/TCPSession.cpp:358-371 | after a timeout everything not acknowledged is sent again, without gap, and the timeout is counted when something had been sent |
| `StreamRuns.AckAdvances` | src/session/TCPSession.cpp:180-181 | an acknowledgement never takes back another, and ends a row of timeouts |
| `StreamRuns.StepLoses` | src/session/TCPSession.cpp:312-384 | in every safe state, a step closes the session before all was sent if and only if it is a reset with something unsent, or a read or flush with something unsent at the fourth timeout in a row, or, without a timeout, when the upload is complete and what is left neither fills a segment nor ends the stream |
| `StreamRuns.ClosedSendsNoMore` | src/session/TCPSession.cpp:246-250 | what a closed session has not sent is in no segment of any continuation, and the client never gets past it |
| `StreamRuns.LossIsFinal` | src/session/TCPSession.cpp:383-384 | in every run such a step cuts the download short: the bytes from the next one on, or the FIN, are in no segment and never reach the client, whatever follows |
| `StreamRuns.UploadEndTruncates` | src/session/TCPSession.cpp:383-384 | in every session just established, one byte that the server writes after the end of the upload is read and never sent |
| `StreamEnds.RunsCover` | src/session/TCPSession.cpp:318-355 | in every state of every run each byte sent, and the FIN, is in a segment that the network may still carry: resends and trims leave no gap |
| `StreamEnds.AllSentCanArrive` | src/session/TCPSession.cpp:318-355 | from any state in which all was sent, some continuation of the run gives the client the whole stream and its end |
| `StreamEnds.ClosedCanFinish` | src/session/TCPSession.cpp:246-250 | the client of a closed session can still get everything in some continuation if and only if everything was sent before it closed |
| `StreamEnds.NeverStuck` | src/session/TCPSession.cpp:246-252 | from every state of every run with the session open, some continuation without reading comes to have room for a read: no download stops because the buffer is full |
| `StreamEnds.DownloadCanFinish` | src/session/TCPSession.cpp:246-275 | and some continuation completes the download: the server ends its stream, and the client gets and acknowledges all of it |
| `Session.SegmentsCarry` | src/session/TCPSession.cpp:331-355 | the segments of one flush follow each other without gap from the first to the end of the stream, all but the last as long as the MSS, none longer, none empty but a lone FIN |
| `Session.TcpSession.Open` | src/session/TCPSession.cpp:55-99 | all pointers at the initial sequence number, a buffer of at least twice the scaled window |
| `Session.BufferLengths` | src/session/TCPSession.cpp:76 | the capacity for three window shifts |
| `Session.TcpSession.Establish` | src/session/TCPSession.cpp:143-160 | accepted exactly for the acknowledgement of the SYN; the stream starts right after it |
| `Session.TcpSession.TrimSendBuffer` | src/session/TCPSession.h:190-198 | the buffer moves to the oldest unacknowledged byte if and only if at least a segment is acknowledged and at most two segments are free; nothing sent or still to send changes |
| `Session.TrimmingMakesRoom` | src/session/TCPSession.h:190-198 | the next read finds room when all that was sent is acknowledged and what is not sent does not exceed a segment |
| `Session.TcpSession.ReceiveFromServer` | src/session/TCPSession.cpp:246-275 | the four pointers stay in order within the buffer, which keeps its capacity and holds the stream; after trimming, with room, the visible effect is that of the bytes arriving and one flush; there is room when everything buffered is acknowledged |
| `Session.TcpSession.SendDataStartingFrom` | src/session/TCPSession.cpp:331-355 | the loop writes exactly the specified segments of the stream, out of the buffer |
| `Session.TcpSession.FlushDataToClient` | src/session/TCPSession.cpp:325-386 | resend after a timeout, new data when it fills a segment or the stream has ended, and the cases that close |
| `Session.TcpSession.AcceptAck` | src/session/TCPSession.cpp:163-232 | the oldest unacknowledged byte only advances; the session closes when both directions are complete |
| `Session.TcpSession.ReceiveFromClient` | src/session/TCPSession.cpp:162-236 | a segment in sequence is accepted, and perhaps acknowledged unless the session closed; any other only draws an acknowledgement |
| `Session.TcpSession.SendAck` | src/session/TCPSession.h:145-148 | a segment without data at the next sequence number; nothing else changes |
| `Session.ShiftDown` | src/session/TCPSession.h:196-197 | the elements move to the start of the buffer, although the ranges may overlap |
| `InternetChecksum.Checksum` | src/TCPRaw.c:88-108 | for every non-empty buffer, the complement of the ones'-complement sum of the words, as long as the 32-bit sum did not wrap, which it does not up to 65537 words |
| `InternetChecksum.ChecksumIsResidue` | src/TCPRaw.c:88-108 | the checksum is the one 16-bit number that makes the bytes, weighted with 1 and 256 in turn, a multiple of 65535, and is 65535 only when they are all zero |
| `InternetChecksum.Fold` | src/TCPRaw.c:103-104 | folding terminates with the ones'-complement value of the sum |
| `InternetChecksum.SumFitsExactly` | src/TCPRaw.c:88-101 | the sum of n words fits 32 bits for all words if and only if n is at most 65537 |
| `InternetChecksum.StoredChecksumVerifies` | src/TCPRaw.c:188-189 | a checksum stored in the zeroed word at an even offset makes the recomputed checksum zero |
| `InternetChecksum.OneWordIsNoticed` | src/TCPRaw.c:188-189 | after that another value of one word goes unnoticed if and only if 0x0000 and 0xFFFF are exchanged and not every word is zero now |
| `InternetChecksum.ExchangedWords` | src/TCPRaw.c:188-189 | two buffers in which that exchange goes unnoticed, and one in which it is noticed |
| `InternetChecksum.ZeroMeansMultiple` | src/TCPRaw.c:106-107 | a checksum is zero exactly when the words add up to a positive multiple of 0xFFFF |
| `InternetChecksum.ChecksumOfSwapped` | src/TCPRaw.c:88-108 | swapping the bytes of every word swaps the bytes of the checksum |
| `Values.CStr` | external/ArduinoJson/src/ArduinoJson/Collection/CollectionImpl.hpp:77-88 | the text before the first NUL, all of it when there is none |
| `Values.Find` | external/ArduinoJson/src/ArduinoJson/Collection/CollectionImpl.hpp:77-88 | the first index with the key, or the length |
| `Values.CutChangesNothing` | external/ArduinoJson/src/ArduinoJson/Collection/CollectionImpl.hpp:77-88 | cutting keys at their first NUL changes a value if and only if a key holds one |

## Left out

- Floats: a float is kept as the literal it was parsed from, or its bytes; rounding, NaN, infinity, float printing, doubleToFloat and float filters or comparisons are not modelled. Serializers and comparisons are stated for values without floats.
- Numbers.MakeFloat: computes over exact reals, with the powers of ten that the table entries stand for, not IEEE doubles.
- Raw JSON fragments (serialized) and shallowCopy: they break the correspondence between memory and values.
- Comments, NaN and infinity in the input, and other build options that are off by default.
- Readers, writers, type adapters, proxies and operator overloads: the input is a byte string, the output another.
- Filters on the MessagePack decoder, which is modelled with a filter that allows everything.
- The string storage that leaves strings in a mutable input (StringMover).
- Pool.MemoryPool.MovePointers: the slots are a map from addresses beside the byte buffer, so the bytes of a slot are moved with it in one step.
- Slot links are unbounded integers: the 16 or 32 bits of a stored offset are not modelled.
- Serializers.TextFormatter.WriteString: the count of bytes that a bounded writer accepted is not modelled; the output is unbounded.
- The upload direction of the session, its receive buffer, its timers and round-trip estimates: a timeout and the end of the upload are inputs of each step.
- Session.TcpSession.Open: connecting to the server, resets, and the answer to a repeated SYN are not modelled, nor the packet class, which is not part of this model.
- Session.TcpSession.SendDataStartingFrom: acknowledgement number, window and addresses of a packet are not modelled.
- Session.ShiftDown: shiftElements itself is not part of this model; it is taken to move the elements down.
- The packet builders around the checksum, and src/sessions2, src/handler, src/connection, src/stun: plumbing over libraries outside the repository.

