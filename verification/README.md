# JSON reading, writing and validation: a verified model

These modules model the RapidJSON 1.1.0 headers under `rapidjson-1.1.0/rapid_json`. Everything meets in one event
vocabulary, the handler concept (`reader.h:162-180`): a reader turns text into events, a document turns events into a
value and a value into events, a writer turns events into text, a schema validator and a hasher judge and fold events.
`Json` declares the values (`JSON`), the events (`Event`) and the event stream of a value (`Events`), and the theorems
compose along them.

Each imperative part comes twice. A specification on immutable data has the branches of the code (a text and a
position, a log of events, a stack as a list), and the laws are lemmas about it. A class or a method with the fields,
cursors, buffers and loops of the code is proved to compute that specification.

| part | specification and laws | code |
|---|---|---|
| UTF-8 | Utf8 | |
| scanner, recursive and iterative parser | Doubles, Scanner, Recursive, Iterative, Lenient, Rounding | Reader |
| RFC 8259 grammar, soundness, completeness, prefixes, errors | Grammar, Characters, Tables, Completeness, Soundness, Encodings, Refused, RawNumbers, Discipline, Diagnosis | |
| value builder, deep copy, number flags | Dom | Documents |
| compact and pretty printing | Printing, Writing, Strings, WriterLaws, Formatting, Reformatting | Writers |
| schema validation and its document path | SchemaDocument, Schemas, Validators, Validation, SchemaMeaning, SchemaTheorems, Faults, Blame, Path, DocumentPath, Places | SchemaValidator |
| JSON Pointer | Pointers, PointerLaws, PointerErrors, PointerTree | Pointer |
| operator== and hashing | Equality, Repeats, Hashing, Words | Equality |
| pool allocator | Allocators | Allocators |
| buffered file streams | FileStreams | FileStreams |

How the validation theorem is composed: `StreamingIsRecursive` takes the state machine with its parallel
sub-validators to plain recursion over trees; `CompiledAccepts` takes recursion over the compiled property tables to the
keywords of the schema document; `DialectsAgree` takes the keywords as this library reads them to draft 4; and
`RunCanonical` and the parser theorems supply the events.

Conventions. A text is a sequence of bytes, and reading past its end gives NUL. Integers are unbounded, so widths are
written out where the code depends on them: the digit loops of numbers carry the 32-bit and 64-bit limits as
invariants, pointer indices wrap at 2^32, hash codes are 64-bit words. A double event carries the characters of the
number instead of its binary value; the double that the scan of an over-long integer accumulates is the result of an
arithmetic that is a parameter, known to be right up to one part in 2^50 for each step, as every rounding mode is. An assertion of the code is a precondition, and every caller in the model meets it.

## Where the code departs from its description

- Not every JSON text is accepted. Numerals are refused by their exponent rather than their size (`ExponentNotSize`), and
  so are strings with a lone leading surrogate escape (`LoneLeadRefused`); these are all (`DocumentAccepted`).
- JSON Pointer names are searched for up to their first NUL but added whole (`pointer.h:431-435` selects the overload of
  `FindMember` that takes a `const Ch*`), so Get need not find what Set has added under `#/a%00b` (`PlainNameExact`,
  `GetAfterSet`, `NulNameCut`).
- The overflow test for pointer indices misses some wraps (`IndexExact`, `WrapUnnoticed`).
- `operator==` is announced as always false for objects with repeated member names. It is not, and it is not symmetric
  there (`RepeatedNames`); when it is reflexive and when symmetric is in `Repeats`.
- Names listed only in `required` or `dependencies` become declared properties, an empty `items` tuple is ignored, and so
  are lower limits beyond 32 bits. Each departure from draft 4 has its exact condition (`MentionedNameExact`,
  `EmptyTupleExact`, `HugeLimitExact`) and an input (`RequiredCountsAsDeclared`, `EmptyTupleIgnored`,
  `HugeLimitsIgnored`). `Portable` excludes them from the draft 4 theorem.
- A writer to an ASCII target decodes behind the length of a string exactly where a character straddles its end
  (`CoveredExact`, `ReadsBehind`).
- `Peek4` fails although four bytes are there where they reach the end of a block, so with the smallest buffer allowed
  always (`Peek4`).
- Both parsers agree except on a text that begins with a stray `]`, `}`, `,` or `:` (`IterativeRefinesRecursive`).
- A broken `NaN` keeps the letters it has consumed, so the flag also admits `NInf` (`NanOrInfExact`, `BrokenNan`).
- `-0` is reported as the integer 0 (`MinusZero`) and loses its sign when it is written again, as no other integer does
  (`SignExact`). A raw number is written as a quoted string (`RawQuoted`), so it does not come back (`ReformattedIsRead`).
- Blocks from a user buffer that is not aligned are not aligned either (`BlocksSeparate`).

## Model

| member | source | states |
|---|---|---|
| Iterative.IterativeRefinesRecursive | rapidjson-1.1.0/rapid_json/reader.h:1822-1854 | For every flag set, every input and wherever the stream stands, the automaton and the recursive parser give the same outcome (events, verdict, end position, error code and offset) if and only if the first character that is neither blank nor comment is none of `]`, `}`, `,`, `:`; if it is one of these the recursive parser says ValueInvalid, the iterative one DocumentEmpty, both there and without an event |
| Iterative.ValueRefined | rapidjson-1.1.0/rapid_json/reader.h:1649-1798 | From every state that expects a value, with any stack below, the automaton does what ParseValue does and goes on behind that value |
| Iterative.MembersTailRefined | rapidjson-1.1.0/rapid_json/reader.h:624-653 | The automaton behind a member value agrees with the rest of the loop of ParseObject: further members, closing brace with its count, trailing comma, or the same error |
| Iterative.ElementsTailRefined | rapidjson-1.1.0/rapid_json/reader.h:672-701 | The same behind an element, for the loop of ParseArray |
| Iterative.PredictExact | rapidjson-1.1.0/rapid_json/reader.h:1482-1644 | The transition table predicts exactly the move that the state allows and the look-ahead character asks for, and Error exactly where there is none |
| Completeness.DocumentAccepted | rapidjson-1.1.0/rapid_json/reader.h:485-516 | Every text of the RFC 8259 grammar, and with kParseTrailingCommasFlag every text with one comma behind a last element or member, is accepted, under any combination of the remaining flags, if and only if none of its numerals is refused as too big and every leading surrogate escape is one of a pair (and, where encodings are checked, its strings are UTF-8); then it is read to its end with the events of the value it denotes, otherwise refused with one of the three errors for these |
| Completeness.DocumentRead | rapidjson-1.1.0/rapid_json/reader.h:485-516 | The same from wherever the stream stands, with the events appended; with kParseStopWhenDoneFlag the stream then stands behind the value, for the next one |
| Soundness.AcceptsExactlyJson | rapidjson-1.1.0/rapid_json/reader.h:485-516 | Under default flags, with or without the check of encodings, a text without NUL is accepted if and only if it is a text of the grammar all of whose numerals and strings are taken; with kParseTrailingCommasFlag, of the grammar in which one comma may stand behind a last element or member, so no other text is added |
| Encodings.ValidatingAccepts | rapidjson-1.1.0/rapid_json/reader.h:853-903 | With kParseValidateEncodingFlag exactly those texts are accepted that are accepted without it and are UTF-8 as a whole (RFC 8259 section 8.1) |
| Encodings.TreeChecked | rapidjson-1.1.0/rapid_json/reader.h:887-903 | Checking the characters of every string is checking the text of the whole value |
| Refused.ScaleExact | rapidjson-1.1.0/rapid_json/reader.h:1251-1285 | The limit of an exponent is raised by the fraction digits up to the first one in front of which the significand has reached 2^53 and 17 digits, and by none behind an integer part beyond 64 bits |
| RawNumbers.RawRun | rapidjson-1.1.0/rapid_json/reader.h:1338-1352 | For every text and all other flags, kParseNumbersAsStringsFlag changes neither verdict, position nor error, and of the events only those of numbers: each becomes the characters the number was read from, down to the sign of -0 |
| Diagnosis.ErrorIsTrue | rapidjson-1.1.0/rapid_json/reader.h:560-905 | Whatever the text and the flags, the error reported is true of it: which container is open in front of the offset, what the last event was, and which character stands at the offset or before it, code by code |
| Diagnosis.ScalarSound | rapidjson-1.1.0/rapid_json/reader.h:1133-1405 | The same for the errors of words, numbers and strings |
| Tables.UnitRead | rapidjson-1.1.0/rapid_json/reader.h:868-883 | The escape of a code unit that is no leading surrogate, its four digits in upper or lower case, is read as that code point |
| Tables.PairRead | rapidjson-1.1.0/rapid_json/reader.h:871-880 | The escapes of the two UTF-16 surrogates of a code point, in digits of either case, are read as that code point |
| Tables.AcuteRead | rapidjson-1.1.0/rapid_json/reader.h:755-775 | The escape 00e9 is read as the two bytes of U+00E9 |
| Tables.CodeUnitExact | rapidjson-1.1.0/rapid_json/reader.h:755-775 | Four characters are the digits of a code unit, in either case of the sixteen written out, if and only if they are read as it |
| Tables.HexExact | rapidjson-1.1.0/rapid_json/reader.h:755-775 | The hexadecimal digits are exactly the characters of the two tables written out, and each has the value of its place |
| Tables.UnescapeExact | rapidjson-1.1.0/rapid_json/reader.h:841-850 | The letters read behind a backslash and what they stand for, written out: exactly these |
| Tables.SpaceExact | rapidjson-1.1.0/rapid_json/reader.h:264-270 | Blanks are exactly space, tab, line feed and carriage return |
| Tables.NamedCharacters | rapidjson-1.1.0/rapid_json/reader.h:704-741 | The characters and words the grammar names are those of JSON |
| Tables.IntegerKinds | rapidjson-1.1.0/rapid_json/reader.h:1332-1385 | Which integers are reported as integers and by which event, with the limits written out in decimal |
| Tables.NumeralConcat | rapidjson-1.1.0/rapid_json/reader.h:1160-1186 | The value of a numeral is positional: that of its first part shifted by the digits of the second, plus that of the second |
| Refused.ExponentDecides | rapidjson-1.1.0/rapid_json/reader.h:1288-1327 | Without a fraction the exponent alone decides whether a numeral is refused, not the number: 308 is the most |
| Refused.IntegersTaken | rapidjson-1.1.0/rapid_json/reader.h:1231-1238 | An integer without exponent is taken with up to 308 digits and refused with 310 or more |
| Refused.ExponentNotSize | rapidjson-1.1.0/rapid_json/reader.h:1288-1327 | 0e309, which is zero, is refused; 10e308, which is beyond every double, is accepted, and 1e309, the same number, refused |
| Refused.LoneLeadRefused | rapidjson-1.1.0/rapid_json/reader.h:871-878 | The JSON text of the string escape d800 on its own is refused |
| Completeness.TreeRead | rapidjson-1.1.0/rapid_json/reader.h:1392-1405 | A value of the grammar is read whole wherever it stands in a text, with its events appended to those before, if all its numerals and strings are taken, and refused otherwise |
| Completeness.NumericRead | rapidjson-1.1.0/rapid_json/reader.h:1133-1388 | Every numeral of the grammar is scanned to its last character with the event of its value, or refused as too big, exactly by the length of its integer part as the double sees it and by its exponent against 308 plus the fraction digits in the significand |
| Completeness.CharsRead | rapidjson-1.1.0/rapid_json/reader.h:840-905 | Every sequence of string characters of the grammar, surrogate pairs included, is decoded to the bytes it denotes, unless it has a lone leading surrogate or, where encodings are checked, bytes that are no UTF-8 |
| Soundness.DocumentDerives | rapidjson-1.1.0/rapid_json/reader.h:485-516 | An accepted text is, from where the stream stood up to where the reader stops, a JSON text of the grammar with all numerals and strings taken, and the outcome is exactly the one of that text |
| Soundness.TreeDerives | rapidjson-1.1.0/rapid_json/reader.h:1392-1405 | A value accepted at any position was a value of the grammar, read whole, with all numerals and strings taken |
| Soundness.NumericDerives | rapidjson-1.1.0/rapid_json/reader.h:1133-1388 | A number accepted by the scanner was a numeral of the grammar (no leading zeros, digits behind point and exponent mark) that is not refused |
| Grammar.TreeLogMeaning | rapidjson-1.1.0/rapid_json/reader.h:162-180 | Up to the kinds of integers, the log for a derivation is the event stream of the value denoted, so member and element counts are right |
| Grammar.NumericEventMeaning | rapidjson-1.1.0/rapid_json/reader.h:1354-1385 | The integer or double event of a numeral stands for the number the numeral denotes |
| Discipline.ParseReports | rapidjson-1.1.0/rapid_json/reader.h:485-516 | Under all flags, a successful run reports exactly one value, and a failing run reports a beginning of the events of some value |
| Lenient.SkipExact | rapidjson-1.1.0/rapid_json/reader.h:560-585 | With the comment flag, skipping ends at a position if and only if blanks, block comments and line comments stand before it and nothing of the kind follows; a block comment ends at its first end mark, a line comment at a line break or the end of the text |
| Lenient.NanOrInfExact | rapidjson-1.1.0/rapid_json/reader.h:1187-1202 | The words accepted under the NaN flag: NaN, or up to two letters of it followed by Inf or Infinity, and nothing else |
| Lenient.BrokenNan | rapidjson-1.1.0/rapid_json/reader.h:1189-1192 | The text NInf is taken for an infinity |
| Lenient.MinusZero | rapidjson-1.1.0/rapid_json/reader.h:1371-1383 | The text -0 is reported as the integer 0 |
| Reader.NumberChoiceFits | rapidjson-1.1.0/rapid_json/reader.h:1332-1385 | The type switch with its 64-bit and double marks selects the event that the value alone demands: 32 bits if it fits, then 64 bits, double only outside of both ranges |
| Reader.TooBigEarly | rapidjson-1.1.0/rapid_json/reader.h:1231-1238 | A numeral in front of whose digit the double reaches the limit is too big as a whole |
| Rounding.FewDigits | rapidjson-1.1.0/rapid_json/reader.h:1231-1238 | Whatever the rounding, an integer part of up to 308 digits is never too big |
| Rounding.ManyDigits | rapidjson-1.1.0/rapid_json/reader.h:1231-1238 | Whatever the rounding, one of 310 or more digits always is |
| Rounding.Band | rapidjson-1.1.0/rapid_json/reader.h:1231-1238 | With 309 digits the first 308 decide, and the rounding only where these are within 308 parts in 2^49 of the limit |
| Reader.ValidateSuffix | rapidjson-1.1.0/rapid_json/reader.h:179-202 | Validation looks only ahead: started in the middle of a text it does what it does on the rest alone |
| Reader.GenericReader.SetParseError | rapidjson-1.1.0/rapid_json/reader.h:101-105 | The assertion that an error is only assigned once is a precondition, met at every call in both parsers |
| Reader.GenericReader.SkipWhitespace | rapidjson-1.1.0/rapid_json/reader.h:264-271 | The cursor stops at the first character that is not blank |
| Reader.GenericReader.SkipWhitespaceAndComments | rapidjson-1.1.0/rapid_json/reader.h:560-585 | Cursor or error as in the specification of blanks and comments, for both settings of the comment flag |
| Reader.GenericReader.ParseHex4 | rapidjson-1.1.0/rapid_json/reader.h:755-774 | Four hexadecimal digits are taken and their value returned if they are there; otherwise the error at the escape |
| Reader.GenericReader.ParseUnicodeEscape | rapidjson-1.1.0/rapid_json/reader.h:867-881 | One escape or a surrogate pair, and the error cases of an unpaired high surrogate |
| Reader.GenericReader.ParseStringToStack | rapidjson-1.1.0/rapid_json/reader.h:840-905 | The copying decoder delivers exactly the decoded string of the specification, or its error |
| Reader.GenericReader.ParseStringToSource | rapidjson-1.1.0/rapid_json/reader.h:840-905 | The in-situ decoder delivers the same string or error as the copying one: the string and its NUL stand in the buffer from the old cursor on and end before the new cursor, nothing before them and nothing unread is touched |
| Reader.GenericReader.ParseDigits | rapidjson-1.1.0/rapid_json/reader.h:1154-1238 | For a digit sequence of any length the 32-bit, 64-bit and double phases give exactly its value with no integer intermediate above the limit of the phase, the 64-bit mark if and only if 32 bits do not hold it, the double path if and only if 64 bits do not, and the too-big error if and only if the double, in whatever rounding, reached its limit in front of some digit |
| Reader.GenericReader.ParseExponent | rapidjson-1.1.0/rapid_json/reader.h:1288-1327 | The exponent is taken whole, or missing, or refused exactly when it is not negative and exceeds 308 plus the digits of the fraction |
| Reader.GenericReader.ParseFractionDigits | rapidjson-1.1.0/rapid_json/reader.h:1249-1283 | All fraction digits are taken, and the scale counts exactly those that entered the significand |
| Reader.GenericReader.ParseNanOrInf | rapidjson-1.1.0/rapid_json/reader.h:1187-1202 | The words of the NaN and infinity flag, with what a broken word has consumed |
| Reader.GenericReader.ParseNumber | rapidjson-1.1.0/rapid_json/reader.h:1133-1388 | ParseNumber ends where and with the event or error the specification says, which NumericRead and NumericDerives tie to the numerals of the grammar |
| Reader.GenericReader.SendNumber | rapidjson-1.1.0/rapid_json/reader.h:1332-1385 | The event of the number; under the flag for numbers as strings, the string delivered in-situ lies at the first character of the number, and stays there unaltered |
| Reader.GenericReader.ParseStringInsitu | rapidjson-1.1.0/rapid_json/reader.h:808-822 | The event of an in-situ string, which then stands NUL-terminated in the buffer, together with every string delivered before |
| Reader.GenericReader.ParseWord | rapidjson-1.1.0/rapid_json/reader.h:705-741 | null, true and false: the event or the error at the word |
| Reader.GenericReader.ParseValue | rapidjson-1.1.0/rapid_json/reader.h:1392-1405 | The recursive parser over the mutable buffer, in-situ or not, follows the specification; unread text is unaltered and delivered strings stay intact |
| Reader.GenericReader.ParseArray | rapidjson-1.1.0/rapid_json/reader.h:657-702 | The same for arrays with their element counts |
| Reader.GenericReader.ParseObject | rapidjson-1.1.0/rapid_json/reader.h:589-655 | The same for objects with their member counts |
| Reader.GenericReader.Parse | rapidjson-1.1.0/rapid_json/reader.h:485-516 | From wherever the stream stands and under every flag set, in-situ parsing refines copying parsing: both leave the events and the verdict of the specification for the original text, so they agree with each other; all strings delivered, raw numbers included, still stand in the buffer at the end, and without in-situ the buffer is never changed |
| Reader.GenericReader.Transit | rapidjson-1.1.0/rapid_json/reader.h:1649-1798 | One move of the automaton on the mutable buffer is the move of the specification, with stack, counts, events and errors |
| Reader.GenericReader.HandleError | rapidjson-1.1.0/rapid_json/reader.h:1801-1819 | An error code is given exactly if none has been set |
| Reader.GenericReader.IterativeParse | rapidjson-1.1.0/rapid_json/reader.h:1822-1854 | The automaton over the mutable buffer, in-situ or not, from wherever the stream stands, leaves the outcome that IterativeRefinesRecursive compares; delivered strings stay intact |
| Utf8.DecodeExact | rapidjson-1.1.0/rapid_json/encodings.h:146-177 | Decode succeeds at a position exactly if a character of RFC 3629 section 4 stands there, and consumes exactly it, looking at most four bytes ahead |
| Utf8.EncodeThenDecode | rapidjson-1.1.0/rapid_json/encodings.h:102-121 | Decode gives back every Unicode scalar value that Encode was given, consuming the whole encoding |
| Utf8.DecodeThenEncode | rapidjson-1.1.0/rapid_json/encodings.h:146-177 | What Decode accepted is the encoding of a scalar value, byte for byte: no overlong form, no surrogate, nothing above 10FFFF |
| Utf8.ValidateAgrees | rapidjson-1.1.0/rapid_json/encodings.h:179-202 | Validate and Decode give the same verdict and consume the same bytes, and Validate puts exactly those |
| Utf8.ReencodeIsIdentity | rapidjson-1.1.0/rapid_json/encodings.h:146-177 | Every valid byte string is the re-encoding of its decoding |
| Dom.FlagsOfInt | rapidjson-1.1.0/rapid_json/document.h:634-639 | Each integer flag is set if and only if the value fits that type |
| Dom.FlagsOfUint | rapidjson-1.1.0/rapid_json/document.h:640-645 | The same from an unsigned, so the flags do not depend on the constructor |
| Dom.FlagsOfInt64 | rapidjson-1.1.0/rapid_json/document.h:646-658 | The same from a 64-bit integer |
| Dom.FlagsOfUint64 | rapidjson-1.1.0/rapid_json/document.h:661-670 | The same from an unsigned 64-bit integer |
| Dom.AcceptNumber | rapidjson-1.1.0/rapid_json/document.h:1797-1803 | Reading only canonical flags, Accept calls the handler with the mathematical value of the number, in the first kind that holds it |
| Dom.ReplayBuilds | rapidjson-1.1.0/rapid_json/document.h:1768-1805 | Replaying the events of a value pushes exactly that value on whatever stack is there |
| Dom.EventsDetermineValue | rapidjson-1.1.0/rapid_json/document.h:1768-1805 | Two values with the same event stream are the same value |
| Dom.RunCanonical | rapidjson-1.1.0/rapid_json/document.h:2333-2340 | Which integer event reports a number makes no difference to the tree built |
| Dom.StackDiscipline | rapidjson-1.1.0/rapid_json/document.h:2155-2165 | The events of a successful parse leave exactly the parsed value on the stack, and those of a failing one never ask for more than the stack holds |
| Json.FindMember | rapidjson-1.1.0/rapid_json/document.h:1153-1161 | The first member of that name, the end if there is none |
| Documents.OneValue | rapidjson-1.1.0/rapid_json/document.h:2155-2165 | The same discipline for both parsers, under every flag set |
| Documents.GenericDocument.Handle | rapidjson-1.1.0/rapid_json/document.h:2333-2373 | Each handler method transforms the stack as the builder of ReplayBuilds does |
| Documents.GenericDocument.ParseStream | rapidjson-1.1.0/rapid_json/document.h:2155-2165 | With either parser, in-situ or not: on success the document becomes the one value whose events were parsed, on failure it is unchanged and the error kept; the stack is empty again |
| Documents.GenericDocument.CopyFrom | rapidjson-1.1.0/rapid_json/document.h:2408-2417 | A deep copy by replay is the value copied |
| Printing.EscapeIsRead | rapidjson-1.1.0/rapid_json/writer.h:345-417 | Reading back the escaped form of a string, whatever bytes it holds, gives the string |
| Printing.EscapeBound | rapidjson-1.1.0/rapid_json/writer.h:359-416 | A string of n bytes is written within the 2 + 6n units reserved |
| Printing.AsciiEscapeIsRead | rapidjson-1.1.0/rapid_json/writer.h:368-398 | A valid UTF-8 string written for an ASCII target, with surrogate pairs beyond the basic plane, is read back as itself |
| Printing.AsciiEscapeBound | rapidjson-1.1.0/rapid_json/writer.h:361-416 | It is written within the 2 + 12n units reserved |
| Printing.LayoutMeaning | rapidjson-1.1.0/rapid_json/writer.h:172-232 | The printed tree is a tree of the grammar and denotes the value printed, compact or pretty |
| Printing.PrintedIsRead | rapidjson-1.1.0/rapid_json/writer.h:172-232 | Print, then parse: the text of every value without doubles is read back if and only if encodings are not checked or its strings are UTF-8; then to its end, with the events of the value, and building it gives the value back; embedded NULs and arbitrary bytes in strings included |
| Printing.EscapeBytesUtf8 | rapidjson-1.1.0/rapid_json/writer.h:345-417 | The text written for a string is UTF-8 if and only if the string is |
| Writing.ValueWritten | rapidjson-1.1.0/rapid_json/writer.h:437-455 | From any writer state that may take a value, its events put the prefix and the text of its tree at the current depth, and leave the levels as the prefix left them |
| Writing.DocumentWritten | rapidjson-1.1.0/rapid_json/writer.h:172-232 | From a fresh writer the events of a value put exactly its printed text and leave a complete output |
| WriterLaws.CompleteAtEnd | rapidjson-1.1.0/rapid_json/writer.h:134-136 | IsComplete is true behind a beginning of the events of a value exactly if it is all of them |
| WriterLaws.WriteAllDepth | rapidjson-1.1.0/rapid_json/writer.h:204-232 | Whatever events are written, the open levels are the containers started and not ended, and a root exists once anything was written |
| WriterLaws.WrittenExactly | rapidjson-1.1.0/rapid_json/writer.h:345-417 | A value without doubles, its strings NUL-terminated as GenericValue keeps them, is written if and only if all its strings can be: always as bytes, for an ASCII target exactly the valid UTF-8 ones |
| Reformatting.ReformattedIsRead | rapidjson-1.1.0/rapid_json/writer.h:172-232 | Parser to writer to parser: the log of an accepted text, read under whatever flags, is written as the value it reports; reading that gives the same value, and the same events up to the kinds of integers if and only if the log has no raw number |
| Reformatting.LogWritten | rapidjson-1.1.0/rapid_json/writer.h:186-190 | Every log that reports a value is written as the value is, raw numbers as the strings of their characters |
| Reformatting.RawQuoted | rapidjson-1.1.0/rapid_json/writer.h:186-190 | The raw number 1 is written as a string |
| Reformatting.SignExact | rapidjson-1.1.0/rapid_json/writer.h:281-315 | An integer numeral that fits 64 bits is written back exactly as it was read if and only if it is not -0 |
| Writers.Writer.Prefix | rapidjson-1.1.0/rapid_json/writer.h:437-455 | Behind the assertions on roots and names, the separator of the position, the value counted and the root recorded |
| Writers.Writer.WriteBytes | rapidjson-1.1.0/rapid_json/writer.h:364-416 | The loop over bytes puts exactly the quoted escaped string |
| Writers.Writer.WritePoints | rapidjson-1.1.0/rapid_json/writer.h:364-416 | The loop over code points fails exactly where the decoder meets no character before the length is reached; it then has put the opening quote and all characters before, otherwise the whole string with its last character; never more than 2 + 12n units |
| Writers.Writer.WriteString | rapidjson-1.1.0/rapid_json/writer.h:345-417 | For a string given by pointer and length and both kinds of target: the verdict, the text put in either case, and the room reserved as a bound |
| Strings.CoveredExact | rapidjson-1.1.0/rapid_json/writer.h:364-376 | An ASCII target takes exactly the units of a string given by pointer and length, if they are UTF-8, and fails otherwise, if and only if no character in a row from the beginning lies across the end of the string |
| Strings.NulStops | rapidjson-1.1.0/rapid_json/writer.h:364-376 | In front of a NUL, or at the end of the text, no character does |
| Strings.ReadsBehind | rapidjson-1.1.0/rapid_json/writer.h:369-372 | Without it a string cut inside a character is accepted and written with the units behind it |
| Writers.Writer.StringEvent | rapidjson-1.1.0/rapid_json/writer.h:186-197 | Strings, keys and raw numbers follow the written specification, verdict included |
| Writers.Writer.Scalar | rapidjson-1.1.0/rapid_json/writer.h:172-177 | The other scalars follow it |
| Writers.Writer.Start | rapidjson-1.1.0/rapid_json/writer.h:204-224 | Opening a container follows it |
| Writers.Writer.End | rapidjson-1.1.0/rapid_json/writer.h:212-232 | Closing a container follows it, with the assertion on the kind of level as precondition |
| Formatting.PrettyIsFormatted | rapidjson-1.1.0/rapid_json/prettywriter.h:85-232 | For every event sequence, well formed or not, the output of the pretty writer is the output of the writer sent through a formatter that sees nothing but characters: outside of string literals a line feed and depth times count indent characters behind every opening bracket that is not closed at once and behind every comma, and one level less in front of a closing bracket; one space behind a colon; inside an array kept on one line only a space behind a comma |
| WriterLaws.PrettyIsWriterWithBlanks | rapidjson-1.1.0/rapid_json/prettywriter.h:85-165 | For every event sequence, well formed or not, every indentation and array option: the pretty writer accepts what the writer accepts, and its output without the blanks outside of string literals is the output of the writer; both are complete at the same time |
| Writers.Writer.PrettyPrefix | rapidjson-1.1.0/rapid_json/prettywriter.h:190-232 | Puts the separator and layout of the position, which PrettyIsFormatted describes character by character |
| Writers.Writer.WriteIndent | rapidjson-1.1.0/rapid_json/prettywriter.h:234-237 | The indentation of all open levels |
| SchemaTheorems.StreamingDecidesDraft4 | rapidjson-1.1.0/rapid_json/schema.h:1625-1733 | For every portable schema and value without doubles, feeding any event stream of the value leaves the validator valid if and only if the value satisfies the schema under JSON Schema draft 4 |
| SchemaTheorems.StreamingMeetsDocument | rapidjson-1.1.0/rapid_json/schema.h:1662-1733 | For every schema, portable or not, the verdict is that of the declarative reading in which mentioned names count as declared, an empty tuple is none and limits beyond 32 bits are none; a valid run leaves the validator as it began |
| SchemaTheorems.ParsedTextIsValidated | rapidjson-1.1.0/rapid_json/schema.h:1966-1984 | Validation during parsing: the events of every accepted text are judged as the value that the text denotes; and a reader that stops at the first event refused leaves the validator as the whole log would, with verdict, keyword and path |
| SchemaTheorems.RunCanonical | rapidjson-1.1.0/rapid_json/schema.h:1691-1694 | The verdict and the whole validator state do not depend on which integer event reports a number |
| SchemaTheorems.DialectsAgree | rapidjson-1.1.0/rapid_json/schema.h:426-461 | On schemas free of the three departures the two readings agree on every value |
| SchemaTheorems.MentionedNameExact | rapidjson-1.1.0/rapid_json/schema.h:810-818 | The check of a member departs from draft 4 on some value if and only if its name is mentioned in required or dependencies, not declared in properties, and additionalProperties (false or a schema) rejects something |
| SchemaTheorems.EmptyTupleExact | rapidjson-1.1.0/rapid_json/schema.h:605-618 | The check of elements departs from draft 4 on some value if and only if items is an empty tuple and additionalItems (false or a schema) rejects something |
| SchemaTheorems.HugeLimitExact | rapidjson-1.1.0/rapid_json/schema.h:977-981 | A lower limit of a count departs from draft 4 on some 32-bit count if and only if it is itself beyond 32 bits |
| SchemaTheorems.RequiredCountsAsDeclared | rapidjson-1.1.0/rapid_json/schema.h:437-439 | A concrete schema and value for the first departure: a required name passes additionalProperties false, in the streaming validator and against draft 4 |
| SchemaTheorems.EmptyTupleIgnored | rapidjson-1.1.0/rapid_json/schema.h:607-615 | A concrete schema and value for the second: an element passes an empty tuple with additionalItems false |
| SchemaTheorems.HugeLimitsIgnored | rapidjson-1.1.0/rapid_json/schema.h:977-981 | Concrete schemas and values for the third: an empty array and an empty object pass lower limits of 2^32 |
| Validation.ValueRun | rapidjson-1.1.0/rapid_json/schema.h:1812-1878 | In any validator state that expects a value of a schema, whatever is open around it, the events of the value pass if and only if the recursive validator accepts it, and passing changes nothing but the counts around it |
| Validation.StreamingIsRecursive | rapidjson-1.1.0/rapid_json/schema.h:1662-1733 | A fresh validator judges the events of a value as plain recursion over the tree does, and ends as it began |
| SchemaMeaning.CompiledAccepts | rapidjson-1.1.0/rapid_json/schema.h:356-574 | The compiled schema, with its property table, flags and validator slots, accepts exactly the values that satisfy its keywords |
| SchemaMeaning.TableHas | rapidjson-1.1.0/rapid_json/schema.h:428-450 | The property table has a row for exactly the declared and the mentioned names |
| SchemaMeaning.ValueChecked | rapidjson-1.1.0/rapid_json/schema.h:692-762 | The first check of a value decides the type keyword and, for numbers, minimum, maximum, their exclusive forms and multipleOf |
| SchemaMeaning.ElementAgrees | rapidjson-1.1.0/rapid_json/schema.h:600-623 | The schema chosen for an element by its index accepts it exactly if items and additionalItems do |
| SchemaMeaning.MemberAgrees | rapidjson-1.1.0/rapid_json/schema.h:783-826 | The schema chosen for a member by its name accepts it exactly if properties and additionalProperties do |
| SchemaMeaning.EndValueChecked | rapidjson-1.1.0/rapid_json/schema.h:660-687 | From the verdicts of the parallel validators, EndValue decides allOf, anyOf, oneOf (exactly one) and not |
| SchemaMeaning.EndObjectChecked | rapidjson-1.1.0/rapid_json/schema.h:828-856 | From the marks of names seen, EndObject decides required, dependencies on names and on schemas, and the member limits |
| SchemaMeaning.EndArrayChecked | rapidjson-1.1.0/rapid_json/schema.h:868-878 | EndArray decides minItems and maxItems |
| Schemas.NumberCheckExact | rapidjson-1.1.0/rapid_json/schema.h:1099-1174 | CheckInt and CheckUint compare mathematical values, whatever 64-bit type the event and the limit have |
| Blame.ReportedIsBlamed | rapidjson-1.1.0/rapid_json/schema.h:1642-1652 | After the events of a value, the keyword and the path reported are those of the first fault of the value under the schema document, found by walking the value in order with each keyword judged on its own; and nothing is reported if and only if the value meets the document |
| Blame.FaultIsBlamed | rapidjson-1.1.0/rapid_json/schema.h:660-878 | The compiled schema finds at every path the fault that the keywords of the document have there |
| Blame.BeginBlames | rapidjson-1.1.0/rapid_json/schema.h:692-762 | The check at the beginning of a value reports the first of type, minimum, maximum and multipleOf that the value breaks |
| Blame.NumberBlames | rapidjson-1.1.0/rapid_json/schema.h:1099-1174 | A number is reported for minimum if it is below, for maximum if it is above, for multipleOf if it is no multiple, in this order |
| Blame.EndArrayBlames | rapidjson-1.1.0/rapid_json/schema.h:868-878 | The check at the end of an array reports the first of minItems and maxItems that it breaks |
| Blame.EndObjectBlames | rapidjson-1.1.0/rapid_json/schema.h:828-856 | The check at the end of an object reports the first of required, minProperties, maxProperties and dependencies that it breaks |
| Blame.EndValueBlames | rapidjson-1.1.0/rapid_json/schema.h:660-687 | The check at the end of a value reports the first of allOf, anyOf, oneOf and not that it breaks |
| Blame.NothingBlamed | rapidjson-1.1.0/rapid_json/schema.h:660-878 | Nothing is blamed if and only if the value meets every keyword |
| Faults.FaultRun | rapidjson-1.1.0/rapid_json/schema.h:1642-1752 | From every state that expects a value, the run over its events reports the keyword and path of its first fault in document order, and none if it is accepted |
| Faults.FaultIsRefusal | rapidjson-1.1.0/rapid_json/schema.h:660-878 | There is no fault if and only if the compiled schema accepts the value |
| SchemaValidator.CheckAtEnd | rapidjson-1.1.0/rapid_json/schema.h:660-687 | The loops of EndValue report the first keyword violated, in the order allOf, anyOf, oneOf, not |
| SchemaValidator.FindProperty | rapidjson-1.1.0/rapid_json/schema.h:1086-1097 | The first row of that name, if there is one |
| SchemaValidator.CheckMembersAtEnd | rapidjson-1.1.0/rapid_json/schema.h:828-856 | The nested loops of EndObject report the first keyword violated |
| SchemaValidator.GenericSchemaValidator.Reset | rapidjson-1.1.0/rapid_json/schema.h:1625-1630 | The validator is fresh again |
| SchemaValidator.GenericSchemaValidator.AppendToken | rapidjson-1.1.0/rapid_json/schema.h:1880-1895 | The path grows by a solidus and the name, escaped as RFC 6901 demands |
| SchemaValidator.GenericSchemaValidator.RemoveToken | rapidjson-1.1.0/rapid_json/schema.h:1871-1874 | The loop to the last solidus, for which PopName and PopIndex show that it removes one token |
| SchemaValidator.GenericSchemaValidator.BeginValue | rapidjson-1.1.0/rapid_json/schema.h:1812-1841 | The context of the value to come is pushed with the schema chosen for it and its token on the path, or the run fails |
| SchemaValidator.GenericSchemaValidator.FeedParallel | rapidjson-1.1.0/rapid_json/schema.h:1673-1684 | Every parallel validator of every open context receives the event, and nothing else changes |
| SchemaValidator.GenericSchemaValidator.CreateParallelValidators | rapidjson-1.1.0/rapid_json/schema.h:1049-1083 | One fresh validator for each subschema, in the order of the slots |
| SchemaValidator.GenericSchemaValidator.EndValue | rapidjson-1.1.0/rapid_json/schema.h:1843-1878 | Verdict, pop of context and path token, or the failure that keeps both |
| SchemaValidator.GenericSchemaValidator.Value | rapidjson-1.1.0/rapid_json/schema.h:1689-1699 | A scalar event takes the whole validator state where the state machine of ValueRun goes |
| SchemaValidator.GenericSchemaValidator.Start | rapidjson-1.1.0/rapid_json/schema.h:1701-1726 | So does the start of a container |
| SchemaValidator.GenericSchemaValidator.Key | rapidjson-1.1.0/rapid_json/schema.h:1707-1713 | So does a key |
| SchemaValidator.GenericSchemaValidator.EndObject | rapidjson-1.1.0/rapid_json/schema.h:1715-1720 | So does the end of an object |
| SchemaValidator.GenericSchemaValidator.EndArray | rapidjson-1.1.0/rapid_json/schema.h:1728-1732 | So does the end of an array |
| Path.PopName | rapidjson-1.1.0/rapid_json/schema.h:1871-1874 | Popping to the last solidus undoes the push of one name, even one containing `/` or `~` |
| Path.PopIndex | rapidjson-1.1.0/rapid_json/schema.h:1871-1874 | It undoes the push of one index |
| DocumentPath.RunTracks | rapidjson-1.1.0/rapid_json/schema.h:1812-1895 | As long as a run is valid, the path is the RFC 6901 string of the place reached, whatever is open |
| DocumentPath.PathNamesPlace | rapidjson-1.1.0/rapid_json/schema.h:1647-1649 | After every valid beginning of the events of a value the path names the place reached; after the first failure, however many events follow, it names the value or member that was being checked |
| DocumentPath.ValueFollows | rapidjson-1.1.0/rapid_json/schema.h:1812-1878 | The places reached by the events of a value lead from where it begins to just behind it |
| PointerLaws.PathIsParsed | rapidjson-1.1.0/rapid_json/schema.h:1647-1649 | GetInvalidDocumentPointer: the path is a valid JSON Pointer whose tokens are the keys and indices of the place |
| Equality.EqualHash | rapidjson-1.1.0/rapid_json/schema.h:165-255 | Equal values have equal hash codes: xor over members ignores their order, the fold over elements keeps it |
| Equality.StreamedHash | rapidjson-1.1.0/rapid_json/schema.h:195-214 | Streaming a value through the hasher leaves exactly its hash code on the stack, above whatever is there |
| Equality.EqualStreamsHashEqual | rapidjson-1.1.0/rapid_json/schema.h:165-255 | Values equal under operator== stream to equal codes |
| Hashing.MixInjective | rapidjson-1.1.0/rapid_json/schema.h:251-256 | A step of the hash is injective in the state and in what is mixed in |
| Hashing.TypesApart | rapidjson-1.1.0/rapid_json/schema.h:237-245 | The same bytes under different types have different codes, so null, true and false do |
| Hashing.ByteApart | rapidjson-1.1.0/rapid_json/schema.h:237-245 | Strings that differ in one byte have different codes |
| Hashing.ElementApart | rapidjson-1.1.0/rapid_json/schema.h:207-214 | Replacing an element changes the code of the array if and only if it changes the code of the element |
| Hashing.MemberApart | rapidjson-1.1.0/rapid_json/schema.h:197-204 | Replacing the value of a member changes the code of the object if and only if it changes the code of the value |
| Hashing.ReferenceCodes | rapidjson-1.1.0/rapid_json/schema.h:197-245 | The 64-bit codes of [null, true], [true, null] and {"a": null} |
| Equality.Hasher.WriteBuffer | rapidjson-1.1.0/rapid_json/schema.h:237-245 | The code of the bytes is pushed |
| Equality.Hasher.EndObject | rapidjson-1.1.0/rapid_json/schema.h:197-204 | Names and values are popped and folded by xor, whatever lies below |
| Equality.Hasher.EndArray | rapidjson-1.1.0/rapid_json/schema.h:207-214 | Elements are popped and folded in order, whatever lies below |
| Equality.Compare | rapidjson-1.1.0/rapid_json/document.h:852-891 | The two loops of operator== compute the relation of the lemmas below |
| Equality.EqualIsMeaning | rapidjson-1.1.0/rapid_json/document.h:852-891 | Without doubles, with distinct member names and integers in the int64 range, operator== holds if and only if the values mean the same: objects as maps from name to value, arrays as sequences, numbers by value |
| Equality.EqualIsEquivalence | rapidjson-1.1.0/rapid_json/document.h:852-891 | There it is reflexive, symmetric and transitive |
| Equality.OrderIgnored | rapidjson-1.1.0/rapid_json/document.h:858-866 | Two orders of the same members make equal objects |
| Equality.RepeatedNames | rapidjson-1.1.0/rapid_json/document.h:847-866 | Concrete objects with repeated member names: one equals itself, and another only from the left |
| Repeats.DistinctNeverRepeated | rapidjson-1.1.0/rapid_json/document.h:858-866 | An object with distinct names never equals, on the left, one with a repeated name, whatever the values |
| Repeats.ReflexiveExact | rapidjson-1.1.0/rapid_json/document.h:852-891 | A value without doubles equals itself if and only if at every level each member has a value equal to that of the first member of its name |
| Repeats.SymmetricExact | rapidjson-1.1.0/rapid_json/document.h:852-891 | For values without doubles, whatever their names: an equality also holds the other way round if and only if the right value equals itself and, at every object compared, the first members of each name below included, has no name that the left one has not |
| Repeats.EqualTransitive | rapidjson-1.1.0/rapid_json/document.h:852-891 | On values without doubles, repeated names or not, operator== is transitive |
| Equality.PatternExact | rapidjson-1.1.0/rapid_json/document.h:879-886 | Comparing 64-bit patterns identifies two different numbers exactly if they are 2^64 apart |
| PointerLaws.RoundTrip | rapidjson-1.1.0/rapid_json/pointer.h:941-972 | For every parsed pointer: printing plainly succeeds, printing as a URI fragment succeeds if and only if all names are UTF-8, and what is printed is parsed to the same pointer |
| PointerLaws.PrintedIsParsed | rapidjson-1.1.0/rapid_json/pointer.h:941-972 | The same for every list of tokens whose indices agree with their names |
| PointerLaws.PlainIsPrinted | rapidjson-1.1.0/rapid_json/pointer.h:802-932 | Printing a parsed plain pointer gives its text back, character by character |
| PointerLaws.ParsedSize | rapidjson-1.1.0/rapid_json/pointer.h:811-818 | The token count is the number of solidi, and all names with their terminators fit one unit per unit of the text |
| Pointers.ParsedConsistent | rapidjson-1.1.0/rapid_json/pointer.h:899-918 | The index of every parsed token is the one its name gives |
| Pointers.IndexExact | rapidjson-1.1.0/rapid_json/pointer.h:899-918 | For a canonical decimal the index is its value if and only if the value is below 2^32 (2^32-1 being the mark of no index) |
| Pointers.WrapUnnoticed | rapidjson-1.1.0/rapid_json/pointer.h:905-915 | Beyond that the overflow test misses a wrap: a concrete numeral with a wrong index |
| Pointers.DecodePercent | rapidjson-1.1.0/rapid_json/pointer.h:845-862 | Percent-encoded names are decoded triplet by triplet to whole UTF-8 characters, within the text |
| Pointer.ConvertIndex | rapidjson-1.1.0/rapid_json/pointer.h:899-918 | The leading-zero test and the overflow loop give the index of the name |
| Pointer.CountTokens | rapidjson-1.1.0/rapid_json/pointer.h:811-814 | The first pass counts the solidi |
| Pointer.NameFound | rapidjson-1.1.0/rapid_json/pointer.h:817-818 | Every token finds its NUL-terminated name in the shared buffer |
| Pointer.GenericPointer.constructor | rapidjson-1.1.0/rapid_json/pointer.h:802-932 | Tokens and name buffer hold the pointer of the specification, or the error with its offset and no tokens; no write leaves either array |
| Pointer.GenericPointer.ReadToken | rapidjson-1.1.0/rapid_json/pointer.h:836-918 | One round writes one name and one token, and leaves all before them as they were |
| PointerTree.Resolve | rapidjson-1.1.0/rapid_json/pointer.h:479-507 | The loop of Get finds the value, or the index of the first token that leads nowhere; names are searched for up to their first NUL |
| Places.ElementFound | rapidjson-1.1.0/rapid_json/pointer.h:479-507 | The token of the numeral i finds element i of an array, and nothing if there is none |
| Places.MemberFound | rapidjson-1.1.0/rapid_json/pointer.h:479-507 | The token of a name finds the member of that name, if names are distinct and without NUL |
| Places.PlaceIsFound | rapidjson-1.1.0/rapid_json/pointer.h:479-507 | In the event stream of every value with distinct names without NUL: the pointer of the place an event is about, looked up in the value, finds the value whose events begin or end there |
| PointerTree.SetOneExact | rapidjson-1.1.0/rapid_json/pointer.h:401-447 | What one token sets: an array is padded with nulls up to the index and otherwise unchanged, `-` appends, a name is the first member found or a new last one, and a value of the wrong kind gives way to a container of nothing else |
| PointerTree.SetComposes | rapidjson-1.1.0/rapid_json/pointer.h:401-447 | A longer pointer sets at its first token what its rest makes of the value found there, or of null |
| PointerTree.CreateMissing | rapidjson-1.1.0/rapid_json/pointer.h:401-447 | Where nothing resolves Create makes what Set makes of null |
| PointerTree.CreateExisting | rapidjson-1.1.0/rapid_json/pointer.h:401-447 | Create reports that the value existed if and only if Get resolved before, and then changes nothing |
| PointerTree.GetAfterSet | rapidjson-1.1.0/rapid_json/pointer.h:610-612 | After Set, on every tree, Get finds the value set if and only if on the way no `-` token met an array and no name holding a NUL met an object without a member of the name up to the NUL; otherwise it finds nothing |
| PointerTree.GetAfterPlainSet | rapidjson-1.1.0/rapid_json/pointer.h:610-612 | For pointers without NUL in a name, Get after Set finds the value set if and only if no `-` token met an array |
| PointerTree.SetReplaces | rapidjson-1.1.0/rapid_json/pointer.h:610-612 | Where the pointer resolves, Set replaces the value there and nothing else |
| PointerTree.ReplaceKeepsOthers | rapidjson-1.1.0/rapid_json/pointer.h:610-612 | A pointer that parts from the replaced one at some token, by index and by name up to a NUL, finds what it found before |
| PointerTree.SetKeepsOthers | rapidjson-1.1.0/rapid_json/pointer.h:401-447 | A pointer that resolved before and parts from the one set, created or replaced, still finds the same value, unless an array met by a name became an object where they part; then it finds nothing |
| PointerTree.PlainNameExact | rapidjson-1.1.0/rapid_json/pointer.h:431-432 | Searching for a name up to its first NUL finds in every object what the whole name finds, if and only if the name holds no NUL |
| PointerTree.NulNameCut | rapidjson-1.1.0/rapid_json/pointer.h:401-447 | The pointer #/a%00b: on an empty object Get finds nothing after Set; on an object with a member a, Get finds that member, Set overwrites and Erase erases it |
| PointerLaws.NulNameParsed | rapidjson-1.1.0/rapid_json/pointer.h:845-856 | That text is a pointer with one token, whose name holds the NUL |
| PointerTree.EraseExact | rapidjson-1.1.0/rapid_json/pointer.h:711-749 | Erase returns true if and only if the pointer is not empty and resolves; otherwise the tree is unchanged, and on success only the parent changes, which loses the child the last token leads to |
| PointerTree.WithoutChildExact | rapidjson-1.1.0/rapid_json/document.h:1622-1635 | The parent loses exactly that member or element; all others remain in order, those behind moved up by one |
| Allocators.BlocksSeparate | rapidjson-1.1.0/rapid_json/allocators.h:176-188 | Blocks handed out since the last Clear are inside the used part of one chunk and pairwise disjoint, and aligned if and only if their chunk is |
| Allocators.LastBlock | rapidjson-1.1.0/rapid_json/allocators.h:205-206 | The address test of Realloc succeeds only for the block that was granted last |
| Allocators.MoreGranted | rapidjson-1.1.0/rapid_json/allocators.h:182-187 | A grant from the newest chunk adds one block, disjoint from all others |
| Allocators.LargerGranted | rapidjson-1.1.0/rapid_json/allocators.h:205-212 | Growing the last grant replaces one block and keeps all others |
| Allocators.MemoryPoolAllocator.constructor | rapidjson-1.1.0/rapid_json/allocators.h:110-113 | An allocator without chunks and blocks |
| Allocators.MemoryPoolAllocator.WithBuffer | rapidjson-1.1.0/rapid_json/allocators.h:125-134 | The user buffer, aligned or not, is the only chunk, and empty |
| Allocators.MemoryPoolAllocator.AddChunk | rapidjson-1.1.0/rapid_json/allocators.h:237-250 | A chunk is added in front of the list, or nothing changes |
| Allocators.MemoryPoolAllocator.Malloc | rapidjson-1.1.0/rapid_json/allocators.h:176-188 | Null exactly for size 0 or when neither the newest chunk nor the base allocator has room; otherwise one new block of aligned size, all others kept, Size grown by it |
| Allocators.MemoryPoolAllocator.Realloc | rapidjson-1.1.0/rapid_json/allocators.h:191-222 | Null if and only if, without a block, Malloc would give null, and with one if the new size is 0 or it has to grow with no room behind it, in the newest chunk or from the base allocator; otherwise a block of the new size holding the bytes of the old one, in place if and only if it need not grow or is the last grant with room behind it; every other block and its bytes are as before, and Size grows by what is granted |
| Allocators.MemoryPoolAllocator.Resize | rapidjson-1.1.0/rapid_json/allocators.h:197-222 | Nothing shrinks, growing in place replaces one block, moving adds one, and failure changes none; when it fails and when it stays in place, exactly |
| Allocators.MemoryPoolAllocator.Clear | rapidjson-1.1.0/rapid_json/allocators.h:145-155 | No block is left, and only the user buffer, empty |
| Allocators.MemoryPoolAllocator.Capacity | rapidjson-1.1.0/rapid_json/allocators.h:158-163 | The sum of the capacities of all chunks |
| Allocators.MemoryPoolAllocator.Size | rapidjson-1.1.0/rapid_json/allocators.h:168-173 | The sum of all aligned grants since the last Clear |
| Allocators.AlignExact | rapidjson-1.1.0/rapid_json/rapidjson.h:271-277 | The least multiple of the word that is not below the size |
| FileStreams.FileReadStream.constructor | rapidjson-1.1.0/rapid_json/filereadstream.h:44-48 | The stream stands at the first byte of the file |
| FileStreams.FileReadStream.Read | rapidjson-1.1.0/rapid_json/filereadstream.h:66-82 | The cursor moves on by one and stays at the end of the file |
| FileStreams.FileReadStream.Cur | rapidjson-1.1.0/rapid_json/filereadstream.h:50 | Peek gives the byte of the file at the cursor, and NUL at the end |
| FileStreams.FileReadStream.Take | rapidjson-1.1.0/rapid_json/filereadstream.h:51 | The bytes of the file in order, then NUL for ever, Tell standing still at the length of the file |
| FileStreams.FileReadStream.Peek4 | rapidjson-1.1.0/rapid_json/filereadstream.h:61-63 | Four bytes if and only if the file has them and they do not reach the end of a block of the length of the buffer; they then are the next four of the file |
| FileStreams.TakenIsFile | rapidjson-1.1.0/rapid_json/filereadstream.h:51 | What n calls of Take deliver is the rest of the file followed by NULs |
| FileStreams.TakeAll | rapidjson-1.1.0/rapid_json/filereadstream.h:51 | Repeated Take delivers exactly that, for every buffer of four or more bytes |
| FileStreams.FileWriteStream.Put | rapidjson-1.1.0/rapid_json/filewritestream.h:40-45 | Bytes flushed plus bytes pending are everything put |
| FileStreams.FileWriteStream.PutN | rapidjson-1.1.0/rapid_json/filewritestream.h:47-61 | The same for n bytes at once; the loop terminates although its first round may write nothing |
| FileStreams.FileWriteStream.Flush | rapidjson-1.1.0/rapid_json/filewritestream.h:63-71 | Everything put is flushed |
| Bytes.DecimalCanonical | rapidjson-1.1.0/rapid_json/writer.h:281-315 | Canonical decimal printing: reading the numeral of n gives n, with no redundant leading zero |
| Bytes.NumeralCanonical | rapidjson-1.1.0/rapid_json/writer.h:281-315 | Every numeral without redundant leading zeros is the one printed for its value |
| PointerErrors.ErrorIsTrue | rapidjson-1.1.0/rapid_json/pointer.h:827-890 | The error of a text that is no pointer is true of it at its offset: no solidus first, a tilde without 0 or 1 behind it, a triplet of no UTF-8 character, or a character no fragment may hold |
| PointerErrors.PlainParses | rapidjson-1.1.0/rapid_json/pointer.h:817-922 | A text that is no URI fragment is a pointer if and only if it is empty or begins with a solidus, and 0 or 1 follows every tilde |
| Tables.TildeExact | rapidjson-1.1.0/rapid_json/pointer.h:870-887 | Tilde and solidus, and nothing else, are written ~0 and ~1 and read back so |
| Tables.UnreservedExact | rapidjson-1.1.0/rapid_json/pointer.h:790-792 | Exactly the unreserved characters of RFC 3986 section 2.3 need no percent encoding |
| Tables.TripletRead | rapidjson-1.1.0/rapid_json/pointer.h:991-1013 | A triplet stands for the byte of its two digits, in either case, the first one the higher |
| Tables.TripletWritten | rapidjson-1.1.0/rapid_json/pointer.h:1028-1035 | A byte is percent encoded in two upper-case digits, the higher one first |
| Tables.PrintedInFragment | rapidjson-1.1.0/rapid_json/pointer.h:930-975 | A pointer printed as URI fragment begins with # and holds otherwise only unreserved characters, solidi and triplets |
| Tables.ParsedInFragment | rapidjson-1.1.0/rapid_json/pointer.h:843-868 | A text in fragment form with any other character is refused |
| Places.InvalidValueIsFound | rapidjson-1.1.0/rapid_json/schema.h:1647-1652 | The path left by a run that fails, parsed as a pointer and looked up in the document, finds the value at which it failed |
| Tables.ShortWritten | rapidjson-1.1.0/rapid_json/writer.h:344-384 | A byte with a letter of its own, from the table written out, is written as backslash and letter |
| Tables.OtherWritten | rapidjson-1.1.0/rapid_json/writer.h:344-384 | Other control characters are written as u00 and two upper-case digits, all other bytes as they are |
| Tables.UnitWritten | rapidjson-1.1.0/rapid_json/writer.h:375-392 | A code unit is written in four upper-case digits that spell it |
| Utf8.EncodeOrdered | rapidjson-1.1.0/rapid_json/encodings.h:102-122 | The encoding keeps order: a smaller code point has the smaller bytes |

## Left out

- Reader.GenericReader.ParseNumber: the value of a double is not computed; which numbers become doubles, where they end and which are refused is modelled. internal/strtod.h is not part of this model.
- Reader.GenericReader.ParseFractionDigits, Reader.GenericReader.ParseExponent: `expFrac`, `exp` and `308 - expFrac` are unbounded here; as `int` they wrap for fractions of about 2^31 digits.
- Completeness.NumericRead: for integer parts of 309 digits within the band of `Rounding.Band` the verdict is that of the arithmetic, which is a parameter.
- The grammar is over bytes: a string may hold any bytes from 20 hexadecimal on. That JSON texts are UTF-8 (RFC 8259 section 8.1) is a condition of its own (`Encodings.ValidatingAccepts`).
- Reader.GenericReader.Parse: what a failed in-situ run has already written before the error into the text of the unfinished string is not stated, only that unread text and delivered strings are unaltered.
- Reader.GenericReader.Transit: the stack of states and counts is passed as a value, not as bytes in the storage it shares with decoded strings.
- SchemaTheorems.ParsedTextIsValidated: handlers that refuse an event, and with them kParseErrorTermination and its offsets, are not modelled in the readers; the handler accepts everything, and the effect of stopping early is stated on the log.
- Diagnosis.ErrorIsTrue: with kParseNanAndInfFlag, says of the errors of numbers only that a value was due; `Lenient.NanOrInfExact` has the words.
- GetInvalidSchemaPointer: schemas have no paths here.
- Texts of 2^32 bytes and more, member and element counts included: counts do not wrap in the model. `Sized` says so in the schema theorems.
- Writers.Writer.Scalar: doubles and maxDecimalPlaces are missing, because internal/dtoa.h is not part of this model; integers are printed as canonical numerals, which stands for internal/itoa.h.
- kWriteValidateEncodingFlag, RawValue, and targets other than UTF-8 and ASCII.
- UTF-16 and UTF-32, and Transcoder between them: strings here are UTF-8 bytes.
- SchemaMeaning.CompiledAccepts: schemas are given as their keywords. Reading them out of a JSON value, where ill-typed keywords are ignored, is not modelled; repeated names in properties or dependencies are excluded by `WellFormed`.
- SchemaTheorems.StreamingMeetsDocument: without patternProperties, pattern, enum, uniqueItems, minLength, maxLength and $ref, and without doubles in the value or in numeric keywords.
- SchemaValidator.GenericSchemaValidator.FeedParallel: parallel validators are values of the state machine, not objects of the class, so sharing of their memory is not modelled.
- SchemaValidator.GenericSchemaValidator.Value: excludes double events, whose limits and multipleOf are compared as doubles; the output handler accepts everything.
- Writing, document and validator methods called with ill-nested events: the assertions that exclude them are preconditions.
- Schemas.NumberCheckExact: for INT64_MIN and multipleOf, takes the absolute value to be 2^63. The code negates a signed number there, which C++ leaves undefined and two's complement wrapping followed by the cast to unsigned makes 2^63.
- Equality.StreamedHash: the bytes of a hashed number include its double, which is a parameter, equal for equal numbers. Collisions are not excluded, so equal codes do not imply equal values.
- Equality.EqualIsMeaning: not for repeated member names, which have their own results in `Repeats`, nor integers of 2^63 and more, where it is false, nor doubles.
- Equality.Compare: compares doubles by their characters, because their values are not modelled.
- Pointers.IndexExact: says nothing about numerals of 2^32 and more beyond the fact that their index is wrong.
- PointerTree.CreateExisting, GetAfterSet, SetReplaces, EraseExact: trees are values, so references into the tree, capacity and growth of member and element storage (AddMember, PushBack, Reserve) and reuse of moved-from values are not modelled. Names in the name buffer are NUL-terminated, as Parse leaves them. Arrays are padded with nulls up to the index as in the code, without a limit of memory.
- Pointer.GenericPointer.ReadToken: bytes written to the name buffer before an error are not described; the code gives the buffer up as well.
- Allocators.MemoryPoolAllocator.Malloc: the base allocator is a parameter whose answer is null or an aligned chunk apart from the others (only a user buffer may be unaligned); sums of sizes do not overflow.
- Allocators.MemoryPoolAllocator.Clear: chunks are dropped; freeing them is the business of the base allocator.
- FileStreams.FileReadStream.constructor: the file is a sequence of bytes, and fread is short only at its end.
- FileStreams.FileWriteStream.Flush: fwrite writes everything; the code ignores short writes too.
- SIMD variants of the blank and string scans, encodedstream.h, memory and iostream wrappers, move semantics, short-string layout, and everything outside of rapidjson-1.1.0.
