# Verified model of the pothole server's C core

The C server of this repository rests on five pieces of logic: the vendored cJSON library, a thread pool, a
calendar difference, a filter by days, and the array of polled descriptors. This project models them in Dafny in
the form the C code has (classes with fields and arrays that methods change, loops, pointer surgery, a step
system for the threads) and proves what they are for.

## What is proved

**Strings and numbers.** `Utf16`, `StringLiteral`, `StringParser` and `Decimal` cover escaping, the `\u` converter
and `%d` numbers. The counting pass of the string parser always allocates enough, whatever the input, although the
two passes split malformed escapes differently; the decoder passes the closing quote by one byte at most.
`EscapeTables` fixes the escapes against tables, reads groups in any mixture of cases back, and proves a printed string
to be the shortest text of the grammar for its bytes. `DecimalValue` says what a numeral is read as in whole numbers:
the value times, or over, a power of ten is the number that the digits write.

**Parser and printer.** `ParseBuffer` is the recursive-descent parser over an offset and a depth; it fills items,
links them and frees them again on failure. `PrintBuffer` and `Printer` are the printer that walks the item tree
and writes into a growing buffer. `ParseSpec` and `Rendering` are the functions they refine. `Allocation` accounts for
the blocks of all of them: a failed parse leaves nothing allocated, a parsed tree owns exactly what is left, and
printing leaves the printed block only. `EndToEnd` puts the operations on the heap together.

**Grammar.** `StringGrammar`, `NumeralGrammar` and `Grammar` define the texts of RFC 8259, with any blanks and any
escapes, and the values they write, without reference to the parser. `StringDecoding` and `GrammarParse` prove which
of them the parser accepts: exactly those nested at most 1000 deep, with paired surrogates and numerals of at most 63
characters. `ParsedValue` adds when it gets the value right: exactly if no string or name has an escaped NUL as well.
`RoundTrip` derives from the grammar that parsing undoes printing. `Accepted` starts from the other end: whatever text
was accepted, printing its tree and parsing again gives the same tree. `Documents` spells documents out byte by byte,
with what is read of them or where reading fails, and has the nesting limit for any number of brackets.

**The language of the parser.** The parser takes more than RFC 8259. `LaxGrammar` defines what: any byte up to a space
is a blank, a string may hold control bytes and groups of any four bytes, a numeral is what `strtod` takes.
`LaxStrings`, `LaxParse` and `LaxAccepted` prove that a text is accepted exactly if it is in that language, with the
meaning it has there.

**Minifier.** `Minify` proves the in-place minifier equal to a filter of the text, which is idempotent.
`MinifyPrinted` settles when minifying the formatted print gives the unformatted one: not always, because
`minify_string` looks one byte past a backslash only, and the exact condition is given. `MinifyGrammar` proves that any
document of the grammar keeps its meaning if none of its strings ends in an escaped backslash, and that comments
anywhere between its tokens are dropped with the blanks.

**Item trees.** `SiblingList`, `TreeBuilding`, `Duplicate`, `HeapCompare` and `Delete` prove the pointer surgery
against plain operations on sequences, copies that share nothing, the comparison of trees (`CompareSpec` says
exactly which trees compare equal), and deletion that frees every owned block once and nothing else.

**Thread pool.** `ThreadPool` is a labelled step system with any number of workers and producers, arbitrary
interleaving and spurious wake-ups. `PoolRuns` proves over all runs: mutual exclusion, no lost wake-up, first in
first out, no task lost or run twice, an exact executing counter, no deadlock, and that every task is finished: the
length of a run is bounded by the work to do and the number of new tasks and spurious wake-ups. `PoolWork` accounts
for every task from the moment a producer is given it, and proves that any tasks have a run that finishes them.
`TaskQueue` ties the queue steps to the array with its shifting loop.

**Dates and descriptors.** `Calendar` proves the borrow arithmetic against Gregorian day numbers and gives the
exact condition under which the fourteen-day filter is right. `PollArray` proves the in-place compaction to be the
stable filter, the bound of 200 descriptors over any sequence of events, and that without hang-ups no connection is
lost as long as nothing is compacted while a worker is at work.

## How the C code is rendered

- A byte is an integer from 0 to 255 and a C string a sequence of non-zero bytes (`Bytes`). Pointers into buffers
  are offsets. Bit operations on code points and bytes are written as the arithmetic they amount to.
- `valuedouble` is a real number, so the theorems on printing and comparing are about integers that fit an `int`,
  the `"%d"` branch of `print_number`. `valueint` is a function of `valuedouble`.
- The type bits `cJSON_IsReference` and `cJSON_StringIsConst` are fields of their own.
- Library routines (`strtod`, `atoi`, `sprintf("%d")`, `strcmp`, `tolower`, `realloc`) are functions or short
  methods written from their specifications; `tolower` is that of the C locale.
- Ghost parameters (`h`, `ks`, `used`, `made`, `xs`, `k`) name the tree or list a pointer stands for, and a set
  of nodes that holds it. They carry no information the code would use.
- Loop bodies and branches of long C functions are methods of their own where a proof is then shorter.
- In `ThreadPool` the body of a critical section is one step; `PoolRuns.MutualExclusion` is what justifies it.
  The increment of `num_threads_executing` is split into its read and its write.

## Where the code does not do what one would expect

- Minifying a formatted print is not always the unformatted print: `MinifyPrinted.MinifyPrintedExactly` has the
  exact condition, `MinifyPrinted.MinifyFailsOnTrailingBackslash` a witness.
- `add_item_to_array` leaves `item->next` alone when the list is not empty, so the result is a list exactly if the
  item is not in the list already and its `next` is NULL (`SiblingList.AddItemToArray`). The tail of the list itself
  passes a test of its `next` only, and comes to follow itself (`SiblingList.AppendTailAgain`).
- `cJSON_Compare` looks every key up by its first match, so a tree with repeated keys need not compare equal to a copy
  of itself, although it does to itself, by the shortcut for identical pointers. `CompareSpec.CompareDecides` has the
  exact condition, `EndToEnd.RepeatedKeyParses` a text that yields such a tree.
- Texts of the grammar are refused if a surrogate is unpaired (`ParsedValue.LoneSurrogateIsRefused`), and a numeral is
  cut behind 63 characters. After that the parser finds a part of the numeral where the value should have ended, so the
  text is refused; but a numeral that is the whole document passes as its first part, unless the caller asks for the
  end of the text (`ParsedValue.LongNumeralIsCut`). `GrammarParse.ParseGrammaticalText` has the exact condition.
- A `\u0000` ends the C string it is read into (`ParsedValue.EscapedNulCuts`); `ParsedValue.ParsedValueExactly` has the
  exact condition under which a document is read for its value.
- A string that ends in an escaped backslash can make the minifier drop a blank of a later string
  (`MinifyGrammar.FinalBackslashMatters`, for each such string).
- `valid_date` accepts days below 1, and with them the fourteen-day filter can be wrong in both directions:
  `Calendar.FilterExactly`, `Calendar.NegativeDayPasses`, `Calendar.NegativeDayMisses`.
- `substr` returns a pointer in front of its block when the text is too short (`Calendar.Substr`), as that of a date
  without leading zeros is (`Calendar.ShortDatePointsInFront`).
- The preallocated printer needs two bytes more than the text, not one (`Printer.PrintPreallocated`,
  `Printer.TightBufferFails`).
- Compaction moves `fd` only; `events` and `revents` stay with the slot (`PollArray.PollSet.Compact`).
- A hang-up compacts at once, also while workers are at work. A worker's slot is gone then, and one descriptor less is
  polled afterwards (`PollArray.HangupUnderWorker`).
- Where the key of a member is missing, the position that is reported is one behind the faulty byte
  (`Documents.ObjectFails`).

## Model

| member | source | states |
|---|---|---|
| Utf16.ParseHex4 | Server/cJSON/cJSON.c:615-648 | four digits of either case give their value, anything else gives zero |
| Utf16.Utf16LiteralToUtf8 | Server/cJSON/cJSON.c:652-770 | accepts exactly the literals that denote a code point, stores its UTF-8 form behind what was stored before, and says how many bytes were read and written |
| Utf16.StoreUtf8 | Server/cJSON/cJSON.c:697-756 | the loop that writes continuation bytes from the back yields the UTF-8 form and touches nothing in front of it |
| Utf16.Utf8IsShortestForm | Server/cJSON/cJSON.c:697-756 | for any code point up to 0x10FFFF: what is written decodes to it in UTF-8, in its shortest form, except for surrogates, which section 3 of RFC 3629 forbids |
| Utf16.LiteralReadsBack | Server/cJSON/cJSON.c:652-694 | every scalar value, written as its one or two groups by the rule of section 2.1 of RFC 2781, is read back |
| Utf16.LiteralAcceptance | Server/cJSON/cJSON.c:652-694 | groups with valid digits are refused exactly for an unpaired surrogate, and otherwise mean what section 2.2 of RFC 2781 says, in at most 4 bytes |
| EscapeTables.HexTable | Server/cJSON/cJSON.c:615-648 | the k-th of `0123456789ABCDEF`, and of `0123456789abcdef`, is a digit worth k |
| EscapeTables.HexDigitsAreThese | Server/cJSON/cJSON.c:615-648 | and no other byte is a digit |
| EscapeTables.OtherGroupIsZero | Server/cJSON/cJSON.c:636-639 | four bytes that are not all digits count as zero |
| EscapeTables.OtherGroupIsRead | Server/cJSON/cJSON.c:652-770 | so the string `"\uzzzz"` is read as the empty one |
| EscapeTables.SpelledReadsBack | Server/cJSON/cJSON.c:652-694 | every scalar value, written in groups whose digits are in any mixture of cases, is read back |
| EscapeTables.UpperCaseIsRead | Server/cJSON/cJSON.c:652-770 | the document `"\u00E9"` is read as the bytes C3 A9 |
| EscapeTables.KnownCodePoints | Server/cJSON/cJSON.c:697-756 | the bytes of a code point of each length |
| StringDecoding.ParseStringUndoesQuoted | Server/cJSON/cJSON.c:773-899 | parsing the printed form of any NUL-free text gives back the text and stops right behind the closing quote |
| StringDecoding.DecodeEscaped | Server/cJSON/cJSON.c:902-1021 | escaping then unescaping is the identity, inside any surrounding text |
| StringDecoding.ParseStringText | Server/cJSON/cJSON.c:773-899 | every string of the grammar, with any mixture of plain bytes, short escapes and `\u` groups, is accepted exactly if its surrogates are paired, as the C string that its bytes show, and ends behind its quote |
| StringDecoding.DecodeCharacters | Server/cJSON/cJSON.c:815-880 | the decoder on a sequence of characters of the grammar gives their value, inside any surrounding text, exactly if the surrogates are paired |
| StringLiteral.EscapeNothing | Server/cJSON/cJSON.c:960-970 | the fast path is right: where the counting pass finds nothing to add, the text is its own escaped form |
| EscapeTables.EscapeTable | Server/cJSON/cJSON.c:929-1018 | every byte from 32 on but the quote and the backslash is printed as itself, those two and five control characters with their letters, the others as a group |
| EscapeTables.EscapeIsShortest | Server/cJSON/cJSON.c:902-1021 | the printed text is the shortest of the grammar for its bytes |
| EscapeTables.SlashIsPrinted | Server/cJSON/cJSON.c:960-970 | the string `1/2` is printed as it is |
| EscapeTables.UnescapeTable | Server/cJSON/cJSON.c:836-864 | the letters that may follow a backslash, and what they stand for |
| StringLiteral.SkippedWindow | Server/cJSON/cJSON.c:787-813 | over any window the counting pass skips at most every second byte, wherever the window lies relative to the escapes |
| StringParser.ScanLiteral | Server/cJSON/cJSON.c:787-809 | the first pass finds the closing quote if there is one, counts the escapes on the way, and stays in the buffer |
| StringParser.DecodeLiteral | Server/cJSON/cJSON.c:811-899 | the second pass fits the size of the first for every input, ends at the quote or one byte past it, and yields the decoded bytes or the position of the bad escape |
| StringParser.BudgetGrows | Server/cJSON/cJSON.c:811-813 | every step of the decoder earns at least the room for the bytes it stores |
| StringDecoding.BlockForLiteral | Server/cJSON/cJSON.c:787-813 | the block for a string of the grammar has a byte for each byte between its quotes, less one for each escape, and two more |
| Decimal.StrtodUndoesIntText | Server/cJSON/cJSON.c:305-379 | reading a printed integer gives back the integer and uses all its digits |
| Decimal.IntTextLength | Server/cJSON/cJSON.c:545-612 | a printed `int` has at most 11 characters, so it fits the 26 bytes it is printed into and the 63 that the number parser copies |
| DecimalValue.IntIsPrinted | Server/cJSON/cJSON.c:566-569 | the digits of two integers and of zero |
| LaxStrings.ParseLaxString | Server/cJSON/cJSON.c:773-899 | every literal of the lax grammar is accepted for its value: control bytes, groups of any four bytes, and a last escape that takes the closing quote for its letter |
| LaxStrings.ExtractString | Server/cJSON/cJSON.c:773-899 | whatever literal is accepted is one of the lax grammar, with that value |
| NumeralGrammar.StrtodOfNumeral | Server/cJSON/cJSON.c:305-379 | every numeral of the grammar, with sign, fraction and exponent, is read to its last character and has its decimal value |
| DecimalValue.ReadsDecimal | Server/cJSON/cJSON.c:305-379 | for every numeral of the grammar: the magnitude that is read, times the power of ten that the fraction and a negative exponent leave, is the number its digits write, or is that number times the power of a positive exponent |
| DecimalValue.DigitsFromTheLeft | Server/cJSON/cJSON.c:353 | the number that digits write counts each by its power of ten |
| DecimalValue.FractionIsRead | Server/cJSON/cJSON.c:305-379 | the document `45.25` is read as 45.25 |
| DecimalValue.NegativeExponentIsRead | Server/cJSON/cJSON.c:305-379 | the document `-12E-2` is read as -0.12 |
| DecimalValue.ExponentIsRead | Server/cJSON/cJSON.c:305-379 | the document `7e+3` is read as 7000 |
| DecimalValue.NumeralsInFront | Server/cJSON/cJSON.c:353 | of `1e+` and `1-2` the number in front is read |
| DecimalValue.UnusualNumerals | Server/cJSON/cJSON.c:353 | `-.5` and `007` are read whole |
| DecimalValue.PointInFront | Server/cJSON/cJSON.c:353 | of `1..` the first point is taken |
| DecimalValue.NoNumerals | Server/cJSON/cJSON.c:353-357 | nothing is read of `-`, `.` and `e1` |
| JsonTree.Int32Meaning | Server/cJSON/cJSON.c:559-569 | the guard of the `%d` branch holds exactly of the integers that fit an `int` |
| JsonTree.ValueIntMeaning | Server/cJSON/cJSON.c:361-373 | `valueint` is the number without its fraction, or the nearest `int` to one beyond |
| JsonTree.FillNullsIdentity | Server/cJSON/cJSON.c:912-923 | making NULL strings empty, as printing does, changes a tree exactly when it has one |
| ParseBuffer.Buffer.SkipWhitespace | Server/cJSON/cJSON.c:1038-1061 | moves to the first byte above 32 and, at the end of the buffer, back onto its last byte |
| ParseBuffer.Buffer.SkipUtf8Bom | Server/cJSON/cJSON.c:1064-1077 | skips a byte order mark if more than one byte follows it |
| ParseBuffer.Buffer.ParseString | Server/cJSON/cJSON.c:773-899 | gives the item the decoded text in a new block, or leaves the item without one, the offset at the error and the decoder's block freed |
| ParseBuffer.Buffer.ParseNumber | Server/cJSON/cJSON.c:305-379 | gives the item the value of at most 63 number characters and moves behind the part that was used |
| ParseBuffer.Buffer.ParseValue | Server/cJSON/cJSON.c:1312-1364 | on every terminated buffer: succeeds exactly when the grammar function does, then the item roots a well-linked tree of new nodes for its value and all new blocks are the tree's own; on failure nothing new is left; depth is restored on success and never exceeds 1000 |
| ParseBuffer.Buffer.ParseArray | Server/cJSON/cJSON.c:1441-1536 | the same for arrays, with the head's `prev` closed on the tail, and the nesting limit |
| ParseBuffer.Buffer.ParseItem | Server/cJSON/cJSON.c:1476-1506 | one round of the loop appends one tree to the list, or hands over a list that can be deleted whole |
| ParseBuffer.Buffer.ParseObject | Server/cJSON/cJSON.c:1601-1711 | the same for objects |
| ParseBuffer.Buffer.ParseMember | Server/cJSON/cJSON.c:1653-1677 | the key's block becomes the item's name, and the value is parsed into the same item |
| ParseBuffer.Parse | Server/cJSON/cJSON.c:1079-1172 | a document yields a new, detached, disjoint tree for its value with exactly its own blocks allocated, or NULL with nothing allocated; the reported end or error position lies in the text |
| GrammarParse.ParseGrammaticalText | Server/cJSON/cJSON.c:1079-1711 | a document of the grammar with blanks around it is accepted exactly if it nests at most 1000 deep, pairs its surrogates and has numerals of at most 63 characters, with its tree and its end; the one case besides is a longer numeral alone whose end is not asked for, which is read as `strtod` reads its first 63 characters |
| GrammarParse.ParseText | Server/cJSON/cJSON.c:1312-1711 | the same for a value at any depth, inside any text that goes on with no number character |
| ParsedValue.StringMeaningExactly | Server/cJSON/cJSON.c:773-899 | the C string a literal is read into holds all bytes of its value exactly if it has no escaped NUL |
| ParsedValue.ParsedValueExactly | Server/cJSON/cJSON.c:1079-1711 | a document is read to its end and for the value it writes if and only if it nests at most 1000 deep, pairs its surrogates, has numerals of at most 63 characters and no escaped NUL |
| ParsedValue.EscapedNulCuts | Server/cJSON/cJSON.c:773-899 | a document that is accepted for a shorter string than it writes |
| ParsedValue.LoneSurrogateIsRefused | Server/cJSON/cJSON.c:652-694 | a document of the grammar that is refused |
| ParsedValue.LongNumeralIsCut | Server/cJSON/cJSON.c:305-379 | 64 ones are read as 63 ones, or refused if the end is asked for |
| Documents.NestingIsLimited | Server/cJSON/cJSON.c:1446-1449 | for every n: n pairs of brackets are read as n nested arrays up to n = 1000, and else refused at the bracket behind the first thousand |
| Documents.ArrayIsRead | Server/cJSON/cJSON.c:1441-1536 | a literal array with all four blanks |
| Documents.ObjectIsRead | Server/cJSON/cJSON.c:1601-1711 | a literal object with empty containers, and a byte behind it at which reading fails if the end is asked for |
| Documents.WordsAreRead | Server/cJSON/cJSON.c:1320-1341 | the documents `null`, `true` and `false` |
| Documents.MarkIsSkipped | Server/cJSON/cJSON.c:1064-1077 | a byte order mark is skipped in front of a digit, and refused alone |
| Documents.ArrayFails | Server/cJSON/cJSON.c:1441-1536 | the positions reported for a missing comma, a missing value and a byte that begins none |
| Documents.MemberFails | Server/cJSON/cJSON.c:1653-1677 | and for a missing colon and a bad value behind one |
| Documents.ObjectFails | Server/cJSON/cJSON.c:1601-1711 | and for a missing comma and, one byte late, a missing key |
| Documents.StringFails | Server/cJSON/cJSON.c:773-899 | and for a string without end and an unknown escape |
| Documents.LoneSurrogateFails | Server/cJSON/cJSON.c:866-873 | and for an unpaired surrogate |
| Documents.WordFails | Server/cJSON/cJSON.c:1079-1172 | and for the empty text, a cut keyword and a sign alone |
| LaxAccepted.AcceptedExactly | Server/cJSON/cJSON.c:1079-1711 | the language of the parser: a text is accepted if and only if it begins with a value of the lax grammar nested at most 1000 deep and, where the end is asked for, has only blanks behind it; the tree is the meaning of every way to write the text so in which the value cannot go on |
| LaxAccepted.NumberReadExactly | Server/cJSON/cJSON.c:305-379 | what is read of a text that begins like a number if its end is not asked for: what `strtod` takes of the first 63 characters that could belong to a number, or nothing |
| Accepted.AcceptedFits | Server/cJSON/cJSON.c:1312-1711 | whatever is accepted, of any text, nests within what is left of the limit and has no NULL string |
| Accepted.ReprintedTextParses | Server/cJSON/cJSON.c:1079-1249 | for every accepted text whose numbers fit an `int`: printing its tree in either format and parsing that gives the same tree |
| RoundTrip.ParseUndoesPrint | Server/cJSON/cJSON.c:1312-1825 | in both formats a printed tree is accepted if and only if its nesting is at most 1000; the result is the tree (NULL strings made empty) and the end is exactly the end of the text |
| RoundTrip.ParseRenderedValue | Server/cJSON/cJSON.c:1312-1364 | the same for a value inside any text, at any depth and indentation |
| PrintBuffer.Output.Ensure | Server/cJSON/cJSON.c:439-522 | succeeds exactly when the request fits the preallocated length or `INT_MAX`; growing keeps the text, with or without a realloc hook, frees the old block and takes one of twice the size needed, or of `INT_MAX` |
| PrintBuffer.Output.UpdateOffset | Server/cJSON/cJSON.c:525-535 | repairs a lagging offset: it then is the length of the text, and a NUL stands there |
| PrintBuffer.Output.PrintNumber | Server/cJSON/cJSON.c:545-612 | appends the decimal text and, unlike the others, moves the offset itself |
| PrintBuffer.Output.PrintString | Server/cJSON/cJSON.c:902-1021 | appends the quoted escaped text on both paths, fails exactly when it and two bytes more do not fit, and leaves the offset |
| PrintBuffer.CountEscapes | Server/cJSON/cJSON.c:925-951 | the counted length is exactly that of the escaped text |
| Printer.PrintValue | Server/cJSON/cJSON.c:1367-1438 | walks the item tree and appends the rendering of its value to the text in front of the offset; fails exactly for NULL or when the rendering and two bytes more do not fit; depth is restored |
| Printer.PrintArray | Server/cJSON/cJSON.c:1539-1598 | the same for the children as an array |
| Printer.PrintObject | Server/cJSON/cJSON.c:1714-1825 | the same for the children as an object, with tabs, keys and line ends if formatted |
| Rendering.ArrayLayout | Server/cJSON/cJSON.c:1539-1598 | arrays on one line, with a comma, and a space if formatted, between any two values |
| Rendering.StringLayout | Server/cJSON/cJSON.c:912-923 | NULL is printed as the empty literal |
| Rendering.MemberLayout | Server/cJSON/cJSON.c:1737-1784 | a member with its tabs, colon and tab |
| Rendering.ObjectLayout | Server/cJSON/cJSON.c:1714-1825 | any two members on lines of their own, and the closing brace, byte by byte |
| Printer.Print | Server/cJSON/cJSON.c:1187-1249 | the result is a new block of exactly the text and its NUL, and no other block is left allocated, on failure none |
| Printer.PrintBuffered | Server/cJSON/cJSON.c:1262-1290 | the same text at the start of a block that may be longer, for any initial size, with the same account of blocks |
| Printer.PrintPreallocated | Server/cJSON/cJSON.c:1292-1309 | succeeds exactly when the given buffer exceeds the text by two bytes, never leaves it and allocates nothing |
| Printer.TightBufferFails | Server/cJSON/cJSON.c:1292-1309 | a buffer that would just hold a text and its NUL is not enough |
| EndToEnd.PrintThenParse | Server/cJSON/cJSON.c:1079-1249 | on the heap: what comes back is a new tree, disjoint from the source, for the same value, exactly when the text fits and the nesting is within the limit; otherwise nothing is left allocated |
| EndToEnd.PrintThenParseThenCompare | Server/cJSON/cJSON.c:1079-1249 | and it compares equal to its source exactly when the source compares equal to itself |
| EndToEnd.ParseThenDelete | Server/cJSON/cJSON.c:253-274 | deleting takes back exactly what parsing any text has allocated |
| Minify.MinifyInPlace | Server/cJSON/cJSON.c:2838-2884 | the write position never passes the read position, and the buffer ends up as the filter of the original text |
| Minify.MinifyString | Server/cJSON/cJSON.c:2816-2836 | copies a string up to the quote that no single backslash precedes |
| Minify.MinifyTwice | Server/cJSON/cJSON.c:2789-2884 | minifying twice is minifying once, for every text, well-formed or not |
| Minify.LineCommentGoes | Server/cJSON/cJSON.c:2789-2799 | for any text without a line feed: a line comment with it is dropped with its line feed, and without one up to the end |
| Minify.BlockCommentGoes | Server/cJSON/cJSON.c:2801-2814 | for any text without a star in front of a slash: a block comment with it is dropped, and without an end up to the end of the text |
| Minify.OutsideByte | Server/cJSON/cJSON.c:2846-2880 | outside strings and comments the four blanks and single slashes are dropped and every other byte but a quote is kept |
| MinifyPrinted.MinifyPrintedExactly | Server/cJSON/cJSON.c:2789-2884 | minifying the formatted print gives the unformatted print if and only if no string or key ends in a backslash, save possibly the very last value inside arrays only |
| MinifyGrammar.MinifyKeepsMeaning | Server/cJSON/cJSON.c:2789-2884 | any document of the grammar without a string or name that ends in an escaped backslash is minified to its tokens without the blanks, and parses to the same tree or is refused as before |
| MinifyGrammar.MinifyDropsComments | Server/cJSON/cJSON.c:2789-2884 | with any line and block comments among the blanks the text is minified to the same tokens, and these parse to the tree of the document |
| MinifyGrammar.FinalBackslashMatters | Server/cJSON/cJSON.c:2816-2836 | for every string: in an array in front of the string "a b" it is harmless to minifying if and only if it does not end so |
| MinifyPrinted.MinifyFailsOnTrailingBackslash | Server/cJSON/cJSON.c:2816-2836 | a concrete tree on which it does not |
| SiblingList.GetArrayItem | Server/cJSON/cJSON.c:1851-1868 | the child at the index, or NULL |
| SiblingList.AddItemToArray | Server/cJSON/cJSON.c:1956-1987 | for any item: the children are the old ones followed by it exactly when the list was empty or the item is not in it and has a NULL `next`; otherwise the tail's successor is not NULL and the children are no list |
| SiblingList.AppendTwo | Server/cJSON/cJSON.c:1956-1987 | the six pointers of an array to which two items were appended |
| SiblingList.InsertItemInArray | Server/cJSON/cJSON.c:2263-2290 | for any item: the children are the old ones with the item at the index exactly when it is neither one of them nor the parent; behind the end it is appended, under the condition of appending, and NULL is refused |
| SiblingList.DetachItemViaPointer | Server/cJSON/cJSON.c:2187-2221 | the children become the old ones without the item, which is cut loose, at every position |
| SiblingList.ReplaceItemViaPointer | Server/cJSON/cJSON.c:2292-2334 | for any replacement: the children are the old ones with it in place of the item exactly when it is the item, or neither another child nor the parent |
| SiblingList.AppendTailAgain | Server/cJSON/cJSON.c:1956-1987 | appending the tail once more makes it follow itself, although its `next` was NULL |
| SiblingList.OpenEndedIsNoList | Server/cJSON/cJSON.c:1974-1984 | when the tail's `next` is not NULL, no sequence of nodes is the list of children |
| SiblingList.LinksDetermineList | Server/cJSON/cJSON.c:1956-1987 | the links form one sequence of nodes only, so the statements about sequences say everything |
| SiblingList.InsertThenDetach | Server/cJSON/cJSON.c:2187-2290 | inserting at any index and detaching again, or appending a loose item and detaching it, leaves the children as they were, and the item loose |
| SiblingList.DetachThenInsert | Server/cJSON/cJSON.c:2187-2290 | detaching the child at any index and inserting it there again leaves the children as they were |
| TreeBuilding.LinkLast | Server/cJSON/cJSON.c:1485-1497 | hanging an item on an open chain gives the longer open chain |
| TreeBuilding.CloseList | Server/cJSON/cJSON.c:1515-1521 | closing the head's `prev` makes the open chain a tree's list of children |
| Duplicate.CJSONDuplicate | Server/cJSON/cJSON.c:2706-2787 | a recursive copy consists of new nodes only, owns new blocks only and each once, is a well-linked tree and has the value and name of its source; a flat copy has the source's own fields; nothing else is left allocated |
| EndToEnd.DuplicateThenCompare | Server/cJSON/cJSON.c:2706-2787 | the copy shares no node with the source and compares equal to it exactly when the source compares equal to itself |
| HeapCompare.CaseInsensitiveStrcmp | Server/cJSON/cJSON.c:133-154 | zero exactly for two texts that agree up to the case of letters |
| HeapCompare.GetObjectItem | Server/cJSON/cJSON.c:1880-1910 | the first member with the key; a case-sensitive search gives up at a member without a name, the other passes over it |
| HeapCompare.CJSONCompare | Server/cJSON/cJSON.c:2986-3109 | the answer is that of the comparison of values; on trees that share nodes it is still equality of meanings where both are consistent |
| CompareSpec.CompareDecides | Server/cJSON/cJSON.c:2986-3109 | two trees compare equal if and only if both are consistent and they mean the same, arrays as sequences and objects as maps |
| CompareSpec.CompareIsEquivalence | Server/cJSON/cJSON.c:2986-3109 | comparison of trees that share no node is symmetric and transitive, and a tree compares equal to its copy exactly if it is consistent |
| CompareSpec.RepeatedKeyDiffers | Server/cJSON/cJSON.c:3055-3100 | an object with a repeated key that does not compare equal to its copy |
| EndToEnd.RepeatedKeyParses | Server/cJSON/cJSON.c:1601-1711 | that object is what the parser makes of a text |
| CompareSpec.DistinctKeysAreConsistent | Server/cJSON/cJSON.c:2986-3109 | trees with distinct keys and no NULL strings are consistent |
| CompareSpec.FindIsFirst | Server/cJSON/cJSON.c:1880-1910 | what is found is the first member with the key, which is the one that counts in the object's map; nothing is found only if no member has the key, or a case-sensitive search meets a member without a name first |
| CompareSpec.NamelessMember | Server/cJSON/cJSON.c:1880-1910 | in front of any members: at one without a name a case-sensitive search ends with nothing, the other goes on |
| CompareSpec.CompareDoubleIsEquality | Server/cJSON/cJSON.c:538-542 | on integers that fit an `int` the tolerance never matters |
| CompareSpec.OneStepIsTolerated | Server/cJSON/cJSON.c:538-542 | the double next to 1 passes for it, the one after that does not, and nothing passes for zero |
| CompareSpec.FoldMeaning | Server/cJSON/cJSON.c:133-154 | keys are one exactly if they differ in capitals only, or for a case-sensitive comparison not at all |
| CompareSpec.MeanOfNoObjects | Server/cJSON/cJSON.c:2986-3053 | a tree without objects means the same as another exactly if they are equal |
| HeapCompare.TreeUnique | Server/cJSON/cJSON.c:2994-3009 | a node roots one tree only, so the shortcut for identical pointers is sound |
| Delete.CJSONDelete | Server/cJSON/cJSON.c:253-274 | frees exactly what the list owns, each block once, and reads no field of a freed block |
| Delete.ReferenceThenDelete | Server/cJSON/cJSON.c:253-274 | deleting a reference frees nothing of the item that it was made from |
| Delete.CreateReference | Server/cJSON/cJSON.c:1935-1954 | a new item with the fields of the other one, no name and no neighbours |
| Delete.DeleteItemFromArray | Server/cJSON/cJSON.c:2233-2236 | the other elements keep their order, trees, values and blocks, and no node is repeated; only the blocks of the deleted one are freed |
| Delete.ReplaceItem | Server/cJSON/cJSON.c:2292-2339 | the replacement's tree and value take the place of the item's, all other children keep theirs, no node is repeated, and exactly the old item's blocks are freed |
| PoolRuns.MutualExclusion | Server/thread-pool.c:13-65 | at any point of any run at most one thread is inside the sections of each mutex |
| PoolRuns.NoWakeUpIsLost | Server/thread-pool.c:13-53 | while a worker sleeps, pending signals and workers about to look cover every queued task; while a producer sleeps, the same for free slots |
| PoolRuns.FirstInFirstOut | Server/thread-pool.c:17-20 | tasks taken followed by tasks queued are the tasks added, in order; each added task is queued, in one worker's hand or finished; at most 1000 are queued |
| PoolRuns.RecordsGrow | Server/thread-pool.c:7-65 | along a run what has been taken, added and finished only grows |
| PoolRuns.CounterIsExact | Server/thread-pool.c:55-65 | `num_threads_executing` is the number of workers between the two counter sections and at most the number of workers |
| PoolRuns.NoDeadlock | Server/thread-pool.c:7-53 | no thread can move exactly when the queue is empty, all workers sleep and all producers are idle; then every task added has been finished |
| PoolRuns.EveryTaskIsFinished | Server/thread-pool.c:7-65 | from any point of any run on, the number of steps is at most a rank of the state plus 25 for each new task and spurious wake-up; where no thread can go on by itself, all tasks are finished |
| PoolWork.NoTaskIsLost | Server/thread-pool.c:7-65 | at every point of every run each task that a producer was given is with the producer, queued, in one worker's hand or finished |
| PoolWork.AnyWorkIsDone | Server/thread-pool.c:7-65 | for any numbers of workers and producers from 1 on and any tasks there is a run that adds, takes and finishes them in their order and ends where no thread can go on |
| PoolWork.AnyTime | Server/thread-pool.c:13-53 | sleepers may wake without a signal and idle producers may be given any task in every state |
| ThreadPool.NoTaskForgottenKept | Server/thread-pool.c:13-23 | every step of every thread keeps the account of wake-ups for tasks |
| ThreadPool.NoSlotForgottenKept | Server/thread-pool.c:44-53 | and that for free slots |
| ThreadPool.ConservedKept | Server/thread-pool.c:7-65 | every step keeps the order and the whereabouts of tasks |
| ThreadPool.CountedKept | Server/thread-pool.c:55-65 | every step keeps the counter exact, although it is read and written in two steps |
| TaskQueue.Queue.Take | Server/thread-pool.c:17-20 | the shifting loop removes the first task and keeps the order of the rest |
| TaskQueue.Queue.Put | Server/thread-pool.c:50 | appends a task inside the array |
| TaskQueue.Queue.TakeStep | Server/thread-pool.c:17-20 | the array operation is the queue step of the pool |
| TaskQueue.Queue.PutStep | Server/thread-pool.c:50 | the array operation is the queue step of a producer |
| Calendar.ValidDate | Server/utilities.c:46-103 | accepts exactly a year from 1800 to 9999, a month from 1 to 12 and a day up to the month's length |
| Calendar.ValidExactly | Server/utilities.c:46-103 | the valid dates by years, months and a table of twelve lengths |
| Calendar.YearStart | Server/utilities.c:54-56 | the months of the calendar add up to the Gregorian count of days |
| Calendar.Substr | Server/utilities.c:22-43 | the copy reaches to the end of the range or the first NUL, and the result points in front of the block by the number of missing characters, so at its start exactly when there is no NUL |
| Calendar.YearPointer | Server/utilities.c:113 | where the pointer to the year of a date of at least six characters lies |
| Calendar.ShortDatePointsInFront | Server/utilities.c:113 | that of a date written without leading zeros lies two bytes in front of its block |
| Calendar.DateDifference | Server/utilities.c:106-174 | going the years and months (0 to 11) on from the first date's month, and then to its day plus the days, lands exactly on the second date; whole months are counted up to the last that fits |
| Calendar.OneDifference | Server/utilities.c:106-174 | no other difference leads from the one date to the other |
| Calendar.SomeDifferences | Server/utilities.c:106-174 | two literal differences, one with a month too short to borrow from |
| Calendar.GetDateDifference | Server/utilities.c:106-174 | the same for two texts of at least ten characters; fails exactly for invalid dates |
| Calendar.ReadsBack | Server/utilities.c:111-117 | a date written as dd/mm/yyyy is read back |
| Calendar.DateIsRead | Server/utilities.c:111-117 | the text 31/12/2022 |
| Calendar.OddDateIsRead | Server/utilities.c:111-117 | a text with a blank, a sign and other separators |
| Calendar.AtoiIsRead | Server/utilities.c:111-117 | blanks, signs and other bytes in front of, among and behind digits |
| Calendar.FilterExactly | Server/logic.c:549-555 | the test for the last fourteen days is right if and only if neither of two cases with days below 1 occurs |
| Calendar.FilterIsWindow | Server/logic.c:549-555 | with days from 1 on, a pothole is reported if and only if today is 0 to 14 days after its date |
| Calendar.ReportsPothole | Server/logic.c:549-555 | the same from the two texts to the decision |
| Calendar.NegativeDayIsRead | Server/utilities.c:111-117 | a text is read as a valid date with day -3 |
| Calendar.NegativeDayPasses | Server/utilities.c:46-103 | a valid date three days before the first that passes the test |
| Calendar.NegativeDayMisses | Server/utilities.c:46-103 | a valid date nine days after the first that does not |
| PollArray.PollSet.Compact | Server/server.c:130-142 | neither -1 nor -2 is left, every other descriptor remains as often as it was there and in order, and nothing else moves; slots given up keep the last descriptor |
| PollArray.PollSet.HangUp | Server/server.c:170-183 | the same with the descriptor of the slot that hung up set to -1 first; its slot may lie behind those still polled |
| PollArray.PollSet.Accept | Server/server.c:193-236 | new descriptors are appended up to 200; the one that finds the array full is closed and ends the loop |
| PollArray.PollSet.Serve | Server/server.c:118-255 | any sequence of compactions, hang-ups, accepts and slot writes, in any slots of the array, stays inside the array and acts as on a sequence |
| PollArray.LiveCount | Server/server.c:130-142 | compaction keeps every descriptor in use as often as it occurs, and no other |
| PollArray.LiveOfLive | Server/server.c:130-142 | compacting again changes nothing |
| PollArray.LiveOnlyMarksGone | Server/server.c:130-142 | neither -1 nor -2 is left, every other descriptor occurs as often as before, and a strictly increasing map leads from the new slots to the old ones |
| PollArray.BothMarksGo | Server/server.c:130-142 | both marks leave a literal array |
| PollArray.OneEventEach | Server/server.c:118-255 | what each event does to a literal array |
| PollArray.NoConnectionIsLost | Server/server.c:127-252 | over any sequence of events without hang-ups, in which workers put back what they were given and compaction waits until none is at work, the descriptors in use or being served remain, in their order, and new ones come behind them |
| PollArray.HangupUnderWorker | Server/server.c:166-185 | for any array: a hang-up while a worker serves another slot leaves one descriptor less polled than one after the worker is done |
| PollArray.NeverTooMany | Server/server.c:223-234 | under any sequence of events at most 200 descriptors are polled |
| PollArray.ListenerStays | Server/server.c:103-105 | the listening socket stays in slot 0 unless it hangs up or the slot is overwritten |

## Left out

- Printing of numbers that are not 32-bit integers (`%1.15g`), rounding in `strtod`, infinities and NaN, locale decimal points. The number parser yields the exact decimal value of any numeral.
- Raw and Invalid items, type predicates, version, error pointer, hook installation, and the many `Create`, `Add...ToObject` and `...Array` wrappers: they only forward to what is modelled.
- Failing allocation: every request succeeds; only the sizes that `ensure` refuses are modelled.
- `cJSON_ParseWithLength` on buffers without a final NUL: the server parses C strings.
- ParseBuffer.Buffer.ParseString: the finished block of the decoder and the string of the item are two objects of the model, of which the second takes the place of the first.
- MinifyGrammar.MinifyKeepsMeaning: documents with a string that ends in an escaped backslash may keep their meaning all the same, if nothing in their later strings looks removable; for these only the two cases of `FinalBackslashMatters` are given.
- ParseBuffer.Parse: a NULL text, for which the C code returns NULL at once, is not modelled, nor is the global error record beyond the error position.
- HeapCompare.CJSONCompare: for trees that share nodes and are not consistent, only the answer of the shortcut for identical pointers differs from the comparison of values; what it then is, is not stated.
- Printer.PrintBuffered: with an initial size of zero and no realloc hook the C code copies one byte from an empty block; the model copies nothing.
- PrintBuffer.Output.PrintNumber: only the `"%d"` branch.
- Calendar.GetDateDifference: texts shorter than ten characters. Of six to nine, the pointer to the year lies in front of its block (`Calendar.YearPointer`), and what `atoi` finds there is not determined; of fewer, `substr` reads behind the end of the text. Nor the block that `substr` leaks, and messages on the terminal.
- PollArray.PollSet.Accept: failing `setsockopt` or `fcntl` on a new socket, where the server exits, and errors of `accept` other than running out of connections, where it shuts down.
- `haversineDistance`, MySQL access, sockets, `poll` itself, receiving and sending, logging: input and output.
- Which worker may write which slot of the descriptor array: the server hands out the address of a block-local record and guards compaction by the executing counter only, so there is no ownership to prove. The pool is modelled with opaque tasks and the array sequentially.
- The unlocked read of `num_threads_executing` in the poll loop, and creating, joining and destroying threads.
- The Android app: user interface and thin delegation.
