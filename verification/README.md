# Verified models of the firmware's algorithmic core

The repository is firmware for a Cortex-M4 board that runs LiteOS. Four of its components are algorithms rather
than hardware access, and this project models them in Dafny and proves what they are for:

- **cJSON** (`middlewares/cJSON/cJSON.c`): the recursive-descent parser over a byte buffer with an explicit cursor
  and depth, the printer into a growable or caller-supplied buffer, the two-pass string decoder and encoder, the
  child lists whose head's `prev` is the tail, deep copy, comparison, and the in-place minifier. Nodes, buffers and
  the allocator are classes; any allocation may be refused.
- **64-bit atomics** (`liteos/utils/los_compiler.h`): a table of spinlocks indexed by a hash of the address, under
  which a 64-bit access is made of two word accesses. A state machine over any number of threads.
- **The intrusive ring** (`liteos/utils/los_list.h`): circular doubly linked lists and their iteration macros.
- **The call-stack scanner** (`middlewares/cm_backtrace/cm_backtrace.c`): two scan loops, the rule that suppresses
  repeats of the link register, and the fixed-width rendering.

`dafny verify dfyconfig.toml` checks everything.

## How it fits together

The hub of the cJSON part is `ParseSpec`, a pure function from bytes and a cursor to a value and a new cursor or to
the failing position. The methods of `Parser.ParseBuffer` build heap nodes and are proved to follow it exactly,
including the error position, unless an allocation is refused. `Syntax` describes texts as concrete syntax trees;
`Completeness` and `Soundness` prove that `ParseSpec` accepts exactly the texts of valid trees, with their meaning.
The grammar of RFC 8259, the round trip through the printer and the preservation of trees by the minifier are each
proved by relating them to `Syntax`.

Where a function decides what an answer is, a lemma says the same in terms of its own: digits as characters of a string
(`Bytes.DigitSpells`), numbers as sums of digits times powers of ten (`Decimals`, `NumberGrammar`), the printed text
written out in string literals (`Layouts`) and as a derivation of the grammar (`PrintedJson`), gaps between tokens as
blanks and comments (`MinifyGaps`, `MinifiedJson`), comparison of numbers by their distance (`CompareIntegral`), calls
as encoded instructions (`Backtrace.PointsBehindCall`), and the bytes behind a document or before an error (`Buffers`,
`ErrorPositions`, `ErrorsExact`, `StringErrors`).

`Nodes` and `TreeValue` say what a heap tree is: its blocks, which of them it owns, and how it can be read. A tree
*carries* a value whoever owns its parts: references, constant keys, named array elements, missing strings and raw
text included. It *holds* the value if it also owns everything it consists of, as the trees the parser builds do.
`Hooks.live` is the set of blocks handed out and not yet returned, so a leak or a double free would break a
contract; `Hooks.refusals` counts the requests that were refused. `Views` are snapshots of heap items with their
addresses; comparison and copying are stated on them, and `TreeViews` takes the snapshot of a tree.

Behaviour of the code that is modelled as it is, although one might expect otherwise:

- Whitespace is every byte up to 32, NUL included, and the cursor steps back one byte when it reaches the end of the
  buffer (`middlewares/cJSON/cJSON.c:967-986`).
- A key that does not start with a quote is reported as an error one byte behind where it goes wrong, and a string that
  is not closed, right behind its opening quote (`middlewares/cJSON/cJSON.c:728-841`).
- A `\u` escape with a bad hexadecimal digit is read as code point 0 (`middlewares/cJSON/cJSON.c:600-625`), so the two
  passes over a string can cut it into different escapes. The estimate of the first pass is enough all the same.
- A decoded string ends at its first NUL for every reader of the tree. So `"\u0000"`, which denotes a string of one
  character, is read as the empty string, and the keys `"\u0000a"` and `"\u0000b"` become the same key
  (`middlewares/cJSON/cJSON.c:728-841`).
- The minifier knows `\"` but not `\\` (`middlewares/cJSON/cJSON.c:2615-2627`). A literal that ends in a backslash is
  therefore cut at the wrong place, unless nothing follows it.
- A string or name that is missing is printed as the empty string (`middlewares/cJSON/cJSON.c:857-866`), and
  `cJSON_Compare` takes it for different from every string, the empty one included.
- The sizes in `print_string_ptr` are 32-bit sums that may wrap (`middlewares/cJSON/cJSON.c:868-894`).
- `cJSON_Compare` looks a member up by the first matching key, so a tree with duplicate keys can differ from its copy.
- `cJSON.h` asks for five bytes more than the text when printing into a caller's buffer; two bytes are enough, and
  fewer never are.
- `cm_backtrace_call_stack` stores the program counter without looking at the size of the buffer, and the scan never
  ends if the cursor wraps around before it reaches the end of the stack.

## Model

| member | source | states |
|---|---|---|
| StringSpec.CloseIsBalanced | middlewares/cJSON/cJSON.c:740-758 | the scan for the closing quote stops at the end of a literal in which every backslash has a companion |
| StringSpec.BalancedCloses | middlewares/cJSON/cJSON.c:740-758 | conversely, such a literal followed by a quote ends exactly there |
| StringSpec.DecodeStep | middlewares/cJSON/cJSON.c:771-816 | a decoding step consumes at least one byte and at most one more than the literal has left, and produces at least one |
| StringSpec.EscapesInWindow | middlewares/cJSON/cJSON.c:740-761 | the first pass counts at most one escape in two positions, wherever a window starts |
| StringSpec.StepFits | middlewares/cJSON/cJSON.c:771-816 | one decoding step never outgrows the estimate, even when it starts in the middle of what the first pass took for an escape |
| StringSpec.UnescapeFits | middlewares/cJSON/cJSON.c:740-841 | whatever a literal contains, the second pass writes no more bytes than the first pass reserved |
| StringSpec.OnlyDigitsRead | middlewares/cJSON/cJSON.c:600-625 | a byte is read as a hexadecimal digit exactly if it is one of the 22 characters `0` to `9`, `a` to `f`, `A` to `F`, and then with the value of its place among them |
| StringSpec.Hex4Digits | middlewares/cJSON/cJSON.c:600-625 | four such digits are read as their base-16 sum |
| StringSpec.Hex4NoDigit | middlewares/cJSON/cJSON.c:600-625 | if any of the four is no digit, the result is 0 |
| StringSpec.EscapeLetters | middlewares/cJSON/cJSON.c:781-802 | the eight letters that may follow a backslash, what each stands for, and that there is no other |
| StringSpec.OtherEscapesFail | middlewares/cJSON/cJSON.c:804-814 | a backslash before anything else but `u` is where decoding gives up |
| StringSpec.PassesDisagree | middlewares/cJSON/cJSON.c:740-816 | a literal in which the two passes see different escapes: `\u123\\` is read as a NUL and a quote |
| StringDecoder.ParseHex4 | middlewares/cJSON/cJSON.c:600-625 | the number the digits say by Hex4Digits, 0 by Hex4NoDigit if one of them is none |
| StringDecoder.Utf16LiteralToUtf8 | middlewares/cJSON/cJSON.c:627-725 | decodes one `\u` escape or surrogate pair into UTF-8, or gives up, and stays inside input and output |
| StringDecoder.EncodeUtf8 | middlewares/cJSON/cJSON.c:683-719 | writes the UTF-8 encoding of section 3 of RFC 3629, built from the last byte to the first |
| StringDecoder.FindEnd | middlewares/cJSON/cJSON.c:740-758 | the closing quote and the number of escapes passed |
| StringDecoder.DecodeOne | middlewares/cJSON/cJSON.c:771-816 | one turn of the second pass, within the bytes reserved |
| StringDecoder.Decode | middlewares/cJSON/cJSON.c:768-820 | the whole second pass: the decoded text and a terminator, or the position at which decoding gives up; the cursor may end one byte behind the closing quote |
| Unicode.EscapedUtf16 | middlewares/cJSON/cJSON.c:600-841 | `parse_string` on every literal that is a sequence of UTF-16 code units written as `\u` escapes: if it is well-formed, the UTF-8 encodings of its scalar values are stored up to the first NUL; otherwise the cursor is left at the escape of the first unpaired surrogate |
| Unicode.DecodeEncoded | middlewares/cJSON/cJSON.c:644-681 | every sequence of scalar values is well-formed once encoded in UTF-16, and decodes to itself |
| Unicode.Utf8Decodes | middlewares/cJSON/cJSON.c:683-719 | the bytes written for a code point are a UTF-8 encoding that denotes it |
| Parser.ParseBuffer.SkipWhitespace | middlewares/cJSON/cJSON.c:967-986 | moves the cursor over blanks and one step back at the end; never out of the buffer |
| Parser.ParseBuffer.SkipUtf8Bom | middlewares/cJSON/cJSON.c:989-1000 | at the start of a buffer, skips a byte-order mark if one more byte follows; anywhere else it fails and moves nothing |
| Parser.ParseBuffer.ParseNumber | middlewares/cJSON/cJSON.c:295-382 | reads the longest number in the run of number characters, saturates the integer, and returns its temporary block on every path; a failure leaves the cursor where it was |
| Parser.ParseBuffer.ParseString | middlewares/cJSON/cJSON.c:728-841 | refines the pure string parser; the result is one new block, or none and the failing position, which is behind the opening quote if the allocation was refused |
| Parser.ParseBuffer.ParseValue | middlewares/cJSON/cJSON.c:1224-1268 | refines the pure parser: on success the node holds the value, the cursor has advanced, the depth is restored and exactly the blocks of the tree are new; on failure nothing new is live and the cursor is at the failing position unless an allocation was refused |
| Parser.ParseBuffer.ParseArray | middlewares/cJSON/cJSON.c:1337-1419 | the same for arrays, with the nesting limit and a closed child list; a failure deletes the elements built so far |
| Parser.ParseBuffer.ParseElements | middlewares/cJSON/cJSON.c:1365-1397 | the loop over the elements: each turn advances the cursor and keeps the chain of nodes |
| Parser.ParseBuffer.ParseObject | middlewares/cJSON/cJSON.c:1476-1575 | the same for objects; every member owns the block of its key |
| Parser.ParseBuffer.ParseMembers | middlewares/cJSON/cJSON.c:1502-1554 | the loop over the members |
| Parser.ParseBuffer.ReadKey | middlewares/cJSON/cJSON.c:1523-1541 | reads the key through the value field and moves it to the name field |
| Parser.ParseWithLengthOpts | middlewares/cJSON/cJSON.c:1019-1086 | the entry point: for every buffer, length and option, a tree that holds the specified value with its end position, or the specified error position inside the buffer; the live blocks grow by exactly those of the returned tree, or not at all |
| Nodes.Delete | middlewares/cJSON/cJSON.c:244-264 | frees an item, its right siblings and everything they own, each block once and nothing else |
| ParseSpec.SkipBlanksTwice | middlewares/cJSON/cJSON.c:967-986 | skipping blanks again moves nothing, in spite of the step back |
| ParseSpec.SkipBlanksLands | middlewares/cJSON/cJSON.c:967-986 | only bytes up to 0x20 are skipped, and all of them, except that the last byte of the buffer is never passed |
| ParseSpec.SkipBlanks | middlewares/cJSON/cJSON.c:967-986 | the cursor never leaves the buffer, and from inside it never reaches the end |
| ParseSpec.ParseValue | middlewares/cJSON/cJSON.c:1224-1268 | every success moves the cursor forward and every outcome leaves it inside the buffer, for any bytes, position and depth |
| ParseSpec.ParseElements | middlewares/cJSON/cJSON.c:1365-1397 | the same for the elements of an array, of which there is at least one |
| ParseSpec.ParseMembers | middlewares/cJSON/cJSON.c:1502-1554 | the same for the members of an object |
| ParseSpec.ParseBuffer | middlewares/cJSON/cJSON.c:1019-1086 | a failure on a non-empty buffer reports a position inside it |
| Completeness.ValueAccepted | middlewares/cJSON/cJSON.c:1224-1575 | the parser accepts every valid concrete syntax tree within the nesting limit, with its meaning, wherever it stands in a buffer |
| Soundness.ValueRecovered | middlewares/cJSON/cJSON.c:1224-1575 | whatever the parser accepts is such a tree, with that meaning and nesting |
| Soundness.StrtodPrefix | middlewares/cJSON/cJSON.c:295-382 | the number read depends only on the characters it covers |
| NumberSpec.SaturateMeans | middlewares/cJSON/cJSON.c:295-382 | the integer kept is the number rounded towards zero, or the nearer end of the range outside it |
| NumberGrammar.AcceptedNumbers | middlewares/cJSON/cJSON.c:295-382 | exactly which numerals are accepted, leading zeros and missing digits on one side of the point included, and that each is read to what the places of its digits say |
| Documents.AcceptedLanguage | middlewares/cJSON/cJSON.c:1003-1086 | a C string parses with a terminator required to a given value if and only if it is the text of a document that denotes the value |
| Buffers.PrefixAccepted | middlewares/cJSON/cJSON.c:1019-1086 | any buffer that starts with a document: without the terminator check it parses to the value and the position behind it; with the check it fails exactly at the first byte that is neither part of the document nor blank, or at the last byte if no NUL comes to rest there |
| Buffers.PrefixRecovered | middlewares/cJSON/cJSON.c:1019-1086 | whatever is accepted without the terminator check starts with a document that denotes the value |
| NestingLimit.NestingExact | middlewares/cJSON/cJSON.c:1337-1346 | a thousand arrays inside one another are accepted; of more, the bracket with offset 1000 is the error |
| ErrorPositions.BeforeErrorCompletes | middlewares/cJSON/cJSON.c:1061-1084 | when a text is rejected, what stands before the error position can be completed to an accepted text, except that a key without an opening quote is reported one byte late |
| ErrorsExact.NoWayOn | middlewares/cJSON/cJSON.c:1061-1084 | conversely, outside words, numbers and strings no accepted text begins with what stands up to and including the error position |
| StringErrors.BadEscape | middlewares/cJSON/cJSON.c:804-841 | wherever a string stands, its first bad escape is reported at its backslash |
| StringErrors.OpenString | middlewares/cJSON/cJSON.c:740-758 | a string that is not closed is reported right behind its opening quote |
| ErrorPositions.UnquotedKeyLate | middlewares/cJSON/cJSON.c:728-841 | the text `{x}`, in which the error is the second byte and the position reported that of the third |
| Rfc8259.CharsDecode | middlewares/cJSON/cJSON.c:728-841 | every derivation of a string in section 7 of RFC 8259, its escapes spelled with digits of either case, decodes to the UTF-8 bytes it denotes |
| Rfc8259.NumberRead | middlewares/cJSON/cJSON.c:295-382 | every derivation of a number in section 6 of RFC 8259 is read whole and to the sum of its digits times powers of ten |
| Rfc8259.DerivationMeans | middlewares/cJSON/cJSON.c:1224-1575 | every derivation in the grammar of RFC 8259 is a valid syntax tree, and its meaning is what cJSON keeps of the denoted value |
| Rfc8259.JsonTextAccepted | middlewares/cJSON/cJSON.c:1003-1086 | every text the grammar derives, with or without a byte order mark, nested at most 1000 deep, is accepted whole with a terminator required; the tree represents the denoted value, strings and keys in full, if and only if no string or key of it contains U+0000 |
| Rfc8259.KeptInFull | middlewares/cJSON/cJSON.c:728-841 | the condition on its own: strings and keys cut at their first NUL represent the value exactly if there is no NUL in it |
| Rfc8259.NulCharacter | middlewares/cJSON/cJSON.c:728-841 | a literal denotes a string with a NUL if and only if one of its characters is the escape `\u0000` |
| Rfc8259.NulTruncated | middlewares/cJSON/cJSON.c:728-841 | the text `"\u0000"` denotes a string of one character and is read as the empty string |
| Printer.PrintBuffer.Ensure | middlewares/cJSON/cJSON.c:451-519 | room for the bytes asked for and a terminator, in the old block or a larger one that starts with the same text; no 32-bit size wraps, the length stays an int, and the exact condition of failure |
| Printer.PrintBuffer.Grow | middlewares/cJSON/cJSON.c:491-518 | both ways of moving the text keep it, and give the old block back even on failure |
| Printer.PrintBuffer.UpdateOffset | middlewares/cJSON/cJSON.c:522-531 | the cursor moves to the terminator of what was written |
| Printer.PrintBuffer.CountEscapes | middlewares/cJSON/cJSON.c:868-889 | the first loop finds the length and, modulo 2^32, how many characters escaping adds |
| Printer.PrintBuffer.PrintString | middlewares/cJSON/cJSON.c:844-950 | fills exactly the bytes it asked `ensure` for: quotes, escaped characters, terminator; a missing string is printed as an empty one |
| Printer.RequestExact | middlewares/cJSON/cJSON.c:868-894 | the 32-bit request is the number of bytes written if and only if that number is below 2^32 |
| Printer.RequestTooSmall | middlewares/cJSON/cJSON.c:868-894 | a string of 715,827,883 control characters for which five bytes are requested |
| Printer.SizedIfShort | middlewares/cJSON/cJSON.c:868-894 | no string in a value whose text has a 32-bit size can make the request wrap |
| Printer.PrintBuffer.PrintNumber | middlewares/cJSON/cJSON.c:541-597 | integers as `%d`, other numbers in the given rendering, at most 25 characters |
| Printer.PrintBuffer.PrintValue | middlewares/cJSON/cJSON.c:1271-1334 | walks any heap tree that carries a value, whatever is a reference, constant, named or missing in it: what it leaves behind the text already there is the pure rendering of the value at the current depth, the depth is restored, and in a caller's buffer it succeeds exactly if the rendering and two bytes fit |
| Printer.PrintBuffer.PrintRaw | middlewares/cJSON/cJSON.c:1307-1320 | raw text is copied with its terminator; without text the item cannot be printed |
| TreeValue.EveryTreeCarries | middlewares/cJSON/cJSON.c:1271-1334 | every tree of linked nodes with terminated strings carries a value, so printing is specified on all of them |
| Printer.PrintBuffer.PrintArray | middlewares/cJSON/cJSON.c:1422-1473 | the same for arrays: brackets around the rendered elements |
| Printer.PrintBuffer.PrintObject | middlewares/cJSON/cJSON.c:1578-1672 | the same for objects: braces, line breaks and indentation around the rendered members |
| Printer.PrintBuffer.PrintItems | middlewares/cJSON/cJSON.c:1443-1462 | the loop over the elements, with separators between them only |
| Printer.PrintBuffer.PrintMembers | middlewares/cJSON/cJSON.c:1602-1655 | the loop over the members, with keys, indentation and separators |
| Printer.PrintBuffer.PrintKey | middlewares/cJSON/cJSON.c:1603-1630 | indentation, escaped key, empty if the name is missing, and colon; in a caller's buffer it fails only if they and one byte do not fit |
| Printer.PrintPreallocated | middlewares/cJSON/cJSON.c:1205-1221 | succeeds if and only if there is a buffer, the tree is printable and the buffer has at least two bytes more than the text |
| Printer.PrintBuffered | middlewares/cJSON/cJSON.c:1176-1202 | the text for any starting capacity; the result is the only block left behind |
| Printer.Print | middlewares/cJSON/cJSON.c:1102-1161 | exactly the text and its terminator in a block of exactly that size, under either growth strategy; the result is the only block left behind |
| RenderFacts.ShowNatValue | middlewares/cJSON/cJSON.c:541-597 | the digits printed for a number denote it |
| RenderFacts.ShowIntShort | middlewares/cJSON/cJSON.c:541-597 | an int takes at most eleven characters, so the number buffer never overflows on one |
| RenderFacts.IntCanonical | middlewares/cJSON/cJSON.c:558-559 | the text of an int is a minus exactly for negative numbers and then digits without a leading zero that say its magnitude; no other such text says the int, and every decimal text that says it is at least as long |
| RenderFacts.RenderNulFree | middlewares/cJSON/cJSON.c:1271-1672 | no rendering contains a NUL, so the terminator is where the text ends |
| PrintedJson.EscapeIsChar | middlewares/cJSON/cJSON.c:844-950 | what is printed for a byte of a string is a character of the grammar of RFC 8259 that denotes the byte, with lower-case digits |
| PrintedJson.EscapeShortest | middlewares/cJSON/cJSON.c:844-950 | the grammar has no shorter spelling of that byte |
| PrintedJson.PrintedIsJson | middlewares/cJSON/cJSON.c:1271-1672 | the text printed for null, booleans, ints, strings, arrays and objects is derived by the grammar, and denotes the printed value |
| Layouts.RenderLayout | middlewares/cJSON/cJSON.c:1422-1672 | line by line: unformatted text has no blank outside strings; in formatted text elements follow a comma and a space, and every member stands on a line of its own, indented by one tab for each level |
| RoundTrip.StringRoundTrip | middlewares/cJSON/cJSON.c:728-950 | for every NUL-free byte string, the parser reads its escaped form back to the same bytes |
| RoundTrip.NumberRoundTrip | middlewares/cJSON/cJSON.c:295-382 | every int printed is read back |
| RoundTrip.RenderIsFlatten | middlewares/cJSON/cJSON.c:1271-1672 | the rendering is the text of a syntax tree, formatted or not |
| RoundTrip.PrintThenParse | middlewares/cJSON/cJSON.c:1224-1672 | for every value of null, booleans, ints, NUL-free strings, arrays and objects nested within the limit, formatted or not, parsing the printed text gives the value back, order and duplicate keys included |
| PrintAndParse.PrintThenParseBack | middlewares/cJSON/cJSON.c:1003-1672 | the same for the methods on heap trees, whoever owns their parts: print a tree, parse the text, free the text; only the new tree is left |
| PrintAndParse.RoundTripCompares | middlewares/cJSON/cJSON.c:1003-2881 | and, if no object has duplicate keys, `cJSON_Compare` finds the tree read back equal to the one printed if and only if no string or name was missing in it |
| Minify.FilterIdempotent | middlewares/cJSON/cJSON.c:2584-2671 | minifying twice is minifying once, for every text |
| MinifyGaps.FilterPieces | middlewares/cJSON/cJSON.c:2639-2656 | of any sequence of blanks, line comments and block comments the filter leaves the control characters other than tab, line feed and carriage return, and nothing of the comments |
| MinifyGaps.OpenComment | middlewares/cJSON/cJSON.c:2584-2606 | a comment that is not closed swallows everything behind it |
| MinifyGaps.FilterPlain | middlewares/cJSON/cJSON.c:2662-2665 | bytes other than those blanks, slashes and quotes are copied |
| MinifyGaps.StraySlash | middlewares/cJSON/cJSON.c:2648-2656 | a slash that starts no comment is dropped, and nothing else with it |
| MinifyGaps.LiteralCopied | middlewares/cJSON/cJSON.c:2608-2628 | behind an opening quote everything is copied up to the first quote that no backslash precedes, or to the end |
| MinifyGaps.OutputClean | middlewares/cJSON/cJSON.c:2630-2671 | for every input, the output is a sequence of copied literals and of single bytes none of which is a blank, a slash or a quote |
| MinifiedJson.MinifiedText | middlewares/cJSON/cJSON.c:2584-2671 | the text of a JSON value with blanks and comments anywhere between its tokens is minified to the text of the same value with nothing between them, if no literal ends in a backslash |
| MinifiedJson.JsonTextMinified | middlewares/cJSON/cJSON.c:2584-2671 | in particular, minifying any such text that RFC 8259 derives removes exactly its blanks, and what it parses to is unchanged |
| MinifiedJson.MinifyFormatted | middlewares/cJSON/cJSON.c:1271-2671 | minifying the formatted text of a value gives its unformatted text, if no string or key ends in a backslash |
| Minify.SkipOnelineComment | middlewares/cJSON/cJSON.c:2584-2594 | skips to behind the newline, or to the terminator |
| Minify.SkipMultilineComment | middlewares/cJSON/cJSON.c:2596-2606 | skips to behind the end of the comment, or to the terminator |
| Minify.MinifyString | middlewares/cJSON/cJSON.c:2608-2628 | copies a literal to the left, reading only bytes that have not been overwritten |
| Minify.Squeeze | middlewares/cJSON/cJSON.c:2630-2671 | the loop: what has been written is the filter of what has been read, and the rest of the block is still the original |
| Minify.CJsonMinify | middlewares/cJSON/cJSON.c:2630-2671 | in place, the text becomes the pure left-to-right filter of the original text and a terminator; nothing behind it changes |
| MinifyKeeps.SameEnd | middlewares/cJSON/cJSON.c:2608-2628 | the minifier ends a literal where the parser does if and only if no backslash precedes the closing quote or nothing follows it |
| MinifyKeeps.FilterDocument | middlewares/cJSON/cJSON.c:2630-2671 | if no literal or key ends in a backslash, or the document is one string and nothing behind it, the filter of the document, with comments anywhere between its tokens, is the same document without comments and blanks |
| MinifyKeeps.MinifyKeepsTree | middlewares/cJSON/cJSON.c:2584-2671 | minifying such a document, comments included, leaves a text that parses to the value of the document without them |
| MinifyKeeps.LiteralsKept | middlewares/cJSON/cJSON.c:2608-2671 | for every document, what the minifier takes for literals are the literals and keys of the document if and only if none of them ends in a backslash, or the document is one string and nothing behind it |
| MinifyKeeps.MinifyKeepsClean | middlewares/cJSON/cJSON.c:2584-2671 | in particular, minifying an accepted text in which no quote follows two backslashes leaves the parsed value unchanged |
| MinifyKeeps.EscapedBackslashMisread | middlewares/cJSON/cJSON.c:2608-2628 | a text with such a quote whose value the minifier changes |
| ChildList.AddItemToArray | middlewares/cJSON/cJSON.c:1795-1821 | appends to the child list; fails exactly for null arguments or an item added to itself, and then changes nothing |
| ChildList.GetArrayItem | middlewares/cJSON/cJSON.c:1697-1712 | the child at the index, or null |
| ChildList.DetachItemViaPointer | middlewares/cJSON/cJSON.c:2018-2046 | removes the child and keeps the list well formed; the item points nowhere |
| ChildList.DetachItemFromArray | middlewares/cJSON/cJSON.c:2049-2056 | the same by position; a position out of range changes nothing |
| ChildList.InsertItemInArray | middlewares/cJSON/cJSON.c:2094-2121 | inserts at the position, or at the end if the list is shorter; the exact condition of failure, which changes nothing |
| ChildList.ReplaceItemViaPointer | middlewares/cJSON/cJSON.c:2124-2162 | puts the replacement at the item's place and frees exactly the blocks of the item; fails, and changes nothing, exactly if an argument is null or the parent has no children |
| TreeValue.SuffixObject | middlewares/cJSON/cJSON.c:1769-1773 | links an item behind the last node of a chain |
| IntArray.CreateNumber | middlewares/cJSON/cJSON.c:2252-2270 | a number node with the saturated integer |
| IntArray.CreateIntArray | middlewares/cJSON/cJSON.c:2364-2396 | an array that holds exactly the numbers in a closed child list, or nothing left behind |
| Compare.CaseInsensitiveStrcmp | middlewares/cJSON/cJSON.c:135-152 | whether two strings differ beyond the case of letters; a null string differs from everything |
| Compare.LowerMeans | middlewares/cJSON/cJSON.c:135-152 | folding identifies two characters exactly if they are the same or the two cases of one of the 26 letters |
| Compare.FindMeans | middlewares/cJSON/cJSON.c:1724-1748 | the member found is the first of the name; a case-sensitive search sees nothing behind a member without a name |
| Compare.GetObjectItem | middlewares/cJSON/cJSON.c:1724-1748 | the first member of the name; the case-sensitive search gives up at the first member without one |
| Compare.CompareItems | middlewares/cJSON/cJSON.c:2773-2881 | computes the comparison of the two snapshots, for any trees, with or without case; NumbersEqual and CompareMeansMatch say what that comparison is |
| CompareIntegral.NumbersEqual | middlewares/cJSON/cJSON.c:534-538 | two number items are equal if and only if the difference of their values is at most 2^-52 of the magnitude of one of them |
| CompareIntegral.IntsEqual | middlewares/cJSON/cJSON.c:2807-2812 | ints are equal only if they are the same |
| CompareLaws.EqualSymmetric | middlewares/cJSON/cJSON.c:2773-2881 | the comparison is symmetric on all finite trees |
| CompareLaws.CompareMeansMatch | middlewares/cJSON/cJSON.c:2773-2881 | on trees whose objects have distinct non-null names it holds if and only if numbers are within 2^-52 of each other, arrays match element by element and objects match as maps from names to values |
| CompareLaws.CopyOfProper | middlewares/cJSON/cJSON.c:2773-2881 | such a tree compares equal to every copy of it |
| CompareLaws.CopyEqualIff | middlewares/cJSON/cJSON.c:2773-2881 | in general, a tree without shared items compares equal to a copy if and only if its kinds are valid, its strings and names present, and every member that is not the first of its name compares equal to the first |
| CompareLaws.DuplicateNamesDiffer | middlewares/cJSON/cJSON.c:2773-2881 | an object with a duplicate name that differs from its copy |
| CompareValues.ViewMeans | middlewares/cJSON/cJSON.c:2773-2881 | the snapshot of a heap tree denotes what the tree can be read as |
| TreeViews.ViewShown | middlewares/cJSON/cJSON.c:2773-2881 | the heap looks like the snapshot of a tree, and shows only nodes of the tree |
| TreeViews.EqualComplete | middlewares/cJSON/cJSON.c:2773-2881 | a tree that compares equal to one at other addresses has valid kinds only, and no string or name is missing in it |
| CompareValues.EqualMeans | middlewares/cJSON/cJSON.c:2773-2881 | on trees without duplicate keys in which nothing is missing, the case-sensitive comparison holds if and only if the values are the same; trees at disjoint addresses are equal only if nothing is missing |
| CompareValues.MatchMeans | middlewares/cJSON/cJSON.c:2773-2881 | snapshots match if and only if the values they denote are the same |
| CompareValues.CompareCarried | middlewares/cJSON/cJSON.c:2773-2881 | the same for the method on heap trees |
| CompareIntegral.EqualIntegral | middlewares/cJSON/cJSON.c:2773-2881 | on trees of ints, strings, arrays and objects with distinct keys the case-sensitive comparison holds if and only if the values are identical up to the order of members |
| Duplicate.Strdup | middlewares/cJSON/cJSON.c:185-202 | the string in a new block of exactly its size |
| Duplicate.CopyItem | middlewares/cJSON/cJSON.c:2523-2543 | all fields but the links; a constant name is shared, other strings are copied, the reference flag is cleared |
| Duplicate.DuplicateChildren | middlewares/cJSON/cJSON.c:2548-2571 | the copies of the children in a closed list; fails exactly at the depth limit or on a refused allocation |
| Duplicate.DuplicateRec | middlewares/cJSON/cJSON.c:2506-2582 | a copy in new blocks only, or no block left behind, and the latter only for a null item, a refused allocation or a tree higher than the limit |
| CopyLaws.CopyShown | middlewares/cJSON/cJSON.c:2506-2582 | the copy has the same content at the addresses of its own blocks, and no reference in it |
| CopyLaws.DuplicateTree | middlewares/cJSON/cJSON.c:2506-2582 | a recursive copy has new items only, well-formed child lists and the same content; it compares equal to a tree with distinct names, and in general to exactly the trees named by CopyEqualIff |
| Atomics.Slot | liteos/utils/los_compiler.h:462-476 | the hash of an address names one of the sixteen locks |
| Atomics.SlotRounds | liteos/utils/los_compiler.h:462-476 | the three rounds and the remainder in plain arithmetic, whatever the address |
| Atomics.StartInitial | liteos/utils/los_compiler.h:464 | with the flag table still zero, every assignment of values to disjoint cells is a state in which runs can start |
| Atomics.StepExclusive | liteos/utils/los_compiler.h:478-494 | every step keeps: a flag is set exactly while one thread holds the lock |
| Atomics.StepSound | liteos/utils/los_compiler.h:496-525 | every step keeps: a holder has read and replaced halves of one whole value, and a cell at which nobody is holds the last value written |
| Atomics.StepInv | liteos/utils/los_compiler.h:478-525 | every step of any thread keeps the whole invariant |
| AtomicRuns.MutualExclusion | liteos/utils/los_compiler.h:478-494 | in every run, two threads are never inside under the same lock |
| AtomicRuns.Linearizable | liteos/utils/los_compiler.h:496-525 | in every run the calls behave as if done one after the other in the order in which they finish |
| AtomicRuns.QuietCell | liteos/utils/los_compiler.h:496-525 | after every run, a cell at which nobody is holds the value of the last finished write, low word first |
| AtomicRuns.NoTornValue | liteos/utils/los_compiler.h:496-525 | every load and exchange returns the initial value or one whole value written earlier to the cell |
| AtomicRuns.Conservation | liteos/utils/los_compiler.h:515-525 | if a cell is only exchanged, initial and written values are the returned and current values, as multisets |
| AtomicRuns.HolderMoves | liteos/utils/los_compiler.h:496-525 | a holder can always take a step, and every step brings it closer to the release |
| AtomicRuns.HolderLeaves | liteos/utils/los_compiler.h:488-525 | however the other threads run, a holder has released the lock after at most five steps of its own |
| AtomicRuns.NoDeadlock | liteos/utils/los_compiler.h:478-494 | whenever a thread is in a call, it or the holder of its lock can change the state |
| Ring.ListInit | liteos/utils/los_list.h:75-79 | a ring of one node |
| Ring.ListAdd | liteos/utils/los_list.h:122-128 | inserts right behind the given node, anywhere in the ring |
| Ring.ListTailInsert | liteos/utils/los_list.h:149-152 | appends |
| Ring.ListHeadInsert | liteos/utils/los_list.h:173-176 | inserts in front |
| Ring.ListDelete | liteos/utils/los_list.h:198-204 | removes the node, the others stay in order, and the node leads nowhere |
| Ring.ListDelInit | liteos/utils/los_list.h:351-356 | the same, but the node ends up as a ring of its own |
| Ring.ListEmpty | liteos/utils/los_list.h:227-230 | whether the head is alone |
| Ring.Rotate | liteos/utils/los_list.h:51-54 | a ring can be read from any of its nodes |
| Ring.ForEach | liteos/utils/los_list.h:377-378 | visits every member once, in order |
| Ring.ForEachSafe | liteos/utils/los_list.h:400-402 | with a body that deletes any subset of the members, visits every original member once, in order, and leaves exactly the others, in order |
| Ring.SparedOnly | liteos/utils/los_list.h:400-402 | the members left by the safe loop are exactly those that were not to be deleted |
| Backtrace.IsCaller | middlewares/cm_backtrace/cm_backtrace.c:288-327 | the tests of the scan loops, in 32-bit arithmetic, pick exactly the odd words that point into the code right behind the bytes of a BL or a branch to a register |
| Backtrace.ReturnAddressMeans | middlewares/cm_backtrace/cm_backtrace.c:288-306 | those tests against the encodings: BL is the pair of halfwords 0xF000 + hi, 0xF800 + lo with eleven bits each, low byte first, and the register form is 0x4700 + x |
| Backtrace.LittleEndian | middlewares/cm_backtrace/cm_backtrace.c:289-313 | how the words and halfwords lie in memory |
| Backtrace.CallStackAny | middlewares/cm_backtrace/cm_backtrace.c:308-331 | the callers among the words of the stack, cut at the buffer size and the greatest depth |
| Backtrace.ScanEnds | middlewares/cm_backtrace/cm_backtrace.c:308-331 | the scan of a stack ends if and only if the cursor reaches its end before it wraps around |
| Backtrace.CallersInOrder | middlewares/cm_backtrace/cm_backtrace.c:308-331 | what is reported are words that point behind a call, in the order in which they stand on the stack |
| Backtrace.NoneMissed | middlewares/cm_backtrace/cm_backtrace.c:308-331 | no word that points behind a call is passed over |
| Backtrace.StackWordAt | middlewares/cm_backtrace/cm_backtrace.c:313 | the scan reads every word from the cursor to the end of the stack |
| Backtrace.SkipsOnlyRepeats | middlewares/cm_backtrace/cm_backtrace.c:395-399 | what the suppression rule leaves out is a run of copies of the link register at the bottom, and all of it |
| Backtrace.CallStackShape | middlewares/cm_backtrace/cm_backtrace.c:342-404 | on a fault the program counter comes first, the link register second exactly if it lies in the code, and then its copies at the start of the callers are left out and nothing else |
| Backtrace.Backtracer.ExpectedMeans | middlewares/cm_backtrace/cm_backtrace.c:342-404 | which part of the stack is scanned after an overflow and otherwise, when the registers come first, and how many entries there is room for |
| Backtrace.Backtracer.GetCallStack | middlewares/cm_backtrace/cm_backtrace.c:342-404 | on a fault without overflow the program counter, even if the size is zero, the link register if it lies in the code, then the callers without its repeats; the callers alone otherwise, from the start of the stack after an overflow; outside a fault what the other scanner finds on the main stack |
| Backtrace.Backtracer.PrintCallStack | middlewares/cm_backtrace/cm_backtrace.c:411-428 | nine characters per entry, within the static buffer, and the printed text decodes to the addresses of the call stack |
| Backtrace.DecodedRendered | middlewares/cm_backtrace/cm_backtrace.c:417-420 | every list of addresses can be read back from its rendering |
| Backtrace.EntryAt | middlewares/cm_backtrace/cm_backtrace.c:417-420 | entry k is eight lower-case hexadecimal digits, the most significant first, from character 9k on, and a space |

## Left out

- MinifyKeeps.MinifyKeepsTree: goes one way only. Behind a misread quote the minifier treats strings as text and text as strings, and the value may still survive by luck, for example when no string behind it contains a blank or a slash; LiteralsKept is the exact condition for cutting the document into the right literals.
- Parser.ParseWithLengthOpts: when an allocation is refused, the error position is not stated.
- Parser.ParseBuffer.ParseNumber: `strtod` is an exact decimal reader of the longest numeric prefix; rounding to doubles, locale decimal points, hexadecimal floats, NaN and infinity are not modelled.
- Printer.PrintBuffer.PrintNumber: the rendering of a number that is not an int is a parameter, so the two `sprintf` attempts and `sscanf` are not modelled.
- Printer.PrintBuffered: a starting capacity of zero without `realloc` is excluded, because the growth loop then copies a byte the block does not have.
- Printer.PrintBuffer.PrintString: a string whose escaped form has no 32-bit size is excluded, here and in everything that prints, because the wrapped request leaves no room for what is written; RequestExact and SizedIfShort say exactly what that shuts out.
- PrintAndParse.PrintThenParseBack: values with `cJSON_Raw` items or numbers that are not ints are excluded, because their text need not denote them.
- ChildList.AddItemToArray: the item is not linked anywhere yet; the code clears its `next` pointer only when the list is empty.
- Ring.ForEach: bodies that change the list are covered by the safe loop only.
- Compare.CompareItems: doubles are reals, so `compare_double` is exact; comparing NaN is not modelled.
- Duplicate.DuplicateRec: cyclic structures have no finite snapshot, so the depth limit is shown to stop high trees, not cycles.
- Backtrace.CallStackAny: scans that never end are excluded, by the exact condition of ScanEnds; memory does not change during the scan, so the buffer lies outside the scanned stack.
- Backtrace.Backtracer.GetCallStack: on a fault without overflow the buffer itself must have room for one entry, whatever size is given for it.
- Backtrace.IsCaller: the masks on Thumb instructions are written as divisions by powers of two.
- Atomics.StepInv: memory is sequentially consistent, so the fences are not modelled; one table of flags stands for one translation unit, although the table is static in an inline function; cells do not overlap.
- The branches that give up with `goto fail` are modelled as early returns followed by the same clean-up.
- Field masks such as `type & 0xFF` are separate fields of a node; the public field layout is not modelled.
- `cJSON_InitHooks`, the `cJSON_Add*ToObject` and `cJSON_Create*` wrappers other than the integer array, setters, and lookups by name on top of `get_object_item`: thin code over members that are modelled.
- Lists that violate their invariant when an operation starts (corrupted `prev` pointers, cycles).
- Container offsets in the entry variants of the list macros, the remaining LiteOS declarations, and the scheduler.
- Stack dumps, fault-register diagnosis, thread-stack configurations of the backtrace, and all peripheral, board and interrupt code: hardware access without an algorithm behind it.
