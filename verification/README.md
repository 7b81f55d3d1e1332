# Verified models of the libraries inside the demo

This project models the libraries the demo embeds and proves what they promise: cJSON (parser,
printer, child lists, comparison, minifier), the parts of zlog that hold its state (message
buffer, hash table, array list, archive rotation, rules and categories, configuration reload), the
message queue and the calendar conversion of the `os` layer, and curl's base64. Check everything
with `dafny verify dfyconfig.toml`.

## How it is laid out

One module per source component. Each has the same two layers: pure functions that say what the
result is (a grammar, a rendering, a map, a bounded queue, a history of rotations), and classes and
methods in the form of the C code (cursors, buffers, links, loops) that are proved to compute just
that. What the libraries promise is then proved about the pure layer, and so is what pins that layer
down without it: tables, codes, marks and layouts are stated again in byte values or by a second
definition of another form (`ParserExact`, `FormattedLayout`, `MinifyStrips`, `LookupFirst`,
`RuleMarks`, `AlphabetTable`, `DayNumberClosed` and their like).

- `Text`, `Digits`: bytes, C strings, positional notation.
- `CJsonValue`, `CJsonString`, `CJsonNumber`, `CJsonParse`, `CJsonRender`, `CJsonRoundTrip`: trees,
  the grammar on suffixes of the text, the rendering, and the round trips between them.
- `CJsonGrammar`, `CJsonErrors`, `CJsonLayout`: the texts of JSON documents, the places where a text
  goes wrong and the two layouts, written out in byte values with nothing taken from the parser or
  the printer, and the proofs that these read and write just that.
- `CJsonParser`, `CJsonPrinter`: the parse buffer with its cursor and depth, and the print buffer
  with its lagging offset and reallocation.
- `CJsonList`: `next`, circular `prev` and `child`, and every edit on them.
- `CJsonCompare`: comparison and duplication.
- `CJsonMinify`, `CJsonMinifyTree`: the in-place minifier, and what it does to the tree.
- `ZlogBuf`, `ZlogHashTable`, `ZlogArrayList`, `ZlogRotater`, `ZlogRule`, `ZlogCategory`,
  `ZlogCategoryTable`, `ZlogEnv`: zlog, from its containers up to interleavings of its calls. The
  read-write lock makes a call one step.
- `AdmQueue`, `AdmTime`, `CurlBase64`: the ring queue under its global mutex, the calendar loops,
  and base64.

Texts are sequences of bytes. A C string argument is its bytes with the terminator as last byte. A
number of a JSON text is the exact decimal it denotes; rounding to a double is not modelled, and
where the proofs print or compare numbers they are integers below 10^15 in size, which `%1.15g`
prints as plain digits.

## Where the code keeps less than its comments say

Each of these but the first is proved with the exact condition under which the code does keep it.

- Minify keeps the parsed tree unless a string literal ends in an escaped backslash and a later
  one, which the minifier then reads as if it were outside strings, holds a blank or a slash before
  its first quote (`MinifyKeepsTree`). This is exact on texts where every such literal is well-formed
  and loses nothing but single blanks and slashes (`MinifiedTree`); where one is malformed, or loses
  a comment or the slash of an escape, only the one direction is proved.
- A tree compares equal to its own duplicate iff no object gives one key two meanings
  (`DuplicateSame`).
- An overwriting send leaves a working ring iff the queue is empty or has one slot
  (`GenericSend`, `NoRing`).
- Rolling rotation overwrites an archive iff an earlier archive in the list has the name of a later
  place (`RollFiles`). It takes a gap in the numbers (`NoGapNoClash`, `GapClashes`), and the code
  itself never makes one. Sequence rotation keeps `max_count` + 1 archives, not `max_count`.
- Setting a place of the array list gets room only below twice the old size (`SetHasRoom`).
- A reload that fails promises to go on with the old configuration. It does so iff the new
  configuration could not be built or there was memory for the rules of every category; otherwise
  it does not call the rollback its comment announces, and a category is left without rules
  (`Reload`, `Run`). The table-level rollback itself restores everything (`UpdateAndRollback`).
- Base64 decoding is undone by encoding iff the bits the padding cuts off are zero (`EncodeDecode`).
- The calendar date is that of the UTC day while the hour is eight hours ahead: as local time it is
  right iff the UTC hour is below 16, and no date past year 65535 can be right (`NoDayCarry`,
  `FromTimestamp`).

## Model

| member | source | states |
|---|---|---|
| CJsonRoundTrip.ParseUndoesPrint | cjson/src/cJSON.c:1305-1818 | parsing the formatted or unformatted text of any printable tree gives the tree back (strings cut at their first NUL, names normalised) exactly when containers nest at most 1000 deep, and fails otherwise |
| CJsonRoundTrip.OrdinaryRoundTrip | cjson/src/cJSON.c:1305-1818 | on trees with NUL-free strings and proper names the tree that comes back is the same tree |
| CJsonRoundTrip.ReparsesAlike | cjson/src/cJSON.c:1072-1165 | whatever text was parsed to a printable tree, printing it in either format and parsing that gives its normal form: strings cut at their first NUL, all else the same |
| CJsonRoundTrip.ValueRoundTrip | cjson/src/cJSON.c:1305-1357 | at every depth and in front of any text that cannot continue a number, parse_value reads back what print_value wrote and stops right behind it |
| CJsonRoundTrip.ItemsRoundTrip | cjson/src/cJSON.c:1434-1592 | the same for the items of an array, separators and closing bracket included |
| CJsonRoundTrip.MembersRoundTrip | cjson/src/cJSON.c:1594-1818 | the same for the members of an object with tabs, newlines and colons of both layouts |
| CJsonString.StringRoundTrip | cjson/src/cJSON.c:766-1014 | parse_string undoes print_string_ptr on every NUL-free byte string |
| CJsonNumber.NumberRoundTrip | cjson/src/cJSON.c:302-376 | parse_number undoes print_number on every integer below 10^15 in size, whatever non-number text follows |
| CJsonValue.NormFixes | cjson/src/cJSON.c:1305-1818 | printing loses something exactly on trees with NULs in strings, names on array items or members without names |
| CJsonString.TwoPasses | cjson/src/cJSON.c:779-867 | pass two of parse_string never writes more than pass one reserved, and on success the cursor is right behind the quote pass one found |
| CJsonString.TurnFits | cjson/src/cJSON.c:812-867 | each turn of pass two stays inside what pass one reserved for the bytes it consumes, even where the passes split escapes differently |
| CJsonString.OutputFits | cjson/src/cJSON.c:779-867 | the same for the whole body, for every body pass one can delimit |
| CJsonString.ClosingOutside | cjson/src/cJSON.c:779-800 | the body pass one delimits never ends inside an escape |
| CJsonString.LiteralParses | cjson/src/cJSON.c:766-892 | every well-formed literal (section 7 of RFC 8259) parses to its raw bytes with each escape replaced by the UTF-8 of its code point |
| CJsonString.Utf8Decodes | cjson/src/cJSON.c:700-763 | the bytes written for a code point decode, by a strict reader of section 3 of RFC 3629, to that code point |
| CJsonString.Utf8Complete | cjson/src/cJSON.c:700-763 | no other byte sequence is accepted by that reader |
| CJsonString.SurrogatePairs | cjson/src/cJSON.c:645-700 | combining a surrogate pair (section 2 of RFC 2781) is a bijection onto the code points above 0xFFFF |
| CJsonString.Utf8 | cjson/src/cJSON.c:700-763 | one to four bytes, at most three for one escape |
| CJsonString.Utf16Literal | cjson/src/cJSON.c:645-763 | consumes 6 or 12 bytes of the body and never reads past it |
| CJsonString.ParseString | cjson/src/cJSON.c:766-892 | the cursor always moves on, and on success is left inside the text |
| CJsonParse.SkipSpace | cjson/src/cJSON.c:1031-1055 | never lowers the cursor in spite of the step back at the end, and stops at a visible byte or the last one |
| CJsonParse.ParseValue | cjson/src/cJSON.c:1305-1357 | success consumes at least one byte and leaves the cursor on terminated text; failure leaves it inside |
| CJsonParse.ParseItems | cjson/src/cJSON.c:1434-1529 | the same for the item loop of parse_array |
| CJsonParse.ParseMembers | cjson/src/cJSON.c:1594-1704 | the same for the member loop of parse_object |
| CJsonParse.Parse | cjson/src/cJSON.c:1072-1165 | the end position of a whole parse lies inside the text |
| CJsonParse.ErrorPosition | cjson/src/cJSON.c:1143-1160 | the reported error position lies inside the text |
| CJsonParse.TooDeep | cjson/src/cJSON.c:1439-1443 | a container at depth 1000 is refused |
| CJsonGrammar.ParserExact | cjson/src/cJSON.c:1072-1818 | a whole text is accepted, with a given tree, iff it is the text of a document of the grammar that nests at most 1000 deep and stands for that tree; the grammar is written out in byte values, apart from the parser |
| CJsonGrammar.PageParses | cjson/src/cJSON.c:1072-1818 | every text the grammar writes is read as what it stands for, gaps and byte order mark included |
| CJsonGrammar.ParsedPage | cjson/src/cJSON.c:1072-1818 | every text that is read is one the grammar writes, and the tree is what it stands for |
| CJsonGrammar.PrefixParses | cjson/src/cJSON.c:1072-1165 | without asking for the whole text the parser stops right behind the document, unless a number goes on there |
| CJsonGrammar.OneMeaning | cjson/src/cJSON.c:1305-1357 | no text of the grammar stands for two trees |
| CJsonGrammar.ValueTaken | cjson/src/cJSON.c:1305-1357 | parse_value reads a document at any depth it fits in and stops behind it |
| CJsonGrammar.ValueSpelt | cjson/src/cJSON.c:1305-1357 | whatever parse_value reads is a document in front of what is left |
| CJsonGrammar.StringTaken | cjson/src/cJSON.c:766-892 | a string is read piece by piece: plain bytes, named escapes, code units and pairs in either case of their digits; four bytes that are no digits count as zero, and a last backslash as the quote behind it |
| CJsonGrammar.StringSpelt | cjson/src/cJSON.c:766-892 | nothing else is read as a string |
| CJsonGrammar.NumeralParses | cjson/src/cJSON.c:302-376 | a numeral of at most 63 bytes is read as the decimal it denotes |
| CJsonGrammar.NumberSpelt | cjson/src/cJSON.c:302-376 | nothing else is read as a number |
| CJsonGrammar.CodeRead | cjson/src/cJSON.c:608-763 | four digits of a code unit, each in either case, are read as UTF-8 (section 3 of RFC 3629) of that code point |
| CJsonGrammar.PairRead | cjson/src/cJSON.c:645-763 | the same for the two units of a surrogate pair |
| CJsonErrors.ErrorReported | cjson/src/cJSON.c:1072-1818 | the reported position, when a text goes wrong inside any nesting of arrays and objects, is the first byte the grammar cannot go on with: no value, a container too deep, no comma or bracket, no colon, a string never closed, an escape that is none; a missing key is reported one byte late |
| CJsonErrors.FaultFails | cjson/src/cJSON.c:766-1357 | each way a value can be refused, in byte values, is refused by parse_value at just that byte |
| CJsonErrors.PathFails | cjson/src/cJSON.c:1434-1704 | a refusal goes through everything that is open around it, at the same byte |
| CJsonErrors.JunkReported | cjson/src/cJSON.c:1115-1165 | visible text behind the document is an error at its first byte iff the whole text is asked for |
| CJsonParser.ParseWithOpts | cjson/src/cJSON.c:1072-1165 | the cursor-driven parser returns the tree and end position the grammar gives, on every NUL-terminated text |
| CJsonParser.ParseBuffer.SkipWhitespace | cjson/src/cJSON.c:1031-1055 | the loop with its step back is SkipSpace |
| CJsonParser.ParseBuffer.SkipUtf8Bom | cjson/src/cJSON.c:1057-1070 | skips the mark only in texts longer than four bytes |
| CJsonParser.ParseBuffer.ParseNumber | cjson/src/cJSON.c:302-376 | copies at most 63 number characters and advances by what strtod took |
| CJsonParser.ParseBuffer.FindClosingQuote | cjson/src/cJSON.c:779-800 | pass one: the closing quote and the number of skipped bytes |
| CJsonParser.ParseBuffer.UnescapeInto | cjson/src/cJSON.c:812-867 | pass two writes exactly the unescaped bytes into the buffer pass one sized |
| CJsonParser.ParseBuffer.Utf16LiteralToUtf8 | cjson/src/cJSON.c:645-763 | the bytes for one escape or surrogate pair, or nothing written on a bad one |
| CJsonParser.EncodeUtf8 | cjson/src/cJSON.c:722-752 | the loop that fills the bytes from the back writes the UTF-8 of the code point |
| CJsonParser.ParseBuffer.ParseHex4 | cjson/src/cJSON.c:608-642 | the loop yields the hexadecimal value, or 0 at a bad digit |
| CJsonParser.ParseBuffer.ParseString | cjson/src/cJSON.c:766-892 | both passes together are ParseString |
| CJsonParser.ParseBuffer.ParseValue | cjson/src/cJSON.c:1305-1357 | cursor, depth and result are those of the grammar |
| CJsonParser.ParseBuffer.ParseArray | cjson/src/cJSON.c:1434-1529 | the same; depth is restored on success |
| CJsonParser.ParseBuffer.ParseObject | cjson/src/cJSON.c:1594-1704 | the same; depth is restored on success |
| CJsonPrinter.PrintPreallocated | cjson/src/cJSON.c:1285-1302 | succeeds exactly when the buffer holds the rendered text plus two bytes, and then holds it with its terminator |
| CJsonPrinter.Print | cjson/src/cJSON.c:1180-1243 | the text of a tree is its rendering |
| CJsonPrinter.PrintBuffer.Ensure | cjson/src/cJSON.c:436-519 | room for what is needed, in a buffer of twice that or of INT_MAX bytes where it has to grow; the bytes up to and with the one at the offset are kept; refused, and nothing changed, beyond that |
| CJsonPrinter.PrintBuffer.UpdateOffset | cjson/src/cJSON.c:522-532 | the offset catches up with the C string behind it |
| CJsonPrinter.PrintBuffer.PrintValue | cjson/src/cJSON.c:1360-1431 | on success the text before the offset and the C string at it are the old text and the rendering |
| CJsonPrinter.PrintBuffer.PrintStringPtr | cjson/src/cJSON.c:895-1014 | writes exactly the length its counting pass found |
| CJsonPrinter.PrintBuffer.CountEscapes | cjson/src/cJSON.c:913-943 | the counting pass finds the length of the escaped text |
| CJsonPrinter.PrintBuffer.PrintNumber | cjson/src/cJSON.c:542-605 | an integer below 10^15 in size is printed as its digits |
| CJsonPrinter.PrintBuffer.PrintArray | cjson/src/cJSON.c:1532-1591 | array text through every reallocation |
| CJsonPrinter.PrintBuffer.PrintObject | cjson/src/cJSON.c:1707-1818 | object text with its layout through every reallocation |
| CJsonRender.RenderNulFree | cjson/src/cJSON.c:1360-1818 | the text of a tree holds no NUL |
| CJsonLayout.FormattedLayout | cjson/src/cJSON.c:1532-1818 | the formatted text is the unformatted one laid out by a byte scanner of its own: a space behind the commas of arrays, a line and its tabs for every member, a tab behind colons; the unformatted text has nothing at or below a space outside strings |
| CJsonLayout.EscapeShortest | cjson/src/cJSON.c:895-1014 | no literal of the grammar that means a string is shorter than the printed one |
| CJsonLayout.ControlEscaped | cjson/src/cJSON.c:993-1006 | control characters without a letter are printed as four digits in lower case |
| CJsonLayout.CutAtNul | cjson/src/cJSON.c:895-1014 | texts and names are printed, and come back, up to their first NUL |
| CJsonLayout.Nameless | cjson/src/cJSON.c:1707-1818 | a missing name is printed, and comes back, as the empty one |
| CJsonNumber.IntegerDigits | cjson/src/cJSON.c:542-605 | a printed integer: its decimal digits by repeated division, no leading zero, a minus sign iff it is negative |
| CJsonList.RunEdits | cjson/src/cJSON.c:1921-2332 | over any run of append, insert, detach and replace with admissible items the list stays well linked and is the same edits on a plain sequence |
| CJsonList.EditsConserve | cjson/src/cJSON.c:1921-2332 | no run of edits loses or duplicates an item |
| CJsonList.AddItemToArray | cjson/src/cJSON.c:1949-1980 | appends, finding the tail through the head; refuses null and the parent itself |
| CJsonList.DetachItemViaPointer | cjson/src/cJSON.c:2180-2214 | removes the item and clears its links |
| CJsonList.DetachItemFromArray | cjson/src/cJSON.c:2216-2224 | removes the item at a valid place, otherwise changes nothing |
| CJsonList.InsertItemInArray | cjson/src/cJSON.c:2256-2282 | inserts before the place, or appends behind the end, where a null item is refused |
| CJsonList.ReplaceItemViaPointer | cjson/src/cJSON.c:2285-2332 | puts the replacement in the place of the item |
| CJsonList.ReplaceItemInArray | cjson/src/cJSON.c:2334-2342 | the same by place, for valid places only |
| CJsonList.Unlink | cjson/src/cJSON.c:2187-2213 | which links the surgery of a detach changes, and that it changes no other |
| CJsonList.LinkBefore | cjson/src/cJSON.c:2263-2281 | the same for an insertion |
| CJsonList.LinkInstead | cjson/src/cJSON.c:2297-2331 | the same for a replacement, the one-item list included |
| CJsonList.GetArraySize | cjson/src/cJSON.c:1821-1842 | the number of children |
| CJsonList.GetArrayItem | cjson/src/cJSON.c:1844-1871 | the child at a place, null outside |
| CJsonList.ApplyEdit | cjson/src/cJSON.c:1921-2332 | one edit on a list whose free items all stay free to be linked in |
| CJsonList.EditedPlaces | cjson/src/cJSON.c:1921-2342 | item by item what each edit makes of the sequence, and which edits change nothing |
| CJsonList.EditUndone | cjson/src/cJSON.c:2180-2342 | detaching undoes inserting, inserting undoes detaching, replacing undoes replacing |
| CJsonCompare.SameSymmetric | cjson/src/cJSON.c:2974-3097 | comparison gives the same answer in both orders, on any two trees |
| CJsonCompare.SameMeaning | cjson/src/cJSON.c:2974-3097 | on integer payloads two trees compare equal iff both are coherent and mean the same, member order aside |
| CJsonCompare.DistinctSame | cjson/src/cJSON.c:2974-3097 | with distinct keys comparison is recursive equality of the key-to-value maps |
| CJsonCompare.SameTransitive | cjson/src/cJSON.c:2974-3097 | comparison is transitive on integer payloads |
| CJsonCompare.DuplicateSame | cjson/src/cJSON.c:2694-2775 | a tree compares equal to its duplicate iff it is coherent; distinct keys suffice |
| CJsonCompare.RepeatedKeyDiffers | cjson/src/cJSON.c:3064-3091 | two values under one key: the tree is not equal to its own duplicate |
| CJsonCompare.DuplicateMeans | cjson/src/cJSON.c:2694-2775 | a duplicate means the same |
| CJsonCompare.LookupFinds | cjson/src/cJSON.c:1873-1903 | the search finds a member iff the map has the key, and finds its value |
| CJsonCompare.SameInteger | cjson/src/cJSON.c:535-539 | the tolerance of compare_double decides equality of integers below 10^15 |
| CJsonCompare.Compare | cjson/src/cJSON.c:2974-3097 | the loops over items and members decide Same |
| CJsonCompare.GetObjectItem | cjson/src/cJSON.c:1873-1903 | both search loops, with the stop at a nameless member in the case-sensitive one |
| CJsonCompare.DuplicateTree | cjson/src/cJSON.c:2694-2775 | the copy loop builds the duplicate |
| CJsonCompare.LookupFirst | cjson/src/cJSON.c:1873-1903 | the member found is the first whose C string matches, byte for byte or up to the case of ASCII letters, unless in the case-sensitive search a nameless member comes first |
| CJsonCompare.OneMemberSame | cjson/src/cJSON.c:3064-3091 | objects of one member are equal iff their keys match so and their values are equal |
| CJsonCompare.SlimSame | cjson/src/cJSON.c:2974-3097 | on ordinary integer trees whose objects have at most one member, case-sensitive comparison is plain equality |
| CJsonCompare.ToleratedDifference | cjson/src/cJSON.c:535-539 | two numbers of one scale are equal iff they differ by at most the 2^52-th part of the larger |
| CJsonCompare.ScaledNumber | cjson/src/cJSON.c:535-539 | a digit more or a place less is the same number |
| CJsonCompare.PlainDuplicate | cjson/src/cJSON.c:2694-2775 | a deep copy of a tree without NULs is that tree, a flat copy of a container is empty |
| CJsonMinify.Minify | cjson/src/cJSON.c:2826-2872 | the in-place scan leaves the minified text, its terminator and the old bytes behind it; writing never overtakes reading |
| CJsonMinify.MinifyIdempotent | cjson/src/cJSON.c:2777-2872 | minifying twice is minifying once, on every C string |
| CJsonMinify.MinifyStrips | cjson/src/cJSON.c:2777-2872 | the result is what a byte automaton keeps: outside strings no tab, newline, return, space, slash or comment, and every other byte in order; inside strings all of it |
| CJsonMinify.MinifyBare | cjson/src/cJSON.c:2826-2872 | scanned again from outside a string, the result has none of these bytes outside strings |
| CJsonMinifyTree.MinifyKeepsTree | cjson/src/cJSON.c:2777-2872 | a complete text parses to the same tree after minifying unless a literal read out of step holds a blank or a slash before its first quote |
| CJsonMinifyTree.MinifiedTree | cjson/src/cJSON.c:2777-2872 | where literals lose nothing but single blanks and slashes, the minified text parses, and to the same tree iff none is lost |
| CJsonMinifyTree.NeverOutOfStep | cjson/src/cJSON.c:2804-2824 | a text none of whose literals ends in an escaped backslash is read in step throughout |
| CJsonMinifyTree.WholeCopied | cjson/src/cJSON.c:2804-2872 | a literal read out of step with no blank or slash before its first quote is copied byte for byte |
| CJsonMinifyTree.LeftShorter | cjson/src/cJSON.c:2833-2851 | each blank or slash lost makes the string shorter, so it is noticed |
| CJsonMinifyTree.FinalBackslashBreaks | cjson/src/cJSON.c:2804-2824 | every literal that does end so has a text around it whose tree minifying changes |
| CJsonMinifyTree.StringKept | cjson/src/cJSON.c:2804-2824 | a string whose body does not end in a backslash is copied up to the quote the parser closes it at |
| CJsonMinifyTree.StringRunsOn | cjson/src/cJSON.c:2804-2824 | otherwise the closing quote is taken for an escaped one and the scan stays inside the string |
| CJsonMinifyTree.ValueMinified | cjson/src/cJSON.c:2826-2872 | whatever value the parser reads at a place it reads there in the minified text, with the same value iff no literal lost anything; the rest is the minified rest |
| CJsonMinify.SkipOnelineComment | cjson/src/cJSON.c:2777-2788 | ends behind the newline or at the terminator |
| CJsonMinify.SkipMultilineComment | cjson/src/cJSON.c:2790-2802 | ends behind the closing mark or at the terminator |
| CJsonMinify.MinifyString | cjson/src/cJSON.c:2804-2824 | one string copied down, backslash-quote pairs included |
| ZlogBuf.WriteAll | abup_log/zlog/src/buf.c:87-647 | after any run of writes from a restarted buffer the content depends on the concatenated pieces alone: all of them, or their first bytes up to the cap with as much of the marker as fits over the last of these, slice by slice; a cut is reported iff one happened |
| ZlogBuf.FinalStep | abup_log/zlog/src/buf.c:141-205 | cutting write by write is cutting once |
| ZlogBuf.PiecesJoin | abup_log/zlog/src/buf.c:207-647 | what two runs of writes add up to is what one run of both adds up to |
| ZlogBuf.AdjustedField | abup_log/zlog/src/buf.c:548-647 | a field byte by byte: the first bytes of the string, on the left or the right, and blanks, or zeros in front only |
| Digits.RadixDigit | abup_log/zlog/src/buf.c:280-284 | each digit, 0 to 9 and a to f, is the remainder after as many divisions |
| Digits.PaddedDigits | abup_log/zlog/src/buf.c:284-330 | zeros in front up to the width |
| ZlogBuf.Buf.Create | abup_log/zlog/src/buf.c:87-138 | refuses a zero minimum, a maximum below it and an overlong marker |
| ZlogBuf.Buf.Truncate | abup_log/zlog/src/buf.c:141-152 | as much of the marker as fits over the last bytes, the others kept |
| ZlogBuf.Buf.Resize | abup_log/zlog/src/buf.c:160-205 | grows by the policy, up to the cap; returns 1 iff the cap stopped it; keeps the text |
| ZlogBuf.Buf.Vprintf | abup_log/zlog/src/buf.c:207-264 | appends the expanded text, through the retry after growing |
| ZlogBuf.Buf.AppendStr | abup_log/zlog/src/buf.c:505-545 | appends the string |
| ZlogBuf.Buf.AdjustAppendStr | abup_log/zlog/src/buf.c:548-647 | appends at most the maximum width of the string, filled up to the minimum width on the right side |
| ZlogBuf.Buf.PutNumber | abup_log/zlog/src/buf.c:284-330 | appends zeros and digits, cutting the zeros last |
| ZlogBuf.Buf.PrintfDec32 | abup_log/zlog/src/buf.c:268-331 | appends the decimal digits with zeros up to the width |
| ZlogBuf.Buf.PrintfDec64 | abup_log/zlog/src/buf.c:333-422 | the same for 64 bits |
| ZlogBuf.Buf.PrintfHex | abup_log/zlog/src/buf.c:424-502 | the same in hexadecimal |
| ZlogBuf.DigitsOf | abup_log/zlog/src/buf.c:280-284 | the digit loop fills the scratch array from the back with the digits of the number and never runs out of it |
| ZlogBuf.CutFilled | abup_log/zlog/src/buf.c:595-627 | a cut field is the field of the cut parts |
| Digits.RadixDenotes | abup_log/zlog/src/buf.c:280-284 | the digits denote the number, without leading zeros |
| ZlogHashTable.HashTable.Put | abup_log/zlog/src/zc_hashtable.c:179-232 | the map with the key set to the value; the buckets double iff the key is new and they hold more than 1.3 entries each |
| ZlogHashTable.HashTable.Get | abup_log/zlog/src/zc_hashtable.c:165-177 | the value of the key, if any |
| ZlogHashTable.HashTable.GetEntry | abup_log/zlog/src/zc_hashtable.c:151-163 | the entry of the key, if any |
| ZlogHashTable.HashTable.Remove | abup_log/zlog/src/zc_hashtable.c:234-278 | the map without the key |
| ZlogHashTable.HashTable.Clean | abup_log/zlog/src/zc_hashtable.c:91-112 | the empty map |
| ZlogHashTable.HashTable.Rehash | abup_log/zlog/src/zc_hashtable.c:114-149 | twice the buckets, the same entries and map |
| ZlogHashTable.HashTable.ForEach | abup_log/zlog/src/zc_hashtable.c:280-312 | begin and next visit every entry once: one per key, as many as the table counts |
| ZlogHashTable.HashTable.Begin | abup_log/zlog/src/zc_hashtable.c:280-293 | the first entry of the walk, null iff there is none |
| ZlogHashTable.HashTable.Next | abup_log/zlog/src/zc_hashtable.c:295-312 | the entry after a given one, by its cached hash |
| ZlogHashTable.PushFront | abup_log/zlog/src/zc_hashtable.c:133-141 | head insertion keeps next and prev inverse |
| ZlogHashTable.Unlink | abup_log/zlog/src/zc_hashtable.c:262-273 | removal keeps next and prev inverse and the other buckets untouched |
| ZlogHashTable.MoveBucket | abup_log/zlog/src/zc_hashtable.c:128-143 | one old bucket relinked into the new table |
| ZlogHashTable.UniqueKey | abup_log/zlog/src/zc_hashtable.c:179-195 | two entries with one key are one entry |
| ZlogHashTable.FlatNodes | abup_log/zlog/src/zc_hashtable.c:280-312 | the walk order holds each entry once |
| ZlogHashTable.OnePerKey | abup_log/zlog/src/zc_hashtable.c:280-312 | a walk with one entry per key is as long as the map is large |
| ZlogArrayList.SortedAllStable | abup_log/zlog/src/zc_arraylist.c:118-132 | adding elements one by one with sortadd gives a sorted permutation that keeps the order of equal elements |
| ZlogArrayList.InsertStable | abup_log/zlog/src/zc_arraylist.c:118-132 | one sorted insert puts the element behind its equals |
| ZlogArrayList.SetHasRoom | abup_log/zlog/src/zc_arraylist.c:58-90 | setting a place gets room for it iff the place is below twice the old size |
| ZlogArrayList.ArrayList.SortAdd | abup_log/zlog/src/zc_arraylist.c:118-132 | the search loop and the insertion are the sorted insert |
| ZlogArrayList.ArrayList.ExpandInner | abup_log/zlog/src/zc_arraylist.c:58-75 | doubles, or grows to what is asked for if that is more; keeps the elements, clears the rest |
| ZlogArrayList.ArrayList.Set | abup_log/zlog/src/zc_arraylist.c:77-90 | stores the element; places skipped over stay null |
| ZlogArrayList.ArrayList.Add | abup_log/zlog/src/zc_arraylist.c:92-95 | appends; there is always room |
| ZlogArrayList.ArrayList.InsertInner | abup_log/zlog/src/zc_arraylist.c:98-116 | fills a null place, otherwise moves the rest up |
| ZlogRotater.RunRolling | abup_log/zlog/src/rotater.c:285-345 | over any run of rolling rotations from no archives, archive k holds the (k+1)-th latest content, at most max_count are kept and no file was overwritten |
| ZlogRotater.RunSequence | abup_log/zlog/src/rotater.c:232-282 | over any run of sequence rotations from no archives, rotation n makes archive n, at most max_count + 1 are kept and no file was overwritten |
| ZlogRotater.Rotater.RollFiles | abup_log/zlog/src/rotater.c:285-345 | in any directory, names with one number and files that are no archives included: never fails, overwrites a file iff an earlier archive in the list has the name of a later place, and otherwise moves every kept archive to the number of its place plus one |
| ZlogRotater.Rotater.ShiftFiles | abup_log/zlog/src/rotater.c:294-325 | the loop from the last archive down, with the exact condition for an overwritten file |
| ZlogRotater.Rotater.SeqFiles | abup_log/zlog/src/rotater.c:232-282 | in any directory: the new number is above all others, the archives of the lowest numbers go, nothing is overwritten |
| ZlogRotater.Rotater.TrimFiles | abup_log/zlog/src/rotater.c:240-251 | unlinks exactly the archives beyond max_count |
| ZlogRotater.Rotater.Rotate | abup_log/zlog/src/rotater.c:529-573 | nothing happens without the locks or while the next message still fits; otherwise the archives move as in the two ways of rotating |
| ZlogRotater.AddArchiveFiles | abup_log/zlog/src/rotater.c:131-230 | whatever the order of the listing, the list holds all archives and nothing else in order of their numbers, repeated ones too |
| ZlogRotater.SortedLists | abup_log/zlog/src/rotater.c:176-230 | the sorted list of a listing without repetitions is ordered by number, without repetitions and complete |
| ZlogRotater.PathReadsBack | abup_log/zlog/src/rotater.c:154-164 | the number of a formatted archive name is read back with at least the width, unless the name goes on with a digit |
| ZlogRotater.NoGapNoClash | abup_log/zlog/src/rotater.c:294-325 | without a gap in the numbers no file is overwritten, even where numbers repeat, as the comment in the loop expects |
| ZlogRotater.GapClashes | abup_log/zlog/src/rotater.c:294-325 | of archives 2 and 9 the second takes the name of the first |
| ZlogRotater.RollOnce | abup_log/zlog/src/rotater.c:285-345 | one rolling step of the history, without a clash |
| ZlogRotater.SeqOnce | abup_log/zlog/src/rotater.c:232-282 | one sequence step of the history; the new number is the count of rotations |
| ZlogRule.NewRule | abup_log/zlog/src/rule.c:642-690 | the bitmap says level by level what the rule would output |
| ZlogRule.BuildBitmap | abup_log/zlog/src/rule.c:672-690 | the four ways of filling it, bit arithmetic included |
| ZlogRule.LevelCase | abup_log/zlog/src/rule.c:672-690 | one level of the bitmap |
| ZlogRule.MatchCategory | abup_log/zlog/src/rule.c:1012-1040 | a rule fits by star, by name, or by the name with a trailing underscore |
| ZlogRule.RuleNames | abup_log/zlog/src/rule.c:1012-1040 | a star is for every category, a name for itself, and a name with a trailing underscore for the name before it and for all that start with the whole of it |
| ZlogRule.RuleMarks | abup_log/zlog/src/rule.c:642-690 | by the byte in front of its level a rule lets through everything, that level, all others, or that level and above, and just these levels have their bit |
| ZlogCategory.Category.ObtainRules | abup_log/zlog/src/category.c:57-112 | the matching rules in order or else the last wastebin rule, and a bitmap that agrees with them; fails iff memory runs out before the last of them is added, and then no rules are left |
| ZlogCategory.Category.OverlapBitmap | abup_log/zlog/src/category.c:49-55 | the byte loop adds exactly the levels of the rule |
| ZlogCategory.OrAgrees | abup_log/zlog/src/category.c:49-55 | or-ing bitmaps is joining rules |
| ZlogCategory.OutputtingWanted | abup_log/zlog/src/category.c:221-233 | evaluating the rules outputs something iff the level is wanted |
| ZlogCategory.MatchingJoin | abup_log/zlog/src/category.c:57-112 | the rules that match come in their order, of any rules one after the other |
| ZlogCategory.MatchingOne | abup_log/zlog/src/category.c:57-112 | a rule on its own matches iff it fits the category |
| ZlogCategory.WastebinLast | abup_log/zlog/src/category.c:57-112 | without a match a category gets the last wastebin rule |
| ZlogCategory.NoWastebin | abup_log/zlog/src/category.c:57-112 | without a match or a wastebin rule a category gets none |
| ZlogCategory.OutputtingJoin | abup_log/zlog/src/category.c:221-233 | the rules that output come in their order |
| ZlogCategory.OutputtingOne | abup_log/zlog/src/category.c:221-233 | a rule on its own outputs iff its level and mark let the message through |
| ZlogCategory.Category.Log | abup_log/zlog/src/zlog.c:624-660 | the bitmap test changes nothing: the output is that of evaluating every fit rule |
| ZlogCategory.Category.Output | abup_log/zlog/src/category.c:221-233 | the rules that output, in order |
| ZlogCategory.Category.UpdateRules | abup_log/zlog/src/category.c:148-170 | the old state is the backup whether or not the new rules could be obtained, and when they could not |
| ZlogCategory.Category.CommitRules | abup_log/zlog/src/category.c:174-187 | drops the backup |
| ZlogCategory.Category.RollbackRules | abup_log/zlog/src/category.c:192-217 | the backup is the state again |
| ZlogCategory.RollbackRestores | abup_log/zlog/src/category.c:148-217 | rollback undoes an update wherever it stopped |
| ZlogCategoryTable.CategoryTable.UpdateAndRollback | abup_log/zlog/src/category_table.c:57-97 | wherever a table update stops, rolling back restores the rules and bitmap of every category |
| ZlogCategoryTable.CategoryTable.UpdateAndCommit | abup_log/zlog/src/category_table.c:57-84 | settles every category under the new rules iff memory suffices for all of them; otherwise a category is left without rules |
| ZlogCategoryTable.CategoryTable.UpdateRules | abup_log/zlog/src/category_table.c:57-71 | every category is untouched or keeps its old state as backup; the update fails iff memory does not suffice for some category, and then a category has no rules |
| ZlogCategoryTable.CategoryTable.RollbackRules | abup_log/zlog/src/category_table.c:86-97 | every category with a backup gets it back |
| ZlogCategoryTable.CategoryTable.CommitRules | abup_log/zlog/src/category_table.c:73-84 | every category drops its backup |
| ZlogCategoryTable.CategoryTable.FetchCategory | abup_log/zlog/src/category_table.c:100-127 | finds the category or makes one settled under the rules; null iff there is none, and the name is too long or memory runs out; names stay distinct |
| ZlogEnv.Run | abup_log/zlog/src/zlog.c:67-454 | any interleaving of init, reload, fini, get_category and log calls, with whatever memory, keeps the invariant (categories settled under the current rules, one configuration per version, every thread fit for the configuration of its version) until a due reload of a good configuration lacks the memory for some category |
| ZlogEnv.DoStep | abup_log/zlog/src/zlog.c:67-454 | one call keeps the invariant iff it is not such a reload; versions never go back and keep their configuration |
| ZlogEnv.Env.Init | abup_log/zlog/src/zlog.c:67-157 | success uses a version never used before; a second call, or a configuration that cannot be built, is refused and leaves configuration, categories and threads as they were |
| ZlogEnv.Env.Reload | abup_log/zlog/src/zlog.c:211-298 | a configuration that cannot be built changes nothing; success, which takes memory for the rules of every category, installs the new one under a fresh version; a lack of it is the one thing that breaks the environment, in spite of the old configuration being kept |
| ZlogEnv.Env.BrokenNotValid | abup_log/zlog/src/zlog.c:258-298 | a category without rules breaks the invariant of the environment |
| ZlogEnv.Env.Fini | abup_log/zlog/src/zlog.c:300-327 | back to uninitialised, threads untouched |
| ZlogEnv.Env.FetchThread | abup_log/zlog/src/zlog.c:417-454 | a thread that gets through has the buffer limits, time cache count and version of the current configuration |
| ZlogEnv.Env.Log | abup_log/zlog/src/zlog.c:624-679 | a log call outputs what the fit rules of the current configuration output, through buffers of that configuration |
| ZlogEnv.Env.GetCategory | abup_log/zlog/src/zlog.c:329-372 | the category of that name, settled under the current rules; null iff there is none and none can be made |
| ZlogEnv.Thread.RebuildMsgBuf | abup_log/zlog/src/thread.c:127-162 | both buffers get the new limits, or neither changes |
| ZlogEnv.NewThread | abup_log/zlog/src/thread.c:64-124 | a thread fit for the configuration: limits, marker and cache count; refused for bad buffer sizes |
| AdmQueue.Queue.GenericSend | os/src/adm_os_queue.c:387-451 | sends behind, in front of or over the queue, refuses when full, and keeps a ring exactly in the orderly cases |
| AdmQueue.Queue.GenericRecv | os/src/adm_os_queue.c:454-504 | takes the front message, or fails unchanged on an empty queue |
| AdmQueue.Queue.CopyDataToList | os/src/adm_os_queue.c:71-141 | pointer by pointer; an overwrite of a longer queue that holds something leaves no ring |
| AdmQueue.Queue.CopyDataFromList | os/src/adm_os_queue.c:144-168 | copies out and clears the front slot |
| AdmQueue.Queue.GenericReset | os/src/adm_os_queue.c:57-69 | an empty ring, writing at its head and reading behind its last slot |
| AdmQueue.Queue.constructor | os/src/adm_os_queue.c:321-384 | an empty ring of the given length and item size, writing at its head and reading behind its last slot |
| AdmQueue.Queue.NoRing | os/src/adm_os_queue.c:101-137 | after such an overwrite no front fits the pointers |
| AdmQueue.Run | os/src/adm_os_queue.c:387-504 | any interleaving of back sends and receives is that run of a plain bounded queue |
| AdmQueue.FirstInFirstOut | os/src/adm_os_queue.c:387-504 | each accepted message is delivered once and in order, or still waiting |
| AdmQueue.FrontThenReceive | os/src/adm_os_queue.c:387-504 | what is sent to the front is received next, and the queue is as before |
| AdmQueue.InsertedPlace | os/src/adm_os_queue.c:71-141 | behind the others at position 0, before them at position 1, in place of at most one at position 2 |
| AdmQueue.WriteSlot | os/src/adm_os_queue.c:84-97 | writing one slot changes that slot and no other |
| CurlBase64.DecodeEncode | curl/curl-7.76.0/lib/base64.c:53-279 | decoding undoes encoding, with the exact length |
| CurlBase64.DecodeAccepts | curl/curl-7.76.0/lib/base64.c:107-176 | the decoder accepts exactly the padded texts over the standard alphabet (section 4 of RFC 4648) |
| CurlBase64.EncodeDecode | curl/curl-7.76.0/lib/base64.c:53-279 | encoding undoes decoding iff the bits the padding cuts off are zero |
| CurlBase64.AlphabetTable | curl/curl-7.76.0/lib/base64.c:44-46 | a byte has a value iff it stands in the table of the standard, and the value is its place there |
| CurlBase64.GroupOfThree | curl/curl-7.76.0/lib/base64.c:53-279 | three bytes and the four letters of the same 24 bits are written and read as each other, in front of anything |
| CurlBase64.GroupOfTwo | curl/curl-7.76.0/lib/base64.c:53-279 | two bytes are written with two zero bits and a pad; whatever these two bits are, they are dropped when read |
| CurlBase64.GroupOfOne | curl/curl-7.76.0/lib/base64.c:53-279 | the same for one byte, four bits and two pads |
| CurlBase64.Base64Decode | curl/curl-7.76.0/lib/base64.c:107-176 | the code accepts and produces what Decode says, inside the buffer it sized |
| CurlBase64.Base64Encode | curl/curl-7.76.0/lib/base64.c:178-279 | the code produces what Encode says, inside the buffer it sized; size 0 means a C string |
| CurlBase64.DecodeQuantum | curl/curl-7.76.0/lib/base64.c:53-91 | one group of four characters, 0 iff a character is foreign |
| CurlBase64.EncodeRound | curl/curl-7.76.0/lib/base64.c:214-262 | up to three bytes become four characters |
| AdmTime.FromTimestamp | os/src/adm_os_time.c:86-123 | the date is the Gregorian one of the UTC day exactly up to the end of year 65535; the hour is shifted by 8 without a day carry |
| AdmTime.DateUnique | os/src/adm_os_time.c:86-123 | no two dates share a day |
| AdmTime.DaysBeforeYearClosed | os/src/adm_os_time.c:95-107 | the year loop counts days by the leap year rule |
| AdmTime.DayNumberClosed | os/src/adm_os_time.c:86-123 | the day of a date is that of the closed formula for the Gregorian calendar with years that begin in March |
| AdmTime.MonthTable | os/src/adm_os_time.c:84-114 | which months have 31 and 30 days, and when February has 29 |
| AdmTime.NoDayCarry | os/src/adm_os_time.c:119 | read as a time eight hours east of UTC the date is right iff the UTC hour is below 16 |
| AdmTime.YearLoop | os/src/adm_os_time.c:94-107 | what is left is a day of the year reached, with the 16-bit wrap of the year |
| AdmTime.MonthLoop | os/src/adm_os_time.c:109-119 | what is left is a day of the month reached |

## Left out

- CJsonMinifyTree.MinifiedTree: texts in which a literal read out of step loses something and is malformed (section 7 of RFC 8259), or loses a comment or the slash of an escape, are settled in one direction only, by MinifyKeepsTree: it is open whether several such losses can ever cancel out in the tree.
- CJsonParser.ParseWithOpts: builds the tree as a value; the links between its nodes are the subject of CJsonList. The entry with an explicit length and no terminator is not modelled.
- CJsonParser.ParseBuffer.ParseNumber: the decimal is exact; rounding by strtod, saturation of valueint, negative zero and locale decimal points are not modelled.
- CJsonPrinter.PrintBuffer.PrintNumber: integers below 10^15 in size only; `%1.17g`, NaN and infinities are not modelled.
- CJsonCompare.SameMeaning: integer payloads; on other numbers the tolerance is symmetric (SameSymmetric covers them) but not transitive. The shortcut for identical pointers is not modelled, as trees are values.
- CJsonList.InsertItemInArray: at a place inside the list the new item is not null; the code would dereference it.
- CJsonList.ReplaceItemViaPointer: the release of the replaced item is not modelled; its links are cleared.
- ZlogBuf.Buf.PutNumber: the width is not negative; the code would make a huge length of a negative one and fill memory without end, and every caller passes a constant.
- ZlogHashTable.HashTable.Put: keys are values, so replacing the key pointer of an entry by an equal key changes nothing; the callbacks that release keys and values are not modelled.
- ZlogRotater.Rotater.RollFiles: a name is what it is taken for, with its number; that formatting and scanning a number agree is PathReadsBack. Numbers at the upper end of an int and failing system calls are not modelled.
- ZlogEnv.Env.Reload: the configuration file is read elsewhere; the result of building it, and whether the automatic reload is due, are parameters.
- ZlogEnv.Env.Log: formatting the event and writing it out are not modelled; the rules that output are.
- AdmQueue.Queue.GenericSend: a null item is modelled at the level of the pointers and the count only.
- Raw JSON items, reference and constant-key flags, allocator hooks, parent-less helper constructors: they add easy members only.
- Memory exhaustion, except where a table update may stop at any allocation.
- The default category, mapped diagnostic contexts, records, syslog, pipes, file descriptors and strftime caches of zlog.
- `zlog_level_switch`, which overrides the bitmap on purpose, and counters that are changed without a lock.
- Queue sets and the stubbed event lists of the queue; the value of the peek flag, which the code ignores.
- The URL alphabet of base64, which differs from the standard one in two characters.
- HTTP, the demo's own reporting code and the rest of curl.
