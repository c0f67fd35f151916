# GrammarParser front end in Dafny

This project models the C front end of a small grammar description language. The language has `%NAME = ... ;` declarations. The model proves properties of the front end's core. The core turns a source text into a list of string items, builds token and rule tables from that list, then links the names those declarations reference. The containers it runs on are modelled as well: a singly linked list with a splicing iterator, a separate-chaining hash table and a hash set with union.

Two generations of the code coexist in the repository. Both are modelled as their C text reads, except for the corrected behaviours listed under "## Findings" and "## Left out": the placement of items after a newline inside an item, the hash table's default key comparison, the `back` pointer after an insertion at the end of a list, and the extraction's copy buffer and closing-backtick search.

- **`prs_*` generation:** `src/parser.c`, `src/range.c` and `src/collections/*`.
  - Its items carry a line and a column.
  - Duplicate declarations are rejected.
  - Resolution writes links.
- **`lex_*` generation:** `src/lexer.c`, `src/formal_grammar.c`, `src/linked_list.c` and `src/set.c`.
  - Its items are plain strings.
  - A repeated name overwrites the earlier entry.
  - `lex_resolveSymbols` only checks that names exist.

## Modules

| module | file | models |
|---|---|---|
| `Options` | options.dfy | the option type |
| `CType` | ctype.dfy | the `ctype.h` classes |
| `Errors` | errors.dfy | the error enumerations |
| `StringUtils` | string_utils.dfy | `src/string_utils.c`: C strings as the prefix before the first NUL. `str_removeWhitespaces` and `str_removeMultipleSpaces` are methods writing into a caller's `array<char>`. `str_splitItems` appends to a list value. |
| `Ranges` | range.dfy | `src/range.c` |
| `LexRanges` | lexer_ranges.dfy | the range helpers of `src/lexer.c`. Ranges hold pointers into the two static tables, as offsets. |
| `Extraction`, `Delimiters` | extraction.dfy, delimiters.dfy | the specification functions of item extraction and delimiter splitting |
| `ParserItems`, `LexerItems` | parser_items.dfy, lexer_items.dfy | the `prs_`/`lex_` extraction and delimiter-splitting loops, as methods proved against those functions |
| `Positions` | positions.dfy | `prs_computeItemsPosition` and `prs_stringItemEquals` |
| `FormalGrammar` | formal_grammar.dfy | `fg_extractToken` and `fg_freeToken`: a `Token` class whose fields the extraction fills step by step |
| `Grammars`, `LexerGrammar` | grammar.dfy, lexer_grammar.dfy | the declaration parsers, over a `Grammar` class |
| `Resolution` | resolve.dfy | the resolution of both generations |
| `LinkedLists` | linked_list.dfy | the node-level model of both list files, and the list and iterator classes |
| `HashTables` | hash_table.dfy | `src/hash_table.c` |
| `Sets` | sets.dfy | both set files |

Conventions of the model:

- **Item lists.** The pipeline's item lists are sequence values, and an iterator is an index into them.
- **Grammar.** The grammar is a class holding two maps, from name to token and from name to rule, plus the entry rule's name.
- **Links.** A resolved link is recorded as the name it points to. This makes self- and mutual recursion representable without pointers.
- **Error state.** The process-wide error state of `prs_setErrorState` is an explicit `Option<StringItem>` threaded through each result.
- **Linked list nodes.** The list is modelled twice:
  - an arena of nodes, with `next` as an index and `-1` as NULL;
  - classes over that arena.

  On the arena, the pointer updates of `ll_pushBack`, `ll_iteratorInsert` and `ll_removeItem` are proved to splice the abstract sequence.

Behaviour kept as written, and proved about:

- The ranges of `prs_extractRanges` are counted on the whitespace-stripped text but read from the unstripped input (`Ranges.SpacedTripleRejected`).
- Its count 1 is indistinguishable from `PRS_INVALID_CHAR_RANGE` (`Ranges.CountCollidesWithErrorCode`).
- A backtick block that starts exactly at the scan position is skipped, not emitted. The extraction functions follow the loop's branches.
- `prs_splitDelimiters` sets `line` to -1 on the item it cuts, and the new item has no position (`ParserItems.SplitItemPositions`). The new item's `line` is uninitialised in C; the model gives it -1.
- Within one rule, resolution walks every alternative and reports the code of the last one that failed (`Resolution.ResolveRuleItems`).
- `fg_extractToken` leaves the `;` after `+` or `?` unread. The `lex_` parser then stops on it (`LexerGrammar.QuantifiedTokenStops`).
- `lex_RangeQuantifier` has no negative enumerator, so `quantifier >= 0` always holds. A token ended by `;` therefore has the unsigned -1 written into every range (`Unset`).
- `lex_resolveSymbols` writes no link and returns the same code as `prs_resolveSymbols` (`LexerGrammar.LexResolveSymbols`).

Some repository tests target the other generation and are not followed:
- test/test_formal_grammar.cpp:27-35 expects `FG_TOKEN_MISSING_END` for the value `FUNC`. `src/formal_grammar.c:51-53` returns `FG_TOKEN_UNKNOWN_VALUE_TYPE` (`FormalGrammar.UnknownValueType`).
- test/test_lexer.cpp:378-390 expects links, which `src/lexer.c` never writes.

Callees whose bodies are not part of this model are parameters. `fg_extractRule`, and with it `fg_extractProductionRule` and `fg_extractPRItem`, becomes a function-typed parameter. Its only assumption is that it moves the iterator forward and not past the end. The `fg_extractToken` called by `prs_parseGrammarItems` takes `prs_StringItem` lists, so it is a parameter too; it is also assumed to name the token on success. The hash function of a table is a field of the table. `ht_hashString` is modelled as the one-at-a-time hash in 32-bit arithmetic with a signed `char`, over strings taken as byte strings: each character stands for one byte, its code point modulo 256.

## Model

| member | source | states |
|---|---|---|
| CType.ToLower | src/range.c:45-46 | an upper-case letter maps to the lower-case letter 32 code points above it, any other character to itself |
| StringUtils.CString | src/string_utils.c:36-39 | the characters a C string routine sees are a NUL-free prefix of the buffer, ended by the first NUL or by the buffer's end |
| StringUtils.DigitCount | src/string_utils.c:19-24 | a natural number has at least one decimal digit |
| StringUtils.DigitCountBounds | src/string_utils.c:19-24 | the digit count d of m satisfies m < 10^d and, when d > 1, 10^(d-1) <= m |
| StringUtils.NumberLength | src/string_utils.c:9-25 | str_numberLength returns the number of decimal digits of n, plus one for the minus sign when n < 0, for every int other than INT_MIN |
| StringUtils.StripWhitespace | src/string_utils.c:40-43 | the stripped string is no longer than its input and holds no whitespace |
| StringUtils.StripWhitespaceAppend | src/string_utils.c:36-45 | stripping distributes over concatenation, so the copy loop can strip one character at a time |
| StringUtils.StripWhitespaceIdentity | src/string_utils.c:40-43 | stripping leaves a string unchanged exactly when it holds no whitespace |
| StringUtils.StripWhitespaceNoNul | src/string_utils.c:37-43 | stripping never introduces a NUL |
| StringUtils.CStringNoNul | src/string_utils.c:36-39 | a buffer without NUL is its own C string |
| StringUtils.StripStep | src/string_utils.c:40-44 | one turn of the copy loop: the character is appended unless it is whitespace |
| StringUtils.CStringAt | src/string_utils.c:37-39 | the early exit of the copy loop happens exactly at the first NUL |
| StringUtils.RemoveWhitespaces | src/string_utils.c:27-48 | str_removeWhitespaces writes the non-whitespace characters before the first NUL or `length`, in order, returns their count and writes nothing else |
| StringUtils.CollapseSpaces | src/string_utils.c:59-71 | the collapse is no longer than its input and its only whitespace character is ' ' |
| StringUtils.CollapseSpacesHead | src/string_utils.c:59-71 | the collapse is empty exactly when its input is, and starts with whitespace exactly when its input does |
| StringUtils.CollapseSpacesNoAdjacent | src/string_utils.c:60-70 | the output of str_removeMultipleSpaces never holds two whitespace characters in a row |
| StringUtils.CollapseSpacesKeepsText | src/string_utils.c:64-70 | collapsing keeps every non-whitespace character, in order |
| StringUtils.CollapseSpacesIdempotent | src/string_utils.c:59-71 | collapsing twice is collapsing once |
| StringUtils.CollapseSpacesExamples | test/test_string_utils.cpp:60-88 | `" \n\t"` collapses to `" "` and `"  hello world  "` to `" hello world "` |
| StringUtils.NoRunsUnchanged | src/string_utils.c:59-71 | a string whose only whitespace is single spaces is its own collapse |
| StringUtils.CollapseSpacesStep | src/string_utils.c:60-70 | one character of input: a whitespace followed by whitespace is dropped, otherwise the character (whitespace as ' ') comes first |
| StringUtils.CollapseSkip | src/string_utils.c:60-62 | skipping a whitespace that another whitespace follows does not change the collapse of the rest |
| StringUtils.CollapseEmit | src/string_utils.c:64-70 | the write after the inner loop emits the next character of the collapse |
| StringUtils.SkipSpaceRun | src/string_utils.c:60-62 | the inner loop stops at a character that is not a whitespace followed by whitespace, and the collapse of what remains is unchanged |
| StringUtils.RemoveMultipleSpaces | src/string_utils.c:50-76 | str_removeMultipleSpaces writes the collapse of the first `length` characters, NUL-terminates it, returns its length and writes nothing past the terminator |
| StringUtils.Span | src/string_utils.c:102-104 | the index of the first separator, or the length: the prefix before it holds no separator |
| StringUtils.SpanUnique | src/string_utils.c:102-104 | any index with those two properties is the span |
| StringUtils.SplitOnStep | src/string_utils.c:102-119 | splitting at the first separator: the run before it, when non-empty, then the split of the rest |
| StringUtils.SplitOnSingle | src/string_utils.c:122-131 | a non-empty string without the separator is one item |
| StringUtils.SplitOnItems | src/string_utils.c:106-109 | no item str_splitItems appends is empty or holds the separator |
| StringUtils.Without | src/string_utils.c:102-131 | the string with its separators removed holds none |
| StringUtils.WithoutAppend | src/string_utils.c:102-131 | removing the separator distributes over concatenation |
| StringUtils.WithoutAbsent | src/string_utils.c:122-131 | a string without the separator is unchanged by removing it |
| StringUtils.WithoutAtSeparator | src/string_utils.c:102-119 | removing separators from a string whose first separator is at k keeps the prefix before k |
| StringUtils.SplitOnKeepsText | src/string_utils.c:102-131 | the items, concatenated, are the input without its separators: nothing else is lost or reordered |
| StringUtils.SplitOnJoin | src/string_utils.c:93-134 | splitting undoes joining non-empty, separator-free items with the separator |
| StringUtils.SplitOnExample | test/test_string_utils.cpp:90-110 | `",hello,world,,,  "` splits on `,` into `"hello"`, `"world"` and `"  "` |
| StringUtils.MemChr | src/string_utils.c:102 | memchr over [from, limit) returns an index in that range, if any |
| StringUtils.MemChrMeaning | src/string_utils.c:102 | memchr returns the first occurrence in the range, and none only when the range holds none |
| StringUtils.MemChrFound | src/string_utils.c:102-103 | a hit is the first occurrence at or after `from` |
| StringUtils.MemChrMissed | src/string_utils.c:102 | a miss means the range holds no separator |
| StringUtils.SplitOnSuffix | src/string_utils.c:102-119 | the split of a suffix whose first separator is at `at` |
| StringUtils.SplitOnTail | src/string_utils.c:122-131 | a suffix without separator is one item, or none when it is empty |
| StringUtils.SplitItemsStep | src/string_utils.c:102-119 | one turn of the loop appends the run before the separator (if non-empty) and leaves the rest to split |
| StringUtils.SplitItemsRun | src/string_utils.c:103-119 | the items from `cur` when the first separator from there is at `at` |
| StringUtils.SplitItemsTail | src/string_utils.c:122-131 | after the loop, the rest of the input, if any, is the last item |
| StringUtils.SplitItemsNext | src/string_utils.c:102-120 | one turn of the loop: progress is made and the items appended so far plus the split of the rest are unchanged |
| StringUtils.SplitItems | src/string_utils.c:93-134 | str_splitItems appends exactly the split of the first `length` characters on the separator, after the items already there, and returns how many it appended |
| StringUtils.DecimalWidthExamples | test/test_string_utils.cpp:12-30 | 0 has width 1 and 9634 width 4, the repository's cases, and -7 width 2 (the sign counts) |
| Ranges.CreateRange | src/range.c:15-30 | createRange rejects x > y with PRS_INVALID_RANGE before it checks the class bounds (PRS_INVALID_CHAR_RANGE); only on success does it write start = x and end = y + 1, a non-empty half-open range inside the class |
| Ranges.CreateDigitRange | src/range.c:32-36 | a digit range succeeds exactly for '0' <= n1 <= n2 <= '9' and then covers n1 to n2; on failure the range is untouched |
| Ranges.CreateLetterRange | src/range.c:38-49 | the upper-case flag is stored whatever the outcome; the bounds, lowered when the flag is set, must be lower-case letters in order, and the range then covers them |
| Ranges.ExtractRange | src/range.c:63-84 | prs_extractRange succeeds exactly when the C string scans as `c1-c2` with two digits, two lower-case or two upper-case letters in order |
| Ranges.ExtractRangeCovers | src/range.c:41-80 | a triple that reads covers exactly the characters from its lowered first to its lowered last character, and its flag says whether the letters were upper case |
| Ranges.UppercaseLetterExample | src/range.c:38-49 | "A-B" gives the range [a, c) with the upper-case flag set |
| Ranges.Triples | src/range.c:116-128 | the loop reads one triple per range, at offsets 0, 3, 6, ... |
| Ranges.TriplesAt | src/range.c:119-120 | reading i of the loop is the triple at input + 3i |
| Ranges.TriplesPrefix | src/range.c:119-128 | reading fewer triples gives a prefix of the readings |
| Ranges.Collect | src/range.c:119-128 | the loop stops at the first reading that fails, with a non-OK code; otherwise it keeps one range per reading |
| Ranges.CollectMeaning | src/range.c:119-128 | the loop succeeds exactly when every reading succeeds, and then range i is reading i |
| Ranges.CollectSnoc | src/range.c:119-128 | one more reading either extends a success, fails, or leaves a failure as it was |
| Ranges.CollectFailureSticks | src/range.c:122-126 | after the first failure the later triples are never read |
| Ranges.CollectFailedAt | src/range.c:122-126 | a failure carries the code of the first reading that fails |
| Ranges.CollectFirstFailure | src/range.c:122-126 | conversely, the first failing reading's code is the outcome |
| Ranges.ParseTriplesStep | src/range.c:119-128 | reading triple i after i successes extends the ranges or fails with that triple's code |
| Ranges.ParseTriplesFailureSticks | src/range.c:122-126 | a failure among the first m triples is the outcome for every n >= m |
| Ranges.ParseTriplesOutcomes | src/range.c:119-133 | reading m triples succeeds exactly when each reads, range i is then triple i, and a failure returns the code of the first triple that fails |
| Ranges.ExtractRangesOutcomes | src/range.c:86-134 | prs_extractRanges returns 0 for empty stripped text and PRS_INVALID_RANGE_PATTERN for a length not divisible by 3, storing nothing; otherwise it stores the ranges and returns their count exactly when every triple reads, else returns the first failing triple's code and stores nothing |
| Ranges.ReadTurn | src/range.c:119-127 | one turn of the loop: a triple that reads extends the ranges, one that fails is the final outcome |
| Ranges.ReadTriples | src/range.c:109-128 | the loop fills a fresh zeroed array from the triples and stops at the first failure, with that code |
| Ranges.ExtractRanges | src/range.c:86-134 | prs_extractRanges returns and stores exactly what ExtractRangesResult says, in a fresh array |
| Ranges.SingleTriple | src/range.c:96-133 | three characters without NUL or whitespace are read as one triple: its range and the count 1, or its code |
| Ranges.LowerRangeCounted | src/range.c:96-133 | "a-z" stores one range [a, {) and returns 1 |
| Ranges.MixedRangeRejected | src/range.c:75-83 | "A-z" is rejected with PRS_INVALID_CHAR_RANGE, whose value is also 1 |
| Ranges.CountCollidesWithErrorCode | src/range.c:133 | the count 1 returned for one range equals the value of PRS_INVALID_CHAR_RANGE, so the return value alone cannot tell them apart |
| Ranges.SpacedTripleRejected | src/range.c:96-127 | "a- z" is counted as one triple on its stripped text but read from the unstripped input, as "a- ", and rejected |
| Ranges.ExtractRangesFromStrippedIgnoresWhitespace | src/range.c:96-133 | had the triples been read from the stripped buffer, the result would depend on the stripped text only, and agree with the as-written result on it |
| Errors.ValueInjective | src/parser_errors.h:14-46 | the error enumerators have distinct values, all below PRS_MAX_CODE_NUMBER |
| LexRanges.Table | src/lexer.c:13-14 | a character table holds consecutive codes from its first character |
| LexRanges.TablesAreTheStaticStrings | src/lexer.c:13-14 | the two tables are "0123456789" and "abcdefghijklmnopqrstuvwxyz" |
| LexRanges.StrChr | src/lexer.c:20-21 | strchr on a table returns the first occurrence of the character, NULL when it is absent, and the terminator for NUL |
| LexRanges.CreateRange | src/lexer.c:16-35 | createRange reports LEXER_INVALID_CHAR_RANGE when either character is missing from the table, before it checks the order (LEXER_INVALID_RANGE); on success start points at x and end one past y; on failure the range is untouched |
| LexRanges.CreateRangeCovers | src/lexer.c:16-35 | for two table characters, createRange succeeds exactly when x <= y, and the range then covers exactly x..y |
| LexRanges.CreateDigitRange | src/lexer.c:37-41 | a digit range of two non-NUL characters succeeds exactly for '0' <= n1 <= n2 <= '9' |
| LexRanges.CreateLetterRange | src/lexer.c:43-54 | the upper-case flag is stored first; the lowered bounds must be lower-case letters in order |
| LexRanges.ExtractRange | src/lexer.c:68-89 | lex_extractRange succeeds exactly when the C string scans as `c1-c2` with two digits, two lower-case or two upper-case letters in order |
| LexRanges.Readings | src/lexer.c:121-131 | the loop reads one triple per range, at offsets 0, 3, 6, ... |
| LexRanges.ReadingsAt | src/lexer.c:124-125 | reading i is the triple at input + 3i |
| LexRanges.ReadingsPrefix | src/lexer.c:124-131 | reading fewer triples gives a prefix of the readings |
| LexRanges.Gather | src/lexer.c:124-131 | the loop keeps one range per reading, or fails |
| LexRanges.GatherMeaning | src/lexer.c:124-131 | the loop succeeds exactly when every reading does, and then range i is reading i |
| LexRanges.GatherFailureSticks | src/lexer.c:125-129 | once a reading fails, the loop fails |
| LexRanges.ParseTriples | src/lexer.c:121-131 | a successful parse of n triples holds n ranges |
| LexRanges.ParseTriplesMeaning | src/lexer.c:121-131 | the triples parse exactly when each reads, and then range i is triple i |
| LexRanges.ParseTriplesStep | src/lexer.c:124-131 | one turn of the loop: a triple that reads extends the parse, one that fails makes the whole parse fail |
| LexRanges.ExtractRangesResult | src/lexer.c:91-137 | lex_extractRanges returns a positive count exactly when it stores ranges, that count is the number of ranges, and the only negative return is -1 |
| LexRanges.ExtractRangesCount | src/lexer.c:101-136 | the return is 0 exactly for text holding nothing but whitespace, one range per three stripped characters on success, and range i is triple i |
| LexRanges.ThreeRangesCounted | test/test_lexer.cpp:141-194 | "a-zA-Z0-9" gives the count 3 |
| LexRanges.FillRanges | src/lexer.c:121-131 | the loop fills the array with the triples' ranges and reports whether every triple read |
| LexRanges.ExtractRanges | src/lexer.c:91-137 | lex_extractRanges returns and stores exactly what ExtractRangesResult says, in a fresh array |
| Extraction.NextStep | src/parser.c:60-73 | one turn of the extraction loop finds the end of input, no backtick, an unclosed backtick, or a block whose backticks lie in [pos, length) |
| Extraction.NextStepMeaning | src/parser.c:65-73 | a tail step means no backtick is left; an unclosed step has an opening backtick and none after it; a block step has the first backtick from pos and the next one after it, with none in between |
| Extraction.ScanBlock | src/parser.c:76-108 | at a block, the scan emits the words before the block and the block itself, then goes on after the closing backtick |
| Extraction.ScanUnclosed | src/parser.c:70-73 | an unclosed backtick ends the scan, incomplete |
| Extraction.ScanDone | src/parser.c:60 | at the end of the input the scan is complete |
| Extraction.ScanTail | src/parser.c:110-121 | with no backtick left, the rest of the input up to its terminator is one stretch, and the scan is complete |
| Extraction.TailIsRest | src/parser.c:111 | in a C string of `length` characters, strlen from pos is length - pos |
| Extraction.AllWellFormedAppend | src/parser.c:79-104 | appending well-formed items to well-formed items keeps them well formed |
| Extraction.ScanItems | src/parser.c:60-123 | every item the scan appends is non-empty and, unless it is a string block, holds no whitespace |
| Extraction.BlockItems | src/parser.c:76-108 | a block step keeps the appended items well formed |
| Extraction.EmittedItems | src/parser.c:77-104 | what a block step appends is well formed: words, then the block starting with a backtick |
| Extraction.WordsItems | src/parser.c:111-113 | the words of a collapsed stretch are non-empty and hold no whitespace |
| Extraction.SplitOnNoSpace | src/string_utils.c:93-134 | splitting on the only whitespace character a string holds leaves items without whitespace |
| Extraction.ScanReadsInputOnly | src/parser.c:65-69 | with the search bounded to the input, the scan depends on the first `length` characters only |
| Extraction.BlockInput | src/parser.c:76-108 | a block step of two inputs that agree on their first `length` characters emits the same items |
| Extraction.TailInput | src/parser.c:111 | the tail stretch of two such inputs is the same |
| Extraction.EmittedInput | src/parser.c:77-97 | a block step emits the same items for two such inputs |
| Extraction.NextStepInput | src/parser.c:65-69 | both searches of a step give the same answer on two such inputs |
| Extraction.MemChrInput | src/parser.c:65 | memchr bounded to the input gives the same answer on two such inputs |
| Extraction.BufferOverflowAsWritten | src/parser.c:51-111 | for "ab" the collapsed stretch has as many characters as the buffer, so the terminator str_removeMultipleSpaces writes (src/string_utils.c:73) falls one past its end |
| Extraction.StretchFits | src/parser.c:51-111 | with one more character the collapsed stretch and its terminator always fit; as written they fit whenever the stretch does not start at 0 |
| Extraction.ClosingSearchOverreads | src/parser.c:69 | for "`a``b" the second closing search, as written, runs to index 8 of a six-character buffer |
| Delimiters.FindDelimiter | src/parser.c:406 | strpbrk returns the first character that is a delimiter, and none exactly when there is none |
| Delimiters.Cut | src/parser.c:400-433 | an item is cut exactly when it is not atomic (a string block, one character, or delimiter-free); the kept part is the leading delimiter alone or the delimiter-free text before the first delimiter |
| Delimiters.ConcatAppend | src/parser.c:396-437 | concatenating texts distributes over list concatenation |
| Delimiters.PiecesConcat | src/parser.c:418-433 | the pieces an item becomes, put back together, are the item |
| Delimiters.PiecesAtomic | src/parser.c:396-437 | every piece is atomic and none is empty unless the item was |
| Delimiters.AtomicPieces | src/parser.c:400-408 | an atomic item is left as it is |
| Delimiters.ExpandAppend | src/parser.c:396-437 | splitting distributes over list concatenation |
| Delimiters.ExpandProperties | src/parser.c:390-440 | after splitting, the texts keep their order and concatenation, every item is atomic, no empty item appears and the list never shrinks |
| Delimiters.ExpandAtomic | src/parser.c:400-408 | a list of atomic items is left as it is |
| Delimiters.ExpandIdempotent | src/parser.c:390-440 | splitting a second time changes nothing |
| Delimiters.ExpandCutStep | src/parser.c:418-433 | the pieces of the list from item i, when item i is cut at q |
| Delimiters.ExpandKeepStep | src/parser.c:400-408 | the pieces of the list from item i, when item i is left whole |
| ParserItems.Texts | src/parser.h:1-96 | the texts of a list of items, one per item, in order |
| ParserItems.Fresh | src/parser.c:34-36 | one new item per text |
| ParserItems.FreshAt | src/parser.c:34-36 | new item i carries text i, with line and column -1 |
| ParserItems.FreshAppend | src/parser.c:31-39 | new items for two lists of texts are the new items of each |
| ParserItems.FreshTexts | src/parser.c:34-36 | the new items give their texts back |
| ParserItems.SplitItems | src/parser.c:23-44 | splitItems appends one new item per piece of the split on spaces, in order, and returns how many it appended |
| ParserItems.SplitItemTexts | src/parser.c:418-433 | the texts of the items one item becomes are the pieces of its text |
| ParserItems.SplitItemPositions | src/parser.c:425 | an item left whole is unchanged; an item that is cut keeps its column on its first piece, every piece has line -1 and the later pieces column -1 |
| ParserItems.ExpandItemsAppend | src/parser.c:396-437 | splitting items distributes over list concatenation |
| ParserItems.ExpandItemsTexts | src/parser.c:390-440 | the texts of the split items are the split texts |
| ParserItems.TextsAppend | src/parser.c:396-437 | texts distribute over list concatenation |
| ParserItems.ExpandItemsProperties | src/parser.c:390-440 | after prs_splitDelimiters the texts keep their order and concatenation, every item is atomic, and the list never shrinks |
| ParserItems.ExpandItemsCutStep | src/parser.c:418-433 | the split list from item i, when item i is cut at q: the kept part, then the split of the new item and the rest |
| ParserItems.ExpandItemsKeepStep | src/parser.c:400-408 | the split list from item i, when item i is left whole |
| ParserItems.SplitCutTurn | src/parser.c:408-436 | one turn of the loop that cuts item i keeps the invariant: the items before the cursor plus the split of the rest are the final list |
| ParserItems.SplitKeepTurn | src/parser.c:400-408 | one turn of the loop that leaves item i whole keeps the invariant |
| ParserItems.CursorBound | src/parser.c:396 | while items remain after the cursor, the cursor is short of the final length |
| ParserItems.SplitDelimiters | src/parser.c:390-440 | prs_splitDelimiters leaves the list split at every delimiter, each new item right after the one it was cut from, and returns how many items it inserted |
| ParserItems.ExtractBlockTurn | src/parser.c:76-108 | a block step keeps the loop invariant: once what it emits is appended, the scan goes on after the closing backtick |
| ParserItems.ExtractUnclosedTurn | src/parser.c:69-73 | an unclosed backtick ends the extraction with the items appended so far, incomplete |
| ParserItems.AppendStretch | src/parser.c:77-120 | collapsing a stretch into the buffer and splitting it appends its words as new items, and returns how many |
| ParserItems.ExtractBlock | src/parser.c:76-108 | one turn at a block appends the words before the block and then the block as one item, and keeps the invariant |
| ParserItems.ExtractTail | src/parser.c:110-121 | the last turn, without a backtick, appends the words of the rest and completes the list |
| ParserItems.ExtractTurn | src/parser.c:60-123 | one turn of the loop: an unclosed block ends it incomplete, a tail ends it complete, a block advances pos and keeps the invariant |
| ParserItems.ExtractGrammarItems | src/parser.c:46-132 | prs_extractGrammarItems appends the scanned items and splits the whole list on "+\|?;=", returning how many items the list gained; an unclosed block returns -1 with the items appended before it, unsplit |
| LexerItems.CutTurn | src/lexer.c:416-440 | one turn of the loop that cuts item i keeps the invariant: the items before the cursor plus the split of the rest are the final list |
| LexerItems.KeepTurn | src/lexer.c:408-416 | one turn of the loop that leaves item i whole keeps the invariant |
| LexerItems.CursorBound | src/lexer.c:405 | while items remain after the cursor, the cursor is short of the final length |
| LexerItems.SplitDelimiters | src/lexer.c:399-444 | lex_splitDelimiters leaves the list split at every character of the first delimitersCount delimiters, each new item right after the one it was cut from, and returns how many it inserted |
| LexerItems.BlockTurn | src/lexer.c:170-198 | a block step keeps the loop invariant |
| LexerItems.UnclosedTurn | src/lexer.c:163-167 | an unclosed backtick ends the extraction with the items appended so far, incomplete |
| LexerItems.AppendStretch | src/lexer.c:171-209 | collapsing a stretch and splitting it with str_splitItems appends its words and returns how many |
| LexerItems.ExtractBlock | src/lexer.c:170-198 | one turn at a block appends the words before the block, then the block as one item |
| LexerItems.ExtractTail | src/lexer.c:200-211 | the last turn appends the words of the rest and completes the list |
| LexerItems.ExtractTurn | src/lexer.c:153-212 | one turn of the loop: an unclosed block ends it incomplete, a tail ends it complete, a block advances pos and keeps the invariant |
| LexerItems.ExtractGrammarItems | src/lexer.c:139-221 | lex_extractGrammarItems appends the scanned items and splits the whole list on "+\|?;=", returning how many items the list gained; an unclosed block returns -1 with the items appended before it, unsplit |
| LexerItems.GenerationsAgree | src/lexer.c:139-221 | on the same input the two generations' extractions give the same texts, item for item |
| Positions.AdvanceAppend | src/parser.c:196-204 | walking over a + b is walking over a, then over b |
| Positions.LineColAdvance | src/parser.c:196-204 | walking from offset `from` to offset `to`, starting at the line and column of `from`, lands on the line and column of `to` |
| Positions.LineColStep | src/parser.c:197-203 | one character further on: a newline goes to column 1 of the next line, any other character one column on |
| Positions.AdvancePositive | src/parser.c:184-204 | lines and columns stay 1-based |
| Positions.AdvanceMoves | src/parser.c:196-204 | walking over at least one character moves the cursor strictly forward, walking over none leaves it |
| Positions.LineColIncreasing | src/parser.c:196-204 | a later offset has a strictly later line and column |
| Positions.AdvanceFlat | src/parser.c:201-203 | without a newline, walking only adds the length to the column |
| Positions.FindFrom | src/parser.c:190 | the search from k returns an offset at or after k where the needle fits |
| Positions.Find | src/parser.c:190 | strstr returns an offset where the needle fits |
| Positions.FindFromMeaning | src/parser.c:190 | the search from k returns the first occurrence at or after k, and none only when there is none |
| Positions.FindFromOccurs | src/parser.c:190 | where the search succeeds, the needle is there |
| Positions.FindMeaning | src/parser.c:190-194 | strstr finds the first occurrence, and fails exactly when there is none |
| Positions.PlacementTexts | src/parser.c:206-207 | placing items changes only their positions: the list keeps its length and texts |
| Positions.PlacementFound | src/parser.c:190-210 | when the next item is found k characters on, it gets the line and column of that offset and the rest is placed after it |
| Positions.InOrderStep | src/parser.c:187-211 | an item found at `at`, followed by the rest placed in order after it, gives a list in order |
| Positions.FoundInOrder | src/parser.c:187-211 | if the rest of the items are placed in order, so is the whole list |
| Positions.PlacementOrdered | src/parser.c:180-214 | a placement that succeeds gives one position per item, 1-based lines and columns, none before the start, and each item with a non-empty text strictly before the next |
| Positions.FoundTurn | src/parser.c:188-210 | a turn that finds item i keeps the loop invariant |
| Positions.MissingTurn | src/parser.c:192-194 | a turn that does not find item i ends with false and the list as it is |
| Positions.LastTurn | src/parser.c:187-213 | the loop ends with every item placed and true |
| Positions.FirstTurn | src/parser.c:184-187 | the loop starts at line 1, column 1 with nothing placed |
| Positions.Walk | src/parser.c:196-204 | the inner walk over source[from..to] lands on the line and column of `to` |
| Positions.PlaceItem | src/parser.c:188-210 | corrected (see Findings): one turn places item i where it is found after `from` and walks the cursor over the item's text, newlines included, or reports that it is missing |
| Positions.ComputeItemsPosition | src/parser.c:180-214 | corrected (see Findings): prs_computeItemsPosition gives each item the line and column where it is found after the previous one, and returns false at the first item not found, earlier items keeping their new positions |
| Positions.AsWrittenFound | src/parser.c:190-210 | as written, the found item gets the cursor walked from the previous item's end, and the cursor then moves on by the item's length on the same line |
| Positions.FlatItemEnd | src/parser.c:209-210 | an item without a newline ends on its own line, as many columns on as it has characters |
| Positions.AsWrittenStep | src/parser.c:190-210 | a newline-free item is placed the same way as written and corrected |
| Positions.AsWrittenAgrees | src/parser.c:180-214 | while no item holds a newline, the code as written places every item where it is |
| Positions.NotAt | src/parser.c:190 | a needle whose first character differs from s[k] does not occur at k |
| Positions.LineColStart | src/parser.c:184-185 | offset 0 is line 1, column 1 |
| Positions.MultiLineFinds | src/parser.c:190 | where strstr finds the two items of "`a\nb` X" |
| Positions.MultiLineColumns | src/parser.c:196-204 | the X of "`a\nb` X" is at line 2, column 4 |
| Positions.MultiLineBlockMisplaces | src/parser.c:209-210 | as written, the item after a string block spanning two lines is placed at line 1, column 7 instead of line 2, column 4 |
| Positions.ThreeItemsFinds | src/parser.c:190 | where strstr finds the three items of " TOKEN1\n\n`hello`;" |
| Positions.ThreeItemsColumns | src/parser.c:196-204 | offsets 1, 9 and 16 of that source are at (1,2), (3,1) and (3,8) |
| Positions.ThreeItemsTail | src/parser.c:187-211 | the last two items are placed at (3,1) and (3,8) |
| Positions.ThreeItemsExample | src/parser.c:180-214 | " TOKEN1\n\n`hello`;" places its three items at (1,2), (3,1) and (3,8) |
| Positions.StringItemEquals | src/parser.c:216-222 | prs_stringItemEquals holds exactly for equal items: same text, line and column |
| FormalGrammar.Token.Zeroed | src/parser.c:248-249 | a token as the caller allocates it before extraction: every field zeroed, no name, string or ranges |
| FormalGrammar.Quantified | src/formal_grammar.c:75-79 | the same ranges in the same order, each with only its quantifier replaced |
| FormalGrammar.EndStep | src/formal_grammar.c:55-84 | the end of a token never moves the iterator backwards or past the list; a failure leaves the token as it was and a success names it |
| FormalGrammar.ExtractTokenStep | src/formal_grammar.c:16-85 | fg_extractToken stays within the list, keeps the name unset on every error code and sets it to the given name on FG_OK |
| FormalGrammar.RangeList | src/formal_grammar.c:39-50 | the range list yields a positive count exactly when it yields ranges, and the count is their number |
| FormalGrammar.ReadRangeList | src/formal_grammar.c:43 | the ranges read between the brackets land in fresh storage holding exactly the described ranges, with the same count |
| FormalGrammar.SetQuantifier | src/formal_grammar.c:75-79 | the loop sets the quantifier of every range of the token's array and changes nothing else in it |
| FormalGrammar.ExtractEnd | src/formal_grammar.c:55-84 | the method reads the quantifier or `;`, updates the token and the iterator exactly as EndStep describes |
| FormalGrammar.ExtractToken | src/formal_grammar.c:16-85 | the method consumes the items, fills the token and returns the code exactly as ExtractTokenStep describes |
| FormalGrammar.FreeToken | src/formal_grammar.c:87-98 | after fg_freeToken the name, string and ranges are gone and the count is 0; a NULL token is left alone |
| FormalGrammar.TokenRoundTrip | src/formal_grammar.c:16-85 | every well-formed declaration (`=`, a backtick string or a bracketed range list, then `+`, `?` or `;`), embedded anywhere, reads back as the token it describes and stops after three items |
| FormalGrammar.EndOutcome | src/formal_grammar.c:55-84 | the end step names the token exactly when it succeeds, consumes one or two items then, and changes nothing but the name and the quantifiers |
| FormalGrammar.ExtractTokenOutcome | src/formal_grammar.c:21-84 | the name is set if and only if the code is FG_OK; a success starts with `=` and consumes three or four items |
| FormalGrammar.ExtractRangeTokenValue | src/formal_grammar.c:39-79 | a range token read successfully holds at least one range, its count matches, and every range carries the quantifier that follows the value |
| FormalGrammar.RangeTokenRead | src/formal_grammar.c:21-50 | a range token only comes from `=` followed by a `[` item whose range list yields ranges |
| FormalGrammar.ExtractStringTokenValue | src/formal_grammar.c:33-38 | a string token read successfully holds its value without the two enclosing backticks |
| FormalGrammar.TokenExamples | test/test_formal_grammar.cpp:17-70 | the repository's cases: a missing value, a missing `=`, a name alone, a string token with `+` (the `;` left unread), and `hello` read as a string token |
| FormalGrammar.UnknownValueType | src/formal_grammar.c:51-53 | a value that is neither a backtick string nor a range list gives FG_TOKEN_UNKNOWN_VALUE_TYPE after two items, with the token untouched |
| Grammars.Grammar.Empty | src/formal_grammar.h:61-68 | a fresh grammar has empty token and rule tables and no entry rule |
| Grammars.ParseGrammarItems | src/parser.c:231-305 | prs_parseGrammarItems leaves in the tables exactly what the declaration-by-declaration reading reaches, returns its code and error item, and sets the entry rule only on PRS_OK |
| Grammars.ParseKeeps | src/parser.c:246-294 | parsing never removes or replaces a token or rule already in the tables, and every entry stays keyed by its own name |
| Grammars.ParseFirstRule | src/parser.c:236-302 | the entry rule is the first rule inserted: once set it stays, it is absent exactly when no rule was added, and it names a rule that is new to the table |
| Grammars.DuplicateToken | src/parser.c:260-266 | a token whose name is already taken gives FG_TOKEN_EXISTS, sets the error state on its declaration item and leaves the tables unchanged |
| Grammars.DuplicateRule | src/parser.c:287-292 | a rule whose name is already taken gives FG_RULE_EXISTS, sets the error state on its declaration item and leaves the tables unchanged |
| Grammars.UnknownItemStops | src/parser.c:241-244 | an item shorter than two characters, not starting with `%` or without a letter after it stops the parse with PRS_UNKNOWN_ITEM on that item, tables unchanged |
| LexerGrammar.LexTokenTurn | src/lexer.c:284-298 | one token declaration read into a zeroed token: on FG_OK the token table gains it under its name, otherwise the tables are unchanged; the rule table and entry never change |
| LexerGrammar.LexParseGrammarItems | src/lexer.c:269-319 | lex_parseGrammarItems returns the code and leaves the tables exactly as the declaration-by-declaration reading describes, never touching the entry rule |
| LexerGrammar.LexKeyed | src/lexer.c:275-316 | whatever the outcome, every token and rule in the tables stays stored under its own name |
| LexerGrammar.TokenItemsClosed | src/lexer.c:284-289 | a rendered declaration after a capitalised name lies within the items fg_extractToken can read |
| LexerGrammar.LexRedeclaration | src/lexer.c:298 | unlike the parser generation, a token declared twice is accepted and the table keeps only the second declaration |
| LexerGrammar.QuantifiedTokenStops | src/lexer.c:275-282 | after a quantified token the `;` left unread is taken as the next item and stops the reading with LEXER_UNKNOWN_ITEM, the token already stored |
| LexerGrammar.LexPRCode | src/lexer.c:327-356 | the lexer's production-rule walk gives the same code as the parser's on the same keys and writes no link |
| LexerGrammar.LexRuleCode | src/lexer.c:389 | walking a rule's production rules gives the code of the last one that failed, FG_OK when none did |
| LexerGrammar.LexResolveSymbols | src/lexer.c:358-397 | lex_resolveSymbols returns exactly the code prs_resolveSymbols returns on the same grammar and iteration orders, and changes nothing |
| Resolution.TokensFrom | src/parser.c:355-370 | the token loop from any point on keeps the keys and all but the links, succeeds exactly when every remaining reference names a token, and then links each of them and keeps the error state; a failure is FG_UNKNOWN_TOKEN with the error state set |
| Resolution.FirstUnresolved | src/parser.c:320-345 | the walk stops at the first item whose symbol is not a key of its table; every earlier item resolves |
| Resolution.PRMeaning | src/parser.c:313-346 | one production rule succeeds exactly when all its items resolve and is then fully linked; only links change; a failure is FG_UNKNOWN_RULE or FG_UNKNOWN_TOKEN with the error state set |
| Resolution.LastFailureMeaning | src/parser.c:380 | over a rule's production rules the code is FG_OK exactly when all resolve, otherwise an unknown-symbol code with the error state set |
| Resolution.RuleMeaning | src/parser.c:378-380 | one rule succeeds exactly when all its production rules resolve and is then fully linked; only links change |
| Resolution.ResolveRulesFrom | src/parser.c:374-385 | the rule loop keeps the table's keys |
| Resolution.RulesFromShape | src/parser.c:374-385 | the rule loop changes only links; a failure is an unknown-symbol code with the error state set, a success keeps the error state |
| Resolution.RulesFrom | src/parser.c:374-385 | the rule loop from any point succeeds exactly when every remaining rule resolves |
| Resolution.RulesFromLinked | src/parser.c:374-385 | when the rule loop succeeds each remaining rule is linked and the others are kept |
| Resolution.LastCodeIgnoresState | src/parser.c:372-383 | the code after a rule's production rules does not depend on the error state before them |
| Resolution.RulesFirstFailure | src/parser.c:380-384 | the rule loop stops at the first rule in iteration order that fails, with the code of that rule's last failing production rule |
| Resolution.TokensWhole | src/parser.c:355-370 | over the whole token table: FG_OK exactly when every reference names a token, then every reference is linked; otherwise FG_UNKNOWN_TOKEN with the error state set |
| Resolution.RulesWhole | src/parser.c:374-387 | over the whole rule table: FG_OK exactly when every rule resolves, then every item is linked; otherwise an unknown-symbol code with the error state set |
| Resolution.ResolveMeaning | src/parser.c:348-388 | whatever the iteration orders, prs_resolveSymbols succeeds exactly when every reference resolves and then links every token and rule; in every case keys and non-link data are kept |
| Resolution.ResolvePRItems | src/parser.c:313-346 | the loop over one production rule links and stops exactly as the production-rule resolution describes |
| Resolution.ResolveRuleItems | src/parser.c:380 | ll_forEachItem over the production rules gives exactly the rule resolution: all are walked, the last failure's code and error item are kept |
| Resolution.ResolveSymbols | src/parser.c:348-388 | prs_resolveSymbols updates the tables and returns the code and error item exactly as the whole resolution describes, never touching the entry rule |
| LinkedLists.EmptyWellFormed | src/collections/linked_list.c:7-11 | a list with front and back NULL and size 0 is well formed and holds nothing |
| LinkedLists.PushBackAppends | src/collections/linked_list.c:69-91 | the node-level push keeps the list well formed and its contents become the old contents followed by x |
| LinkedLists.NextReturns | src/collections/linked_list.c:186-195 | a step from the k-th node returns the k-th element and leaves the cursor on the (k+1)-th, its entry field the k-th node's next |
| LinkedLists.InsertAsWrittenWrites | src/collections/linked_list.c:197-212 | ll_iteratorInsert allocates one node holding x and the old target of the entry field, rewrites that one field, adds one to size and leaves back as it was |
| LinkedLists.SplicedLinked | src/collections/linked_list.c:204-206 | after the insertion the nodes are linked from front along the old chain with the new node at the cursor |
| LinkedLists.SplicedContents | src/collections/linked_list.c:204-206 | after the insertion the elements along the new chain are the old ones with x at the cursor position |
| LinkedLists.InsertAsWrittenSplices | src/collections/linked_list.c:197-212 | ll_iteratorInsert as written links x in at the cursor with the size one more, the other elements in their order |
| LinkedLists.InsertSplices | src/collections/linked_list.c:197-212 | the insertion with back updated at the end of the list keeps the list well formed wherever the cursor is, x at the cursor position |
| LinkedLists.StaleBackDropsInserted | src/collections/linked_list.c:204-211 | inserting at the end of a one-element list and then pushing leaves size 3 with only two elements reachable; with back updated all three are kept |
| LinkedLists.UnlinkedLinked | src/collections/linked_list.c:136-142 | unlinking the k-th node leaves the list linked along the chain without it |
| LinkedLists.UnlinkedBack | src/collections/linked_list.c:144-153 | after unlinking, back is the last remaining node (the previous one when the removed node was last) and size is one less |
| LinkedLists.UnlinkedContents | src/collections/linked_list.c:136-146 | after unlinking, the elements are the old ones without the k-th, in order |
| LinkedLists.UnlinkRemoves | src/collections/linked_list.c:134-155 | the unlinking of ll_removeItem keeps the list well formed with exactly the k-th element gone |
| LinkedLists.FirstMatch | src/collections/linked_list.c:115-121 | the position found is the first whose element matches (comparator 0, or identity without one); every earlier element does not |
| LinkedLists.LinkedList.constructor | src/collections/linked_list.c:7-11 | ll_createLinkedList gives an empty well-formed list with front and back NULL, size 0 and the given destructor |
| LinkedLists.LinkedList.FreeWith | src/linked_list.c:14-34 | ll_freeLinkedList hands every element, front to back, to the destructor when there is one and leaves the list empty |
| LinkedLists.LinkedList.Free | src/collections/linked_list.c:13-33 | ll_freeLinkedList uses the list's own destructor on every element in order and leaves the list empty |
| LinkedLists.LinkedList.PushBack | src/collections/linked_list.c:69-91 | ll_pushBack appends x as the last element, size one more, the list kept well formed |
| LinkedLists.LinkedList.PushBackBatch | src/collections/linked_list.c:93-107 | ll_pushBackBatch appends its arguments in order |
| LinkedLists.LinkedList.FindItem | src/collections/linked_list.c:109-124 | ll_findItem returns the first element that matches the query, or NULL when none does |
| LinkedLists.LinkedList.RemoveItem | src/collections/linked_list.c:126-163 | ll_removeItem removes exactly the first matching element and passes it to the destructor, returning true; without a match it returns false and changes nothing |
| LinkedLists.LinkedList.RemoveAt | src/collections/linked_list.c:136-155 | the branch that found the k-th element removes it, size one less, and passes it to the destructor |
| LinkedLists.LinkedList.UnlinkAt | src/collections/linked_list.c:136-153 | the pointer updates of ll_removeItem take out the k-th element and no other |
| LinkedLists.LinkedList.Link | src/collections/linked_list.c:201-211 | the splice of ll_iteratorInsert, back kept right, puts x at the cursor position with size one more |
| LinkedLists.LinkedList.IsEqual | src/collections/linked_list.c:46-67 | ll_isEqual is true exactly when the sizes agree and the comparator returns 0 on every pair at the same position |
| LinkedLists.LinkedList.NextPair | src/collections/linked_list.c:58-59 | one round of ll_isEqual advances each iterator by one and yields the elements at that position in each list |
| LinkedLists.Iterator.constructor | src/collections/linked_list.c:165-178 | a new iterator has returned nothing yet |
| LinkedLists.Iterator.HasNext | src/collections/linked_list.c:180-184 | ll_iteratorHasNext is true exactly when an element is left to return |
| LinkedLists.Iterator.Next | src/collections/linked_list.c:186-195 | ll_iteratorNext returns the elements in list order, one position further each call |
| LinkedLists.Iterator.Insert | src/collections/linked_list.c:197-212 | ll_iteratorInsert puts x at the cursor (after an element the previous call inserted), so the next ll_iteratorNext returns it; the other elements keep their order and the size grows by one |
| HashTables.HashString | src/hash_table.c:128-143 | the loop over the characters before the terminator computes the one-at-a-time hash of the string, in 32-bit unsigned arithmetic with each char sign-extended |
| HashTables.OneAtATimeValues | src/hash_table.c:128-143 | the hash of "", "a" and "ab" is 0, 0xca2e9442 and 0x45e61e58, the published values of the one-at-a-time hash |
| HashTables.DefaultComparator | src/hash_table.c:28-33 | the pair comparator without a key comparator, corrected to return 0 on equal keys, compares keys by identity |
| HashTables.Find | src/hash_table.c:84-91 | getPairByKey finds the first pair of the bucket whose key compares 0 to the key, and no earlier pair does |
| HashTables.PutThenLookup | src/hash_table.c:99-110 | after a bucket update for key, looking the key up gives the value just put |
| HashTables.PutKeepsFound | src/hash_table.c:101-108 | a bucket update never takes a pair away: a key found before is still found |
| HashTables.PutKeepsOthers | src/hash_table.c:101-108 | under key equality a bucket update leaves every other key's lookup as it was |
| HashTables.PutDistinct | src/hash_table.c:101-108 | under key equality a bucket update keeps the keys of the bucket distinct |
| HashTables.DeleteThenLookup | src/hash_table.c:123 | with distinct keys, a key removed from a bucket is no longer found |
| HashTables.DeleteKeepsOthers | src/hash_table.c:123 | under key equality a removal leaves every other key's lookup as it was |
| HashTables.DeleteDistinct | src/hash_table.c:123 | a removal keeps the keys of the bucket distinct |
| HashTables.Index | src/hash_table.c:78-81 | getBucket picks a valid bucket, hash modulo capacity |
| HashTables.PairOf | src/hash_table.c:145-153 | the pair found for a key exists exactly when ht_getValue finds a value, holds that value and a key comparing 0 |
| HashTables.InsertThenGet | src/hash_table.c:93-111 | ht_getValue right after ht_insertElement of a key returns the inserted value |
| HashTables.InsertKeepsOthers | src/hash_table.c:93-111 | under key equality ht_insertElement changes no other key's value |
| HashTables.InsertKeepsFound | src/hash_table.c:93-111 | ht_insertElement never loses a key that was present |
| HashTables.RemoveThenGet | src/hash_table.c:115-126 | under key equality with distinct keys, ht_getValue after ht_removeElement of a key finds nothing |
| HashTables.RemoveKeepsOthers | src/hash_table.c:115-126 | under key equality ht_removeElement changes no other key's value |
| HashTables.InsertPlaced | src/hash_table.c:93-111 | insertion keeps every pair in the bucket its key hashes to |
| HashTables.RemovePlaced | src/hash_table.c:115-126 | removal keeps every pair in the bucket its key hashes to |
| HashTables.InsertDistinct | src/hash_table.c:93-111 | under key equality insertion keeps the keys of every bucket distinct |
| HashTables.RemoveDistinct | src/hash_table.c:115-126 | removal keeps the keys of every bucket distinct |
| HashTables.InsertCount | src/hash_table.c:101-110 | the number of pairs grows by one exactly when the key was not found, matching the size update |
| HashTables.RemoveCount | src/hash_table.c:123-125 | the number of pairs drops by one exactly when the key was found, matching the size update |
| HashTables.NoKeyComparatorMismatches | src/hash_table.c:31-33 | without a key comparator the table as written does not find a key just inserted, and a second key of the same bucket overwrites the first pair's value |
| HashTables.NoKeyComparatorFinds | src/hash_table.c:24-34 | with the corrected comparator two keys of the same bucket are both kept and each is found |
| HashTables.HashTable.constructor | src/hash_table.c:36-58 | ht_createTable gives capacity empty buckets, size 0 and the given hash, key comparator and destructor |
| HashTables.HashTable.GetBucket | src/hash_table.c:74-82 | getBucket returns the index of the key's bucket, within the capacity |
| HashTables.HashTable.Insert | src/hash_table.c:93-111 | ht_insertElement replaces the value of the pair found for the key or appends a new pair to its bucket, the size counting pairs throughout; without a key comparator the key is found through the corrected comparison (see Findings) |
| HashTables.HashTable.GetValue | src/hash_table.c:145-153 | ht_getValue returns the value stored under the key, or NULL; without a key comparator the key is found through the corrected comparison (see Findings) |
| HashTables.HashTable.Remove | src/hash_table.c:115-126 | ht_removeElement removes the pair found for the key, passes it to the destructor and decrements the size; with no such pair nothing changes; without a key comparator the key is found through the corrected comparison (see Findings) |
| HashTables.HashTable.Free | src/hash_table.c:60-72 | ht_freeTable passes every pair, bucket by bucket, to the destructor and leaves no buckets, capacity 0 and size 0 |
| HashTables.FirstNonEmptyBucketIndex | src/hash_table.c:155-163 | the index returned is the first non-empty bucket from offset on, or limit when there is none |
| HashTables.HashIterator.constructor | src/hash_table.c:165-179 | ht_createIterator starts before the first pair of the table |
| HashTables.HashIterator.HasNext | src/hash_table.c:181-185 | ht_iteratorHasNext is true exactly when a pair is left to return |
| HashTables.HashIterator.Next | src/hash_table.c:187-202 | ht_iteratorNext returns the pairs bucket by bucket, each bucket in list order, one further each call |
| Sets.CopiedAll | src/collections/set.c:45-57 | the values set_union inserts are the elements of s2 in iteration order, each replaced by its copy when there is a copy factory |
| Sets.InsertAllSnoc | src/collections/set.c:45-58 | one more turn of the union loop inserts the next value after all earlier ones |
| Sets.InsertAllKeepsFound | src/collections/set.c:45-58 | a run of insertions never loses an element that was present |
| Sets.InsertAllFinds | src/collections/set.c:45-58 | after a run of insertions every inserted value is present, when the comparator matches it with itself |
| Sets.HashSet.constructor | src/collections/set.c:9-15 | set_createSet gives an empty set over a fresh table with the given hash, comparator, copy factory and destructor |
| Sets.HashSet.InsertValue | src/collections/set.c:21-27 | set_insertValue puts the element into the table with the sentinel, grows the size only for a new element, makes it present and loses nothing |
| Sets.HashSet.Contains | src/collections/set.c:29-31 | set_contains is true exactly when the element is in the table |
| Sets.HashSet.Union | src/collections/set.c:33-59 | set_union inserts every element of s2, or its copy, in s2's iteration order and leaves s2 unchanged; an empty s2 changes nothing |
| Sets.HashSet.UnionTurn | src/collections/set.c:45-58 | one turn of the union loop inserts the next value and advances the iterator, the loop test then saying whether values remain |
| Sets.HashSet.UnionStep | src/collections/set.c:46-57 | the body of the union loop inserts the next value of s2 and advances the iterator by one |
| Sets.HashSet.InsertCopy | src/collections/set.c:48-57 | the insertion for one element of s2 inserts its copy when there is a copy factory, the element itself otherwise |
| Sets.SetIterator.constructor | src/collections/set.c:61-64 | set_createIterator starts before the first element |
| Sets.SetIterator.HasNext | src/collections/set.c:66-68 | set_iteratorHasNext is true exactly when an element is left |
| Sets.SetIterator.Next | src/collections/set.c:70-73 | set_iteratorNext returns the keys of the table's pairs in iteration order |
| Sets.UnionContains | src/collections/set.c:33-59 | after a union every element of s2, or its copy, is in s1 |
| Sets.UnionKeeps | src/collections/set.c:33-59 | a union keeps every element s1 already held |
| Sets.CreateStringSet | src/set.c:9-11 | the older set_createSet makes an empty table hashed with ht_hashString |
| Sets.StringSetInsert | src/set.c:17-22 | the older set_insertValue inserts with the sentinel; a second insertion of an element adds no entry |
| Sets.StringSetContains | src/set.c:24-26 | the older set_contains is true exactly when the element is in the table |

## Left out

- `prs_readGrammar` and `lex_readGrammar` (stream reading with `fgets` and `realloc`) and `src/main.c` (process entry point) are I/O and are not modelled.
- `src/parser_errors.c` formats messages into a process-wide slot and is not modelled. The error item that `prs_setErrorState` records is threaded through the results instead.
- `src/hash.c` is not part of this model. Hash functions are parameters of the tables.
- The FIRST-set computation (`prs_first`, `prs_prFirst`, `prs_ruleFirsts`) is only declared (src/parser.h:90-93); its implementation is not part of this model.
- The bodies of the following are not part of this model:
  - `fg_extractRule`, `fg_extractProductionRule` and `fg_extractPRItem`. The rule reader is a parameter.
  - `fg_createGrammar`. `Grammars.Grammar.Empty` stands for it, with the fields its header declares.
  - `fg_freeGrammar`, `fg_createRule` and `fg_freeRule`. Rules are values.
- `str_findDelimiter` has no body in the source. `Delimiters.FindDelimiter` models the behaviour its header describes: the first character of the text that is in the delimiter set, as `strpbrk` finds it.
- Allocation failure paths (`malloc`/`calloc` returning NULL, such as the early return of `ll_pushBack`) and memory release are not modelled; allocation always succeeds and values are owned.
- `ll_forEachItem` is modelled only where the core calls it: the walk over a rule's alternatives (`Resolution.ResolveRuleItems`, `LexerGrammar.LexRuleCode`).
- `set_freeSet` (both generations) only calls `ht_freeTable` on the set's table. `HashTables.HashTable.Free` models that.
- The 9-item sample extraction of the repository's tests is not proved as a concrete example. `ParserItems.ExtractGrammarItems` and `LexerItems.ExtractGrammarItems` state the extraction for every input.
- LinkedLists.LinkedList.Link, LinkedLists.Iterator.Insert: they use the corrected splice, which updates `back` when the new node is last. `ll_iteratorInsert` leaves `back` stale there (src/collections/linked_list.c:197-212). The as-written splice is `LinkedLists.InsertAsWrittenSplices`; see Findings.
- Positions.ComputeItemsPosition, Positions.PlaceItem: they implement the corrected placement, which walks the cursor over a found item's text, newlines included. As written, src/parser.c:209-210 adds the item's length to the column and stays on the same line. So after an item holding a newline, the later items' positions differ from the C's. The as-written placement is the function `Positions.PlacementAsWritten`. It agrees with the corrected one while no item holds a newline (`Positions.AsWrittenAgrees`); no ordering lemma is proved for it.
- HashTables.HashTable.Insert, HashTables.HashTable.GetValue, HashTables.HashTable.Remove: for a table without a key comparator they compare keys with the corrected comparator, which returns 0 for the same key. As written, `pairComparator` (src/hash_table.c:31-33) returns 1 there. So in the C, `ht_getValue` misses a key just inserted, `ht_removeElement` removes the first pair with a different key, and `ht_insertElement` overwrites another key's pair. `HashTables.NoKeyComparatorMismatches` shows this; see Findings.
- ParserItems.AppendStretch, ParserItems.ExtractBlock, ParserItems.ExtractTail, ParserItems.ExtractGrammarItems, LexerItems.AppendStretch, LexerItems.ExtractBlock, LexerItems.ExtractTail, LexerItems.ExtractGrammarItems: the copy buffer holds `length + 1` characters (`Extraction.BufferSize`). src/parser.c:51 and src/lexer.c:144 allocate `length`, which the terminator overflows (`Extraction.BufferOverflowAsWritten`); see Findings.
- Extraction.NextStep: the closing-backtick search is bounded by the end of the input. src/parser.c:69 and src/lexer.c:163 bound it so that it can read past the input (`Extraction.ClosingSearchOverreads`); see Findings.
- HashTables.HashString: characters are taken as single bytes, by their code point modulo 256. The C hashes the bytes of the string's encoding, which differ for characters outside that range.
- HashTables.HashTable.Insert, HashTables.HashTable.GetValue, HashTables.HashTable.Remove and HashTables.HashTable.GetBucket require a positive capacity. `ht_createTable` accepts 0, but every later operation then takes a hash modulo 0.
- Sets.HashSet.constructor requires a positive capacity for the same reason.
- FormalGrammar.ExtractToken requires a string value to hold its two backticks. For a lone backtick, `strlen - 2` wraps around and the copy is undefined.
- LexerGrammar.LexParseGrammarItems requires the same of every string block (`BlocksClosed`).
- StringUtils.NumberLength requires its argument to be a C `int` other than `INT_MIN`, because negating `INT_MIN` overflows in C.
- Extraction and delimiter splitting work on item sequences, not on linked nodes. The in-place splicing is proved on the node model (`LinkedLists.InsertSplices`), and the pipeline uses the resulting sequence.
- `HashTables.HashIterator` and `Sets.SetIterator` state their output as the flattening of the buckets. The iterator's stored list cursor is abstracted to a position in that flattening.

## Findings

| source | as written | input that shows it | evidently intended | confidence | as-written member | corrected member |
|---|---|---|---|---|---|---|
| src/parser.c:51 | the copy buffer holds `length` characters; `str_removeMultipleSpaces` writes the collapsed stretch and a NUL after it | the source `"ab"`, length 2: two characters and a terminator are written into a two-character buffer | a buffer of `length + 1` characters | high, not executed | Extraction.BufferOverflowAsWritten | Extraction.StretchFits |
| src/parser.c:69 | the closing-backtick search is bounded by `length - (startBlock - sourcePos + 1)` from `startBlock + 1`, a bound that ignores `sourcePos` | `` "`a``b" ``: the second search runs to index 8 of a six-character buffer | a search bounded to the rest of the input | high, not executed | Extraction.ClosingSearchOverreads | Extraction.ScanReadsInputOnly |
| src/parser.c:209-210 | after an item is found, the column moves on by its length on the same line, even across newlines inside the item | ``"`a\nb` X"``: `X` is placed at line 1, column 7 | line 2, column 4, where `X` is | high, not executed | Positions.MultiLineBlockMisplaces | Positions.ComputeItemsPosition |
| src/hash_table.c:31-33 | without a key comparator, `pairComparator` returns `key == p2->key`, 1 for the same key, which `ll_findItem` reads as a mismatch | insert `k1`, then look `k1` up: not found; inserting `k2` into the same bucket overwrites `k1`'s value | return 0 for the same key | high, not executed | HashTables.NoKeyComparatorMismatches | HashTables.NoKeyComparatorFinds |
| src/collections/linked_list.c:197-212 | `ll_iteratorInsert` at the end of the list never updates `back` | a list `[a]`: after one `next`, inserting `b` then pushing `d` leaves size 3 with `b` unreachable | update `back` when the new node is last | high, not executed | LinkedLists.StaleBackDropsInserted | LinkedLists.InsertSplices |
