# A verified model of the web server's core

The server's hard parts are a JSON engine written in C, the wrapper class over it, a thread pool
built as a monitor, a byte buffer with an incremental HTTP request parser, and a timer queue with
lazy deletion. Each is modelled here in the form the source has it, and related to a simple
description of what it is for.

**JSON text.** `JsonText` says once, as functions, what text the printer gives a value (`Render`) and
what the parser finds in a text (`ParseText`): with the same dispatch on the first byte, the same
white space, the same error positions. `JsonString`, `JsonUtf` and `JsonInteger` do the same for
string literals, the escapes in them, and numbers. Everything is then proved of these functions:
parsing undoes printing at every depth and in both modes. What they say is also said without them:
`JsonGrammar` is a grammar of tokens and blanks, with an if-and-only-if for every value found and every
error position; `JsonEscapes` and `JsonNumbers` spell literals and numbers by their characters; and
`JsonLayout` tells the two printing modes apart by a scanner that knows quotes, brackets and braces only.
A parse has three outcomes: a value, a
failure with the position left in `ep`, or `Undefined` for a string literal with an escape that the
text or the quote cuts off. For that the source has no defined result, because it reads behind the
terminator or takes an uninitialised unit.

**JSON memory.** `JsonHeap` is the memory of nodes and strings. An address is live or not; `malloc`
answers some address that is not live and `free` demands one that is, so a method that frees twice
does not verify. A ghost `Tree` gives the shape of what a node owns. `JsonParser`,
`JsonPrinter`, `JsonSiblings` and `JsonMembers` are the loops of the source over that memory, each
proved to compute what the functions of `JsonText`, or the operations on sequences, say. Texts being parsed are sequences of bytes
without further structure, and a read past the end finds the terminator; texts being printed are
arrays of exactly the length the source allocates, so every write is proved to be inside; `ByteBlocks`
keeps account of them and of the tables they are collected in.

**The rest.** `JsonWrapper` is `CJsonObject` used as an array, with its cache of element wrappers.
`ByteBuffer`, `HttpRequest`, `HttpParse` and `TimerQueue` are classes with the fields of the source.
`ThreadPool` is a state machine over any number of threads: the two halves of locking (taking the
mutex, assigning the holder) and of a wait are separate steps, a signal wakes any one sleeper, and
sleepers also wake for no reason. `PoolTasks` follows single tasks through its runs, and
`PoolBlocking` says when a producer can sleep beside sleeping workers.

Assertions of the source that speak of the caller's arguments are preconditions here; the assertions
inside `makeSpace` and `isFull` are proved. That of `run`, behind its waiting loop, holds by construction:
the test that leaves the loop and the push are one step of the model, as both happen under the mutex.

What the proofs show to be otherwise than one might expect:

- A surrogate pair is decoded as section 2.2 of RFC 2781 says exactly when bit 0x40 of the high half
  is clear; otherwise the result is 0x10000 too small (`CombineIsRfc2781`, `CombineGoesWrong`).
- A negative integer literal below -2^63 is read as a positive number, all other literals below 2^64
  in size exactly (`IntegerIsExact`).
- Through a negative index, or one above INT_MAX, the cache of `CJsonObject` loses its coherence
  (`IndexKeepsCoherence`, `DeleteKeepsCoherence`, `ReplaceKeepsCoherence`).
- `CJsonObject::Replace` loses memory if and only if the node is an array, the text parses and the index is
  past the end: then the parsed copy stays allocated and owned by nothing.
- `cJSON_ReplaceItemInObject` loses the name the new item had before if and only if it had one and some
  member's name matches.
- A request line without a query leaves the query of an earlier line in place (`LineRoundTrip`).
- A state in which every worker sleeps while a producer sleeps on `notFull_` comes up in some run if and only
  if the bound is positive and there are more producers than slots (`BlockedBesideSleepers`). It passes: other
  producers are awake then (`AllWorkersAsleep`), and the pool never rests like that (`NoDeadlock`).
- `handle_expire_timers` does not end if and only if the turn of a timer without a handler comes (`Endless`,
  in terms of the live timers and the clock readings).

## Model

| member | source | states |
|---|---|---|
| `JsonText.ValueRoundTrip` | cJSON.c:439-784 | parsing what was printed gives the same value and stops exactly behind it, for every value without floating point, at every depth, in both modes, wherever the text stands and whatever follows that does not go on with a number |
| `JsonGrammar.ParsesWhatStands` | cJSON.c:413-426 | a value is found if and only if it stands in the text after blanks, with commas, colons, brackets, braces and any blanks between its tokens; and the parse fails at a position if and only if reading goes well up to there and no token that may stand there does |
| `JsonGrammar.StandsIff` | cJSON.c:439-478 | the same for a value at any position, with the position behind it |
| `JsonGrammar.ElementsIff` | cJSON.c:531-552 | elements are found exactly where they stand, blanks before and behind every comma |
| `JsonGrammar.MemberIff` | cJSON.c:645-657 | a member is found exactly where a name, a colon and a value stand, blanks around the colon |
| `JsonGrammar.MembersIff` | cJSON.c:642-683 | the same for members |
| `JsonGrammar.StuckIff` | cJSON.c:439-478 | the error position of a value: where a value, a comma or bracket, a name, a colon, or a comma or brace ought to stand |
| `JsonGrammar.OneValue` | cJSON.c:439-478 | no two values stand at one position |
| `JsonLayout.FormattedIsPretty` | cJSON.c:558-784 | formatted text is the unformatted one with blanks put in, said by a scanner of the text: a space behind a comma in brackets, a tab behind a colon, line feeds and as many tabs as brackets and braces are open at braces and behind commas in braces |
| `JsonLayout.UnformattedIsDense` | cJSON.c:558-784 | unformatted text has no blank outside its string literals and closes what it opens |
| `JsonLayout.DepthDoesNotMatter` | cJSON.c:433-436 | unformatted text does not depend on the depth |
| `JsonLayout.Words` | cJSON.c:488-496 | the three words by their characters |
| `JsonText.ArrayRoundTrip` | cJSON.c:517-625 | the same for arrays, which need no condition on what follows |
| `JsonText.ItemsRoundTrip` | cJSON.c:534-552 | a printed, non-empty list of elements up to the bracket is read back element by element |
| `JsonText.ObjectRoundTrip` | cJSON.c:628-784 | the same for objects |
| `JsonText.MembersRoundTrip` | cJSON.c:645-683 | printed members with their indentation, up to the brace, are read back in order with their names, equal names included |
| `JsonText.MemberRoundTrip` | cJSON.c:645-657 | the name, the colon and the blanks around them are skipped exactly, given that the value reads back |
| `JsonText.ModesAgree` | cJSON.c:413-436 | formatted and unformatted text of a value parse to one and the same value |
| `JsonText.ParsedIsPrintable` | cJSON.c:439-478 | whatever the parser returns can be printed, unless it holds a number that is no 64-bit integer |
| `JsonText.ReparseIsCanonical` | cJSON.c:413-436 | printing a parsed value in either mode and parsing again changes sign tags at most, and a second time nothing |
| `JsonText.CanonTwice` | cJSON.c:150-155 | the canonical form of a value is its own canonical form |
| `JsonText.ParseValue` | cJSON.c:439-478 | success consumes at least one byte and stays in the text; the error position lies between the start and the end of the text |
| `JsonText.ParseElements` | cJSON.c:531-554 | the same for the elements of an array |
| `JsonText.ParseMembers` | cJSON.c:642-685 | the same for the members of an object |
| `JsonParser.Parse` | cJSON.c:413-426 | finds the value the text denotes; on success the new root owns every allocation made and the rest of memory is as before; on failure all of memory is as before and `ep` is the error position, on success null |
| `JsonParser.ParseValueItem` | cJSON.c:439-478 | the node comes to hold the value read; at success and at failure alike it owns every allocation made since the call |
| `JsonParser.ParseArrayItem` | cJSON.c:517-555 | the loop over the elements builds the child list of the array denoted, linked both ways, owning all that was allocated |
| `JsonParser.ParseObjectItem` | cJSON.c:628-686 | the same for members and their names |
| `JsonParser.ParseElementItem` | cJSON.c:538-549 | one element more at the end of the list, or a failure with the unfinished element in the list |
| `JsonParser.ParseMemberItem` | cJSON.c:659-680 | one member more at the end of the list, or a failure with the unfinished member in the list |
| `JsonParser.ParseMemberFields` | cJSON.c:667-679 | the string moves from `valuestring` to `string` and the value is parsed behind the colon; nothing is lost on the way |
| `JsonParser.ParseStringItem` | cJSON.c:217-320 | the string denoted is in a block of its own, owned by the node |
| `JsonParser.NewChild` | cJSON.c:531-545 | one blank node, linked behind the last child or hung under the parent, and no other change |
| `JsonParser.AppendGrown` | cJSON.c:538-549 | when a child was parsed or failed to, the parent with it owns exactly what has been allocated so far |
| `JsonParser.AppendLinks` | cJSON.c:541-545 | `next` and `prev` of all children are inverse to each other after a child is added |
| `JsonParser.GrownTwice` | cJSON.c:645-655 | parsing the name and then the value accounts for both in one node |
| `JsonParser.RootRemoved` | cJSON.c:415-424 | taking away what the new root owns leaves the memory before the call |
| `JsonHeap.Heap.Delete` | cJSON.c:99-114 | the chain and all below it is freed, every allocation once, and nothing else |
| `JsonHeap.Heap.FreeTree` | cJSON.c:104-111 | one turn frees the node, its strings and its children, and nothing else |
| `JsonHeap.Heap.NewItem` | cJSON.c:90-96 | a node at an address that was not live, all its fields null |
| `JsonHeap.Heap.NewString` | cJSON.c:64-74 | a block at an address that was not live, holding the string |
| `JsonHeap.HeldFrame` | cJSON.c:99-114 | a tree and its value depend on its own cells alone, and not on the links of its root |
| `JsonHeap.KidsFrame` | cJSON.c:99-114 | the same for the children of a node |
| `JsonHeap.HeldAfter` | cJSON.c:108-111 | freeing other cells leaves a tree what it was |
| `JsonHeap.HeldLive` | cJSON.c:99-114 | everything a tree owns is live |
| `JsonSiblings.AddItemToArray` | cJSON.c:830-845 | the item becomes the last child; values, links and ownership of all others stay |
| `JsonSiblings.AddItemToArrayHead` | cJSON.c:847-863 | the item becomes the first child, with a null `prev`; all others stay |
| `JsonSiblings.DetachItemFromArray` | cJSON.c:884-899 | the child at the index leaves the list whole and unlinked; past the end nothing changes; a negative index counts as zero |
| `JsonSiblings.DeleteItemFromArray` | cJSON.c:900-903 | the child at the index leaves the list, exactly its cells are freed, and only nodes below the parent are touched |
| `JsonSiblings.ReplaceItemInArray` | cJSON.c:920-937 | the item stands where the child was, exactly the child's cells are freed; past the end nothing changes |
| `JsonSiblings.ExchangeItem` | cJSON.c:927-935 | the relinking that puts the item in and leaves the old child loose |
| `JsonSiblings.GetArraySize` | cJSON.c:787-794 | the number of children |
| `JsonSiblings.GetArrayItem` | cJSON.c:795-801 | the child at the index, the first one for a negative index, null past the end |
| `JsonSiblings.StrCaseCmp` | cJSON.c:48-59 | zero exactly for strings of equal length whose bytes are equal or the two cases of one ASCII letter |
| `JsonSiblings.CaseEqualMeans` | cJSON.c:54 | that is what agreeing up to case means |
| `JsonSiblings.CaseEqualIsEquivalence` | cJSON.c:48-59 | agreeing up to case is an equivalence |
| `JsonMembers.GetObjectItem` | cJSON.c:802-808 | the first child whose name is the one given, up to the two cases of each letter; null exactly when no child has it |
| `JsonMembers.FindMeans` | cJSON.c:805-806 | the same of a list of keys |
| `JsonMembers.FindItem` | cJSON.c:906-909 | the index of the first matching child, counted along the walk |
| `JsonMembers.Find` | cJSON.c:805-806 | the first match: it matches, and nothing before it does |
| `JsonMembers.AddItemToObject` | cJSON.c:865-873 | the item's old name is freed, it gets the new one, and it becomes the last member; keys and lookups afterwards: the older of equal names is found; with C strings for names a next keyed call is possible |
| `JsonMembers.DetachItemFromObject` | cJSON.c:904-913 | the first matching member leaves the list whole; lookups of names not case-equal to it find the same nodes; without a match nothing changes |
| `JsonMembers.DeleteItemFromObject` | cJSON.c:914-917 | the first matching member leaves the list and exactly its cells are freed; lookups of names not case-equal to it find the same nodes as before |
| `JsonMembers.ReplaceItemInObject` | cJSON.c:938-950 | the item, under the name given in a block of its own, stands where the first match was; the match's cells are freed; the item's former name, and nothing else, is lost, on a match only; lookups of that name find the item, those of other names what they found |
| `JsonMembers.FindAfterAppend` | cJSON.c:865-873 | appending changes no lookup that succeeded: of equal names the older is found |
| `JsonMembers.FindAfterRemove` | cJSON.c:914-917 | after removing the first match of a name, lookups of names not case-equal to it find the same children |
| `JsonMembers.FindAfterReplace` | cJSON.c:938-950 | after replacing, every lookup finds the same place |
| `JsonMembers.LookupAfterAppend` | cJSON.c:865-873 | on the heap: which node every lookup finds after an append |
| `JsonMembers.LookupAfterRemove` | cJSON.c:904-917 | on the heap: every lookup of a name not case-equal to the one removed finds the node it found |
| `JsonMembers.LookupAfterReplace` | cJSON.c:938-950 | on the heap: which node every lookup finds after a replacement |
| `JsonMembers.NameLost` | cJSON.c:947 | the former name of the item is live when the match is freed, and neither the object nor the renamed item owns it |
| `JsonSiblings.RelinkAll` | cJSON.c:811-815 | relinking roots changes no value below them |
| `JsonSiblings.MakeKids` | cJSON.c:830-863 | a relinking whose pointers run along the new order makes that order the child list |
| `JsonSiblings.UnlinkWrites` | cJSON.c:891-897 | detaching writes at the child, its neighbours and the parent only |
| `JsonSiblings.ExchangeWrites` | cJSON.c:927-935 | replacing writes at the two nodes, the neighbours and the parent only |
| `JsonSiblings.DetachedFreed` | cJSON.c:900-903 | freeing the detached child leaves the other children with their values |
| `JsonPrinter.Print` | cJSON.c:429-436 | the text of the value in the mode chosen, ended by the first NUL; of all that was allocated only the text is left |
| `JsonPrinter.PrintItem` | cJSON.c:481-514 | the same at any depth, with no node of type double |
| `JsonPrinter.PrintArrayItem` | cJSON.c:558-625 | measure, allocate, compose: the result is the text of the array, and the texts of the elements and their table are freed |
| `JsonPrinter.PrintObjectItem` | cJSON.c:689-784 | the same for objects, their names and both tables |
| `JsonPrinter.CollectItems` | cJSON.c:562-585 | the texts of all elements in order, in blocks of their own, and `len` as the source sums it |
| `JsonPrinter.CollectMembers` | cJSON.c:693-726 | the texts of all names and values in order, in blocks of their own, and `len` as the source sums it |
| `JsonPrinter.ComposeArray` | cJSON.c:604-624 | every write, interim terminators included, stays inside the `len` bytes, and the bytes are the rendering; every entry and the table are freed once |
| `JsonPrinter.ComposeObject` | cJSON.c:749-783 | the same for objects, names and both tables |
| `ByteBlocks.Blocks.Free` | cJSON.c:619-621 | only what is live can be freed |
| `ByteBlocks.HoldsEntryLess` | cJSON.c:619 | the next entry is live, and the others are as before when it is freed |
| `JsonPrinter.WriteMember` | cJSON.c:755-771 | one member behind what was written before, with the interim terminators of `strcpy` inside the array |
| `JsonPrinter.JoinFits` | cJSON.c:562-581 | the texts of the elements with their separators are no longer than `len` allows |
| `JsonPrinter.JoinMembersFits` | cJSON.c:693-722 | the same for members with tabs, colons and line feeds |
| `JsonPrinter.JoinIsRender` | cJSON.c:604-620 | what the loop composes from the elements' texts is the recursive rendering |
| `JsonPrinter.JoinMembersIsRender` | cJSON.c:755-774 | the same for members |
| `JsonPrinter.RenderNulFree` | cJSON.c:481-514 | no printed text holds a NUL, so `strlen` and `strcpy` see all of it |
| `JsonString.StringRoundTrip` | cJSON.c:217-389 | `parse_string` of `print_string_ptr` of any NUL-free string is that string and stops behind the quote |
| `JsonEscapes.LiteralsAreParts` | cJSON.c:217-320 | the literals taken are exactly those made of plain bytes, a backslash and a byte, and units of four hexadecimal digits in either case; and what they are read as |
| `JsonEscapes.LiteralRead` | cJSON.c:238-319 | a literal made of any parts is read as what they stand for, to behind its quote |
| `JsonEscapes.UnitEscape` | cJSON.c:264-306 | every unit that is no half of a pair, in digits of either case, is read as its RFC 3629 bytes; 0, a low half alone, and a high half without another unit behind it yield nothing |
| `JsonEscapes.PairEscape` | cJSON.c:271-280 | a high and a low half are read as the bytes of the combined value; a high half drops any other unit behind it with itself |
| `JsonEscapes.LetterEscape` | cJSON.c:249-310 | a backslash before b, f, n, r, t is the control byte, before any other byte but u that byte |
| `JsonEscapes.PartsCounted` | cJSON.c:230-232 | the length that the first pass finds: one for a byte or a backslash with the byte behind it, four more for the digits of a unit |
| `JsonEscapes.Utf8Lengths` | cJSON.c:282-288 | no encoding is longer than it must be |
| `JsonEscapes.Utf8Examples` | cJSON.c:282-305 | five encodings by their bytes, of all four lengths |
| `JsonEscapes.EscapeSpelled` | cJSON.c:351-384 | what is written for every byte, by its characters, digits in lower case |
| `JsonString.UnescapeEscape` | cJSON.c:240-313 | the second pass undoes the escaping up to the quote |
| `JsonString.EscapeByteReadsBack` | cJSON.c:351-384 | every escaped byte alone is read back as that byte |
| `JsonString.PassesAgree` | cJSON.c:230-313 | when no escape is cut off, both passes stop at the same byte, and the second writes at most `len` bytes before the terminator |
| `JsonString.ParseString` | cJSON.c:217-320 | the two loops compute the string denoted, inside the `len + 1` bytes |
| `JsonString.CountString` | cJSON.c:230-232 | the length and the end that the first pass finds |
| `JsonString.DecodeEscape` | cJSON.c:244-312 | the inner switch writes the bytes of the escape and moves both cursors past it |
| `JsonString.EscapeAt` | cJSON.c:246-310 | a complete escape is at least two bytes long, stays in the text and yields no NUL |
| `JsonString.PrintString` | cJSON.c:323-389 | the `len + 3` bytes are filled exactly, with the quoted escaped text and a terminator |
| `JsonString.CountEscaped` | cJSON.c:332-340 | the counting loop finds the length of the escaped text |
| `JsonString.WriteEscaped` | cJSON.c:351-384 | one byte is written in its escaped form behind what was written before |
| `JsonString.EscapeConcat` | cJSON.c:349-385 | the escaped form of a concatenation is the concatenation of the escaped forms |
| `JsonUtf.CombineIsRfc2781` | cJSON.c:279 | the combined value of a surrogate pair is that of section 2.2 of RFC 2781 if and only if bit 0x40 of the high half is clear |
| `JsonUtf.CombineSet` | cJSON.c:279 | with that bit set the value is exactly 0x10000 too small |
| `JsonUtf.CombineGoesWrong` | cJSON.c:279 | D83D DE00 comes out right and D840 DC00 as U+10000 instead of U+20000 |
| `JsonUtf.EmittedIsUtf8` | cJSON.c:282-305 | what the fall-through switch writes is the encoding of section 3 of RFC 3629 |
| `JsonUtf.DecodeUtf8Utf8` | cJSON.c:282-305 | that encoding decodes to the code point, whatever follows |
| `JsonUtf.EmitUtf8` | cJSON.c:282-305 | the backward writes put that encoding at the cursor and touch no other byte |
| `JsonUtf.FallThrough` | cJSON.c:291-304 | one case of the switch and all below it |
| `JsonInteger.IntRoundTrip` | cJSON.c:117-212 | for every 64-bit word and either sign tag, `parse_number` of `print_int` is the same integer with the canonical tag |
| `JsonNumbers.NumberRead` | cJSON.c:117-164 | any sign, digits, point, places and exponent are read as their digits say, one leading zero included, whatever follows that does not go on |
| `JsonNumbers.IntegerIsExact` | cJSON.c:150-155 | an integer literal is read as the integer its digits spell if and only if that is below 2^64 and not below -2^63 |
| `JsonNumbers.DecimalSpells` | cJSON.c:182-212 | a decimal conversion spells its number, without a leading zero |
| `JsonNumbers.EvaluateMeans` | cJSON.c:150-162 | which numbers become integers, and as which word |
| `JsonInteger.LiteralIsExact` | cJSON.c:150-155 | the decimal text of an integer of size below 2^64 is read as that integer if and only if it is not below -2^63 |
| `JsonInteger.NegationWraps` | cJSON.c:153 | the multiplication modulo 2^64 restores the word of every negative integer |
| `JsonInteger.PartialSumBelow` | cJSON.c:128-131 | no sum on the way exceeds the final one |
| `JsonInteger.DigitsOfDecimal` | cJSON.c:128-131 | the digit loop undoes the decimal conversion |
| `JsonInteger.TextFits` | cJSON.c:185 | the text of any 64-bit integer takes at most 20 of the 22 bytes |
| `JsonInteger.ConversionsAgree` | cJSON.c:190-203 | the casts to 32 bits change nothing where they are taken |
| `JsonInteger.PrintInt` | cJSON.c:182-212 | whichever conversion is taken, the text is that of the integer meant |
| `JsonInteger.ParseNumber` | cJSON.c:117-164 | the cursor loops read the number and stop where the specification says |
| `JsonInteger.Canonical` | cJSON.c:150-155 | the canonical tag denotes the same integer |
| `Bytes.SkipSpace` | cJSON.c:405-410 | stops at the first byte above 32 or the terminator, having passed only white space |
| `JsonWrapper.RunsKeepCoherence` | CJsonObject.cpp:225-263 | in every run of the operations with indices in 0..INT_MAX each cached wrapper refers to the node at its index, or is a placeholder at or past the end |
| `JsonWrapper.IndexKeepsCoherence` | CJsonObject.cpp:225-263 | `operator[]` keeps every coherent cache coherent if and only if the index is at most INT_MAX |
| `JsonWrapper.DeleteKeepsCoherence` | CJsonObject.cpp:2974-3014 | `Delete` keeps every coherent cache coherent if and only if the index is not negative |
| `JsonWrapper.ReplaceKeepsCoherence` | CJsonObject.cpp:3016-3059 | the same for `Replace` |
| `JsonWrapper.KeptWrappers` | CJsonObject.cpp:2145-2161 | which cached wrappers each operation keeps, and that they refer to what they did |
| `JsonWrapper.CJsonObject.At` | CJsonObject.cpp:225-263 | the cached wrapper, or a new one for the node the walk finds |
| `JsonWrapper.CJsonObject.Add` | CJsonObject.cpp:2104-2163 | succeeds exactly on arrays, or on nothing, with a text that parses; the elements are the old ones and the value parsed; cached wrappers from the old length on are dropped; the cells in use and new ones, which are all in use, are all that changes in memory |
| `JsonWrapper.CJsonObject.AddAsFirst` | CJsonObject.cpp:2543-2594 | the value parsed and the old elements; every cached wrapper is dropped; memory as for `Add` |
| `JsonWrapper.CJsonObject.Delete` | CJsonObject.cpp:2974-3014 | the elements without the one at the index; cached wrappers from the index on are dropped; exactly the element's cells are freed, and nothing outside the cells in use changes |
| `JsonWrapper.CJsonObject.Replace` | CJsonObject.cpp:3016-3059 | the elements with the one at the index exchanged, its cells freed and the new one's all in use; false past the end, with elements and cache unchanged; something is lost if and only if the node is an array, the text parses and the index is past the end |
| `JsonWrapper.OthersStay` | CJsonObject.cpp:2104-2163 | another wrapper on the same heap, its cells apart from those in use, stays valid with its elements and its value |
| `JsonWrapper.TreeElsewhere` | CJsonObject.cpp:2104-2163 | a tree apart from the cells that changed keeps its value |
| `JsonWrapper.ReplacedOwn` | CJsonObject.cpp:3037-3043 | parsing an item and exchanging an element for it frees the element's cells and leaves the item's in use |
| `JsonWrapper.CJsonObject.Clear` | CJsonObject.cpp:427-456 | exactly the wrapper's own tree is freed, and reference and cache are gone |
| `JsonWrapper.CJsonObject.EraseFrom` | CJsonObject.cpp:2145-2161 | the erasing loop keeps exactly the entries below the bound |
| `JsonWrapper.CJsonObject.Parse` | CJsonObject.cpp:415-425 | the old tree is freed; the new one holds the value of the text and owns all that was allocated; on failure nothing new is left |
| `JsonWrapper.CJsonObject.ToString` | CJsonObject.cpp:498-516 | the unformatted text of the value in use, empty when there is none; the printed text is freed |
| `JsonWrapper.CJsonObject.Assign` | CJsonObject.cpp:48-52 | copying through the text gives the other wrapper's value in canonical form, also from itself or from a wrapper inside its own tree; the old tree is freed, the new one owns all that was allocated, and the text is freed |
| `ThreadPool.RunsKeepInv` | threadpool.cpp:62-136 | in every state of every run from the start, with any number of threads: the holder is sound, the tasks submitted are those taken and then those queued, the bound is kept, no wakeup is lost |
| `ThreadPool.InvKept` | threadpool.cpp:62-136 | every enabled step of every thread keeps all of that |
| `ThreadPool.HolderSound` | mutex.h:34-79 | `holder_` is 0 or the owner of the mutex, and a thread at the test of `run` is both, which is what the assertion in `isFull` asks |
| `ThreadPool.LockInvKept` | condition.h:21-25 | locking, the two halves of a wait, and unlocking keep the owner and the holder consistent |
| `ThreadPool.TaskInvKept` | threadpool.cpp:73-110 | the tasks submitted equal the tasks taken followed by the queue, and a positive bound is never exceeded |
| `PoolTasks.PutsWhatItBrought` | threadpool.cpp:62-76 | in every run, after any number of waits, the step of a producer that changes the queue appends exactly the task of its call |
| `PoolTasks.ReturnsAfterPut` | threadpool.cpp:62-76 | a call does not return before it has put its task |
| `PoolTasks.PutsOnce` | threadpool.cpp:73-76 | and puts it once |
| `PoolTasks.StartsWhatItTook` | threadpool.cpp:100-135 | what a worker starts is what its own last take removed from the front of the queue, whatever the bound |
| `PoolTasks.TakenIsStarted` | threadpool.cpp:107-135 | and what it takes it starts |
| `ThreadPool.WorkersNotLost` | threadpool.cpp:100-117 | while a worker sleeps on `notEmpty_`, the queue is no longer than the number of awakened workers yet to look again |
| `ThreadPool.ProducersNotLost` | threadpool.cpp:66-75 | while a producer sleeps on `notFull_`, the free slots are no more than the awakened producers yet to look again |
| `ThreadPool.NoDeadlock` | threadpool.cpp:62-136 | with a worker and before `stop`, the pool rests only when the queue is empty, every submitted task has been taken, every worker sleeps and no producer is inside `run` |
| `ThreadPool.PoolComesToRest` | threadpool.cpp:43-136 | in every run, before `stop` and after, the pool's own steps are bounded by the measure of the first state and 29 for every call from outside and every waking for no reason: no livelock, so resting is reached |
| `ThreadPool.StepMeasure` | threadpool.cpp:43-136 | every step of the pool itself lowers the measure; any other raises it by 29 at most |
| `ThreadPool.StopStep` | threadpool.cpp:45-49 | the step that clears `running_` and wakes every worker lowers it too |
| `ThreadPool.AllWorkersAsleep` | threadpool.cpp:62-123 | in every reachable state with every worker asleep nothing is queued, and if a producer sleeps then at least as many producers as there are slots are awake |
| `PoolBlocking.BlockedBesideSleepers` | threadpool.cpp:62-123 | from a start with a worker, some run reaches a state with every worker asleep and a producer asleep on `notFull_` if and only if the bound is positive and below the number of producers |
| `PoolBlocking.OnlyThen` | threadpool.cpp:62-123 | such a state takes a positive bound and more producers than slots |
| `PoolBlocking.ThenIndeed` | threadpool.cpp:62-123 | with these, the run: the producers fill the queue and fall asleep, a worker empties it, the workers fall asleep |
| `PoolBlocking.ProducerBlockedWorkersAsleep` | threadpool.cpp:62-117 | the instance with one worker, two producers and one slot |
| `ThreadPool.ShutdownIsShort` | threadpool.cpp:43-54 | after `stop` each worker makes at most seven more steps: its steps and its rank together never exceed its rank at the start |
| `ThreadPool.ShutdownStep` | threadpool.cpp:125-136 | after `stop` no step raises a worker's rank, and the worker that acts lowers its own |
| `ThreadPool.AtMostOneMoreTask` | threadpool.cpp:130-135 | after `stop` each worker starts at most one more task |
| `ThreadPool.StopReturnsLast` | threadpool.cpp:51-53 | a call of `stop` returns only after every worker has left |
| `ThreadPool.ShutdownEnds` | threadpool.cpp:43-54 | after `stop` the pool rests only when every worker has left and every call of `stop` has returned |
| `ByteBuffer.Buffer.constructor` | buffer.h:31-39 | empty, with eight bytes in front |
| `ByteBuffer.Buffer.MakeSpace` | buffer.h:276-290 | the readable bytes stay and the room asked for is there; the reader is past eight when bytes are moved; which of the two branches is taken |
| `ByteBuffer.Buffer.MoveForward` | buffer.h:283-285 | the overlapping copy loses nothing |
| `ByteBuffer.Buffer.EnsureWritableBytes` | buffer.h:133-138 | the room asked for is there, the readable bytes stay, and the size stays within the larger of the initial size and 2 D + 7 |
| `ByteBuffer.Buffer.Append` | buffer.h:122-127 | the readable bytes are the old ones and the data; with room enough nothing moves |
| `ByteBuffer.Buffer.Retrieve` | buffer.h:83-91 | the first bytes are gone; an emptied buffer starts over at eight |
| `ByteBuffer.Buffer.RetrieveAsString` | buffer.h:110-116 | what is returned and what is left make up what was there |
| `ByteBuffer.Buffer.RetrieveAll` | buffer.h:104-108 | nothing readable is left |
| `ByteBuffer.Buffer.Unwrite` | buffer.h:150-154 | the last bytes are gone |
| `ByteBuffer.Buffer.Prepend` | buffer.h:253-259 | the data and then the old readable bytes |
| `ByteBuffer.Buffer.Swap` | buffer.h:41-46 | each buffer has what the other had |
| `ByteBuffer.Buffer.Shrink` | buffer.h:261-267 | the readable bytes stay, in a new array whose size is stated |
| `ByteBuffer.Buffer.ReadFd` | buffer.cpp:11-33 | for every count the kernel returns, the readable bytes are the old ones and what was delivered, over both pieces of the scatter read |
| `ByteBuffer.Buffer.FindCRLF` | buffer.h:53-57 | the first carriage return and line feed in the readable bytes, or none |
| `HttpParse.ChunkingDoesNotMatter` | http_parse.cpp:49-92 | from every state but `kGotAll`, parsing a, appending b and parsing again unless finished gives the same state, fields, headers, left-over bytes and answer as parsing a + b |
| `HttpParse.ChunksAreOneText` | http_parse.cpp:49-92 | the same for any number of chunks |
| `HttpParse.RequestRoundTrip` | http_parse.cpp:7-92 | a request written out, with any headers and blanks around their values, no line end inside path, query or header, is read back as its fields, and the bytes behind it are left |
| `HttpParse.LineRoundTrip` | http_parse.cpp:7-46 | a request line is read back as the fields it says; without a query the earlier query stays |
| `HttpParse.LineAccepted` | http_parse.cpp:7-46 | a request line is accepted if and only if it is one of the five methods, a path, perhaps a query, and version 1.0 or 1.1, written with single spaces |
| `HttpParse.HeadersRoundTrip` | http_parse.cpp:69-85 | header lines are read back in order, of equal names the first, up to any line without a colon, which is dropped |
| `HttpParse.RefusedOrWaiting` | http_parse.cpp:54-68 | a refused line stays in the buffer with the state; a text without a line end waits |
| `HttpParse.RefusedFields` | http_parse.cpp:7-46 | how far a refused line has been read into the fields |
| `HttpParse.VersionMeans` | http_parse.cpp:29-41 | the two versions by their names |
| `HttpParse.RequestLineTwice` | http_parse.cpp:58-65 | looking at a refused line again answers the same and changes nothing more |
| `HttpParse.FirstCrlfOfPrefix` | buffer.h:53-57 | the first line end stays the first when bytes are appended |
| `HttpParse.HttpParse.ParseRequest` | http_parse.cpp:49-92 | the loop over the buffer ends in the state, fields, left-over bytes and answer that the parse of the readable bytes has |
| `HttpParse.HttpParse.ProcessRequestLine` | http_parse.cpp:7-46 | sets exactly the fields the line says, up to where it goes wrong |
| `HttpParse.HttpParse.constructor` | http_parse.h:17-20 | starts at the request line |
| `HttpRequest.MethodRoundTrip` | http_request.h:38-83 | method names are read back as the methods they name, and no other text is |
| `HttpRequest.ValueBetweenBlanks` | http_request.h:107-113 | for any tabs, line feeds, vertical tabs, form feeds, carriage returns and spaces before and behind it, the value kept is what stands between |
| `HttpRequest.MethodNames` | http_request.h:38-83 | the five methods by their names |
| `HttpRequest.HttpRequest.SetMethod` | http_request.h:38-57 | succeeds for exactly the five names |
| `HttpRequest.HttpRequest.AddHeader` | http_request.h:105-117 | a field that is there already keeps its value; else the value is the text behind the colon without the blanks, listed as bytes, around it; other headers stay |
| `HttpRequest.HttpRequest.GetHeader` | http_request.h:119-127 | the value of the field, empty when it is absent |
| `HttpRequest.HttpRequest.SetPath` | http_request.h:87-90 | the path is the text given |
| `HttpRequest.HttpRequest.SetQuery` | http_request.h:98-101 | the query is the text given |
| `TimerQueue.TimerQueue.HandleExpireTimers` | priority_queue.cpp:51-81 | goes on for ever if and only if `Endless` holds of the live timers and the readings, with an expired timer without a handler in front; else ends, does to the set of live timers what `Expired` says, and fires no other; keeps at most one live timer for each request |
| `TimerQueue.IsEndless` | priority_queue.cpp:66-79 | an expired timer without a handler in front is one whose turn comes |
| `TimerQueue.NotEndless` | priority_queue.cpp:55-80 | when the loop ends, no such timer's turn comes under these readings |
| `TimerQueue.ExpiredBounds` | priority_queue.cpp:55-80 | every live timer below the first reading fires, and none at or above the last |
| `TimerQueue.ExpiredCount` | priority_queue.cpp:55-80 | the live set and the readings determine how many timers fire and how often the clock is read, whatever order the heap gives equal keys |
| `TimerQueue.TimerQueue.AddTimer` | priority_queue.cpp:15-36 | one new live timer, which the request's weak pointer names; it stays the request's only one exactly when no live one was there |
| `TimerQueue.TimerQueue.DelTimer` | priority_queue.cpp:38-49 | exactly the timer the weak pointer names is no longer live, so the request has none |
| `TimerQueue.TimerQueue.Insert` | priority_queue.h:50 | one timer more, a least key in front |
| `TimerQueue.TimerQueue.Delmin` | priority_queue.h:49 | the front timer is gone, a least key of the others in front |

## Left out

- Floating point: `print_double` and the value of a number with decimals or an exponent, which rest on the C library's formatting and `pow`; such a number is read to its end and kept as its sign, digits and scale.
- JsonInteger.ParseNumber: the sum, a long double with a 64-bit significand in the source, is exact here; a sum of 2^64 or more is kept as it is, because its conversion to 64 bits has no defined result; the exponent does not overflow.
- JsonString.ParseString: a literal with an escape that is cut off is `Incomplete`, for which nothing is claimed; so is `\u` before anything but four hexadecimal digits, which `sscanf` would read leniently.
- JsonPrinter.ComposeObject: `len` is unbounded; the `int` of the source overflows for texts of 2^31 bytes and more, here and in the other length counts.
- JsonSiblings.GetArrayItem: child counts are unbounded where the source has `int`.
- JsonPrinter.Print: a member without a name, which would be printed as an empty text, is not printable here; neither the parser nor the operations by name make one.
- JsonMembers.AddItemToObject: the name is a value, so the call with the item's own `string`, which the source frees before it copies it, is not captured.
- JsonSiblings.StrCaseCmp: `tolower` is that of the C locale, and `isspace` in the request parser likewise.
- Allocation never fails, and `malloc(0)` does not answer null.
- Reference nodes (`create_reference`), the `Create` functions for arrays of numbers and strings, and the hooks.
- JsonWrapper.CJsonObject.At: the wrappers themselves are not objects here, so that a caller may change one behind the array's back, or turn a placeholder into a value, is not captured.
- The keyed half of `CJsonObject`, its typed `Get`, `Add`, `AddAsFirst` and `Replace` overloads and its error messages.
- ThreadPool.NoDeadlock: tasks end and do not submit to the pool; the run without threads, in which a task runs in the caller, and the callback of a starting thread are left out; the bound is set before the start.
- ThreadPool.ShutdownEnds: a producer asleep at `stop` may sleep for ever and queued tasks may stay, since `stop` wakes workers only.
- ThreadPool: reading `running_` without the mutex is one atomic step; the data race itself is not modelled, nor is `waitForSeconds`.
- HttpParse.HttpParse.ParseRequest: calls in state `kGotAll`, which would not return, are excluded by a precondition.
- HttpRequest: the file descriptor, the table of handlers for headers, and printing.
- ByteBuffer: the accessors for integers in network order, the searches for a line feed, `findCRLF` with a start, `writeFd`; sizes are unbounded where the source has `size_t`; the system call in `readFd` is a pair of parameters, what it returns and what it delivers.
- TimerQueue.TimerQueue.HandleExpireTimers: handlers do nothing to the queue, which they could not lock; clock readings are parameters.
- TimerQueue.TimerQueue.Delmin: the heap of the standard library stands as what it promises, a least key on top; the red-black tree behind the header map likewise.
- TimerQueue.TimerQueue.AddTimer: the key is taken modulo 2^64 but readings of the clock are not bounded.
- The event loop, sockets, epoll, mapped files, signals, the configuration, the response writer, the thread and latch classes.
